/**
 * The helpers of the volume renderer's `utils` module: the layout of a
 * readback/copy buffer for an image of four bytes per pixel
 * (`ImageDimensions`) and a multimap that appends values to a per-key
 * vector (`ContinuousHashMap`).
 */
module Utils {

  // ---------------------------------------------------------------------------
  // Machine integers
  // ---------------------------------------------------------------------------

  const U32_LIMIT: int := 0x1_0000_0000
  const U64_LIMIT: int := 0x1_0000_0000_0000_0000

  /** Rust's `u32`. Arithmetic on it is done on `int` and checked against the bound. */
  type u32 = x: int | 0 <= x < U32_LIMIT

  /** Rust's `u64`. */
  type u64 = x: int | 0 <= x < U64_LIMIT

  /** `size_of::<[u8; 4]>()`: a pixel takes four bytes. */
  const BYTES_PER_PIXEL: u32 := 4

  /** `x.saturating_sub(y)` on `u32`: the difference, or 0 where it would go below 0. */
  function SaturatingSub(x: u32, y: u32): (r: u32)
    ensures y <= x ==> r + y == x
    ensures x < y ==> r == 0
  {
    if y <= x then x - y else 0
  }

  /** Two `u32` values multiplied as `u64` never overflow. */
  lemma MulFitsU64(a: u32, b: u32)
    ensures 0 <= a * b <= (U32_LIMIT - 1) * (U32_LIMIT - 1) < U64_LIMIT
  {
    MulMonotone(0, a, b);
    MulMonotone(a, U32_LIMIT - 1, b);
    MulMonotone(b, U32_LIMIT - 1, U32_LIMIT - 1);
  }

  // ---------------------------------------------------------------------------
  // Arithmetic facts the layout proofs rest on
  // ---------------------------------------------------------------------------

  lemma {:induction false} MulMonotone(a: int, b: int, c: nat)
    requires a <= b
    ensures a * c <= b * c
  {
    if c > 0 {
      assert a * c == a * (c - 1) + a;
      assert b * c == b * (c - 1) + b;
      MulMonotone(a, b, c - 1);
    }
  }

  /** Euclidean division is determined by its quotient and remainder. */
  lemma DivModUnique(m: int, d: int, q: int, r: int)
    requires d > 0 && 0 <= r < d && m == q * d + r
    ensures m / d == q && m % d == r
  {
    var q', r' := m / d, m % d;
    assert m == q' * d + r' && 0 <= r' < d;
    if q' < q {
      assert (q' + 1) * d == q' * d + d;
      MulMonotone(q' + 1, q, d);
      assert false;
    } else if q' > q {
      assert (q + 1) * d == q * d + d;
      MulMonotone(q + 1, q', d);
      assert false;
    }
  }

  /** A multiple of `d` leaves no remainder. */
  lemma MultipleMod(k: int, d: int)
    requires d > 0
    ensures (k * d) % d == 0
  {
    DivModUnique(k * d, d, k, 0);
  }

  /** A multiple of a multiple of `d` is a multiple of `d`. */
  lemma MultipleOfMultiple(k: int, p: int, d: int)
    requires d > 0 && p % d == 0
    ensures (k * p) % d == 0
  {
    var j := p / d;
    assert p == j * d;
    assert k * p == (k * j) * d;
    MultipleMod(k * j, d);
  }

  // ---------------------------------------------------------------------------
  // ImageDimensions
  // ---------------------------------------------------------------------------

  /**
   * `x.saturating_sub(x % 2)`: x rounded down to an even number. The
   * saturation never takes effect, since `x % 2 <= x`.
   */
  function RoundDownEven(x: u32): (r: u32)
    ensures r % 2 == 0
    ensures r <= x && x - r <= 1
    ensures r + x % 2 == x
  {
    SaturatingSub(x, x % 2)
  }

  /** Among the even numbers not above x, RoundDownEven(x) is the largest. */
  lemma RoundDownEvenIsLargest(x: u32, e: int)
    requires 0 <= e <= x && e % 2 == 0
    ensures e <= RoundDownEven(x)
  {
  }

  /** An even number is its own rounding. */
  lemma RoundDownEvenOfEven(x: u32)
    requires x % 2 == 0
    ensures RoundDownEven(x) == x
  {
  }

  /**
   * `(align - unpadded % align) % align`: the bytes to add to a row of
   * `unpadded` bytes so that it ends on a multiple of `align`. `align == 0`
   * would make Rust's `%` panic.
   */
  function RowPadding(unpadded: u32, align: u32): (p: u32)
    requires align > 0
    ensures p < align
    ensures (unpadded + p) % align == 0
    ensures p == 0 <==> unpadded % align == 0
  {
    PaddingCompletesRow(unpadded, align);
    (align - unpadded % align) % align
  }

  /** The padding formula reaches the next multiple of `align` and no further. */
  lemma PaddingCompletesRow(unpadded: nat, align: nat)
    requires align > 0
    ensures var p := (align - unpadded % align) % align;
      p < align && (unpadded + p) % align == 0 && (p == 0 <==> unpadded % align == 0)
  {
    var q, r := unpadded / align, unpadded % align;
    if r == 0 {
      DivModUnique(align, align, 1, 0);
    } else {
      DivModUnique(align - r, align, 0, align - r);
      assert unpadded + (align - r) == (q + 1) * align;
      MultipleMod(q + 1, align);
    }
  }

  /**
   * The padded row is the LEAST multiple of `align` that holds the unpadded
   * row: no multiple of `align` at or above `unpadded` lies below it.
   */
  lemma PaddedIsLeastMultiple(unpadded: u32, align: u32, m: int)
    requires align > 0
    requires m >= unpadded && m % align == 0
    ensures unpadded + RowPadding(unpadded, align) <= m
  {
    var q, r := unpadded / align, unpadded % align;
    var k := m / align;
    assert m == k * align;
    if r != 0 {
      DivModUnique(align - r, align, 0, align - r);
      assert unpadded + RowPadding(unpadded, align) == (q + 1) * align;
      if k <= q {
        MulMonotone(k, q, align);
        assert false;
      } else {
        MulMonotone(q + 1, k, align);
      }
    }
  }

  /** The four fields of Rust's `ImageDimensions`. */
  datatype ImageDimensions = ImageDimensions(
    width: u32,
    height: u32,
    unpaddedBytesPerRow: u32,
    paddedBytesPerRow: u32)

  /**
   * What `ImageDimensions::new` relies on without checking: `align > 0`
   * (else `% align` panics), and neither `width * 4` nor
   * `unpadded + padding` overflows `u32`.
   */
  predicate NewFits(width: u32, align: u32)
  {
    && align > 0
    && RoundDownEven(width) * BYTES_PER_PIXEL < U32_LIMIT
    && RoundDownEven(width) * BYTES_PER_PIXEL
       + RowPadding(RoundDownEven(width) * BYTES_PER_PIXEL, align) < U32_LIMIT
  }

  /** `ImageDimensions::new(width, height, align)`. */
  function New(width: u32, height: u32, align: u32): (d: ImageDimensions)
    requires NewFits(width, align)
    ensures d.width % 2 == 0 && d.width <= width && width - d.width <= 1
    ensures d.height % 2 == 0 && d.height <= height && height - d.height <= 1
    ensures d.unpaddedBytesPerRow == d.width * BYTES_PER_PIXEL
    ensures d.paddedBytesPerRow % align == 0
    ensures d.unpaddedBytesPerRow <= d.paddedBytesPerRow < d.unpaddedBytesPerRow + align
    ensures d.unpaddedBytesPerRow % align == 0 ==> d.paddedBytesPerRow == d.unpaddedBytesPerRow
  {
    var height := SaturatingSub(height, height % 2);
    var width := SaturatingSub(width, width % 2);
    var unpaddedBytesPerRow := width * BYTES_PER_PIXEL;
    var rowPadding := (align - unpaddedBytesPerRow % align) % align;
    assert rowPadding == RowPadding(unpaddedBytesPerRow, align);
    var paddedBytesPerRow := unpaddedBytesPerRow + rowPadding;
    ImageDimensions(width, height, unpaddedBytesPerRow, paddedBytesPerRow)
  }

  /**
   * Building the layout again from an already rounded width and height gives
   * the same layout: the rounding and the padding are both idempotent.
   */
  lemma NewIdempotent(width: u32, height: u32, align: u32)
    requires NewFits(width, align)
    ensures var d := New(width, height, align);
      NewFits(d.width, align) && New(d.width, d.height, align) == d
  {
    var d := New(width, height, align);
    RoundDownEvenOfEven(d.width);
    RoundDownEvenOfEven(d.height);
  }

  /** `linear_size`: the buffer's total size, computed in 64 bits. */
  function LinearSize(d: ImageDimensions): (n: u64)
    ensures n == d.paddedBytesPerRow * d.height
  {
    MulFitsU64(d.paddedBytesPerRow, d.height);
    d.paddedBytesPerRow * d.height
  }

  /**
   * Row `k` of the image starts `k * paddedBytesPerRow` bytes into the buffer
   * and is `unpaddedBytesPerRow` bytes long; every row lies inside the
   * buffer, and every row starts at a multiple of `align`.
   */
  lemma RowInsideBuffer(width: u32, height: u32, align: u32, k: nat)
    requires NewFits(width, align)
    requires k < RoundDownEven(height)
    ensures var d := New(width, height, align);
      k * d.paddedBytesPerRow + d.unpaddedBytesPerRow <= LinearSize(d)
      && (k * d.paddedBytesPerRow) % align == 0
  {
    var d := New(width, height, align);
    assert d.height == RoundDownEven(height);
    var p := d.paddedBytesPerRow;
    assert (k + 1) * p == k * p + p;
    MulMonotone(k + 1, d.height, p);
    MultipleOfMultiple(k, p, align);
  }

  /**
   * The buffer holds the whole unpadded image, is a multiple of `align`,
   * and wastes less than `align` bytes per row.
   */
  lemma LinearSizeBounds(width: u32, height: u32, align: u32)
    requires NewFits(width, align)
    ensures var d := New(width, height, align);
      && d.unpaddedBytesPerRow * d.height <= LinearSize(d)
      && (d.height > 0 ==> LinearSize(d) < (d.unpaddedBytesPerRow + align) * d.height)
      && LinearSize(d) % align == 0
  {
    var d := New(width, height, align);
    PaddedRowsBounds(d.unpaddedBytesPerRow, d.paddedBytesPerRow, d.height, align);
  }

  lemma PaddedRowsBounds(u: nat, p: nat, h: nat, align: nat)
    requires align > 0 && u <= p < u + align && p % align == 0
    ensures u * h <= p * h
    ensures h > 0 ==> p * h < (u + align) * h
    ensures (p * h) % align == 0
  {
    MulMonotone(u, p, h);
    assert (p + 1) * h == p * h + h;
    MulMonotone(p + 1, u + align, h);
    MultipleOfMultiple(h, p, align);
    assert h * p == p * h;
  }

  // ---------------------------------------------------------------------------
  // ContinuousHashMap
  // ---------------------------------------------------------------------------

  /** The vector stored under `key`, or the empty vector `or_insert_with(Vec::new)` creates. */
  function ValuesAt<K, V>(m: map<K, seq<V>>, key: K): (vs: seq<V>)
    ensures key in m ==> vs == m[key]
    ensures key !in m ==> vs == []
  {
    if key in m then m[key] else []
  }

  /**
   * The map after `push_value(key, value)`: `key` holds its old vector (or
   * an empty one) with `value` appended; no other key changes.
   */
  function Pushed<K, V>(m: map<K, seq<V>>, key: K, value: V): (r: map<K, seq<V>>)
    ensures r.Keys == m.Keys + {key}
    ensures r[key] == ValuesAt(m, key) + [value]
    ensures forall k :: k in m && k != key ==> r[k] == m[k]
  {
    m[key := ValuesAt(m, key) + [value]]
  }

  /** The map a fresh `ContinuousHashMap` holds after the given `push_value` calls, in order. */
  function Grouped<K, V>(pushes: seq<(K, V)>): map<K, seq<V>>
  {
    if pushes == [] then map[]
    else
      var last := pushes[|pushes| - 1];
      Pushed(Grouped(pushes[..|pushes| - 1]), last.0, last.1)
  }

  /** The values pushed under `key`, in push order: an independent reference for Grouped. */
  function ValuesPushed<K(==), V>(pushes: seq<(K, V)>, key: K): seq<V>
  {
    if pushes == [] then []
    else (if pushes[0].0 == key then [pushes[0].1] else []) + ValuesPushed(pushes[1..], key)
  }

  lemma {:induction false} ValuesPushedAppend<K, V>(pushes: seq<(K, V)>, p: (K, V), key: K)
    ensures ValuesPushed(pushes + [p], key)
         == ValuesPushed(pushes, key) + (if p.0 == key then [p.1] else [])
  {
    if pushes == [] {
      assert pushes + [p] == [p];
      assert [p][1..] == [];
    } else {
      assert (pushes + [p])[1..] == pushes[1..] + [p];
      ValuesPushedAppend(pushes[1..], p, key);
    }
  }

  /**
   * Pushing values one by one groups them by key in push order: a key is
   * present exactly when some value was pushed under it, and its vector is
   * exactly those values, in order. So no stored vector is ever empty.
   */
  lemma {:induction false} GroupedByKey<K, V>(pushes: seq<(K, V)>, key: K)
    ensures ValuesAt(Grouped(pushes), key) == ValuesPushed(pushes, key)
    ensures key in Grouped(pushes) <==> ValuesPushed(pushes, key) != []
  {
    if pushes != [] {
      var init, last := pushes[..|pushes| - 1], pushes[|pushes| - 1];
      assert pushes == init + [last];
      GroupedByKey(init, key);
      ValuesPushedAppend(init, last, key);
    }
  }

  /** Rust's `ContinuousHashMap<K, V>`: a `HashMap<K, Vec<V>>` behind `Deref`/`DerefMut`. */
  class ContinuousHashMap<K(==), V> {
    var entries: map<K, seq<V>>

    /**
     * `ContinuousHashMap::new()`, which is `default()`: an empty map, which
     * is also the map of the empty push history.
     */
    constructor ()
      ensures entries == map[]
      ensures entries == Grouped<K, V>([])
    {
      entries := map[];
    }

    /** `push_value`: `entry(key).or_insert_with(Vec::new).push(value)`. */
    method PushValue(key: K, value: V)
      modifies this
      ensures entries == Pushed(old(entries), key, value)
      // The next three follow from Pushed's contract; they are spelled out
      // for callers that reason about the map without unfolding Pushed.
      ensures key in entries && entries[key] == ValuesAt(old(entries), key) + [value]
      ensures forall k :: k != key ==> (k in entries <==> k in old(entries))
      ensures forall k :: k in old(entries) && k != key ==> entries[k] == old(entries)[k]
      ensures forall pushes: seq<(K, V)> :: old(entries) == Grouped(pushes)
                ==> entries == Grouped(pushes + [(key, value)])
    {
      if key !in entries {
        entries := entries[key := []];
      }
      entries := entries[key := entries[key] + [value]];
      forall pushes: seq<(K, V)> | old(entries) == Grouped(pushes)
        ensures entries == Grouped(pushes + [(key, value)])
      {
        assert (pushes + [(key, value)])[..|pushes|] == pushes;
      }
    }
  }
}
