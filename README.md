# Volume renderer utilities, modelled in Dafny

The volume renderer's `utils` module (`app/src/utils/mod.rs`) holds the only
self-contained logic of the application. The rest of the application sets up
GPU resources and UI panels. This project models two parts of the module in
one Dafny module, `Utils` (`utils.dfy`):

- `ImageDimensions`: the layout of a readback/copy buffer for an image of four bytes per pixel.
  `new(width, height, align)` rounds the width and height down to even
  numbers. It then takes the row size at four bytes per pixel and pads each
  row up to the next multiple of `align`. `linear_size` gives the buffer's
  total size as a `u64`. The model uses pure functions over `u32`/`u64`
  subset types of `int`. The conditions under which the Rust code would panic
  are stated as the precondition `NewFits`. These are `align == 0` (the `%`
  on line 78) and `u32` overflow of `width * 4` (line 77) or of
  `unpadded + padding` (line 79).
- `ContinuousHashMap<K, V>`: a multimap from a key to a vector of values,
  with `push_value` appending in place. The model is a class whose field
  `entries: map<K, seq<V>>` stands for the wrapped `HashMap<K, Vec<V>>`.
  The Rust type exposes that map through `Deref`/`DerefMut`, so the field is
  public. `PushValue` updates the field in two steps, as the source does: it
  first inserts an empty vector for a missing key, then appends. Its
  contract ties the new map to the specification function `Pushed` of the
  old one. `Grouped` gives the map built by a sequence of pushes from a fresh
  map. The lemma `GroupedByKey` relates it to an independent reference
  definition: each key's vector is exactly the values pushed under that key,
  in push order.

## Model

| member | source | states |
|---|---|---|
| `Utils.SaturatingSub` | app/src/utils/mod.rs:74-75 | Rust's `u32::saturating_sub`: the exact difference when `y <= x`, and 0 instead of an underflow otherwise |
| `Utils.RoundDownEven` | app/src/utils/mod.rs:74-75 | `x.saturating_sub(x % 2)` is even, at most `x` and at most 1 below it; the saturation never takes effect (`r + x % 2 == x`) |
| `Utils.RoundDownEvenIsLargest` | app/src/utils/mod.rs:74-75 | every even number not above `x` is at most the rounded value, so the rounding gives the largest even number `<= x` |
| `Utils.RoundDownEvenOfEven` | app/src/utils/mod.rs:74-75 | an even width or height is left unchanged |
| `Utils.RowPadding` | app/src/utils/mod.rs:78 | given `align > 0`, the padding is below `align`, makes the row a multiple of `align`, and is zero exactly when the row is already a multiple |
| `Utils.PaddingCompletesRow` | app/src/utils/mod.rs:78 | the formula `(align - u % align) % align` reaches a multiple of `align`, stays below `align`, and is zero iff `u % align == 0` |
| `Utils.PaddedIsLeastMultiple` | app/src/utils/mod.rs:78-79 | no multiple of `align` at or above the unpadded row is smaller than the padded row: padding goes to the NEXT multiple |
| `Utils.New` | app/src/utils/mod.rs:73-86 | under `align > 0` and no `u32` overflow: the width and height are the inputs rounded down to even; `unpadded == width * 4`; `padded` is a multiple of `align` with `unpadded <= padded < unpadded + align`; `padded == unpadded` when `unpadded` is already aligned |
| `Utils.NewIdempotent` | app/src/utils/mod.rs:73-86 | building the layout again from its own width and height is allowed and gives the same layout |
| `Utils.MulFitsU64` | app/src/utils/mod.rs:88-90 | the product of two `u32` values is below 2^64, so `linear_size`'s 64-bit multiplication never overflows |
| `Utils.LinearSize` | app/src/utils/mod.rs:88-90 | the total size is `paddedBytesPerRow * height`, and it is a `u64` for every layout |
| `Utils.RowInsideBuffer` | app/src/utils/mod.rs:73-90 | row `k` below the rounded height starts at `k * padded`, which is a multiple of `align`, and its `unpadded` pixel bytes end inside `linear_size` |
| `Utils.LinearSizeBounds` | app/src/utils/mod.rs:73-90 | `linear_size` holds the whole unpadded image, is a multiple of `align`, and is less than `(unpadded + align) * height` when `height > 0` |
| `Utils.ValuesAt` | app/src/utils/mod.rs:61 | the `or_insert_with(Vec::new)` default: the stored vector for a present key, the empty vector for a missing one |
| `Utils.Pushed` | app/src/utils/mod.rs:59-62 | after a push the key set gains `key`; `key` holds its old vector, or an empty one, with `value` appended; every other key keeps its vector |
| `Utils.ValuesPushedAppend` | app/src/utils/mod.rs:59-62 | pushing `(k, v)` at the end of a history adds `v` to the end of `k`'s reference value list and leaves every other key's list as it was |
| `Utils.GroupedByKey` | app/src/utils/mod.rs:46-62 | after any sequence of pushes onto a fresh map, each key's vector is exactly the values pushed under it, in push order; a key is present iff some value was pushed under it, so no stored vector is empty |
| `Utils.ContinuousHashMap.constructor` | app/src/utils/mod.rs:46-56 | `new()`/`default()` gives an empty map, the map of the empty push history |
| `Utils.ContinuousHashMap.PushValue` | app/src/utils/mod.rs:59-62 | the new map is `Pushed(old map, key, value)`: `key` is present with the old vector (or empty) plus `value`, other keys and vectors are unchanged, and a map built by a push history becomes the map of that history extended by `(key, value)` |

## Left out

- `green_blink` (app/src/utils/mod.rs:10-20): it writes terminal escape codes, flushes stdout and spawns a sleeping thread. This is I/O and concurrency with no state to model.
- `NonZeroSized` (app/src/utils/mod.rs:22-27): a compile-time `size_of` constant with no logic.
- `Utils.New`: the model states the panics of a debug build as the precondition `NewFits`. A release build wraps `width * 4` and `unpadded + padding` around modulo 2^32 instead of panicking; that wrapped behaviour is not modelled.
- `Utils.ContinuousHashMap.PushValue`: Rust's `HashMap` iteration order and hashing are not modelled; the model is an unordered Dafny `map`.
- Other writes through `DerefMut` (removing keys, replacing vectors) are ordinary `HashMap` operations on the public `entries` field. They are not modelled as separate members. `GroupedByKey` describes maps built only by `new` and `push_value`.
- The shader compiler (app/src/utils/shader_compiler.rs) wraps the naga parser, validator and SPIR-V writer, plus a file read. Its behaviour is the external library's.
- The volume texture, uniform bindings and ray-cast pipeline (app/src/modules/volume_renderer/volume_texture.rs, render_resources.rs, ray_cast_pipeline.rs) create GPU resources and record draw calls through wgpu. The renderer (app/src/modules/volume_renderer/mod.rs) does that too. It also lays out an egui panel, runs a blocking file dialog and file read, spawns a thread-based executor, and applies drag deltas to the camera's f32 yaw and pitch. None of this is modelled. In the volume texture, `bytes_per_row` is fixed at 256 bytes and `rows_per_image` at 256 rows, and the byte length is not checked against the dimensions. No such validation is added here.
- The UI shell (app/src/ui/*, app/src/application.rs, app/src/main.rs): windowing, panels and persistence.
