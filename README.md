# dwebp: picking one frame of an animated WebP, as a Dafny model

The `dwebp` crate offers one operation, `awebp_to_single_png`. It takes the bytes of an
animated WebP and a frame position (`First`, `Specific(n)` counted from 1, or `Last`; no
position means `First`). It decodes the animation, picks that frame, converts it to 8-bit
RGBA and returns it encoded as a PNG. Each step has its own error kind:
`DecodeAwebpFailed`, `AwebpSpecificFrameIsNone`, `ToImageFailed` and `EncodePngFailed`.

The crate's own logic is the frame selection and the order of the errors. Decoding
(`webp_animation`), RGBA conversion (`Frame::into_image`) and PNG encoding (`image`'s
`PngEncoder`) are foreign code. In the model they are the three fields of `Dwebp.Codecs`:
arbitrary total functions that either fail or return a value. Every property below holds
for every choice of them.

Files:

- `wrappers.dfy` — `Option` and `Result`. `Result` works with `:-`, which plays the part of
  Rust's `?`. `Option.OkOr` is Rust's `ok_or`. It also stands for `map_err(|_| e)` on a
  foreign result, because the crate throws the foreign error value away.
- `iterators.dfy` — the three standard `Iterator` adapters the selection uses: `enumerate`,
  `find` and `last`. They work on the items the iterator has still to yield. `Find` also
  returns the items it did not pull, so the model can say how far the single-pass decoder
  iterator was consumed.
- `dwebp.dfy` — the crate. It holds the position and error types, `Select` (the
  `match frame_position`), `AwebpToSinglePng` (the whole pipeline) and the lemmas about them.
  `usize` is a newtype, so the verifier checks that `max(1, n) - 1` never underflows.

## Model

| member | source | states |
|---|---|---|
| `Iterators.Enumerate` | dwebp/src/lib.rs:32-33 | item `i` of the enumerated iterator is `(start + i, items[i])`, and no item is added or lost |
| `Iterators.Find` | dwebp/src/lib.rs:33-35 | `find` pulls at least one item, or else it has drained the iterator |
| `Iterators.FindFirstMatch` | dwebp/src/lib.rs:41-45 | `find` returns the first item that satisfies the predicate, and pulls nothing after it |
| `Iterators.FindNoMatch` | dwebp/src/lib.rs:41-44 | when no item satisfies the predicate, `find` returns `None` and has drained the iterator |
| `Iterators.LastFrom` | dwebp/src/lib.rs:47-49 | the `fold` behind `last()` ends with a value exactly when there was an item or a seed |
| `Iterators.LastItem` | dwebp/src/lib.rs:47-49 | `last()` on a fresh iterator is `None` exactly when the iterator yields nothing |
| `Iterators.LastFromIsFinal` | dwebp/src/lib.rs:47-49 | the `fold` behind `last()` ends with the final item, or with its seed when there are no items |
| `Iterators.LastItemIsFinal` | dwebp/src/lib.rs:47-49 | `last()` is `None` exactly on an empty iterator, and otherwise its final item |
| `Dwebp.Max` | dwebp/src/lib.rs:39 | `std::cmp::max` is at least both arguments and equal to one of them |
| `Dwebp.SpecificIndex` | dwebp/src/lib.rs:39-43 | the 0-based index for `Specific(n)` is 0 for `n` = 0 and `n - 1` otherwise, so `max(1, n) - 1` never underflows |
| `Dwebp.Select` | dwebp/src/lib.rs:30-50 | selection fails only with `AwebpSpecificFrameIsNone`, never with another error kind |
| `Dwebp.FramesPulled` | dwebp/src/lib.rs:30-50 | selection never pulls more frames than the decoder yields |
| `Dwebp.AwebpToSinglePng` | dwebp/src/lib.rs:19-76 | the result is `DecodeAwebpFailed` exactly when decoding fails; no later step reports it |
| `Dwebp.FindIndex` | dwebp/src/lib.rs:32-45 | `enumerate().find` with the closure `IndexIs(k)` (index equals `k`: 0 at line 34, `n - 1` at line 43) yields `(k, frames[k])` when `k` is in range and `None` otherwise; it pulls no frame past `k` |
| `Dwebp.SelectFirst` | dwebp/src/lib.rs:31-37 | `First` gives `frames[0]` on a non-empty sequence and `AwebpSpecificFrameIsNone` on an empty one |
| `Dwebp.SelectSpecific` | dwebp/src/lib.rs:38-46 | `Specific(n)` gives `frames[max(1,n) - 1]` when `max(1,n)` is at most the frame count and `AwebpSpecificFrameIsNone` otherwise |
| `Dwebp.SelectLast` | dwebp/src/lib.rs:47-49 | `Last` gives the final frame on a non-empty sequence and `AwebpSpecificFrameIsNone` on an empty one |
| `Dwebp.SpecificZeroAndOneAreFirst` | dwebp/src/lib.rs:31-46 | `Specific(0)`, `Specific(1)` and `First` always give the same result |
| `Dwebp.SpecificBeyondEndIsMissingFrame` | dwebp/src/lib.rs:43-44 | `Specific(n)` with `max(1,n)` past the end fails with `AwebpSpecificFrameIsNone` |
| `Dwebp.SpecificCountIsLast` | dwebp/src/lib.rs:38-49 | `Specific` of the frame count equals `Last` on every sequence, and both succeed when it is non-empty |
| `Dwebp.SingleFramePositionsAgree` | dwebp/src/lib.rs:30-50 | on a one-frame sequence, `First`, `Specific(0)`, `Specific(1)` and `Last` all give that frame |
| `Dwebp.SelectionIsLazy` | dwebp/src/lib.rs:30-50 | a failed selection has pulled every frame; a successful `First` pulled one frame, and a successful `Specific(n)` pulled exactly `max(1,n)` frames |
| `Dwebp.DefaultPositionIsFirst` | dwebp/src/lib.rs:13-23 | passing no position, which `unwrap_or_default` turns into `DefaultPosition()` (the `Default` impl), behaves exactly like passing `First` |
| `Dwebp.SameSelectionSameOutput` | dwebp/src/lib.rs:30-75 | two positions that select the same frame, or both fail, give the same result |
| `Dwebp.SelectionFailureIsMissingFrame` | dwebp/src/lib.rs:30-54 | a failed selection after a successful decode is reported as `AwebpSpecificFrameIsNone`, whatever the converter and encoder would do |
| `Dwebp.SpecificBeyondEndFailsPipeline` | dwebp/src/lib.rs:38-46 | a decodable animation with fewer than `max(1,n)` frames fails `Specific(n)` with `AwebpSpecificFrameIsNone`, not with a decode error |
| `Dwebp.ToImageFailedOnlyAfterSelection` | dwebp/src/lib.rs:52-54 | `ToImageFailed` means decoding and selection succeeded and the selected frame failed to convert |
| `Dwebp.EncodePngFailedOnlyAfterConversion` | dwebp/src/lib.rs:66-73 | `EncodePngFailed` means the selected frame converted and the encoder rejected its RGBA samples |
| `Dwebp.ToImageFailureIsReported` | dwebp/src/lib.rs:52-54 | a selected frame that fails to convert to RGBA makes the result `ToImageFailed` |
| `Dwebp.SuccessMeansEveryStepSucceeded` | dwebp/src/lib.rs:25-75 | a successful result means decoding, selection and conversion succeeded and the encoder returned exactly that buffer for the selected frame's RGBA image |
| `Dwebp.SuccessIsEncoderOutput` | dwebp/src/lib.rs:60-75 | once a frame is selected and converted, the result is the encoder's output for that image's samples, width, height and `Rgba8`, or `EncodePngFailed` |
| `Dwebp.SingleFrameInputPositionsAgree` | dwebp/src/lib.rs:111-122 | on a one-frame (non-animated) input, no position, `First`, `Specific(1)` and `Last` give the same result |
| `Dwebp.SpecificCountIsLastOutput` | dwebp/src/lib.rs:38-49 | for an animation of N frames, `Specific(N)` and `Last` give the same result (both fail when N is 0) |

## Left out

- Decoding with `webp_animation` (dwebp/src/lib.rs:5, 25-28) is foreign. It is the `decode` field of `Codecs`. When it opens the data, it yields the whole frame sequence in decode order. A failure in the middle of iteration is not a separate case in this model.
- `Frame::into_image` (dwebp/src/lib.rs:52-54) and `PngEncoder::write_image` (dwebp/src/lib.rs:66-73) are foreign codecs. They are the `intoImage` and `writeImage` fields of `Codecs`. Because they are opaque, the model does not say that the output is a valid PNG with the frame's width and height. It also does not model the rule that an RGBA buffer holds width × height × 4 bytes.
- The buffer `Vec::with_capacity` at dwebp/src/lib.rs:60 is left out. The capacity is only a hint, and the encoder fills the buffer in place. The model takes the encoder's output as a value.
- The `Display` impl (dwebp/src/lib.rs:85-89) is left out. It only forwards to `Debug`.
- The tests' file writes and their PNG re-decoding (dwebp/src/lib.rs:96-122) are I/O and foreign decoding, so they are left out. Only the policy fact behind `with_not_animated` is stated (`SingleFrameInputPositionsAgree`).
- There is no "convert all frames" operation. The crate has no such function, so the model has none either.
- Iterators.Enumerate: counts with an unbounded `nat`, not a `usize`. Rust's counter could only overflow past 2^64 frames.
- Dwebp.SpecificCountIsLast: needs fewer than 2^64 frames, because `Specific` takes a `usize`.
