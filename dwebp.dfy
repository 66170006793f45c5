/**
 * The `dwebp` crate: turn one frame of an animated WebP into a PNG file held in memory.
 *
 * The crate's own logic is which decoded frame `awebp_to_single_png` picks and the order in
 * which its four error kinds arise. Decoding the animation, converting a frame to RGBA and
 * encoding the PNG are foreign codecs; here they are the fields of `Codecs`, arbitrary total
 * functions that may fail.
 */
module Dwebp {
  import opened Wrappers
  import Iterators

  newtype u8 = x: int | 0 <= x < 0x100
  newtype u32 = x: int | 0 <= x < 0x1_0000_0000
  /** Rust's `usize` on a 64-bit target. */
  newtype usize = x: int | 0 <= x < 0x1_0000_0000_0000_0000

  /** Which decoded frame to turn into a PNG; `Specific` counts from 1. */
  datatype AwebpFramePosition = First | Specific(n: usize) | Last

  /** `AwebpFramePosition::default()`. */
  function DefaultPosition(): (p: AwebpFramePosition) {
    First
  }

  datatype AwebpToPngError =
    | DecodeAwebpFailed
    | AwebpSpecificFrameIsNone
    | ToImageFailed
    | EncodePngFailed

  /** The `image` crate's colour types (version 0.23); the PNG encoder is told which one its bytes use. */
  datatype ColorType = L8 | La8 | Rgb8 | Rgba8 | L16 | La16 | Rgb16 | Rgba16 | Bgr8 | Bgra8

  /** An RGBA image as `Frame::into_image` produces it: width, height and interleaved 8-bit samples. */
  datatype RgbaImage = RgbaImage(width: u32, height: u32, bytes: seq<u8>)

  /**
   * The foreign steps, each a total function that may fail (its own error value is discarded
   * by the crate, so `None` stands for any error):
   * `decode` opens the animation and yields its frames in decode order,
   * `intoImage` converts one frame to RGBA,
   * `writeImage` is `PngEncoder::write_image` over samples, width, height and colour type.
   */
  datatype Codecs<!Frame> = Codecs(
    decode: seq<u8> -> Option<seq<Frame>>,
    intoImage: Frame -> Option<RgbaImage>,
    writeImage: (seq<u8>, u32, u32, ColorType) -> Option<seq<u8>>)

  /** `std::cmp::max`. */
  function Max(a: usize, b: usize): (m: usize)
    ensures m >= a && m >= b
    ensures m == a || m == b
  {
    if a >= b then a else b
  }

  /** The `find` predicate `|(i, _)| *i == k` over enumerated frames. */
  function IndexIs<Frame>(k: nat): (p: ((nat, Frame)) -> bool) {
    (e: (nat, Frame)) => e.0 == k
  }

  /** The 0-based index `Specific(n)` asks for: `max(1, n) - 1`, which cannot underflow. */
  function SpecificIndex(n: usize): (k: nat)
    ensures k < 0xFFFF_FFFF_FFFF_FFFF
    ensures (n == 0 ==> k == 0) && (n > 0 ==> k + 1 == n as int)
  {
    var n := Max(1, n);
    (n - 1) as nat
  }

  /** The `match frame_position` of `awebp_to_single_png`, over the frames the decoder yields. */
  function Select<Frame>(frames: seq<Frame>, position: AwebpFramePosition): (r: Result<Frame, AwebpToPngError>)
    ensures r.Failure? ==> r.error == AwebpSpecificFrameIsNone
  {
    match position
    case First =>
      var found :- Iterators.Find(Iterators.Enumerate(frames, 0), IndexIs(0)).0.OkOr(AwebpSpecificFrameIsNone);
      Success(found.1)
    case Specific(n) =>
      var found :- Iterators.Find(Iterators.Enumerate(frames, 0), IndexIs(SpecificIndex(n))).0.OkOr(AwebpSpecificFrameIsNone);
      Success(found.1)
    case Last =>
      var frame :- Iterators.LastItem(frames).OkOr(AwebpSpecificFrameIsNone);
      Success(frame)
  }

  /** How many frames the selection pulls from the single-pass decoder iterator. */
  function FramesPulled<Frame>(frames: seq<Frame>, position: AwebpFramePosition): (pulled: nat)
    ensures pulled <= |frames|
  {
    match position
    case First =>
      |frames| - |Iterators.Find(Iterators.Enumerate(frames, 0), IndexIs(0)).1|
    case Specific(n) =>
      |frames| - |Iterators.Find(Iterators.Enumerate(frames, 0), IndexIs(SpecificIndex(n))).1|
    case Last =>
      // `last()` folds over every item, so it drains the iterator; this count is stated here,
      // not derived from `Iterators.LastFrom`.
      |frames|
  }

  /** `awebp_to_single_png`: decode, select one frame, convert it to RGBA, encode it as PNG. */
  function AwebpToSinglePng<Frame>(
    codecs: Codecs<Frame>, awebpBytes: seq<u8>, framePosition: Option<AwebpFramePosition>
  ): (r: Result<seq<u8>, AwebpToPngError>)
    ensures r == Failure(DecodeAwebpFailed) <==> codecs.decode(awebpBytes).None?
  {
    var framePosition := framePosition.UnwrapOr(DefaultPosition());
    var frames :- codecs.decode(awebpBytes).OkOr(DecodeAwebpFailed);
    var frame :- Select(frames, framePosition);
    var image :- codecs.intoImage(frame).OkOr(ToImageFailed);
    var buf :- codecs.writeImage(image.bytes, image.width, image.height, Rgba8).OkOr(EncodePngFailed);
    Success(buf)
  }

  /* ---------------- Frame selection ---------------- */

  /** `enumerate().find(|(i, _)| *i == k)` yields frame `k` if there is one, pulling no frame after it. */
  lemma FindIndex<Frame>(frames: seq<Frame>, k: nat)
    ensures k < |frames| ==>
      Iterators.Find(Iterators.Enumerate(frames, 0), IndexIs(k)) == (Some((k, frames[k])), Iterators.Enumerate(frames, 0)[k + 1..])
    ensures k >= |frames| ==> Iterators.Find(Iterators.Enumerate(frames, 0), IndexIs(k)) == (None, [])
  {
    var items := Iterators.Enumerate(frames, 0);
    if k < |frames| {
      Iterators.FindFirstMatch(items, IndexIs(k), k);
    } else {
      Iterators.FindNoMatch(items, IndexIs(k));
    }
  }

  /** `First` picks the first frame, and fails only on an empty sequence. */
  lemma SelectFirst<Frame>(frames: seq<Frame>)
    ensures Select(frames, First) ==
      if |frames| > 0 then Success(frames[0]) else Failure(AwebpSpecificFrameIsNone)
  {
    FindIndex(frames, 0);
  }

  /**
   * `Specific(n)` picks frame number `max(1, n)`, counting from 1, and fails exactly when the
   * sequence has fewer frames than that.
   */
  lemma SelectSpecific<Frame>(frames: seq<Frame>, n: usize)
    ensures var m := Max(1, n) as int;
      Select(frames, Specific(n)) ==
        if m <= |frames| then Success(frames[m - 1]) else Failure(AwebpSpecificFrameIsNone)
  {
    FindIndex(frames, SpecificIndex(n));
  }

  /** `Last` picks the final frame, and fails only on an empty sequence. */
  lemma SelectLast<Frame>(frames: seq<Frame>)
    ensures Select(frames, Last) ==
      if |frames| > 0 then Success(frames[|frames| - 1]) else Failure(AwebpSpecificFrameIsNone)
  {
    Iterators.LastItemIsFinal(frames);
  }

  /** Because of the clamp, `Specific(0)` and `Specific(1)` both mean `First`. */
  lemma SpecificZeroAndOneAreFirst<Frame>(frames: seq<Frame>)
    ensures Select(frames, Specific(0)) == Select(frames, Specific(1)) == Select(frames, First)
  {
    SelectSpecific(frames, 0);
    SelectSpecific(frames, 1);
    SelectFirst(frames);
  }

  /** Asking for a frame past the end is a missing-frame error, on any sequence. */
  lemma SpecificBeyondEndIsMissingFrame<Frame>(frames: seq<Frame>, n: usize)
    requires Max(1, n) as int > |frames|
    ensures Select(frames, Specific(n)) == Failure(AwebpSpecificFrameIsNone)
  {
    SelectSpecific(frames, n);
  }

  /**
   * `Specific` of the frame count is `Last`; on a non-empty sequence both succeed (on an empty
   * one both fail with a missing frame).
   */
  lemma SpecificCountIsLast<Frame>(frames: seq<Frame>)
    requires |frames| < 0x1_0000_0000_0000_0000
    ensures Select(frames, Specific(|frames| as usize)) == Select(frames, Last)
    ensures 0 < |frames| ==> Select(frames, Last).Success?
  {
    SelectSpecific(frames, |frames| as usize);
    SelectLast(frames);
  }

  /** On a one-frame (non-animated) sequence, every position picks that frame. */
  lemma SingleFramePositionsAgree<Frame>(frames: seq<Frame>, n: usize)
    requires |frames| == 1 && n <= 1
    ensures Select(frames, First) == Select(frames, Specific(n)) == Select(frames, Last) == Success(frames[0])
  {
    SelectFirst(frames);
    SelectSpecific(frames, n);
    SelectLast(frames);
  }

  /**
   * Selection is lazy: a failure is only found once every frame has been pulled, and a
   * successful `First` or `Specific` pulls nothing past the frame it returns.
   */
  lemma SelectionIsLazy<Frame>(frames: seq<Frame>, position: AwebpFramePosition)
    ensures Select(frames, position).Failure? ==> FramesPulled(frames, position) == |frames|
    ensures position == First && Select(frames, position).Success? ==> FramesPulled(frames, position) == 1
    ensures position.Specific? && Select(frames, position).Success? ==>
      FramesPulled(frames, position) == Max(1, position.n) as int
  {
    match position
    case First => FindIndex(frames, 0);
    case Specific(n) => FindIndex(frames, SpecificIndex(n));
    case Last =>
  }

  /* ---------------- The pipeline ---------------- */

  /** Leaving the position out (`None`) behaves exactly like asking for `First`. */
  lemma DefaultPositionIsFirst<Frame>(codecs: Codecs<Frame>, awebpBytes: seq<u8>)
    ensures AwebpToSinglePng(codecs, awebpBytes, None) == AwebpToSinglePng(codecs, awebpBytes, Some(First))
  {
  }

  /**
   * The output depends on the position only through the frame it selects: two positions that
   * select the same frame (or both fail) give the same PNG (or the same error).
   */
  lemma SameSelectionSameOutput<Frame>(
    codecs: Codecs<Frame>, awebpBytes: seq<u8>, p: AwebpFramePosition, q: AwebpFramePosition)
    requires codecs.decode(awebpBytes).Some?
    requires Select(codecs.decode(awebpBytes).value, p) == Select(codecs.decode(awebpBytes).value, q)
    ensures AwebpToSinglePng(codecs, awebpBytes, Some(p)) == AwebpToSinglePng(codecs, awebpBytes, Some(q))
  {
  }

  /** A failed selection is reported as a missing frame, before any frame is converted. */
  lemma SelectionFailureIsMissingFrame<Frame>(
    codecs: Codecs<Frame>, awebpBytes: seq<u8>, framePosition: Option<AwebpFramePosition>)
    requires codecs.decode(awebpBytes).Some?
    requires Select(codecs.decode(awebpBytes).value, framePosition.UnwrapOr(First)).Failure?
    ensures AwebpToSinglePng(codecs, awebpBytes, framePosition) == Failure(AwebpSpecificFrameIsNone)
  {
  }

  /** A decodable animation with fewer than `max(1, n)` frames fails `Specific(n)` with a missing frame. */
  lemma SpecificBeyondEndFailsPipeline<Frame>(codecs: Codecs<Frame>, awebpBytes: seq<u8>, n: usize)
    requires codecs.decode(awebpBytes).Some?
    requires Max(1, n) as int > |codecs.decode(awebpBytes).value|
    ensures AwebpToSinglePng(codecs, awebpBytes, Some(Specific(n))) == Failure(AwebpSpecificFrameIsNone)
  {
    SpecificBeyondEndIsMissingFrame(codecs.decode(awebpBytes).value, n);
  }

  /** `ToImageFailed` arises only after decoding and selection succeeded, from the selected frame. */
  lemma ToImageFailedOnlyAfterSelection<Frame>(
    codecs: Codecs<Frame>, awebpBytes: seq<u8>, framePosition: Option<AwebpFramePosition>)
    requires AwebpToSinglePng(codecs, awebpBytes, framePosition) == Failure(ToImageFailed)
    ensures codecs.decode(awebpBytes).Some?
    ensures var selected := Select(codecs.decode(awebpBytes).value, framePosition.UnwrapOr(First));
      selected.Success? && codecs.intoImage(selected.value).None?
  {
  }

  /** `EncodePngFailed` arises only after the selected frame was converted to RGBA. */
  lemma EncodePngFailedOnlyAfterConversion<Frame>(
    codecs: Codecs<Frame>, awebpBytes: seq<u8>, framePosition: Option<AwebpFramePosition>)
    requires AwebpToSinglePng(codecs, awebpBytes, framePosition) == Failure(EncodePngFailed)
    ensures codecs.decode(awebpBytes).Some?
    ensures var selected := Select(codecs.decode(awebpBytes).value, framePosition.UnwrapOr(First));
      selected.Success? && codecs.intoImage(selected.value).Some?
    ensures var image := codecs.intoImage(Select(codecs.decode(awebpBytes).value, framePosition.UnwrapOr(First)).value).value;
      codecs.writeImage(image.bytes, image.width, image.height, Rgba8).None?
  {
  }

  /**
   * Once a frame is selected and converted, the result is the PNG encoder's output for its RGBA
   * samples, width and height, or `EncodePngFailed` when the encoder rejects them.
   */
  lemma SuccessIsEncoderOutput<Frame>(
    codecs: Codecs<Frame>, awebpBytes: seq<u8>, framePosition: Option<AwebpFramePosition>, frame: Frame, image: RgbaImage)
    requires codecs.decode(awebpBytes).Some?
    requires Select(codecs.decode(awebpBytes).value, framePosition.UnwrapOr(First)) == Success(frame)
    requires codecs.intoImage(frame) == Some(image)
    ensures AwebpToSinglePng(codecs, awebpBytes, framePosition) ==
      codecs.writeImage(image.bytes, image.width, image.height, Rgba8).OkOr(EncodePngFailed)
  {
  }

  /** On a one-frame (non-animated) input, no position, `First`, `Specific(1)` and `Last` give the same result. */
  lemma SingleFrameInputPositionsAgree<Frame>(codecs: Codecs<Frame>, awebpBytes: seq<u8>)
    requires codecs.decode(awebpBytes).Some? && |codecs.decode(awebpBytes).value| == 1
    ensures AwebpToSinglePng(codecs, awebpBytes, None) == AwebpToSinglePng(codecs, awebpBytes, Some(First))
    ensures AwebpToSinglePng(codecs, awebpBytes, None) == AwebpToSinglePng(codecs, awebpBytes, Some(Specific(1)))
    ensures AwebpToSinglePng(codecs, awebpBytes, None) == AwebpToSinglePng(codecs, awebpBytes, Some(Last))
  {
    SingleFramePositionsAgree(codecs.decode(awebpBytes).value, 1);
  }

  /** For an animation of N frames, `Specific(N)` and `Last` give the same result. */
  lemma SpecificCountIsLastOutput<Frame>(codecs: Codecs<Frame>, awebpBytes: seq<u8>)
    requires codecs.decode(awebpBytes).Some?
    requires |codecs.decode(awebpBytes).value| < 0x1_0000_0000_0000_0000
    ensures var count := |codecs.decode(awebpBytes).value| as usize;
      AwebpToSinglePng(codecs, awebpBytes, Some(Specific(count))) == AwebpToSinglePng(codecs, awebpBytes, Some(Last))
  {
    SpecificCountIsLast(codecs.decode(awebpBytes).value);
  }

  /** A selected frame that fails to convert to RGBA is reported as `ToImageFailed`. */
  lemma ToImageFailureIsReported<Frame>(
    codecs: Codecs<Frame>, awebpBytes: seq<u8>, framePosition: Option<AwebpFramePosition>, frame: Frame)
    requires codecs.decode(awebpBytes).Some?
    requires Select(codecs.decode(awebpBytes).value, framePosition.UnwrapOr(First)) == Success(frame)
    requires codecs.intoImage(frame).None?
    ensures AwebpToSinglePng(codecs, awebpBytes, framePosition) == Failure(ToImageFailed)
  {
  }

  /**
   * A successful conversion means every step succeeded, and its output is the encoder's output
   * for the selected frame's RGBA image.
   */
  lemma SuccessMeansEveryStepSucceeded<Frame>(
    codecs: Codecs<Frame>, awebpBytes: seq<u8>, framePosition: Option<AwebpFramePosition>, buf: seq<u8>)
    requires AwebpToSinglePng(codecs, awebpBytes, framePosition) == Success(buf)
    ensures codecs.decode(awebpBytes).Some?
    ensures var selected := Select(codecs.decode(awebpBytes).value, framePosition.UnwrapOr(First));
      selected.Success? && codecs.intoImage(selected.value).Some?
    ensures var image := codecs.intoImage(Select(codecs.decode(awebpBytes).value, framePosition.UnwrapOr(First)).value).value;
      codecs.writeImage(image.bytes, image.width, image.height, Rgba8) == Some(buf)
  {
  }
}
