/** `SingleMotionDetector`: a running background model updated by
    exponential smoothing, and a detector that thresholds the difference
    between a frame and that model and merges the moving regions into one box. */
module MotionDetector {
  import opened Wrappers
  import opened Grid
  import opened BoundingBox

  /** The constructor's default smoothing factor. */
  const DefaultAccumWeight: real := 0.5

  /** The default sensitivity of `detect`. */
  const DefaultThreshold: int := 25

  /** The detector's state: the fixed smoothing factor and the background,
      unset until the first frame is seen. */
  datatype Detector = Detector(accumWeight: real, bg: Option<Background>)

  /** `detect` dereferences the background; before any `update` it is `None`
      and the call raises. */
  datatype DetectError = BackgroundUnset

  /** What `detect` returns on motion: the denoised mask and the merged region. */
  datatype Motion = Motion(mask: Frame, box: Box)

  /** The OpenCV steps the model does not look inside: erosion followed by
      dilation of the mask, and the bounding rectangles of the mask's
      external contours, in the order they are reported. */
  datatype Vision = Vision(denoise: Frame -> Frame, regions: Frame -> seq<Rect>)

  /** Sample `x` lies between `a` and `b`, whichever is larger. */
  predicate Between(x: real, a: real, b: real) {
    (a <= x <= b) || (b <= x <= a)
  }

  /** The smoothing factor is a proportion and the background, once set,
      holds values an 8-bit frame can hold. */
  predicate Valid(d: Detector) {
    && 0.0 <= d.accumWeight <= 1.0
    && (d.bg.Some? ==> InByteRange(d.bg.value))
  }

  /** The frame has the background's shape, when there is a background. */
  predicate Fits(d: Detector, image: Frame) {
    d.bg.Some? ==> Dims(d.bg.value) == Dims(image)
  }

  /** `SingleMotionDetector(accumWeight)`: no background yet. */
  function New(accumWeight: real := DefaultAccumWeight): (d: Detector)
    ensures d.bg.None?
    ensures d.accumWeight == accumWeight
    ensures 0.0 <= accumWeight <= 1.0 ==> Valid(d)
  {
    Detector(accumWeight, None)
  }

  /** The constructor called with no argument smooths with factor one half. */
  lemma NewDefault()
    ensures New().accumWeight == 0.5 && New().bg.None?
  {
  }

  /** One sample of `cv2.accumulateWeighted`: `(1 - w) * b + w * p`. The
      distance to the new sample shrinks by the factor `1 - w`. */
  function Blend(b: real, p: real, w: real): (r: real)
    ensures r - p == (1.0 - w) * (b - p)
  {
    (1.0 - w) * b + w * p
  }

  /** With a proportion as weight the blend is a convex combination: it lies
      between the old sample and the new one, and equal samples stay put. */
  lemma BlendBetween(b: real, p: real, w: real)
    ensures 0.0 <= w <= 1.0 ==> Between(Blend(b, p, w), b, p)
    ensures b == p ==> Blend(b, p, w) == b
  {
    var r := Blend(b, p, w);
    var towardP := w * (p - b);
    var towardB := (1.0 - w) * (b - p);
    BlendSteps(b, p, w, r, towardP, towardB);
    if 0.0 <= w <= 1.0 && b <= p {
      ScaledWithin(w, p - b, towardP);
    } else if 0.0 <= w <= 1.0 {
      ScaledWithin(1.0 - w, b - p, towardB);
    }
  }

  /** The blend is a step from the old sample toward the new one, or
      equally a step from the new sample back toward the old one. */
  lemma BlendSteps(b: real, p: real, w: real, r: real, towardP: real, towardB: real)
    requires r == Blend(b, p, w)
    requires towardP == w * (p - b) && towardB == (1.0 - w) * (b - p)
    ensures r == b + towardP && r == p + towardB
  {
    assert (1.0 - w) * b == b - w * b;
    assert w * (p - b) == w * p - w * b;
    assert (1.0 - w) * (b - p) == b - p - w * b + w * p;
  }

  /** A proportion `m` of a non-negative amount `g` is no larger than `g`. */
  lemma ScaledWithin(w: real, g: real, m: real)
    requires 0.0 <= w <= 1.0 && 0.0 <= g
    requires m == w * g
    ensures 0.0 <= m <= g
  {
    assert g - m == (1.0 - w) * g;
  }

  /** `cv2.accumulateWeighted(image, bg, w)` over the whole grid. */
  function Accumulate(bg: Background, image: Frame, w: real): (bg': Background)
    requires Dims(bg) == Dims(image)
    ensures Dims(bg') == Dims(image)
    ensures forall i, j :: 0 <= i < |image| && 0 <= j < |image[i]| ==>
      bg'[i][j] == Blend(bg[i][j], image[i][j] as real, w)
  {
    seq(|image|, i requires 0 <= i < |image| =>
      seq(|image[i]|, j requires 0 <= j < |image[i]| => Blend(bg[i][j], image[i][j] as real, w)))
  }

  /** Every sample of an accumulation with a proportional weight lies
      between the old background sample and the frame's sample. */
  lemma AccumulateBetween(bg: Background, image: Frame, w: real)
    requires Dims(bg) == Dims(image)
    ensures 0.0 <= w <= 1.0 ==> forall i, j :: 0 <= i < |image| && 0 <= j < |image[i]| ==>
      Between(Accumulate(bg, image, w)[i][j], bg[i][j], image[i][j] as real)
    ensures forall i, j :: 0 <= i < |image| && 0 <= j < |image[i]| ==>
      bg[i][j] == image[i][j] as real ==> Accumulate(bg, image, w)[i][j] == bg[i][j]
  {
    forall i, j | 0 <= i < |image| && 0 <= j < |image[i]|
      ensures 0.0 <= w <= 1.0 ==> Between(Accumulate(bg, image, w)[i][j], bg[i][j], image[i][j] as real)
      ensures bg[i][j] == image[i][j] as real ==> Accumulate(bg, image, w)[i][j] == bg[i][j]
    {
      BlendBetween(bg[i][j], image[i][j] as real, w);
    }
  }

  /** `update(image)`. The first frame becomes the background sample for
      sample; every later frame is blended in with the smoothing factor. */
  function Update(d: Detector, image: Frame): (d': Detector)
    requires Fits(d, image)
    ensures d'.accumWeight == d.accumWeight
    ensures d'.bg.Some? && Dims(d'.bg.value) == Dims(image)
    ensures d.bg.None? ==> forall i, j :: 0 <= i < |image| && 0 <= j < |image[i]| ==>
      d'.bg.value[i][j] == image[i][j] as real
    ensures d.bg.Some? ==> forall i, j :: 0 <= i < |image| && 0 <= j < |image[i]| ==>
      d'.bg.value[i][j] - image[i][j] as real == (1.0 - d.accumWeight) * (d.bg.value[i][j] - image[i][j] as real)
    ensures d.bg.Some? && 0.0 <= d.accumWeight <= 1.0 ==> forall i, j :: 0 <= i < |image| && 0 <= j < |image[i]| ==>
      Between(d'.bg.value[i][j], d.bg.value[i][j], image[i][j] as real)
    ensures d.bg.Some? ==> forall i, j :: 0 <= i < |image| && 0 <= j < |image[i]| ==>
      d.bg.value[i][j] == image[i][j] as real ==> d'.bg.value[i][j] == d.bg.value[i][j]
    ensures Valid(d) ==> Valid(d')
  {
    match d.bg
    case None => d.(bg := Some(Promote(image)))
    case Some(bg) =>
      AccumulateBetween(bg, image, d.accumWeight);
      d.(bg := Some(Accumulate(bg, image, d.accumWeight)))
  }

  /** Every frame of the list has the shape of the first, and of the
      background when there is one. */
  predicate FitsAll(d: Detector, frames: seq<Frame>) {
    && (forall i :: 0 <= i < |frames| ==> Dims(frames[i]) == Dims(frames[0]))
    && (|frames| > 0 ==> Fits(d, frames[0]))
  }

  /** `update` applied to each frame of the list in turn. */
  function UpdateAll(d: Detector, frames: seq<Frame>): (d': Detector)
    requires FitsAll(d, frames)
    ensures d'.accumWeight == d.accumWeight
    ensures d'.bg.None? <==> d.bg.None? && |frames| == 0
    ensures |frames| == 0 ==> d' == d
    ensures |frames| > 0 ==> Dims(d'.bg.value) == Dims(frames[0])
    ensures Valid(d) ==> Valid(d')
    decreases |frames|
  {
    if |frames| == 0 then d
    else
      var prefix := frames[..|frames| - 1];
      assert forall i :: 0 <= i < |prefix| ==> prefix[i] == frames[i];
      Update(UpdateAll(d, prefix), frames[|frames| - 1])
  }

  /** `x` raised to the power `k`. */
  function Pow(x: real, k: nat): real {
    if k == 0 then 1.0 else x * Pow(x, k - 1)
  }

  /** One background sample after `k` updates with the same sample `p`. */
  function BlendRepeat(b: real, p: real, w: real, k: nat): real {
    if k == 0 then b else Blend(BlendRepeat(b, p, w, k - 1), p, w)
  }

  /** Repeated blending with one sample closes the gap geometrically: the
      sample `x` reached after `k` blends is `(1 - w)^k` times as far from
      `p` as the start `b` was. */
  lemma {:induction false} BlendRepeatGap(x: real, b: real, p: real, w: real, k: nat)
    requires x == BlendRepeat(b, p, w, k)
    ensures x - p == Pow(1.0 - w, k) * (b - p)
    decreases k
  {
    if k == 0 {
      assert Pow(1.0 - w, 0) == 1.0;
    } else {
      var y := BlendRepeat(b, p, w, k - 1);
      BlendRepeatGap(y, b, p, w, k - 1);
      GapShrinks(1.0 - w, Pow(1.0 - w, k - 1), x - p, y - p, b - p);
    }
  }

  /** One more blend multiplies the accumulated shrink factor once more. */
  lemma GapShrinks(q: real, acc: real, now: real, before: real, initial: real)
    requires now == q * before
    requires before == acc * initial
    ensures now == (q * acc) * initial
  {
  }

  /** On a constant stream of one frame, each background sample follows
      `BlendRepeat` of its own starting value and the frame's sample. */
  lemma {:induction false} SteadyFrameSample(d: Detector, image: Frame, frames: seq<Frame>, i: nat, j: nat)
    requires d.bg.Some? && Fits(d, image)
    requires forall k :: 0 <= k < |frames| ==> frames[k] == image
    requires i < |image| && j < |image[i]|
    ensures FitsAll(d, frames)
    ensures UpdateAll(d, frames).bg.value[i][j] == BlendRepeat(d.bg.value[i][j], image[i][j] as real, d.accumWeight, |frames|)
  {
    assert FitsAll(d, frames) by {
      forall k | 0 <= k < |frames|
        ensures Dims(frames[k]) == Dims(frames[0])
      {
      }
    }
    if |frames| > 0 {
      var prefix := frames[..|frames| - 1];
      assert forall k :: 0 <= k < |prefix| ==> prefix[k] == frames[k];
      SteadyFrameSample(d, image, prefix, i, j);
      assert UpdateAll(d, frames) == Update(UpdateAll(d, prefix), image);
    }
  }

  /** Feeding the same frame over and over moves every background sample
      toward it geometrically: after `k` updates the remaining gap is
      `(1 - w)^k` times the initial gap. Stated for the sample at row `i`,
      column `j`. */
  lemma {:induction false} SteadyFrameConvergence(d: Detector, image: Frame, frames: seq<Frame>, i: nat, j: nat)
    requires d.bg.Some? && Fits(d, image)
    requires forall k :: 0 <= k < |frames| ==> frames[k] == image
    requires i < |image| && j < |image[i]|
    ensures FitsAll(d, frames)
    ensures UpdateAll(d, frames).bg.value[i][j] - image[i][j] as real
        == Pow(1.0 - d.accumWeight, |frames|) * (d.bg.value[i][j] - image[i][j] as real)
  {
    SteadyFrameSample(d, image, frames, i, j);
    BlendRepeatGap(UpdateAll(d, frames).bg.value[i][j], d.bg.value[i][j], image[i][j] as real, d.accumWeight, |frames|);
  }

  /** `|a - b|` on two 8-bit samples, as `cv2.absdiff` computes it. */
  function AbsDiff(a: Byte, b: Byte): Byte {
    if a < b then b - a else a - b
  }

  /** `cv2.threshold(..., thresh, 255, THRESH_BINARY)` on one sample. */
  function Binarize(v: Byte, thresh: int): Byte {
    if v > thresh then 255 else 0
  }

  /** The thresholded difference mask of `detect`, before denoising: the
      background is cast to 8 bits, compared sample by sample with the frame,
      and every sample that differs by more than `thresh` is foreground. */
  function DiffMask(bg: Background, image: Frame, thresh: int): (m: Frame)
    requires Dims(bg) == Dims(image)
    ensures Dims(m) == Dims(image)
    ensures forall i, j :: 0 <= i < |m| && 0 <= j < |m[i]| ==> m[i][j] == 0 || m[i][j] == 255
    ensures forall i, j :: 0 <= i < |m| && 0 <= j < |m[i]| ==>
      (m[i][j] == 255 <==> (var c := ToUint8(bg[i][j]); (if c < image[i][j] then image[i][j] - c else c - image[i][j]) > thresh))
  {
    seq(|image|, i requires 0 <= i < |image| =>
      seq(|image[i]|, j requires 0 <= j < |image[i]| =>
        Binarize(AbsDiff(ToUint8(bg[i][j]), image[i][j]), thresh)))
  }

  /** For a background within the byte range the cast is the floor, so a
      sample is foreground exactly when the floored background and the frame
      are more than `thresh` apart. */
  lemma DiffMaskOnValidBackground(bg: Background, image: Frame, thresh: int)
    requires Dims(bg) == Dims(image) && InByteRange(bg)
    ensures forall i, j :: 0 <= i < |image| && 0 <= j < |image[i]| ==>
      (DiffMask(bg, image, thresh)[i][j] == 255 <==> (bg[i][j].Floor - image[i][j] > thresh || image[i][j] - bg[i][j].Floor > thresh))
  {
  }

  /** A mask with no foreground. */
  predicate Blank(m: Frame) {
    forall i, j :: 0 <= i < |m| && 0 <= j < |m[i]| ==> m[i][j] == 0
  }

  /** The OpenCV steps behave as they do on an empty scene: denoising a blank
      mask leaves no contour to report. */
  ghost predicate QuietOnBlank(v: Vision) {
    forall m: Frame :: Blank(m) ==> |v.regions(v.denoise(m))| == 0
  }

  /** Erosion and dilation keep the mask's shape, as OpenCV's morphology
      does: the output image has the size of the input image. */
  ghost predicate ShapePreserving(v: Vision) {
    forall m: Frame :: Dims(v.denoise(m)) == Dims(m)
  }

  /** `detect(image, treshVal)`. Fails when no background has been set;
      otherwise reports no motion exactly when no region is found, and on
      motion returns the denoised mask and the smallest box around all regions.
      It reads the background and returns no new detector: it cannot change it. */
  function Detect(d: Detector, image: Frame, vision: Vision, treshVal: int := DefaultThreshold): (r: Result<Option<Motion>, DetectError>)
    requires Fits(d, image)
    ensures r.Failure? <==> d.bg.None?
    ensures r.Success? ==>
      var mask := vision.denoise(DiffMask(d.bg.value, image, treshVal));
      var rects := vision.regions(mask);
      && (r.value.None? <==> |rects| == 0)
      && (r.value.Some? ==> r.value.value.mask == mask)
      && (r.value.Some? ==> CoversAll(r.value.value.box, rects) && Attained(r.value.value.box, rects))
    ensures r.Success? && r.value.Some? && ShapePreserving(vision) ==> Dims(r.value.value.mask) == Dims(image)
  {
    match d.bg
    case None => Failure(BackgroundUnset)
    case Some(bg) =>
      var mask := vision.denoise(DiffMask(bg, image, treshVal));
      var rects := vision.regions(mask);
      match MergeRects(rects)
      case None => Success(None)
      case Some(box) => Success(Some(Motion(mask, box)))
  }

  /** A frame that matches the background, as the detector sees it after the
      8-bit cast, shows no motion for any non-negative threshold. */
  lemma StillFrameHasNoMotion(d: Detector, image: Frame, vision: Vision, treshVal: int)
    requires d.bg.Some? && Fits(d, image)
    requires forall i, j :: 0 <= i < |image| && 0 <= j < |image[i]| ==> ToUint8(d.bg.value[i][j]) == image[i][j]
    requires treshVal >= 0 && QuietOnBlank(vision)
    ensures Detect(d, image, vision, treshVal) == Success(None)
  {
    var m := DiffMask(d.bg.value, image, treshVal);
    assert Blank(m);
  }

  /** Right after the first update with a frame, detecting on that same frame
      reports no motion. */
  lemma NoMotionAgainstOwnBaseline(w: real, image: Frame, vision: Vision, treshVal: int)
    requires treshVal >= 0 && QuietOnBlank(vision)
    ensures Detect(Update(New(w), image), image, vision, treshVal) == Success(None)
  {
    var d := Update(New(w), image);
    forall i, j | 0 <= i < |image| && 0 <= j < |image[i]|
      ensures ToUint8(d.bg.value[i][j]) == image[i][j]
    {
      ToUint8OfByte(image[i][j]);
    }
    StillFrameHasNoMotion(d, image, vision, treshVal);
  }
}
