/** The detection thread `detect_motion(frameCount)`: a frame counter, a
    warm-up gate, detection against the model built from earlier frames,
    then the model update, and publication of the annotated frame into a
    single overwritten slot. The camera, the preprocessing of each frame into
    `gray`, the timestamp text and the rectangle pixels are not modelled:
    `gray` is an arbitrary frame and drawing is recorded as the drawn box. */
module DetectionLoop {
  import opened Wrappers
  import opened Grid
  import opened BoundingBox
  import opened MotionDetector

  /** The smoothing factor the thread constructs its detector with. */
  const LoopAccumWeight: real := 0.1

  /** The `--frame-count` command-line default. */
  const DefaultFrameCount: int := 32

  /** The frame placed in the output slot: which iteration produced it and
      the rectangle drawn on it, if any. */
  datatype Published = Published(index: nat, drawn: Option<Box>)

  /** What one iteration did: whether it ran detection, what detection
      returned, and the rectangle it drew. */
  datatype Iteration = Iteration(checked: bool, motion: Option<Motion>, drawn: Option<Box>)

  /** The thread's state: its detector, the counter `total`, and the shared
      output slot. */
  datatype LoopState = LoopState(md: Detector, total: nat, output: Option<Published>)

  /** The state before the first frame. */
  function Initial(): (s: LoopState)
    ensures s.total == 0 && s.output.None?
    ensures s.md.bg.None? && s.md.accumWeight == LoopAccumWeight
  {
    LoopState(New(LoopAccumWeight), 0, None)
  }

  /** The rectangle an iteration draws: the box of the detected motion, if any. */
  function DrawnFor(motion: Option<Motion>): (drawn: Option<Box>)
    ensures drawn.Some? <==> motion.Some?
    ensures drawn.Some? ==> drawn.value == motion.value.box
  {
    match motion
    case None => None
    case Some(m) => Some(m.box)
  }

  /** Everything after detection: update the model with the same frame,
      count the frame, publish. */
  function Finish(s: LoopState, gray: Frame, it: Iteration): (r: (LoopState, Iteration))
    requires Fits(s.md, gray)
  {
    (LoopState(Update(s.md, gray), s.total + 1, Some(Published(s.total, it.drawn))), it)
  }

  /** One pass of the `while True` body on the preprocessed frame `gray`.
      Detection runs only once `total` exceeds `frameCount`, and against the
      detector as it stood before this frame; the update follows on every
      pass, warm-up included. The only failure is detection before any
      update, which needs a negative `frameCount`. */
  function Step(s: LoopState, frameCount: int, vision: Vision, gray: Frame): (r: Result<(LoopState, Iteration), DetectError>)
    requires Fits(s.md, gray)
    ensures r.Failure? <==> s.total > frameCount && s.md.bg.None?
    ensures r.Success? ==> r.value.0.total == s.total + 1
    ensures r.Success? ==> r.value.0.md == Update(s.md, gray)
    ensures r.Success? ==> (r.value.1.checked <==> s.total > frameCount)
    ensures r.Success? && r.value.1.checked ==> Detect(s.md, gray, vision) == Success(r.value.1.motion)
    ensures r.Success? && !r.value.1.checked ==> r.value.1.motion.None?
    ensures r.Success? ==> r.value.1.drawn == DrawnFor(r.value.1.motion)
    ensures r.Success? ==> r.value.0.output == Some(Published(s.total, r.value.1.drawn))
  {
    if s.total > frameCount then
      match Detect(s.md, gray, vision)
      case Failure(e) => Failure(e)
      case Success(motion) => Success(Finish(s, gray, Iteration(true, motion, DrawnFor(motion))))
    else
      Success(Finish(s, gray, Iteration(false, None, None)))
  }

  /** Every frame of the stream has the same shape. */
  predicate Uniform(frames: seq<Frame>) {
    forall i :: 0 <= i < |frames| ==> Dims(frames[i]) == Dims(frames[0])
  }

  /** The thread run on a finite prefix of the camera stream, from the
      initial state: the final state and the record of every iteration, or
      the error that ends the thread. */
  function Run(frameCount: int, vision: Vision, frames: seq<Frame>): (r: Result<(LoopState, seq<Iteration>), DetectError>)
    requires Uniform(frames)
    ensures r.Failure? <==> frameCount < 0 && |frames| > 0
    ensures r.Success? ==> r.value.0.total == |frames| && |r.value.1| == |frames|
    ensures r.Success? ==> r.value.0.md == UpdateAll(New(LoopAccumWeight), frames)
    decreases |frames|
  {
    if |frames| == 0 then Success((Initial(), []))
    else
      var prefix := frames[..|frames| - 1];
      assert forall i :: 0 <= i < |prefix| ==> prefix[i] == frames[i];
      match Run(frameCount, vision, prefix)
      case Failure(e) => Failure(e)
      case Success((s, log)) =>
        match Step(s, frameCount, vision, frames[|frames| - 1])
        case Failure(e) => Failure(e)
        case Success((s', it)) => Success((s', log + [it]))
  }

  /** A prefix of a uniform stream is uniform. */
  lemma PrefixUniform(frames: seq<Frame>, n: nat)
    requires Uniform(frames) && n <= |frames|
    ensures Uniform(frames[..n])
    ensures FitsAll(New(LoopAccumWeight), frames[..n])
  {
    assert forall i :: 0 <= i < n ==> frames[..n][i] == frames[i];
  }

  /** The model the detector holds when iteration `i` starts: the initial
      detector updated with the `i` earlier frames. */
  function ModelBefore(frames: seq<Frame>, i: nat): (d: Detector)
    requires Uniform(frames) && i < |frames|
    ensures Fits(d, frames[i])
    ensures d.bg.None? <==> i == 0
  {
    PrefixUniform(frames, i);
    UpdateAll(New(LoopAccumWeight), frames[..i])
  }

  /** A successful run on a non-empty stream is the run on all but the last
      frame, followed by one step on the last frame from the model of the
      earlier frames. */
  lemma RunUnfold(frameCount: int, vision: Vision, frames: seq<Frame>)
    requires Uniform(frames) && |frames| > 0
    requires Run(frameCount, vision, frames).Success?
    ensures Uniform(frames[..|frames| - 1])
    ensures var prefix := frames[..|frames| - 1];
      && Run(frameCount, vision, prefix).Success?
      && Run(frameCount, vision, prefix).value.0.md == ModelBefore(frames, |frames| - 1)
      && Step(Run(frameCount, vision, prefix).value.0, frameCount, vision, frames[|frames| - 1]).Success?
      && Run(frameCount, vision, frames).value.1
         == Run(frameCount, vision, prefix).value.1
            + [Step(Run(frameCount, vision, prefix).value.0, frameCount, vision, frames[|frames| - 1]).value.1]
  {
    var prefix := frames[..|frames| - 1];
    assert forall k :: 0 <= k < |prefix| ==> prefix[k] == frames[k];
  }

  /** What iteration `i` of a successful run did: it checked for motion
      exactly when `i > frameCount`; when it checked, the result is that of
      `detect` on frame `i` against the model built from frames `0 .. i-1`
      only; it drew exactly the box of the motion found. */
  lemma {:induction false} RunTrace(frameCount: int, vision: Vision, frames: seq<Frame>, i: nat)
    requires Uniform(frames) && i < |frames|
    requires Run(frameCount, vision, frames).Success?
    ensures var it := Run(frameCount, vision, frames).value.1[i];
      && (it.checked <==> i > frameCount)
      && (it.checked ==> Detect(ModelBefore(frames, i), frames[i], vision) == Success(it.motion))
      && (!it.checked ==> it.motion.None?)
      && it.drawn == DrawnFor(it.motion)
    decreases |frames|
  {
    var n := |frames|;
    var prefix := frames[..n - 1];
    RunUnfold(frameCount, vision, frames);
    if i < n - 1 {
      RunTrace(frameCount, vision, prefix, i);
      assert prefix[..i] == frames[..i] && prefix[i] == frames[i];
    }
  }

  /** The output slot holds the frame of the latest iteration and nothing
      older: each publication overwrites the previous one. */
  lemma LastWriteWins(frameCount: int, vision: Vision, frames: seq<Frame>)
    requires Uniform(frames) && |frames| > 0
    requires Run(frameCount, vision, frames).Success?
    ensures var (s, log) := Run(frameCount, vision, frames).value;
      s.output == Some(Published(|frames| - 1, log[|frames| - 1].drawn))
  {
    var n := |frames|;
    var prefix := frames[..n - 1];
    assert forall k :: 0 <= k < |prefix| ==> prefix[k] == frames[k];
  }

  /** With a non-negative `frameCount` the thread never fails: whenever it
      runs detection, at least one frame has already been absorbed, so the
      background is set. */
  lemma {:induction false} WarmUpGuardsBackground(frameCount: int, vision: Vision, frames: seq<Frame>)
    requires Uniform(frames) && frameCount >= 0
    ensures Run(frameCount, vision, frames).Success?
    ensures forall i :: 0 <= i < |frames| && Run(frameCount, vision, frames).value.1[i].checked ==>
      ModelBefore(frames, i).bg.Some?
  {
    forall i | 0 <= i < |frames| && Run(frameCount, vision, frames).value.1[i].checked
      ensures ModelBefore(frames, i).bg.Some?
    {
      RunTrace(frameCount, vision, frames, i);
    }
  }

  /** With a negative `frameCount` the very first iteration already runs
      detection, before any update, and the thread fails. */
  lemma NegativeWarmUpFailsAtOnce(frameCount: int, vision: Vision, gray: Frame)
    requires frameCount < 0
    ensures Step(Initial(), frameCount, vision, gray) == Failure(BackgroundUnset)
  {
  }

  /** The warm-up boundary: the first `frameCount + 1` frames are only
      absorbed into the model, and the first check for motion happens on the
      iteration where `total == frameCount + 1`. */
  lemma {:induction false} FirstDetection(frameCount: int, vision: Vision, frames: seq<Frame>)
    requires Uniform(frames) && frameCount >= 0 && |frames| > frameCount + 1
    ensures Run(frameCount, vision, frames).Success?
    ensures forall i :: 0 <= i <= frameCount ==> !Run(frameCount, vision, frames).value.1[i].checked
    ensures Run(frameCount, vision, frames).value.1[frameCount + 1].checked
  {
    forall i | 0 <= i <= frameCount + 1
      ensures Run(frameCount, vision, frames).value.1[i].checked <==> i == frameCount + 1
    {
      RunTrace(frameCount, vision, frames, i);
    }
  }

  /** With the command-line default `--frame-count 32`, iterations 0 to 32
      only feed the background, and iteration 33 is the first to check. */
  lemma DefaultWarmUp(vision: Vision, frames: seq<Frame>)
    requires Uniform(frames) && |frames| > DefaultFrameCount + 1
    ensures Run(DefaultFrameCount, vision, frames).Success?
    ensures forall i :: 0 <= i <= 32 ==> !Run(DefaultFrameCount, vision, frames).value.1[i].checked
    ensures Run(DefaultFrameCount, vision, frames).value.1[33].checked
  {
    FirstDetection(DefaultFrameCount, vision, frames);
  }
}
