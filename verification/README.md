# Motion detection for a surveillance web stream, in Dafny

This project models the motion-detection core of a small video-surveillance
web server. The server reads camera frames and compares each one with a
running background model. It draws one rectangle around everything that
moved and streams the annotated frames as a multipart HTTP response. The
model covers three pieces:

- `SingleMotionDetector` (`motion_detector.dfy`, with `grid.dfy` and
  `bounding_box.dfy`).
  - The background model: the first frame initialises it, and every later
    frame is blended in with `cv2.accumulateWeighted`.
  - The difference mask: absolute difference, then a binary threshold.
  - The min/max fold that merges every contour's bounding rectangle into
    one box, starting from plus and minus infinity.
- The detection thread `detect_motion` (`detection_loop.dfy`).
  - It keeps a frame counter.
  - A warm-up gate decides when detection runs.
  - Detection runs before the model update on the same frame.
  - A rectangle is drawn only when motion is found.
  - The annotated frame goes into a single output slot that each frame
    overwrites.
- The multipart framing of `generate` (`stream.dfy`).
  - Each part is the boundary line, then the `Content-Type` header, then
    the JPEG bytes, then CRLF.
  - No part is sent while the slot is empty or when encoding fails.

Frames are `seq<seq<Byte>>` with `Byte` in 0..255. The background is
`seq<seq<real>>`. The detector is an immutable record holding the smoothing
factor and an optional background, so every operation is a pure function.
Three properties hold by construction:

- `detect` reads the background and returns no new detector.
- Two `detect` calls with no `update` between them therefore give equal
  results.
- No operation other than `Update` can change the background.

OpenCV's erosion, dilation and contour extraction are not modelled. They
are passed in as a `Vision` record of two total functions: one denoises the
mask, and one lists the bounding rectangles of the mask's external contours.

### Choices the code fixes

- Only the first `update` accepts a frame of any shape. A later `update`
  (`cv2.accumulateWeighted`) and `detect` (`cv2.absdiff`) raise an OpenCV
  error when the frame's size differs from the background's. The model rules
  this case out with the preconditions `Fits` and `Uniform` rather than
  giving it an error result.
- The constructor accepts any smoothing factor. The convexity and range
  results carry `0 <= w <= 1` as a hypothesis.
- Calling `detect` before any `update` dereferences an unset background and
  raises. The model returns `Failure(BackgroundUnset)` instead. With a
  negative `--frame-count` this happens on the first iteration
  (`NegativeWarmUpFailsAtOnce`).

## Model

| member | source | states |
|---|---|---|
| MotionDetector.New | toolkit/motion_detection/singlemotiondetector.py:6-11 | A new detector has no background and stores the given smoothing factor. With a factor in [0,1] it satisfies the detector invariant `Valid`. |
| MotionDetector.NewDefault | toolkit/motion_detection/singlemotiondetector.py:6 | The constructor's default smoothing factor is 0.5. |
| Grid.Promote | toolkit/motion_detection/singlemotiondetector.py:15 | `astype("float")` keeps the shape, gives every sample as the same value in float precision, and stays in the byte range. |
| Grid.ToUint8 | toolkit/motion_detection/singlemotiondetector.py:24 | `astype("uint8")` of a sample in [0,256) is its floor, the largest byte not above it. |
| Grid.ToUint8OfByte | toolkit/motion_detection/singlemotiondetector.py:15-24 | Casting a promoted byte back to 8 bits gives the byte itself. |
| MotionDetector.Blend | toolkit/motion_detection/singlemotiondetector.py:19 | One blended sample is `1 - w` times as far from the new sample as the old background sample was. |
| MotionDetector.BlendBetween | toolkit/motion_detection/singlemotiondetector.py:19 | For `0 <= w <= 1` the blended sample lies between the old background sample and the image sample. Equal samples are left unchanged. |
| MotionDetector.Accumulate | toolkit/motion_detection/singlemotiondetector.py:19 | `accumulateWeighted` keeps the grid's shape and blends every sample independently with the sample at the same position. |
| MotionDetector.AccumulateBetween | toolkit/motion_detection/singlemotiondetector.py:19 | For every position, the accumulated sample lies between the old and new samples when `0 <= w <= 1`. It is unchanged where they are equal. |
| MotionDetector.Update | toolkit/motion_detection/singlemotiondetector.py:13-19 | The first update makes the background equal to the image, sample for sample, with no blending. A later update keeps the shape and shrinks each gap to the image by `1 - w`. With `0 <= w <= 1` each new sample lies between old and new, and equal samples stay. The factor never changes, and the range invariant is preserved. |
| MotionDetector.UpdateAll | toolkit/motion_detection/singlemotiondetector.py:13-19 | Updating with a list of frames leaves the background unset only when there was none and the list is empty. Once set, the background has the frames' shape. The factor and the range invariant are kept. |
| MotionDetector.BlendRepeatGap | toolkit/motion_detection/singlemotiondetector.py:19 | After `k` blends with the same sample, the gap to it is `(1 - w)^k` times the initial gap. |
| MotionDetector.SteadyFrameConvergence | toolkit/motion_detection/singlemotiondetector.py:19 | After `k` updates with one constant frame, every background sample's gap to that frame is `(1 - w)^k` times its initial gap. |
| MotionDetector.DiffMask | toolkit/motion_detection/singlemotiondetector.py:24-25 | The thresholded difference has the frame's shape and only the values 0 and 255. A sample is 255 exactly when the 8-bit cast background and the frame differ by more than the threshold. |
| MotionDetector.DiffMaskOnValidBackground | toolkit/motion_detection/singlemotiondetector.py:24-25 | For a background in the byte range, a mask sample is 255 exactly when the floored background and the frame differ by more than the threshold. |
| MotionDetector.Detect | toolkit/motion_detection/singlemotiondetector.py:21-52 | `detect` (default threshold 25) fails exactly when no background is set. Otherwise it reports no motion exactly when the contour list of the denoised mask is empty. On motion it returns that mask and a box that covers every contour rectangle, with each side attained by one of them. When denoising keeps the mask's shape, as erosion and dilation do, the returned mask has the frame's shape. |
| MotionDetector.StillFrameHasNoMotion | toolkit/motion_detection/singlemotiondetector.py:21-41 | A frame equal to the 8-bit background gives no motion for any non-negative threshold. This assumes denoising and contour finding report nothing on a blank mask. |
| MotionDetector.NoMotionAgainstOwnBaseline | toolkit/motion_detection/singlemotiondetector.py:13-41 | Detecting on the very frame that initialised the background reports no motion, for any non-negative threshold. This assumes denoising and contour finding report nothing on a blank mask. |
| BoundingBox.Fold | toolkit/motion_detection/singlemotiondetector.py:36-48 | The infinite start values remain only when there are no rectangles. Otherwise all four results are finite integers, the box covers every rectangle, and each side is attained by some rectangle. |
| BoundingBox.MergeRects | toolkit/motion_detection/singlemotiondetector.py:39-48 | The result is `None` exactly when the contour list is empty. Otherwise it covers every rectangle (`minX <= x`, `x + w <= maxX`, and likewise for y), and each bound is attained. |
| BoundingBox.TightBoxUnique | toolkit/motion_detection/singlemotiondetector.py:43-48 | Only one box both covers a list of rectangles and has all four sides attained. |
| BoundingBox.MergeOrderIndependent | toolkit/motion_detection/singlemotiondetector.py:43-48 | Any reordering of the contour rectangles gives the same merged box. |
| BoundingBox.MergedBoxIsSmallest | toolkit/motion_detection/singlemotiondetector.py:43-48 | Every box covering all rectangles contains the merged box. |
| DetectionLoop.Initial | webstreaming.py:38-39 | The thread starts with `total` at 0, an empty output slot, and a detector with smoothing factor 0.1 and no background. |
| DetectionLoop.DrawnFor | webstreaming.py:62-66 | A rectangle is drawn exactly when detection returned motion, and it is that motion's box. |
| DetectionLoop.Step | webstreaming.py:56-74 | One iteration fails exactly when it must detect while no background is set. Detection runs exactly when `total > frameCount`, against the model before this frame. The model is then updated with the same frame, `total` rises by one, the drawn rectangle is the detected box, and the slot holds this iteration's frame. |
| DetectionLoop.Run | webstreaming.py:39-74 | Over a finite stream the thread fails exactly when `frameCount` is negative and there is a frame. Otherwise `total` equals the number of frames, one iteration is recorded per frame, and the model has absorbed every frame. |
| DetectionLoop.ModelBefore | webstreaming.py:58-69 | The model seen by iteration `i` fits frame `i`. It has a background exactly when `i > 0`, because `total` counts the earlier updates. |
| DetectionLoop.RunUnfold | webstreaming.py:39-74 | A successful run over a non-empty stream is the run over all frames but the last, followed by one iteration on the last frame. That iteration starts from the model of the earlier frames, and its record is appended to the log. |
| DetectionLoop.RunTrace | webstreaming.py:56-70 | Iteration `i` checks for motion exactly when `i > frameCount`. Its result is `detect` on frame `i` against the model of frames `0 .. i-1` only. It draws exactly the detected box. |
| DetectionLoop.LastWriteWins | webstreaming.py:72-74 | After a run, the output slot holds the last iteration's frame and drawn rectangle. |
| DetectionLoop.WarmUpGuardsBackground | webstreaming.py:39-69 | With `frameCount >= 0` the thread never fails, and the background is set whenever detection runs. |
| DetectionLoop.NegativeWarmUpFailsAtOnce | webstreaming.py:56-59 | With a negative `frameCount`, iteration 0 reaches `detect` with no background and fails. |
| DetectionLoop.FirstDetection | webstreaming.py:56-59 | The first `frameCount + 1` frames are never checked. The first check happens on the iteration where `total == frameCount + 1`. |
| DetectionLoop.DefaultWarmUp | webstreaming.py:112-113 | With the default `--frame-count` of 32, iterations 0 to 32 are never checked and iteration 33 is the first check. |
| Stream.Chunk | webstreaming.py:96-97 | A part is 39 bytes longer than its payload and starts with the `--frame` boundary line. |
| Stream.ParseChunk | webstreaming.py:96-97 | Reading a part back yields a payload exactly 39 bytes shorter than the part. |
| Stream.ParseChunkOfChunk | webstreaming.py:96-97 | Every part reads back as exactly the payload it was built from. |
| Stream.ChunkOfParseChunk | webstreaming.py:96-97 | Any byte string that reads as a part is exactly the part built from that payload: a part determines its payload, and the payload determines the part. |
| Stream.NextChunk | webstreaming.py:81-97 | A pass of `generate` emits a part exactly when the slot holds a frame and encoding succeeded. The part carries exactly the encoded bytes. |

## Left out

- Camera capture (`VideoStream`), the start-up sleep, and resizing, grayscale conversion and Gaussian blur (webstreaming.py:22-23, 45-48) are foreign I/O and image filtering. `gray` is an arbitrary input frame.
- Timestamp text and rectangle pixels (webstreaming.py:51-54, 65-66) are cosmetic rendering. Drawing is recorded as the box drawn.
- JPEG encoding (`cv2.imencode`, webstreaming.py:89) is a foreign call. Its success flag and bytes are the result of an opaque function parameter.
- The Flask routes, the HTTP response object, argparse, `app.run` and `vs.stop()` (webstreaming.py:19, 25-28, 99-126) are transport and configuration. Only the `--frame-count` default of 32 is kept, as `DefaultFrameCount`.
- The lock, the global output slot and the daemon thread (webstreaming.py:15-16, 73-74, 82, 117-120) exist for concurrency. Publication is modelled as a single-slot overwrite in the thread state, and `generate` is modelled one pass at a time.
- Both `while True` loops run forever. The detection thread is modelled on every finite prefix of the frame stream (`Run`), and `generate` one pass at a time (`NextChunk`). Neither the busy retry on an empty slot nor client disconnection is modelled.
- Erosion, dilation and `findContours` with `grab_contours` (toolkit/motion_detection/singlemotiondetector.py:28-35) depend on OpenCV's kernel, border and tracing rules. They are the two functions of `Vision`.
- IEEE double rounding in `accumulateWeighted` and in the casts. The background is a `real`.
- Grid.ToUint8: numpy leaves the conversion of out-of-range floats to `uint8` unspecified. The model truncates toward zero and wraps modulo 256. With a smoothing factor in [0,1] the background never leaves [0,255] (`Update` preserves `Valid`), so only the floor case arises.
- Shape mismatch: OpenCV raises when a later frame's size differs from the background's. The model excludes that case by precondition and has no error result for it.
- Splitting the multipart stream back into parts: a receiver finds the end of a part by searching for the next boundary line. JPEG bytes are not escaped, so a payload containing `\r\n--frame` is not ruled out. The round-trip lemmas are about one part whose extent is already known.
