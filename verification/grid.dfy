/** Pixel grids. A frame is what the camera pipeline hands to the detector
    (a numpy `uint8` array); the background model is kept in float precision
    (numpy `float64`, modelled here as `real`, without rounding). */
module Grid {

  /** An 8-bit sample, numpy `uint8`. */
  type Byte = b: int | 0 <= b < 256

  /** A grayscale frame: rows of 8-bit samples. */
  type Frame = seq<seq<Byte>>

  /** The running background: rows of float samples. */
  type Background = seq<seq<real>>

  /** The shape of a grid: its row lengths, one per row. Two grids have
      the same shape exactly when their `Dims` are equal. */
  function Dims<T>(g: seq<seq<T>>): (d: seq<nat>)
    ensures |d| == |g|
    ensures forall i :: 0 <= i < |g| ==> d[i] == |g[i]|
  {
    seq(|g|, i requires 0 <= i < |g| => |g[i]|)
  }

  /** Every sample of the background lies in the range an 8-bit frame can hold. */
  predicate InByteRange(bg: Background) {
    forall i, j :: 0 <= i < |bg| && 0 <= j < |bg[i]| ==> 0.0 <= bg[i][j] <= 255.0
  }

  /** `image.copy().astype("float")`: the same samples at float precision. */
  function Promote(image: Frame): (bg: Background)
    ensures Dims(bg) == Dims(image)
    ensures forall i, j :: 0 <= i < |image| && 0 <= j < |image[i]| ==> bg[i][j] == image[i][j] as real
    ensures InByteRange(bg)
  {
    seq(|image|, i requires 0 <= i < |image| =>
      seq(|image[i]|, j requires 0 <= j < |image[i]| => image[i][j] as real))
  }

  /** Conversion of a float to an integer, rounding toward zero. */
  function Trunc(x: real): int {
    if x >= 0.0 then x.Floor else -((-x).Floor)
  }

  /** `astype("uint8")` of one float sample: truncate toward zero, then keep
      the low eight bits. Inside the byte range this is the floor. */
  function ToUint8(x: real): (b: Byte)
    ensures 0.0 <= x < 256.0 ==> b == x.Floor
    ensures 0.0 <= x < 256.0 ==> b as real <= x < b as real + 1.0
  {
    Trunc(x) % 256
  }

  /** Casting a promoted sample back to 8 bits gives the original sample. */
  lemma ToUint8OfByte(b: Byte)
    ensures ToUint8(b as real) == b
  {
  }
}
