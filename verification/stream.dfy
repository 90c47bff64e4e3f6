/** One part of the `multipart/x-mixed-replace; boundary=frame` response
    that `generate` yields for every published frame it manages to encode.
    The JPEG encoder is not modelled: its success flag and bytes are an
    input. */
module Stream {
  import opened Wrappers
  import opened Grid

  /** Text made of characters below 256, as raw bytes. */
  function Latin1(s: string): (b: seq<Byte>)
    requires forall i :: 0 <= i < |s| ==> s[i] as int < 256
    ensures |b| == |s|
    ensures forall i :: 0 <= i < |s| ==> b[i] == s[i] as int
  {
    seq(|s|, i requires 0 <= i < |s| => s[i] as int)
  }

  /** `b'--frame\r\n'`: the boundary line opening every part. */
  const Boundary: seq<Byte> := Latin1("--frame\r\n")

  /** `b'Content-Type: image/jpeg\r\n\r\n'`: the part header and the blank
      line that ends it. */
  const Header: seq<Byte> := Latin1("Content-Type: image/jpeg\r\n\r\n")

  /** `b'\r\n'` after the payload. */
  const Trailer: seq<Byte> := Latin1("\r\n")

  /** The bytes added around every payload. */
  const Overhead: nat := |Boundary| + |Header| + |Trailer|

  /** What `cv2.imencode(".jpg", frame)` returned: a success flag and bytes. */
  datatype Encoded = Encoded(ok: bool, bytes: seq<Byte>)

  /** The bytes of one yielded part around a JPEG payload. */
  function Chunk(payload: seq<Byte>): (c: seq<Byte>)
    ensures |c| == |payload| + 39
    ensures c[..|Boundary|] == Boundary
  {
    Boundary + Header + payload + Trailer
  }

  /** Reads one part back: the payload between the fixed header and the
      trailer, or nothing when the framing is not there. */
  function ParseChunk(c: seq<Byte>): (r: Option<seq<Byte>>)
    ensures r.Some? ==> |r.value| + 39 == |c|
  {
    var h := |Boundary| + |Header|;
    if |c| >= Overhead && c[..|Boundary|] == Boundary && c[|Boundary|..h] == Header
       && c[|c| - |Trailer|..] == Trailer
    then Some(c[h..|c| - |Trailer|])
    else None
  }

  /** A yielded part is read back as exactly its payload. */
  lemma ParseChunkOfChunk(payload: seq<Byte>)
    ensures ParseChunk(Chunk(payload)) == Some(payload)
  {
    var c := Chunk(payload);
    var h := |Boundary| + |Header|;
    assert c[..|Boundary|] == Boundary;
    assert c[|Boundary|..h] == Header;
    assert c[|c| - |Trailer|..] == Trailer;
    assert c[h..|c| - |Trailer|] == payload;
  }

  /** Anything read as a part is exactly the part built from what was read:
      the framing is the only way to produce a given byte string. */
  lemma ChunkOfParseChunk(c: seq<Byte>)
    requires ParseChunk(c).Some?
    ensures Chunk(ParseChunk(c).value) == c
  {
    var h := |Boundary| + |Header|;
    var t := |c| - |Trailer|;
    assert c == c[..|Boundary|] + c[|Boundary|..h] + c[h..t] + c[t..];
  }

  /** One pass of the `generate` loop: nothing when the output slot is empty
      or encoding failed, otherwise the part carrying the encoded bytes. */
  function NextChunk<F>(slot: Option<F>, encode: F -> Encoded): (r: Option<seq<Byte>>)
    ensures r.Some? <==> slot.Some? && encode(slot.value).ok
    ensures r.Some? ==> ParseChunk(r.value) == Some(encode(slot.value).bytes)
  {
    match slot
    case None => None
    case Some(frame) =>
      var e := encode(frame);
      if !e.ok then None
      else
        ParseChunkOfChunk(e.bytes);
        Some(Chunk(e.bytes))
  }
}
