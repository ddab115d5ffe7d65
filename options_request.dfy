/**
 * The OPTIONS request: opcode 5, nothing written after the header, and a
 * rendering that is the bare message name.
 */
module OptionsRequest {
  import opened Wrappers
  import opened Protocol
  import opened Encoding
  import opened Requests
  import opened Frames
  import opened Rendering

  /** OPTIONS carries opcode 5, writes no body bytes, and renders as its name alone. */
  lemma OptionsShape(r: Request)
    requires r.Options?
    ensures Opcode(r) == 0x05
    ensures Written(r) == Output([], None) && Body(r) == Success([])
    ensures ToS(r) == "OPTIONS"
  {
  }

  /** Writing the body of an OPTIONS request leaves the buffer as it was. */
  lemma OptionsWritesNothing(r: Request, before: Bytes)
    requires r.Options?
    ensures before + Written(r).bytes == before
  {
    assert Written(r).bytes == [];
  }

  /** The buffer after the body of the same request has been written `n` times over. */
  function WrittenTimes(r: Request, before: Bytes, n: nat): Bytes
    requires r.Valid()
    decreases n
  {
    if n == 0 then before else WrittenTimes(r, before + Written(r).bytes, n - 1)
  }

  /**
   * Writing an OPTIONS body is idempotent: however many times it is written, the buffer is unchanged.
   * Each write appends nothing, so this is `OptionsWritesNothing` applied once per write.
   */
  lemma {:induction false} OptionsWriteIdempotent(r: Request, before: Bytes, n: nat)
    requires r.Options?
    ensures WrittenTimes(r, before, n) == before
  {
    if n > 0 {
      OptionsWritesNothing(r, before);
      OptionsWriteIdempotent(r, before, n - 1);
    }
  }

  /** On any valid stream, an OPTIONS frame is the eight header bytes with length 0, and reads back. */
  lemma OptionsFrameOnStream(f: RequestFrame)
    requires f.body.Options? && 0 <= f.streamId <= 127
    ensures Encode(f) == Success([0x01, 0x00, f.streamId, 0x05, 0x00, 0x00, 0x00, 0x00])
    ensures ParseFrame(Encode(f).value, []) == Some(f)
  {
    SmallFrame(f, []);
    assert [0x01, 0x00, f.streamId, 0x05, 0x00, 0x00, 0x00, 0x00] + [] == [0x01, 0x00, f.streamId, 0x05, 0x00, 0x00, 0x00, 0x00];
    FrameRoundTrip(f);
    assert MetadataOf(f.body) == [];
  }
}
