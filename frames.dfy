/**
 * The request frame: an 8-byte header (version, flags, stream id, opcode,
 * body length) followed by the body of one request.
 */
module Frames {
  import opened Wrappers
  import opened Protocol
  import opened Encoding
  import opened Requests

  /** The protocol version byte of every request frame. */
  const REQUEST_VERSION: byte := 0x01

  /** A request together with the stream id it is sent on. */
  datatype RequestFrame = RequestFrame(body: Request, streamId: int)
  {
    /** What the constructor guarantees: a stream id in 0..127 and a well-formed request. */
    predicate Valid()
    {
      0 <= streamId <= 127 && body.Valid()
    }
  }

  /**
   * Frames a request on a stream, 0 unless one is given; any stream id outside
   * 0..127 is refused with InvalidStreamIdError before a byte is written.
   */
  function NewFrame(body: Request, streamId: int := 0): (r: Result<RequestFrame, Error>)
    requires body.Valid()
    ensures r.Success? <==> 0 <= streamId < 128
    ensures r.Failure? ==> r.error == Protocol(InvalidStreamIdError)
    ensures r.Success? ==> r.value.Valid() && r.value.body == body && r.value.streamId == streamId
    ensures r.Success? ==> PackChar(streamId) == [streamId]
  {
    if streamId < 0 || streamId > 127 then Failure(Protocol(InvalidStreamIdError))
    else Success(RequestFrame(body, streamId))
  }

  /** The 8-byte header: the four 'c' fields, then the body length as an 'N'. */
  function Header(streamId: int, opcode: int, length: int): (r: Bytes)
    ensures |r| == 8
    ensures r[0] == REQUEST_VERSION && r[1] == 0x00 && r[2] == streamId % 256 && r[3] == opcode % 256
    ensures r[4..] == PackInt(length) && Unsigned(r[4..]) == length % INT_LIMIT
  {
    PackHeader(REQUEST_VERSION, 0x00, streamId, opcode) + PackInt(length)
  }

  /** Overwriting the placeholder of a header that is followed by a body. */
  lemma PlaceholderOverwritten(before: Bytes, fields: Bytes, body: Bytes, length: int)
    requires |fields| == 4
    ensures var s := before + fields + PackInt(0) + body;
      s[..|before| + 4] + PackInt(length) + s[|before| + 8..] == before + (fields + PackInt(length)) + body
  {
    var s := before + fields + PackInt(0) + body;
    assert s[..|before| + 4] == before + fields;
    assert s[|before| + 8..] == body;
  }

  /**
   * The frame around a body output: the header, then the body. The length
   * field holds the body's size once the body is complete; when a value
   * fails to convert, the placeholder 0 stays and the body stops at the
   * failing value.
   */
  function FrameOf(streamId: int, opcode: int, w: Output): (out: Output)
    ensures |out.bytes| == 8 + |w.bytes| && out.bytes[8..] == w.bytes && out.error == w.error
    ensures out.bytes[..4] == [REQUEST_VERSION, 0x00, streamId % 256, opcode % 256]
    ensures Unsigned(out.bytes[4..8]) == if w.error.None? then |w.bytes| % INT_LIMIT else 0
  {
    var h := Header(streamId, opcode, if w.error.None? then |w.bytes| else 0);
    assert (h + w.bytes)[..4] == h[..4] && (h + w.bytes)[4..8] == h[4..];
    Output(h + w.bytes, w.error)
  }

  /** What writing a frame leaves after the buffer's old contents. */
  function Framed(f: RequestFrame): (out: Output)
    requires f.body.Valid()
    ensures |out.bytes| == 8 + |Written(f.body).bytes| && out.bytes[8..] == Written(f.body).bytes
    ensures out.error == Written(f.body).error
    ensures out.bytes[3] == Opcode(f.body)
  {
    FrameOf(f.streamId, Opcode(f.body), Written(f.body))
  }

  /** The bytes of a frame written to an empty buffer, or the error raised while writing its body. */
  function Encode(f: RequestFrame): (res: Result<Bytes, Error>)
    requires f.body.Valid()
    ensures res.Failure? <==> Body(f.body).Failure?
    ensures res.Success? ==> |res.value| == 8 + |Body(f.body).value| && res.value[8..] == Body(f.body).value
  {
    var out := Framed(f);
    if out.error.Some? then Failure(out.error.value) else Success(out.bytes)
  }

  /**
   * Appends the frame: the header with a zero length placeholder, then the
   * body, then the placeholder overwritten with the number of body bytes.
   */
  method Write(f: RequestFrame, io: ByteBuffer) returns (err: Option<Error>)
    requires f.body.Valid()
    modifies io
    ensures io.bytes == old(io.bytes) + Framed(f).bytes
    ensures err == Framed(f).error
  {
    var start := |io.bytes|;
    var fields := PackHeader(REQUEST_VERSION, 0x00, f.streamId, Opcode(f.body));
    io.Append(fields);
    io.AppendInt(0);
    err := WriteBody(f.body, io);
    ghost var w := Written(f.body);
    ghost var unfilled := io.bytes;
    if err.None? {
      io.OverwriteInt(start + 4, |io.bytes| - start - 8);
    }
    FillPlaceholder(old(io.bytes), f.streamId, Opcode(f.body), w, unfilled, io.bytes);
  }

  /**
   * After the header fields, a zero placeholder and a body output: the buffer
   * with the placeholder filled in when the body is complete, and left alone
   * when it is not, holds the fields, the length and the body.
   */
  lemma FillPlaceholder(before: Bytes, streamId: int, opcode: int, w: Output, unfilled: Bytes, after: Bytes)
    requires unfilled == before + PackHeader(REQUEST_VERSION, 0x00, streamId, opcode) + PackInt(0) + w.bytes
    requires w.error.None? ==>
      after == unfilled[..|before| + 4] + PackInt(|unfilled| - |before| - 8) + unfilled[|before| + 8..]
    requires w.error.Some? ==> after == unfilled
    ensures after == before + FrameOf(streamId, opcode, w).bytes
  {
    var fields := PackHeader(REQUEST_VERSION, 0x00, streamId, opcode);
    var length := if w.error.None? then |w.bytes| else 0;
    assert FrameOf(streamId, opcode, w).bytes == fields + PackInt(length) + w.bytes;
    if w.error.None? {
      PlaceholderOverwritten(before, fields, w.bytes, length);
    } else {
      Assoc(before, fields, PackInt(0));
    }
    Assoc(before, fields + PackInt(length), w.bytes);
  }

  // ---------------------------------------------------------------------------
  // Layout
  // ---------------------------------------------------------------------------

  /** A frame fails exactly when its body fails, with the same error. */
  lemma EncodeErrors(f: RequestFrame)
    requires f.body.Valid()
    ensures Encode(f).Failure? <==> Body(f.body).Failure?
    ensures Encode(f).Failure? ==> Encode(f).error == Body(f.body).error
  {
  }

  /**
   * A written frame is its 8-byte header, then the body: version 1, flags 0,
   * the stream id, the request's opcode, and a length equal to the body's
   * size whenever that size fits 32 bits.
   */
  lemma EncodeLayout(f: RequestFrame)
    requires f.Valid() && Body(f.body).Success?
    ensures Encode(f).Success?
    ensures Encode(f).value == Header(f.streamId, Opcode(f.body), |Body(f.body).value|) + Body(f.body).value
    ensures |Encode(f).value| == 8 + |Body(f.body).value|
    ensures Encode(f).value[..4] == [REQUEST_VERSION, 0x00, f.streamId, Opcode(f.body)]
    ensures |Body(f.body).value| < INT_LIMIT ==> Unsigned(Encode(f).value[4..8]) == |Body(f.body).value|
    ensures Encode(f).value[8..] == Body(f.body).value
  {
    var b := Body(f.body).value;
    assert Encode(f) == Success(Header(f.streamId, Opcode(f.body), |b|) + b) by {
      assert Written(f.body) == Output(b, None);
    }
    HeaderThenBody(f.streamId, Opcode(f.body), b);
  }

  /** The fields of a header followed by a body. */
  lemma HeaderThenBody(streamId: int, opcode: byte, b: Bytes)
    requires 0 <= streamId <= 127
    ensures var out := Header(streamId, opcode, |b|) + b;
      |out| == 8 + |b| && out[..4] == [REQUEST_VERSION, 0x00, streamId, opcode] && out[8..] == b &&
      (|b| < INT_LIMIT ==> Unsigned(out[4..8]) == |b|)
  {
    var h := Header(streamId, opcode, |b|);
    assert (h + b)[..4] == [REQUEST_VERSION, 0x00, streamId, opcode];
    assert (h + b)[4..8] == PackInt(|b|) by {
      assert (h + b)[4..8] == h[4..];
    }
    assert (h + b)[8..] == b;
  }

  // ---------------------------------------------------------------------------
  // Reading a frame back
  // ---------------------------------------------------------------------------

  /**
   * The request frame a byte string holds: version 1, flags 0, a stream id in
   * 0..127, a length equal to the number of bytes that follow, and a body the
   * opcode's reader accepts in full.
   */
  function ParseFrame(b: Bytes, metadata: seq<ColumnSpec>): Option<RequestFrame>
  {
    if |b| < 8 || b[0] != REQUEST_VERSION || b[1] != 0x00 || b[2] > 127 then None
    else if Unsigned(b[4..8]) != |b| - 8 then None
    else match ParseBody(b[3], b[8..], metadata)
      case None => None
      case Some(r) => Some(RequestFrame(r, b[2]))
  }

  /** A byte string with a valid header and a body its opcode's reader accepts is read as that frame. */
  lemma ParseFrameOf(b: Bytes, metadata: seq<ColumnSpec>, r: Request)
    requires |b| >= 8 && b[0] == REQUEST_VERSION && b[1] == 0x00 && b[2] <= 127
    requires Unsigned(b[4..8]) == |b| - 8 && ParseBody(b[3], b[8..], metadata) == Some(r)
    ensures ParseFrame(b, metadata) == Some(RequestFrame(r, b[2]))
  {
  }

  /** Reading a written frame gives the frame back. */
  lemma FrameRoundTrip(f: RequestFrame)
    requires 0 <= f.streamId <= 127 && Encodable(f.body)
    requires f.body.Valid() && Body(f.body).Success? && |Body(f.body).value| < INT_LIMIT
    ensures f.Valid() && Encode(f).Success?
    ensures ParseFrame(Encode(f).value, MetadataOf(f.body)) == Some(f)
  {
    EncodeLayout(f);
    var out := Encode(f).value;
    assert out[0] == REQUEST_VERSION && out[1] == 0x00 && out[2] == f.streamId && out[3] == Opcode(f.body) by {
      assert out[..4][2] == out[2];
    }
    assert ParseBody(out[3], out[8..], MetadataOf(f.body)) == Some(f.body) by {
      BodyRoundTrip(f.body);
    }
    ParseFrameOf(out, MetadataOf(f.body), f.body);
  }

  // ---------------------------------------------------------------------------
  // The frames pinned by the request frame specs
  // ---------------------------------------------------------------------------

  /** A header whose stream id, opcode and length are all below 256. */
  lemma SmallHeader(streamId: int, opcode: int, length: int)
    requires 0 <= streamId < 256 && 0 <= opcode < 256 && 0 <= length < 256
    ensures Header(streamId, opcode, length) == [0x01, 0x00, streamId, opcode, 0x00, 0x00, 0x00, length]
  {
    SmallInt(length);
    assert PackChar(streamId) == [streamId] && PackChar(opcode) == [opcode];
    assert PackChar(1) == [1] && PackChar(0) == [0];
  }

  /** The frame of a request whose body is under 256 bytes, on a stream below 128. */
  lemma SmallFrame(f: RequestFrame, body: Bytes)
    requires f.Valid() && Body(f.body) == Success(body) && |body| < 256
    ensures Encode(f) == Success([0x01, 0x00, f.streamId, Opcode(f.body), 0x00, 0x00, 0x00, |body|] + body)
  {
    SmallHeader(f.streamId, Opcode(f.body), |body|);
  }

  /** OPTIONS on stream 0: the header alone, with length 0. */
  lemma OptionsFrame(f: RequestFrame)
    requires f == RequestFrame(Options, 0)
    ensures Encode(f) == Success([0x01, 0x00, 0x00, 0x05, 0x00, 0x00, 0x00, 0x00])
  {
    SmallFrame(f, []);
    assert [0x01, 0x00, 0x00, 0x05, 0x00, 0x00, 0x00, 0x00] + [] == [0x01, 0x00, 0x00, 0x05, 0x00, 0x00, 0x00, 0x00];
  }

  /** STARTUP with snappy compression: opcode 1, length 0x2b. */
  lemma SnappyStartupFrame(f: RequestFrame)
    requires f == RequestFrame(Startup(DefaultCqlVersion(), Some(Latin1("snappy"))), 0)
    ensures Encode(f) == Success([0x01, 0x00, 0x00, 0x01, 0x00, 0x00, 0x00, 0x2b] + Body(f.body).value)
  {
    SnappyStartupBody(f.body);
    SmallFrame(f, Body(f.body).value);
  }

  /** STARTUP with its defaults: opcode 1, length 0x16. */
  lemma DefaultStartupFrame(f: RequestFrame)
    requires f == RequestFrame(Startup(DefaultCqlVersion(), None), 0)
    ensures Encode(f) == Success([0x01, 0x00, 0x00, 0x01, 0x00, 0x00, 0x00, 0x16] + Body(f.body).value)
  {
    DefaultStartupBody(f.body);
    SmallFrame(f, Body(f.body).value);
  }

  /** REGISTER for two events: opcode 0x0b, length 0x22. */
  lemma RegisterFrame(f: RequestFrame)
    requires f == RequestFrame(Register([Latin1("TOPOLOGY_CHANGE"), Latin1("STATUS_CHANGE")]), 0)
    ensures Encode(f) == Success([0x01, 0x00, 0x00, 0x0b, 0x00, 0x00, 0x00, 0x22] + Body(f.body).value)
  {
    RegisterBody(f.body);
    SmallFrame(f, Body(f.body).value);
  }

  /** QUERY "USE system" at ALL: opcode 7, length 0x10. */
  lemma QueryFrame(f: RequestFrame)
    requires f == RequestFrame(Query(Latin1("USE system"), All), 0)
    ensures Encode(f) == Success([0x01, 0x00, 0x00, 0x07, 0x00, 0x00, 0x00, 0x10] + Body(f.body).value)
  {
    QueryBody(f.body);
    SmallFrame(f, Body(f.body).value);
  }

  /** PREPARE of an UPDATE: opcode 9, length 0x32. */
  lemma PrepareFrame(f: RequestFrame)
    requires f == RequestFrame(Prepare(Latin1("UPDATE users SET email = ? WHERE user_name = ?")), 0)
    ensures Encode(f) == Success([0x01, 0x00, 0x00, 0x09, 0x00, 0x00, 0x00, 0x32] + Body(f.body).value)
  {
    PrepareBody(f.body);
    SmallFrame(f, Body(f.body).value);
  }

  /** EXECUTE of ("hello", 42, "foo"): opcode 0x0a, length 0x2e. */
  lemma ExecuteFrame(f: RequestFrame)
    requires f == RequestFrame(Execute(ExampleStatementId(), ExampleColumns("varchar"), ExampleValues(), EachQuorum), 0)
    ensures Body(f.body).Success? &&
      Encode(f) == Success([0x01, 0x00, 0x00, 0x0a, 0x00, 0x00, 0x00, 0x2e] + Body(f.body).value)
  {
    ExecuteBody(f.body);
    SmallFrame(f, Body(f.body).value);
  }

  /** The stream id is header byte 2: 42 gives 0x2a, and leaving it out gives 0. */
  lemma StreamIdByte(r: Request)
    requires r == Query(Latin1("USE system"), All)
    ensures NewFrame(r, 42).Success? && Encode(NewFrame(r, 42).value).value[2] == 0x2a
    ensures NewFrame(r).Success? && Encode(NewFrame(r).value).value[2] == 0x00
  {
    QueryBody(r);
    EncodeLayout(NewFrame(r, 42).value);
    EncodeLayout(NewFrame(r).value);
  }

  /** Stream ids -1, 128 and 99999999 are refused; 0 and 127 are accepted. */
  lemma StreamIdBounds(r: Request)
    requires r == Query(Latin1("USE system"), All)
    ensures NewFrame(r, -1) == Failure(Protocol(InvalidStreamIdError))
    ensures NewFrame(r, 128) == Failure(Protocol(InvalidStreamIdError))
    ensures NewFrame(r, 99999999) == Failure(Protocol(InvalidStreamIdError))
    ensures NewFrame(r, 0).Success? && NewFrame(r, 127).Success?
  {
  }
}
