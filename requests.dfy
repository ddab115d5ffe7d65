/**
 * The request bodies a client sends: STARTUP, OPTIONS, REGISTER, QUERY,
 * PREPARE and EXECUTE, their opcodes, their byte layouts and the writer
 * that appends a body to a buffer. CREDENTIALS is not part of this model.
 */
module Requests {
  import opened Wrappers
  import opened Protocol
  import opened Encoding
  import opened TypeConverter

  /** A bound parameter's column: keyspace, table, column name and the symbol of its type. */
  datatype ColumnSpec = ColumnSpec(keyspace: Bytes, table: Bytes, column: Bytes, typeSymbol: string)

  /** One variant per request class. */
  datatype Request =
    | Startup(cqlVersion: Bytes, compression: Option<Bytes>)
    | Options
    | Register(events: seq<Bytes>)
    | Query(cql: Bytes, consistency: Consistency)
    | Prepare(cql: Bytes)
    | Execute(id: Bytes, metadata: seq<ColumnSpec>, values: seq<Value>, consistency: Consistency)
  {
    /** What the constructors guarantee: an EXECUTE request has one value per column specification. */
    predicate Valid()
    {
      Execute? ==> |metadata| == |values|
    }
  }

  /** The CQL version a STARTUP request asks for when none is given. */
  function DefaultCqlVersion(): Bytes
  {
    Latin1("3.0.0")
  }

  /** The STARTUP option naming the CQL version, "CQL_VERSION" in Latin-1. */
  function CqlVersionKey(): Bytes
  {
    [0x43, 0x51, 0x4C, 0x5F, 0x56, 0x45, 0x52, 0x53, 0x49, 0x4F, 0x4E]
  }

  /** The STARTUP option naming the compression algorithm, "COMPRESSION" in Latin-1. */
  function CompressionKey(): Bytes
  {
    [0x43, 0x4F, 0x4D, 0x50, 0x52, 0x45, 0x53, 0x53, 0x49, 0x4F, 0x4E]
  }

  /** EXECUTE's constructor: it refuses a value list that does not match the column specifications. */
  function NewExecute(id: Bytes, metadata: seq<ColumnSpec>, values: seq<Value>, consistency: Consistency): (r: Result<Request, Error>)
    ensures r.Failure? <==> |metadata| != |values|
    ensures r.Failure? ==> r.error == ArgumentError
    ensures r.Success? ==> r.value.Valid() && r.value == Execute(id, metadata, values, consistency)
  {
    if |metadata| != |values| then Failure(ArgumentError)
    else Success(Execute(id, metadata, values, consistency))
  }

  /** The opcode each request class passes to its superclass. */
  function Opcode(r: Request): (op: byte)
    ensures op in {0x01, 0x05, 0x07, 0x09, 0x0a, 0x0b}
    ensures op == 0x05 <==> r.Options?
  {
    match r
    case Startup(_, _) => 0x01
    case Options => 0x05
    case Register(_) => 0x0b
    case Query(_, _) => 0x07
    case Prepare(_) => 0x09
    case Execute(_, _, _, _) => 0x0a
  }

  /** Whether two requests are of the same class. */
  predicate SameKind(a: Request, b: Request)
  {
    (a.Startup? && b.Startup?) || (a.Options? && b.Options?) || (a.Register? && b.Register?) ||
    (a.Query? && b.Query?) || (a.Prepare? && b.Prepare?) || (a.Execute? && b.Execute?)
  }

  /** The opcode tells the request class: distinct classes never share one. */
  lemma OpcodeIdentifiesKind(a: Request, b: Request)
    ensures Opcode(a) == Opcode(b) <==> SameKind(a, b)
  {
  }

  /** STARTUP's options: CQL_VERSION first, then COMPRESSION when one is asked for. */
  function StartupOptions(cqlVersion: Bytes, compression: Option<Bytes>): (m: StringMap)
    ensures |m| == if compression.Some? then 2 else 1
    ensures m[0] == (CqlVersionKey(), cqlVersion)
    ensures compression.Some? ==> m[1] == (CompressionKey(), compression.value)
  {
    [(CqlVersionKey(), cqlVersion)] +
    (if compression.Some? then [(CompressionKey(), compression.value)] else [])
  }

  // ---------------------------------------------------------------------------
  // What writing a body puts into the buffer
  // ---------------------------------------------------------------------------

  /** The bytes a write appends, and the error it stops with, if any. */
  datatype Output = Output(bytes: Bytes, error: Option<Error>)

  /** Each bound value converted for its column's type, as a [bytes] field or an error. */
  function Fields(specs: seq<ColumnSpec>, values: seq<Value>): (fields: seq<Result<Bytes, Error>>)
    requires |specs| == |values|
    ensures |fields| == |specs|
    ensures forall i {:trigger fields[i]} :: 0 <= i < |specs| ==> fields[i] == ToBytes(specs[i].typeSymbol, values[i])
  {
    seq(|specs|, i requires 0 <= i < |specs| => ToBytes(specs[i].typeSymbol, values[i]))
  }

  /**
   * The converted values appended in order. The first one that failed stops
   * the write; what was appended before it stays in the buffer.
   */
  function WrittenFields(fields: seq<Result<Bytes, Error>>): Output
  {
    if fields == [] then Output([], None)
    else
      var n := |fields| - 1;
      var prior := WrittenFields(fields[..n]);
      if prior.error.Some? then prior
      else
        match fields[n]
        case Failure(e) => Output(prior.bytes, Some(e))
        case Success(b) => Output(prior.bytes + b, None)
  }

  /** Everything a request's `write` appends to the buffer, and the error it raises, if any. */
  function Written(r: Request): (out: Output)
    requires r.Valid()
    ensures out.error.Some? ==> r.Execute?
    ensures r.Options? ==> out.bytes == []
  {
    match r
    case Startup(version, compression) => Output(StringMapBytes(StartupOptions(version, compression)), None)
    case Options => Output([], None)
    case Register(events) => Output(StringListBytes(events), None)
    case Query(cql, consistency) => Output(LongStringBytes(cql) + ConsistencyBytes(consistency), None)
    case Prepare(cql) => Output(LongStringBytes(cql), None)
    case Execute(id, metadata, values, consistency) => WrittenExecute(id, metadata, values, consistency)
  }

  /** EXECUTE's statement id, value count and values; the consistency follows only when every value was written. */
  function WrittenExecute(id: Bytes, metadata: seq<ColumnSpec>, values: seq<Value>, consistency: Consistency): (out: Output)
    requires |metadata| == |values|
    ensures |out.bytes| >= 4 + |id| && out.bytes[..2 + |id|] == StringBytes(id)
    ensures Unsigned(out.bytes[2 + |id|..4 + |id|]) == |metadata| % SHORT_LIMIT
    ensures out.error.None? ==> out.bytes[|out.bytes| - 2..] == ConsistencyBytes(consistency)
  {
    var head := StringBytes(id) + PackShort(|metadata|);
    var vs := WrittenFields(Fields(metadata, values));
    assert (head + vs.bytes)[..2 + |id|] == StringBytes(id);
    assert (head + vs.bytes)[2 + |id|..4 + |id|] == PackShort(|metadata|);
    assert (head + vs.bytes + ConsistencyBytes(consistency))[..2 + |id|] == StringBytes(id);
    assert (head + vs.bytes + ConsistencyBytes(consistency))[2 + |id|..4 + |id|] == PackShort(|metadata|);
    if vs.error.Some? then Output(head + vs.bytes, vs.error)
    else Output(head + vs.bytes + ConsistencyBytes(consistency), None)
  }

  /** A request's body, or the error that writing it raises. */
  function Body(r: Request): (res: Result<Bytes, Error>)
    requires r.Valid()
    ensures !r.Execute? ==> res.Success?
    ensures r.Options? ==> res == Success([])
  {
    var out := Written(r);
    if out.error.Some? then Failure(out.error.value) else Success(out.bytes)
  }

  /** Writing the fields fails exactly when one of them is an error. */
  lemma {:induction false} WrittenFieldsSucceeds(fields: seq<Result<Bytes, Error>>)
    ensures WrittenFields(fields).error.None? <==> forall i :: 0 <= i < |fields| ==> fields[i].Success?
  {
    if fields != [] {
      var n := |fields| - 1;
      WrittenFieldsSucceeds(fields[..n]);
      assert forall i :: 0 <= i < n ==> fields[..n][i] == fields[i];
    }
  }

  /** A failed write stops with the first error among the fields. */
  lemma {:induction false} WrittenFieldsFirstError(fields: seq<Result<Bytes, Error>>)
    requires WrittenFields(fields).error.Some?
    ensures exists i :: (0 <= i < |fields| && fields[i] == Failure(WrittenFields(fields).error.value) &&
      (forall j :: 0 <= j < i ==> fields[j].Success?))
  {
    var n := |fields| - 1;
    var prior := WrittenFields(fields[..n]);
    assert forall i :: 0 <= i < n ==> fields[..n][i] == fields[i];
    if prior.error.Some? {
      WrittenFieldsFirstError(fields[..n]);
    } else {
      WrittenFieldsSucceeds(fields[..n]);
    }
  }

  /** One more field after a complete prefix: its bytes are appended, or its error stops the write. */
  lemma WrittenFieldsNext(fields: seq<Result<Bytes, Error>>, i: nat)
    requires i < |fields| && WrittenFields(fields[..i]).error.None?
    ensures fields[i].Success? ==> WrittenFields(fields[..i + 1]) == Output(WrittenFields(fields[..i]).bytes + fields[i].value, None)
    ensures fields[i].Failure? ==> WrittenFields(fields[..i + 1]) == Output(WrittenFields(fields[..i]).bytes, Some(fields[i].error))
  {
    assert fields[..i + 1][..i] == fields[..i];
  }

  /** Once a field fails, the fields after it change nothing: the write has stopped. */
  lemma {:induction false} WrittenFieldsStop(fields: seq<Result<Bytes, Error>>, k: nat)
    requires k <= |fields| && WrittenFields(fields[..k]).error.Some?
    ensures WrittenFields(fields) == WrittenFields(fields[..k])
    decreases |fields| - k
  {
    if k < |fields| {
      var n := |fields| - 1;
      assert fields[..n][..k] == fields[..k];
      WrittenFieldsStop(fields[..n], k);
    } else {
      assert fields[..k] == fields;
    }
  }

  /** Only EXECUTE can fail, and only on a column type it cannot write or a value of the wrong class. */
  lemma BodyErrors(r: Request)
    requires r.Valid()
    ensures Body(r).Failure? <==>
      r.Execute? && exists i :: 0 <= i < |r.metadata| && ToBytes(r.metadata[i].typeSymbol, r.values[i]).Failure?
  {
    if r.Execute? {
      ExecuteErrors(r);
    } else {
      assert Written(r).error.None?;
    }
  }

  lemma ExecuteErrors(r: Request)
    requires r.Execute? && r.Valid()
    ensures Body(r).Failure? <==>
      exists i :: 0 <= i < |r.metadata| && ToBytes(r.metadata[i].typeSymbol, r.values[i]).Failure?
  {
    var fields := Fields(r.metadata, r.values);
    assert Body(r).Failure? <==> WrittenFields(fields).error.Some?;
    assert WrittenFields(fields).error.Some? <==> exists i :: 0 <= i < |fields| && fields[i].Failure? by {
      WrittenFieldsSucceeds(fields);
    }
    assert (exists i :: 0 <= i < |fields| && fields[i].Failure?) <==>
      (exists i :: 0 <= i < |r.metadata| && ToBytes(r.metadata[i].typeSymbol, r.values[i]).Failure?)
    by {
      if i :| 0 <= i < |fields| && fields[i].Failure? {
        assert ToBytes(r.metadata[i].typeSymbol, r.values[i]).Failure?;
      }
      if i :| 0 <= i < |r.metadata| && ToBytes(r.metadata[i].typeSymbol, r.values[i]).Failure? {
        assert fields[i].Failure?;
      }
    }
  }

  /** A body names an unknown column type only when some column's symbol is outside the known types. */
  lemma UnsupportedColumnType(r: Request)
    requires r.Valid()
    ensures Body(r) == Failure(Protocol(UnsupportedColumnTypeError)) ==>
      exists i :: 0 <= i < |r.metadata| && ColumnTypeNamed(r.metadata[i].typeSymbol).None?
  {
    if r.Execute? {
      if Body(r) == Failure(Protocol(UnsupportedColumnTypeError)) {
        WrittenFieldsFirstError(Fields(r.metadata, r.values));
        var i :| 0 <= i < |r.metadata| &&
          ToBytes(r.metadata[i].typeSymbol, r.values[i]) == Failure(Protocol(UnsupportedColumnTypeError));
        assert ColumnTypeNamed(r.metadata[i].typeSymbol).None?;
      }
    }
  }

  // ---------------------------------------------------------------------------
  // The writer
  // ---------------------------------------------------------------------------

  /** Appends a request's body to the buffer; on an error the values written before it stay. */
  method WriteBody(r: Request, io: ByteBuffer) returns (err: Option<Error>)
    requires r.Valid()
    modifies io
    ensures io.bytes == old(io.bytes) + Written(r).bytes
    ensures err == Written(r).error
  {
    match r
    case Startup(version, compression) =>
      io.AppendStringMap(StartupOptions(version, compression));
      err := None;
    case Options =>
      err := None;
    case Register(events) =>
      io.AppendStringList(events);
      err := None;
    case Query(cql, consistency) =>
      io.AppendLongString(cql);
      io.AppendConsistency(consistency);
      Assoc(old(io.bytes), LongStringBytes(cql), ConsistencyBytes(consistency));
      err := None;
    case Prepare(cql) =>
      io.AppendLongString(cql);
      err := None;
    case Execute(id, metadata, values, consistency) =>
      io.AppendString(id);
      io.AppendShort(|metadata|);
      Assoc(old(io.bytes), StringBytes(id), PackShort(|metadata|));
      ghost var start := io.bytes;
      err := WriteValues(metadata, values, io);
      var vs := WrittenFields(Fields(metadata, values));
      Assoc(old(io.bytes), StringBytes(id) + PackShort(|metadata|), vs.bytes);
      if err.None? {
        io.AppendConsistency(consistency);
        Assoc(old(io.bytes), StringBytes(id) + PackShort(|metadata|) + vs.bytes, ConsistencyBytes(consistency));
      }
  }

  /** Appends each bound value in turn, stopping at the first one that cannot be written. */
  method WriteValues(specs: seq<ColumnSpec>, values: seq<Value>, io: ByteBuffer) returns (err: Option<Error>)
    requires |specs| == |values|
    modifies io
    ensures io.bytes == old(io.bytes) + WrittenFields(Fields(specs, values)).bytes
    ensures err == WrittenFields(Fields(specs, values)).error
  {
    ghost var fields := Fields(specs, values);
    var i := 0;
    while i < |specs|
      invariant 0 <= i <= |specs|
      invariant WrittenFields(fields[..i]).error.None?
      invariant io.bytes == old(io.bytes) + WrittenFields(fields[..i]).bytes
    {
      ghost var done := WrittenFields(fields[..i]).bytes;
      WrittenFieldsNext(fields, i);
      var e := WriteValue(io, specs[i].typeSymbol, values[i]);
      if e.Some? {
        WrittenFieldsStop(fields, i + 1);
        return e;
      }
      Assoc(old(io.bytes), done, fields[i].value);
      i := i + 1;
    }
    assert fields[..i] == fields;
    err := None;
  }

  // ---------------------------------------------------------------------------
  // Reading a body back: what the server does with it
  // ---------------------------------------------------------------------------

  /** The bound values read back as [bytes] fields, decoded by their columns' types. */
  function ReadValues(specs: seq<ColumnSpec>, b: Bytes): Option<(seq<Value>, Bytes)>
  {
    if specs == [] then Some(([], b))
    else
      var n := |specs| - 1;
      var prior := ReadValues(specs[..n], b);
      var t := ColumnTypeNamed(specs[n].typeSymbol);
      if prior.None? || t.None? then None
      else
        var field := DecodeField(t.value, prior.value.1);
        if field.None? then None else Some((prior.value.0 + [field.value.0], field.value.1))
  }

  /** A STARTUP body read back: CQL_VERSION, then optionally COMPRESSION, and nothing else. */
  function ParseStartup(b: Bytes): Option<Request>
  {
    var read := ReadStringMap(b);
    if read.None? || read.value.1 != [] then None
    else
      var m := read.value.0;
      if |m| == 1 && m[0].0 == CqlVersionKey() then Some(Startup(m[0].1, None))
      else if |m| == 2 && m[0].0 == CqlVersionKey() && m[1].0 == CompressionKey() then
        Some(Startup(m[0].1, Some(m[1].1)))
      else None
  }

  function ParseRegister(b: Bytes): Option<Request>
  {
    var events := ReadStringList(b);
    if events.None? || events.value.1 != [] then None else Some(Register(events.value.0))
  }

  function ParseQuery(b: Bytes): Option<Request>
  {
    var cql := ReadLongString(b);
    if cql.None? then None
    else
      var c := ReadConsistency(cql.value.1);
      if c.None? || c.value.1 != [] then None else Some(Query(cql.value.0, c.value.0))
  }

  function ParsePrepare(b: Bytes): Option<Request>
  {
    var cql := ReadLongString(b);
    if cql.None? || cql.value.1 != [] then None else Some(Prepare(cql.value.0))
  }

  /** An EXECUTE body read back with the column specifications the server holds for the statement. */
  function ParseExecute(b: Bytes, metadata: seq<ColumnSpec>): Option<Request>
  {
    var id := ReadString(b);
    if id.None? then None
    else
      var count := ReadShort(id.value.1);
      if count.None? || count.value.0 != |metadata| then None
      else
        var vs := ReadValues(metadata, count.value.1);
        if vs.None? then None
        else
          var c := ReadConsistency(vs.value.1);
          if c.None? || c.value.1 != [] then None
          else Some(Execute(id.value.0, metadata, vs.value.0, c.value.0))
  }

  /** A body read back by the parser its opcode selects. */
  function ParseBody(opcode: int, b: Bytes, metadata: seq<ColumnSpec>): Option<Request>
  {
    if opcode == 0x01 then ParseStartup(b)
    else if opcode == 0x05 then (if b == [] then Some(Options) else None)
    else if opcode == 0x0b then ParseRegister(b)
    else if opcode == 0x07 then ParseQuery(b)
    else if opcode == 0x09 then ParsePrepare(b)
    else if opcode == 0x0a then ParseExecute(b, metadata)
    else None
  }

  /** The requests whose every field fits its length prefix and whose every value its column's type. */
  predicate Encodable(r: Request)
  {
    match r
    case Startup(version, compression) =>
      ShortString(version) && (compression.Some? ==> ShortString(compression.value))
    case Options => true
    case Register(events) =>
      |events| < SHORT_LIMIT && forall i :: 0 <= i < |events| ==> ShortString(events[i])
    case Query(cql, _) => LongString(cql)
    case Prepare(cql) => LongString(cql)
    case Execute(id, metadata, values, _) =>
      ShortString(id) && |metadata| == |values| && |metadata| < SHORT_LIMIT &&
      ValuesEncodable(metadata, values)
  }

  predicate ValuesEncodable(specs: seq<ColumnSpec>, values: seq<Value>)
    requires |specs| == |values|
  {
    forall i :: 0 <= i < |specs| ==>
      ColumnTypeNamed(specs[i].typeSymbol).Some? &&
      Representable(ColumnTypeNamed(specs[i].typeSymbol).value, values[i])
  }

  /** The column specifications a reader needs: an EXECUTE's own, none for the others. */
  function MetadataOf(r: Request): seq<ColumnSpec>
  {
    if r.Execute? then r.metadata else []
  }

  /** A non-empty sequence is its front followed by its last element: a sequence identity that keeps proofs cheap. */
  lemma LastSplit<T>(s: seq<T>)
    requires s != []
    ensures s[..|s| - 1] + [s[|s| - 1]] == s
  {
  }

  /** Reading back the fields written for encodable columns gives the values back. */
  lemma {:induction false} ValuesRoundTrip(specs: seq<ColumnSpec>, values: seq<Value>, fields: seq<Result<Bytes, Error>>, rest: Bytes)
    requires |specs| == |values| == |fields| && ValuesEncodable(specs, values)
    requires forall i :: 0 <= i < |fields| ==> fields[i] == ToBytes(specs[i].typeSymbol, values[i])
    ensures WrittenFields(fields).error.None?
    ensures ReadValues(specs, WrittenFields(fields).bytes + rest) == Some((values, rest))
  {
    if specs != [] {
      var n := |specs| - 1;
      assert ValuesEncodable(specs[..n], values[..n]) by {
        assert forall i :: 0 <= i < n ==> specs[..n][i] == specs[i] && values[..n][i] == values[i];
      }
      assert forall i :: 0 <= i < n ==> fields[..n][i] == fields[i];
      var t := ColumnTypeNamed(specs[n].typeSymbol).value;
      assert fields[n] == ToBytes(TypeSymbol(t), values[n]);
      var field := fields[n].value;
      assert DecodeField(t, field + rest) == Some((values[n], rest)) by {
        ToBytesRoundTrip(t, values[n], rest);
      }
      var prior := WrittenFields(fields[..n]);
      ValuesRoundTrip(specs[..n], values[..n], fields[..n], field + rest);
      assert WrittenFields(fields) == Output(prior.bytes + field, None);
      var whole := WrittenFields(fields).bytes + rest;
      assert whole == prior.bytes + (field + rest) by {
        Assoc(prior.bytes, field, rest);
      }
      assert ReadValues(specs[..n], whole) == Some((values[..n], field + rest));
      LastSplit(values);
    } else {
      assert WrittenFields(fields).bytes + rest == rest;
    }
  }

  /** An EXECUTE whose every value converts: the id, the value count, the values, then the consistency (an unfolding of `Body`). */
  lemma ExecuteWritten(id: Bytes, metadata: seq<ColumnSpec>, values: seq<Value>, consistency: Consistency)
    requires |metadata| == |values| && WrittenFields(Fields(metadata, values)).error.None?
    ensures Body(Execute(id, metadata, values, consistency)) ==
      Success(StringBytes(id) + PackShort(|metadata|) + WrittenFields(Fields(metadata, values)).bytes +
        ConsistencyBytes(consistency))
  {
    ExecuteSucceedsWith(Execute(id, metadata, values, consistency), WrittenFields(Fields(metadata, values)));
  }

  /** An EXECUTE body whose fields all convert is the id, the count, the fields and the consistency (an unfolding of `Body`). */
  lemma ExecuteSucceedsWith(r: Request, vs: Output)
    requires r.Execute? && r.Valid()
    requires vs == WrittenFields(Fields(r.metadata, r.values)) && vs.error.None?
    ensures Body(r) == Success(StringBytes(r.id) + PackShort(|r.metadata|) + vs.bytes + ConsistencyBytes(r.consistency))
  {
    assert Written(r) == WrittenExecute(r.id, r.metadata, r.values, r.consistency);
  }

  /** Every encodable request is valid, writes without error, and reads back as itself. */
  lemma BodyRoundTrip(r: Request)
    requires Encodable(r)
    ensures r.Valid() && Body(r).Success?
    ensures ParseBody(Opcode(r), Body(r).value, MetadataOf(r)) == Some(r)
  {
    if r.Startup? {
      StartupRoundTrip(r);
    } else if r.Options? {
      assert Body(r) == Success([]);
    } else if r.Register? {
      RegisterRoundTrip(r);
    } else if r.Query? {
      QueryRoundTrip(r);
    } else if r.Prepare? {
      PrepareRoundTrip(r);
    } else {
      ExecuteRoundTrip(r);
    }
  }

  /** STARTUP's options come back as a map holding CQL_VERSION and, when given, COMPRESSION. */
  lemma StartupRoundTrip(r: Request)
    requires r.Startup? && Encodable(r)
    ensures Body(r).Success? && ParseBody(Opcode(r), Body(r).value, MetadataOf(r)) == Some(r)
  {
    var m := StartupOptions(r.cqlVersion, r.compression);
    var b := StringMapBytes(m);
    assert Body(r) == Success(b);
    assert ReadStringMap(b) == Some((m, [])) by {
      StringMapRoundTrip(m, []);
      assert b + [] == b;
    }
    if r.compression.None? {
      assert |m| == 1;
    } else {
      assert |m| == 2;
    }
    assert ParseStartup(b) == Some(r);
  }

  lemma RegisterRoundTrip(r: Request)
    requires r.Register? && Encodable(r)
    ensures Body(r).Success? && ParseBody(Opcode(r), Body(r).value, MetadataOf(r)) == Some(r)
  {
    var b := StringListBytes(r.events);
    assert Body(r) == Success(b);
    StringListRoundTrip(r.events, []);
    assert b + [] == b;
    assert ParseRegister(b) == Some(r);
  }

  lemma QueryRoundTrip(r: Request)
    requires r.Query? && Encodable(r)
    ensures Body(r).Success? && ParseBody(Opcode(r), Body(r).value, MetadataOf(r)) == Some(r)
  {
    var c := ConsistencyBytes(r.consistency);
    var b := LongStringBytes(r.cql) + c;
    assert Body(r) == Success(b);
    LongStringRoundTrip(r.cql, c);
    ConsistencyRoundTrip(r.consistency, []);
    assert c + [] == c;
    assert ParseQuery(b) == Some(r);
  }

  lemma PrepareRoundTrip(r: Request)
    requires r.Prepare? && Encodable(r)
    ensures Body(r).Success? && ParseBody(Opcode(r), Body(r).value, MetadataOf(r)) == Some(r)
  {
    var b := LongStringBytes(r.cql);
    assert Body(r) == Success(b);
    LongStringRoundTrip(r.cql, []);
    assert b + [] == b;
    assert ParsePrepare(b) == Some(r);
  }

  /** An encodable EXECUTE writes every value, and its values read back by their columns' types. */
  lemma ExecuteLayout(r: Request)
    requires r.Execute? && Encodable(r)
    ensures WrittenFields(Fields(r.metadata, r.values)).error.None?
    ensures ReadValues(r.metadata, WrittenFields(Fields(r.metadata, r.values)).bytes + ConsistencyBytes(r.consistency))
      == Some((r.values, ConsistencyBytes(r.consistency)))
    ensures Body(r) == Success(StringBytes(r.id) + (PackShort(|r.metadata|) +
      (WrittenFields(Fields(r.metadata, r.values)).bytes + ConsistencyBytes(r.consistency))))
  {
    var fields := Fields(r.metadata, r.values);
    var c := ConsistencyBytes(r.consistency);
    var vs := WrittenFields(fields).bytes;
    ValuesRoundTrip(r.metadata, r.values, fields, c);
    var head := StringBytes(r.id) + PackShort(|r.metadata|);
    assert Written(r) == Output(head + vs + c, None);
    Assoc(head, vs, c);
    Assoc(StringBytes(r.id), PackShort(|r.metadata|), vs + c);
  }

  /** EXECUTE's values are read back by the column types the statement's metadata names. */
  lemma ExecuteRoundTrip(r: Request)
    requires r.Execute? && Encodable(r)
    ensures r.Valid() && Body(r).Success? && ParseBody(Opcode(r), Body(r).value, MetadataOf(r)) == Some(r)
  {
    ExecuteLayout(r);
    var c := ConsistencyBytes(r.consistency);
    var vs := WrittenFields(Fields(r.metadata, r.values)).bytes;
    var afterId := PackShort(|r.metadata|) + (vs + c);
    var b := StringBytes(r.id) + afterId;
    assert ReadString(b) == Some((r.id, afterId)) by {
      StringRoundTrip(r.id, afterId);
    }
    assert ReadShort(afterId) == Some((|r.metadata|, vs + c)) by {
      ShortRoundTrip(|r.metadata|, vs + c);
    }
    assert ReadConsistency(c) == Some((r.consistency, [])) by {
      ConsistencyRoundTrip(r.consistency, []);
      assert c + [] == c;
    }
    ParseExecuteOf(b, afterId, vs + c, c, r);
    assert Opcode(r) == 0x0a && MetadataOf(r) == r.metadata;
    ParseExecuteSelected(b, r.metadata);
  }

  lemma ParseExecuteSelected(b: Bytes, metadata: seq<ColumnSpec>)
    ensures ParseBody(0x0a, b, metadata) == ParseExecute(b, metadata)
  {
  }

  /** The EXECUTE parser, given what each of its readers takes off the body. */
  lemma ParseExecuteOf(b: Bytes, afterId: Bytes, afterCount: Bytes, c: Bytes, r: Request)
    requires r.Execute?
    requires ReadString(b) == Some((r.id, afterId))
    requires ReadShort(afterId) == Some((|r.metadata|, afterCount))
    requires ReadValues(r.metadata, afterCount) == Some((r.values, c))
    requires ReadConsistency(c) == Some((r.consistency, []))
    ensures ParseExecute(b, r.metadata) == Some(r)
  {
  }

  // ---------------------------------------------------------------------------
  // The bodies pinned by the request frame specs
  // ---------------------------------------------------------------------------

  /** The option names are the Latin-1 bytes of their text. */
  lemma OptionKeysText()
    ensures CqlVersionKey() == Latin1("CQL_VERSION")
    ensures CompressionKey() == Latin1("COMPRESSION")
  {
  }

  /** The entries of a one- or two-entry string map, entry by entry. */
  lemma ShortEntries(m: StringMap)
    requires 1 <= |m| <= 2
    ensures |m| == 1 ==> Entries(m) == StringBytes(m[0].0) + StringBytes(m[0].1)
    ensures |m| == 2 ==> Entries(m) == StringBytes(m[0].0) + StringBytes(m[0].1) + (StringBytes(m[1].0) + StringBytes(m[1].1))
  {
    var tail := m[1..];
    if |m| == 1 {
      assert tail == [];
      assert Entries(m) == StringBytes(m[0].0) + StringBytes(m[0].1) + [];
    } else {
      assert tail[0] == m[1] && tail[1..] == [];
      assert Entries(tail) == StringBytes(m[1].0) + StringBytes(m[1].1) + [];
    }
  }

  /** A STARTUP body is a [string map] holding CQL_VERSION, then COMPRESSION when one is named. */
  lemma StartupLayout(version: Bytes, compression: Option<Bytes>)
    ensures compression.None? ==>
      Body(Startup(version, compression)) ==
        Success(PackShort(1) + StringBytes(CqlVersionKey()) + StringBytes(version))
    ensures compression.Some? ==>
      Body(Startup(version, compression)) ==
        Success(PackShort(2) + StringBytes(CqlVersionKey()) + StringBytes(version) +
          StringBytes(CompressionKey()) + StringBytes(compression.value))
  {
    var m: StringMap := StartupOptions(version, compression);
    var first := StringBytes(CqlVersionKey()) + StringBytes(version);
    assert Body(Startup(version, compression)) == Success(PackShort(|m|) + Entries(m));
    ShortEntries(m);
    if compression.None? {
      Assoc(PackShort(1), StringBytes(CqlVersionKey()), StringBytes(version));
    } else {
      var p := PackShort(2);
      var second := StringBytes(CompressionKey()) + StringBytes(compression.value);
      Assoc(p, StringBytes(CqlVersionKey()), StringBytes(version));
      Assoc(p + first, StringBytes(CompressionKey()), StringBytes(compression.value));
      Assoc(p, first, second);
    }
  }

  /** STARTUP with no arguments: CQL_VERSION 3.0.0 only, 0x16 bytes. */
  lemma DefaultStartupBody(r: Request)
    requires r == Startup(DefaultCqlVersion(), None)
    ensures Body(r) ==
      Success([0x00, 0x01] + ([0x00, 0x0B] + CqlVersionKey()) + ([0x00, 0x05] + DefaultCqlVersion()))
    ensures |Body(r).value| == 0x16
  {
    StartupLayout(DefaultCqlVersion(), None);
    SmallShort(1);
    ShortStringLayout(CqlVersionKey());
    ShortStringLayout(DefaultCqlVersion());
  }

  /** STARTUP asking for snappy compression: a second entry, 0x2b bytes. */
  lemma SnappyStartupBody(r: Request)
    requires r == Startup(DefaultCqlVersion(), Some(Latin1("snappy")))
    ensures Body(r) ==
      Success([0x00, 0x02] + ([0x00, 0x0B] + CqlVersionKey()) + ([0x00, 0x05] + DefaultCqlVersion()) +
        ([0x00, 0x0B] + CompressionKey()) + ([0x00, 0x06] + Latin1("snappy")))
    ensures |Body(r).value| == 0x2b
  {
    StartupLayout(DefaultCqlVersion(), Some(Latin1("snappy")));
    SmallShort(2);
    ShortStringLayout(CqlVersionKey());
    ShortStringLayout(DefaultCqlVersion());
    ShortStringLayout(CompressionKey());
    ShortStringLayout(Latin1("snappy"));
  }

  /** REGISTER for topology and status changes: a [string list] of two, 0x22 bytes. */
  lemma RegisterBody(r: Request)
    requires r == Register([Latin1("TOPOLOGY_CHANGE"), Latin1("STATUS_CHANGE")])
    ensures Body(r) ==
      Success([0x00, 0x02] + ([0x00, 0x0F] + Latin1("TOPOLOGY_CHANGE")) + ([0x00, 0x0D] + Latin1("STATUS_CHANGE")))
    ensures |Body(r).value| == 0x22
  {
    var events := [Latin1("TOPOLOGY_CHANGE"), Latin1("STATUS_CHANGE")];
    assert Strings(events) == StringBytes(events[0]) + (StringBytes(events[1]) + Strings([])) by {
      var tail: seq<Bytes> := events[1..];
      assert tail == [events[1]];
      assert |tail[1..]| == 0;
    }
    SmallShort(2);
    ShortStringLayout(events[0]);
    ShortStringLayout(events[1]);
    var first := StringBytes(events[0]);
    var second := StringBytes(events[1]);
    assert Body(Register(events)) == Success(PackShort(2) + (first + (second + [])));
    assert second + [] == second;
    assert PackShort(2) + (first + second) == [0x00, 0x02] + first + second;
  }

  /** QUERY "USE system" at ALL: a [long string] then the ordinal 5, 0x10 bytes. */
  lemma QueryBody(r: Request)
    requires r == Query(Latin1("USE system"), All)
    ensures Body(r) ==
      Success([0x00, 0x00, 0x00, 0x0A] + Latin1("USE system") + [0x00, 0x05])
    ensures |Body(r).value| == 0x10
  {
    ShortLongStringLayout(Latin1("USE system"));
    SmallShort(5);
  }

  /** PREPARE of an UPDATE statement: a [long string] alone, 0x32 bytes. */
  lemma PrepareBody(r: Request)
    requires r == Prepare(Latin1("UPDATE users SET email = ? WHERE user_name = ?"))
    ensures Body(r) ==
      Success([0x00, 0x00, 0x00, 0x2E] + Latin1("UPDATE users SET email = ? WHERE user_name = ?"))
    ensures |Body(r).value| == 0x32
  {
    ShortLongStringLayout(Latin1("UPDATE users SET email = ? WHERE user_name = ?"));
  }

  /** The 16-byte statement id of the EXECUTE examples. */
  function ExampleStatementId(): Bytes
  {
    [0xCA, 0x48, 0x7F, 0x1E, 0x7A, 0x82, 0xD2, 0x3C, 0x4E, 0x8A, 0xF3, 0x35, 0x51, 0x71, 0xA5, 0x2F]
  }

  /** Three columns of ks.tbl: varchar, int, and a third whose type symbol is given. */
  function ExampleColumns(thirdType: string): seq<ColumnSpec>
  {
    [ColumnSpec(Latin1("ks"), Latin1("tbl"), Latin1("col1"), "varchar"),
     ColumnSpec(Latin1("ks"), Latin1("tbl"), Latin1("col2"), "int"),
     ColumnSpec(Latin1("ks"), Latin1("tbl"), Latin1("col3"), thirdType)]
  }

  function ExampleValues(): seq<Value>
  {
    [Str(Latin1("hello")), Integer(42), Str(Latin1("foo"))]
  }

  lemma VarcharField(s: Bytes)
    requires |s| < 256
    ensures ToBytes("varchar", Str(s)) == Success([0x00, 0x00, 0x00, |s|] + s)
  {
    assert ColumnTypeNamed("varchar") == Some(Varchar);
    SmallInt(|s|);
  }

  lemma IntField()
    ensures ToBytes("int", Integer(42)) == Success([0x00, 0x00, 0x00, 0x04] + [0x00, 0x00, 0x00, 0x2A])
  {
    assert ColumnTypeNamed("int") == Some(Int);
    SmallInt(4);
    SmallInt(42);
  }

  /** Three fields written one after the other. */
  lemma WrittenThree(a: Result<Bytes, Error>, b: Result<Bytes, Error>, c: Result<Bytes, Error>)
    ensures a.Success? && b.Success? && c.Success? ==>
      WrittenFields([a, b, c]) == Output(a.value + b.value + c.value, None)
    ensures a.Success? && b.Success? && c.Failure? ==>
      WrittenFields([a, b, c]) == Output(a.value + b.value, Some(c.error))
  {
    var fields := [a, b, c];
    assert fields[..2] == [a, b];
    assert [a, b][..1] == [a];
    assert |[a][..0]| == 0;
    if a.Success? && b.Success? {
      assert WrittenFields([a]) == Output([] + a.value, None);
      assert [] + a.value == a.value;
      assert WrittenFields([a, b]) == Output(a.value + b.value, None);
    }
  }

  lemma ExampleFields()
    ensures Fields(ExampleColumns("varchar"), ExampleValues()) == [
      Success([0x00, 0x00, 0x00, 0x05] + Latin1("hello")),
      Success([0x00, 0x00, 0x00, 0x04] + [0x00, 0x00, 0x00, 0x2A]),
      Success([0x00, 0x00, 0x00, 0x03] + Latin1("foo"))]
  {
    VarcharField(Latin1("hello"));
    VarcharField(Latin1("foo"));
    IntField();
  }

  /** The same, for sequences known to be the example's columns and values. */
  lemma ExampleFieldsOf(metadata: seq<ColumnSpec>, values: seq<Value>)
    requires metadata == ExampleColumns("varchar") && values == ExampleValues()
    ensures Fields(metadata, values) == [
      Success([0x00, 0x00, 0x00, 0x05] + Latin1("hello")),
      Success([0x00, 0x00, 0x00, 0x04] + [0x00, 0x00, 0x00, 0x2A]),
      Success([0x00, 0x00, 0x00, 0x03] + Latin1("foo"))]
  {
    ExampleFields();
  }

  /** An EXECUTE of three values that all convert, with a statement id shorter than 256 bytes. */
  lemma ExecuteThreeLayout(id: Bytes, metadata: seq<ColumnSpec>, values: seq<Value>, consistency: Consistency,
                           a: Bytes, b: Bytes, c: Bytes)
    requires |id| < 256 && |metadata| == |values| == 3
    requires Fields(metadata, values) == [Success(a), Success(b), Success(c)]
    ensures Body(Execute(id, metadata, values, consistency)) ==
      Success([0x00, |id|] + id + [0x00, 0x03] + a + b + c + ConsistencyBytes(consistency))
  {
    var tail := ConsistencyBytes(consistency);
    assert Body(Execute(id, metadata, values, consistency)) ==
      Success(StringBytes(id) + PackShort(3) + (a + b + c) + tail) by {
      WrittenThree(Success(a), Success(b), Success(c));
      ExecuteWritten(id, metadata, values, consistency);
    }
    assert StringBytes(id) + PackShort(3) == [0x00, |id|] + id + [0x00, 0x03] by {
      ShortStringLayout(id);
      SmallShort(3);
    }
    var head := [0x00, |id|] + id + [0x00, 0x03];
    Assoc(head, a, b);
    Assoc(head, a + b, c);
  }

  /** EXECUTE of ("hello", 42, "foo") at EACH_QUORUM: 0x2e bytes. */
  lemma ExecuteBody(r: Request)
    requires r == Execute(ExampleStatementId(), ExampleColumns("varchar"), ExampleValues(), EachQuorum)
    ensures Body(r) ==
      Success([0x00, 0x10] + ExampleStatementId() + [0x00, 0x03] +
        ([0x00, 0x00, 0x00, 0x05] + Latin1("hello")) +
        ([0x00, 0x00, 0x00, 0x04] + [0x00, 0x00, 0x00, 0x2A]) +
        ([0x00, 0x00, 0x00, 0x03] + Latin1("foo")) +
        [0x00, 0x07])
    ensures |Body(r).value| == 0x2e
  {
    var a: Bytes := [0x00, 0x00, 0x00, 0x05] + Latin1("hello");
    var b: Bytes := [0x00, 0x00, 0x00, 0x04] + [0x00, 0x00, 0x00, 0x2A];
    var c: Bytes := [0x00, 0x00, 0x00, 0x03] + Latin1("foo");
    assert Fields(r.metadata, r.values) == [Success(a), Success(b), Success(c)] by {
      ExampleFieldsOf(r.metadata, r.values);
    }
    assert ConsistencyBytes(r.consistency) == [0x00, 0x07] by {
      SmallShort(7);
    }
    ExecuteThreeLayout(r.id, r.metadata, r.values, r.consistency, a, b, c);
  }

  /** EXECUTE refuses two values for three columns. */
  lemma ExecuteArityMismatch()
    ensures NewExecute(ExampleStatementId(), ExampleColumns("varchar"), [Str(Latin1("hello")), Integer(42)], EachQuorum)
      == Failure(ArgumentError)
  {
  }

  /** An EXECUTE whose first two values convert and whose third fails reports that failure. */
  lemma ExecuteThirdFails(id: Bytes, metadata: seq<ColumnSpec>, values: seq<Value>, consistency: Consistency,
                          a: Bytes, b: Bytes, e: Error)
    requires |metadata| == |values| == 3
    requires Fields(metadata, values) == [Success(a), Success(b), Failure(e)]
    ensures Body(Execute(id, metadata, values, consistency)) == Failure(e)
  {
    WrittenThree(Success(a), Success(b), Failure(e));
    ExecuteFailsWith(Execute(id, metadata, values, consistency), e);
  }

  /** An EXECUTE body fails with the error its fields stop at (an unfolding of `Body`). */
  lemma ExecuteFailsWith(r: Request, e: Error)
    requires r.Execute? && r.Valid()
    requires WrittenFields(Fields(r.metadata, r.values)).error == Some(e)
    ensures Body(r) == Failure(e)
  {
    assert Written(r) == WrittenExecute(r.id, r.metadata, r.values, r.consistency);
  }

  /** A third column of type :imaginary fails the write with UnsupportedColumnTypeError. */
  lemma ExecuteUnsupportedType(r: Request)
    requires r == Execute(ExampleStatementId(), ExampleColumns("imaginary"), ExampleValues(), EachQuorum)
    ensures Body(r) == Failure(Protocol(UnsupportedColumnTypeError))
  {
    VarcharField(Latin1("hello"));
    IntField();
    UnsupportedVector(ExampleValues()[2]);
    var fields := Fields(r.metadata, r.values);
    assert fields == [fields[0], fields[1], Failure(Protocol(UnsupportedColumnTypeError))];
    ExecuteThirdFails(r.id, r.metadata, r.values, r.consistency, fields[0].value, fields[1].value,
      Protocol(UnsupportedColumnTypeError));
  }
}
