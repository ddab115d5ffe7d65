/**
 * The native type converter used by EXECUTE: how a bound value is written
 * for the column type its metadata declares.
 */
module TypeConverter {
  import opened Wrappers
  import opened Protocol
  import opened Encoding

  /** The column types a value can be bound to. */
  datatype ColumnType =
    | Ascii | Bigint | Blob | Boolean | Counter | Decimal | Double | Float
    | Inet | Int | Text | Timestamp | Timeuuid | Uuid | Varchar | Varint

  /** The Ruby symbol that names a column type in column metadata. */
  function TypeSymbol(t: ColumnType): string
  {
    match t
    case Ascii => "ascii"
    case Bigint => "bigint"
    case Blob => "blob"
    case Boolean => "boolean"
    case Counter => "counter"
    case Decimal => "decimal"
    case Double => "double"
    case Float => "float"
    case Inet => "inet"
    case Int => "int"
    case Text => "text"
    case Timestamp => "timestamp"
    case Timeuuid => "timeuuid"
    case Uuid => "uuid"
    case Varchar => "varchar"
    case Varint => "varint"
  }

  /** The column type a metadata symbol names; None for any other symbol, such as :imaginary. */
  function ColumnTypeNamed(symbol: string): (r: Option<ColumnType>)
    ensures r.Some? ==> TypeSymbol(r.value) == symbol
    ensures r.None? ==> forall t: ColumnType :: TypeSymbol(t) != symbol
  {
    if symbol == "ascii" then Some(Ascii)
    else if symbol == "bigint" then Some(Bigint)
    else if symbol == "blob" then Some(Blob)
    else if symbol == "boolean" then Some(Boolean)
    else if symbol == "counter" then Some(Counter)
    else if symbol == "decimal" then Some(Decimal)
    else if symbol == "double" then Some(Double)
    else if symbol == "float" then Some(Float)
    else if symbol == "inet" then Some(Inet)
    else if symbol == "int" then Some(Int)
    else if symbol == "text" then Some(Text)
    else if symbol == "timestamp" then Some(Timestamp)
    else if symbol == "timeuuid" then Some(Timeuuid)
    else if symbol == "uuid" then Some(Uuid)
    else if symbol == "varchar" then Some(Varchar)
    else if symbol == "varint" then Some(Varint)
    else None
  }

  /** Every type is found again under its own symbol. */
  lemma TypeSymbolRoundTrip(t: ColumnType)
    ensures ColumnTypeNamed(TypeSymbol(t)) == Some(t)
  {
    var r := ColumnTypeNamed(TypeSymbol(t));
    assert r.Some?;
    TypeSymbolInjective(r.value, t);
  }

  lemma TypeSymbolInjective(t: ColumnType, u: ColumnType)
    requires TypeSymbol(t) == TypeSymbol(u)
    ensures t == u
  {
  }

  /** An IP address in network byte order: 4 bytes for IPv4, 16 for IPv6. */
  type Address = a: Bytes | |a| == 4 || |a| == 16 witness [0, 0, 0, 0]

  /** A UUID's 16 bytes in network byte order. */
  type UuidBytes = u: Bytes | |u| == 16 witness [0, 0, 0, 0, 0, 0, 0, 0, 0, 0, 0, 0, 0, 0, 0, 0]

  /**
   * A bound value, by its Ruby class: nil, String, Integer, true/false,
   * BigDecimal as (unscaled, scale), a Float as the IEEE-754 bit pattern of
   * its column's width, IPAddr and Uuid as their bytes.
   */
  datatype Value =
    | Nil
    | Str(s: Bytes)
    | Integer(i: int)
    | Bool(b: bool)
    | BigDecimal(unscaled: int, scale: int)
    | FloatBits(bits: int)
    | IpAddr(address: Address)
    | UuidValue(uuid: UuidBytes)

  // ---------------------------------------------------------------------------
  // Varint: minimal big-endian two's complement
  // ---------------------------------------------------------------------------

  function Magnitude(n: int): nat
  {
    if n >= 0 then n else -n - 1
  }

  /** The varint encoding: one byte when the value fits one, else the higher bytes then the low byte. */
  function VarintBytes(n: int): (r: Bytes)
    ensures |r| >= 1 && r[|r| - 1] == n % 256
    decreases Magnitude(n)
  {
    if -128 <= n < 128 then [n % 256] else VarintBytes(n / 256) + [n % 256]
  }

  /** A varint is the value's big-endian field of just the width it needs. */
  lemma {:induction false} VarintIsBigEndian(n: int)
    ensures VarintBytes(n) == BigEndian(n, |VarintBytes(n)|)
    ensures FitsSigned(n, |VarintBytes(n)|)
    ensures |VarintBytes(n)| > 1 ==> !FitsSigned(n, |VarintBytes(n)| - 1)
    decreases Magnitude(n)
  {
    if -128 <= n < 128 {
      assert BigEndian(n, 1) == BigEndian(n / 256, 0) + [n % 256];
    } else {
      var k := |VarintBytes(n / 256)|;
      VarintIsBigEndian(n / 256);
      assert VarintBytes(n) == VarintBytes(n / 256) + [n % 256];
      assert BigEndian(n, k + 1) == BigEndian(n / 256, k) + [n % 256];
      assert Half(k + 1) == 256 * Half(k);
      if k > 1 {
        assert Half(k) == 256 * Half(k - 1);
      }
    }
  }

  /** Decoding a varint gives back the integer, however large or negative. */
  lemma VarintRoundTrip(n: int)
    ensures Signed(VarintBytes(n)) == n
  {
    VarintIsBigEndian(n);
    SignedBigEndian(n, |VarintBytes(n)|);
  }

  /** No shorter non-empty byte string decodes to the same integer: the encoding is minimal. */
  lemma VarintMinimal(n: int, b: Bytes)
    requires 0 < |b| < |VarintBytes(n)|
    ensures Signed(b) != n
  {
    VarintIsBigEndian(n);
    SignedFits(b);
    if Signed(b) == n {
      FitsSignedMonotone(n, |b|, |VarintBytes(n)| - 1);
    }
  }

  /** Zero is the single byte 0x00. */
  lemma VarintZero()
    ensures VarintBytes(0) == [0]
  {
  }

  /**
   * The encoder as a loop: take the low byte off the value until what remains
   * is 0 or -1 and agrees with the sign bit of the last byte taken.
   */
  method EncodeVarint(n: int) returns (r: Bytes)
    ensures r == VarintBytes(n)
  {
    r := [n % 256];
    var num := n / 256;
    ghost var value := n;
    while !((num == 0 && r[0] < 128) || (num == -1 && r[0] >= 128))
      invariant |r| >= 1 && value == num * 256 + r[0]
      invariant VarintBytes(n) == VarintBytes(value) + r[1..]
      decreases Magnitude(value)
    {
      EncodeStep(n, num, r);
      value := num;
      r := [num % 256] + r;
      num := num / 256;
    }
  }

  /** While the encoder's loop goes on, taking one more byte off keeps its invariant and shrinks the value. */
  lemma EncodeStep(n: int, num: int, r: Bytes)
    requires |r| >= 1 && VarintBytes(n) == VarintBytes(num * 256 + r[0]) + r[1..]
    requires !((num == 0 && r[0] < 128) || (num == -1 && r[0] >= 128))
    ensures VarintBytes(n) == VarintBytes(num) + r
    ensures Magnitude(num) < Magnitude(num * 256 + r[0])
    ensures num == (num / 256) * 256 + num % 256
  {
    var x := num * 256 + r[0];
    assert x / 256 == num && x % 256 == r[0];
    assert VarintBytes(x) == VarintBytes(num) + [r[0]];
    assert [r[0]] + r[1..] == r;
  }

  // ---------------------------------------------------------------------------
  // Values
  // ---------------------------------------------------------------------------

  /** Whether a value of this class can be written for the column type at all. */
  predicate Accepts(t: ColumnType, v: Value)
  {
    match v
    case Nil => true
    case Str(_) => t in {Ascii, Text, Varchar, Blob}
    case Integer(_) => t in {Int, Bigint, Counter, Timestamp, Varint}
    case Bool(_) => t == Boolean
    case BigDecimal(_, _) => t == Decimal
    case FloatBits(_) => t in {Float, Double}
    case IpAddr(_) => t == Inet
    case UuidValue(_) => t in {Uuid, Timeuuid}
  }

  /**
   * The bytes of a non-nil value for its column type, without the [bytes]
   * length. An Integer too wide for int or bigint is truncated to its low
   * 4 or 8 bytes, as `pack` does.
   */
  function Raw(t: ColumnType, v: Value): (r: Result<Bytes, Error>)
    requires !v.Nil?
    ensures r.Failure? <==> !Accepts(t, v)
    ensures r.Failure? ==> r.error == TypeError
    ensures r.Success? && t in {Int, Float} ==> |r.value| == 4
    ensures r.Success? && t in {Bigint, Counter, Timestamp, Double} ==> |r.value| == 8
    ensures r.Success? && t in {Uuid, Timeuuid} ==> |r.value| == 16
    ensures r.Success? && t == Boolean ==> |r.value| == 1
    ensures r.Success? && t == Inet ==> |r.value| == 4 || |r.value| == 16
    ensures r.Success? && t in {Ascii, Text, Varchar, Blob} ==> r.value == v.s
  {
    if !Accepts(t, v) then Failure(TypeError)
    else
      match v
      case Str(s) => Success(s)
      case Integer(i) =>
        if t == Int then Success(PackInt(i))
        else if t == Varint then Success(VarintBytes(i))
        else Success(PackTwoInts(ShiftRight(i, 4), i % 0x1_0000_0000))
      case Bool(b) => Success(BooleanByte(b))
      case BigDecimal(unscaled, scale) => Success(PackInt(scale) + VarintBytes(unscaled))
      case FloatBits(bits) => Success(if t == Float then PackInt(bits) else BigEndian(bits, 8))
      case IpAddr(a) => Success(a)
      case UuidValue(u) => Success(u)
  }

  /** A value as a [bytes] field for the column type its metadata symbol names. */
  function ToBytes(symbol: string, v: Value): (r: Result<Bytes, Error>)
    ensures r == Failure(Protocol(UnsupportedColumnTypeError)) <==> ColumnTypeNamed(symbol).None?
    ensures r.Success? && v.Nil? ==> r.value == BytesField(None)
    ensures r.Success? && !v.Nil? ==>
      ColumnTypeNamed(symbol).Some? && Raw(ColumnTypeNamed(symbol).value, v).Success? &&
      r.value == BytesField(Some(Raw(ColumnTypeNamed(symbol).value, v).value))
  {
    match ColumnTypeNamed(symbol)
    case None => Failure(Protocol(UnsupportedColumnTypeError))
    case Some(t) =>
      if v.Nil? then Success(BytesField(None))
      else
        match Raw(t, v)
        case Failure(e) => Failure(e)
        case Success(raw) => Success(BytesField(Some(raw)))
  }

  // ---------------------------------------------------------------------------
  // Decoding: the reading side, against which the encodings are checked
  // ---------------------------------------------------------------------------

  function Decode(t: ColumnType, b: Bytes): Option<Value>
  {
    match t
    case Ascii => Some(Str(b))
    case Text => Some(Str(b))
    case Varchar => Some(Str(b))
    case Blob => Some(Str(b))
    case Int => if |b| == 4 then Some(Integer(Signed(b))) else None
    case Bigint => if |b| == 8 then Some(Integer(Signed(b))) else None
    case Counter => if |b| == 8 then Some(Integer(Signed(b))) else None
    case Timestamp => if |b| == 8 then Some(Integer(Signed(b))) else None
    case Varint => if |b| > 0 then Some(Integer(Signed(b))) else None
    case Boolean => if |b| == 1 then Some(Bool(b[0] != 0)) else None
    case Decimal => if |b| > 4 then Some(BigDecimal(Signed(b[4..]), Signed(b[..4]))) else None
    case Float => if |b| == 4 then Some(FloatBits(Unsigned(b))) else None
    case Double => if |b| == 8 then Some(FloatBits(Unsigned(b))) else None
    case Inet => if |b| == 4 || |b| == 16 then Some(IpAddr(b)) else None
    case Uuid => if |b| == 16 then Some(UuidValue(b)) else None
    case Timeuuid => if |b| == 16 then Some(UuidValue(b)) else None
  }

  /** A [bytes] field read back and decoded for the column type; a null field is nil. */
  function DecodeField(t: ColumnType, b: Bytes): Option<(Value, Bytes)>
  {
    match ReadBytesField(b)
    case None => None
    case Some((field, rest)) =>
      match field
      case None => Some((Nil, rest))
      case Some(raw) =>
        match Decode(t, raw)
        case None => None
        case Some(v) => Some((v, rest))
  }

  /** The values each column type carries without loss. */
  predicate Representable(t: ColumnType, v: Value)
  {
    Accepts(t, v) &&
    match v
    case Nil => true
    case Str(s) => |s| < 0x8000_0000
    case Integer(i) =>
      if t == Int then FitsSigned(i, 4)
      else if t == Varint then |VarintBytes(i)| < 0x8000_0000
      else FitsSigned(i, 8)
    case Bool(_) => true
    case BigDecimal(unscaled, scale) => FitsSigned(scale, 4) && 4 + |VarintBytes(unscaled)| < 0x8000_0000
    case FloatBits(bits) => 0 <= bits < (if t == Float then 0x1_0000_0000 else 0x1_0000_0000_0000_0000)
    case IpAddr(_) => true
    case UuidValue(_) => true
  }

  /** Decoding the bytes written for a representable value gives the value back. */
  lemma RawRoundTrip(t: ColumnType, v: Value)
    requires !v.Nil? && Representable(t, v)
    ensures Decode(t, Raw(t, v).value) == Some(v)
  {
    match v
    case Str(_) =>
    case Integer(i) => IntegerRoundTrip(t, i);
    case Bool(_) =>
    case BigDecimal(unscaled, scale) => DecimalRoundTrip(unscaled, scale);
    case FloatBits(bits) => FloatRoundTrip(t, bits);
    case IpAddr(_) =>
    case UuidValue(_) =>
  }

  lemma IntegerRoundTrip(t: ColumnType, i: int)
    requires Representable(t, Integer(i))
    ensures Decode(t, Raw(t, Integer(i)).value) == Some(Integer(i))
  {
    if t == Int {
      assert Raw(t, Integer(i)) == Success(PackInt(i));
    } else if t == Varint {
      assert Raw(t, Integer(i)) == Success(VarintBytes(i));
      VarintRoundTrip(i);
    } else {
      LongLayout(t, i);
      SignedBigEndian(i, 8);
    }
  }

  lemma DecimalRoundTrip(unscaled: int, scale: int)
    requires Representable(Decimal, BigDecimal(unscaled, scale))
    ensures Decode(Decimal, Raw(Decimal, BigDecimal(unscaled, scale)).value) == Some(BigDecimal(unscaled, scale))
  {
    var b := Raw(Decimal, BigDecimal(unscaled, scale)).value;
    assert b[..4] == PackInt(scale) && b[4..] == VarintBytes(unscaled);
    VarintRoundTrip(unscaled);
  }

  lemma FloatRoundTrip(t: ColumnType, bits: int)
    requires Representable(t, FloatBits(bits))
    ensures Decode(t, Raw(t, FloatBits(bits)).value) == Some(FloatBits(bits))
  {
    if t == Float {
      FloatWidth(bits, 4);
    } else {
      FloatWidth(bits, 8);
    }
  }

  /** A bit pattern that fits the width is read back unchanged. */
  lemma FloatWidth(bits: int, width: nat)
    requires width in {4, 8}
    requires 0 <= bits < (if width == 4 then 0x1_0000_0000 else 0x1_0000_0000_0000_0000)
    ensures Unsigned(BigEndian(bits, width)) == bits
  {
    Pow256Four();
    if width == 8 {
      assert Pow256(8) == 0x1_0000_0000_0000_0000;
    }
    UnsignedBigEndian(bits, width);
  }

  /** A [bytes] field written for a representable value reads back as that value, nil included. */
  lemma ToBytesRoundTrip(t: ColumnType, v: Value, rest: Bytes)
    requires Representable(t, v)
    ensures ToBytes(TypeSymbol(t), v).Success? && DecodeField(t, ToBytes(TypeSymbol(t), v).value + rest) == Some((v, rest))
  {
    TypeSymbolRoundTrip(t);
    if v.Nil? {
      BytesFieldRoundTrip(None, rest);
    } else {
      var raw := Raw(t, v).value;
      RawLength(t, v);
      BytesFieldRoundTrip(Some(raw), rest);
      RawRoundTrip(t, v);
    }
  }

  /** The raw bytes of a representable value fit a [bytes] length. */
  lemma RawLength(t: ColumnType, v: Value)
    requires !v.Nil? && Representable(t, v)
    ensures |Raw(t, v).value| < 0x8000_0000
  {
  }

  /** Unknown symbols fail whatever the value; known ones fail only on a value of the wrong class. */
  lemma ToBytesErrors(symbol: string, v: Value)
    ensures ToBytes(symbol, v).Failure? <==>
      ColumnTypeNamed(symbol).None? || !Accepts(ColumnTypeNamed(symbol).value, v)
  {
  }

  // ---------------------------------------------------------------------------
  // The writer
  // ---------------------------------------------------------------------------

  /** The raw bytes of a non-nil value, computing varints with the loop encoder. */
  method EncodeRaw(t: ColumnType, v: Value) returns (r: Result<Bytes, Error>)
    requires !v.Nil?
    ensures r == Raw(t, v)
  {
    if v.Integer? && t == Varint {
      var bytes := EncodeVarint(v.i);
      r := Success(bytes);
    } else if v.BigDecimal? && t == Decimal {
      var bytes := EncodeVarint(v.unscaled);
      r := Success(PackInt(v.scale) + bytes);
    } else {
      r := Raw(t, v);
    }
  }

  /** Appends a value as a [bytes] field; on an error nothing is appended. */
  method WriteValue(io: ByteBuffer, symbol: string, v: Value) returns (err: Option<Error>)
    modifies io
    ensures ToBytes(symbol, v).Success? ==> err.None? && io.bytes == old(io.bytes) + ToBytes(symbol, v).value
    ensures ToBytes(symbol, v).Failure? ==> err == Some(ToBytes(symbol, v).error) && io.bytes == old(io.bytes)
  {
    var t := ColumnTypeNamed(symbol);
    if t.None? {
      return Some(Protocol(UnsupportedColumnTypeError));
    }
    if v.Nil? {
      io.AppendBytes(None);
      return None;
    }
    var raw := EncodeRaw(t.value, v);
    if raw.Failure? {
      return Some(raw.error);
    }
    io.AppendBytes(Some(raw.value));
    err := None;
  }

  // ---------------------------------------------------------------------------
  // The per-type encodings pinned by the EXECUTE specs
  // ---------------------------------------------------------------------------

  lemma IntVector()
    ensures Raw(Int, Integer(12348098)) == Success([0x00, 0xBC, 0x6A, 0xC2])
  {
    assert Raw(Int, Integer(12348098)) == Success(PackInt(12348098));
    assert BigEndian(12348098, 4) == [0x00, 0xBC, 0x6A, 0xC2];
  }

  /** The three 8-byte integer types write the low 8 bytes of the value, big-endian. */
  lemma LongLayout(t: ColumnType, i: int)
    requires t in {Bigint, Counter, Timestamp}
    ensures Raw(t, Integer(i)) == Success(BigEndian(i, 8))
  {
    LongAsTwoInts(i);
  }

  lemma BigintVector()
    ensures Raw(Bigint, Integer(1012312312414123)) == Success([0x00, 0x03, 0x98, 0xB1, 0x53, 0xC8, 0x7F, 0xAB])
  {
    LongLayout(Bigint, 1012312312414123);
    BigintBytes();
  }

  lemma BigintBytes()
    ensures BigEndian(1012312312414123, 8) == [0x00, 0x03, 0x98, 0xB1, 0x53, 0xC8, 0x7F, 0xAB]
  {
  }

  /** A timestamp as integral milliseconds since the epoch. */
  lemma TimestampVector()
    ensures Raw(Timestamp, Integer(1358013521123)) == Success([0x00, 0x00, 0x01, 0x3C, 0x2F, 0xE9, 0xDC, 0xE3])
  {
    LongLayout(Timestamp, 1358013521123);
    TimestampBytes();
  }

  lemma TimestampBytes()
    ensures BigEndian(1358013521123, 8) == [0x00, 0x00, 0x01, 0x3C, 0x2F, 0xE9, 0xDC, 0xE3]
  {
  }

  lemma BooleanVectors()
    ensures Raw(Boolean, Bool(false)) == Success([0x00])
    ensures Raw(Boolean, Bool(true)) == Success([0x01])
  {
  }

  /** One step of the varint recursion, for computing long encodings byte by byte. */
  lemma VarintStep(n: int, high: Bytes)
    requires !(-128 <= n < 128) && VarintBytes(n / 256) == high
    ensures VarintBytes(n) == high + [n % 256]
  {
  }

  lemma PositiveVarintVector()
    ensures Raw(Varint, Integer(1231312312331283012830129382342342412123)) ==
      Success([0x03, 0x9E, 0x56, 0x20, 0x15, 0x0C, 0x03, 0x9D, 0x4B, 0x18, 0xCD, 0x49, 0x5C, 0x24, 0x3F, 0x07, 0x5B])
  {
    PositiveVarintBytes();
  }

  lemma PositiveVarintBytes()
    ensures VarintBytes(1231312312331283012830129382342342412123) ==
      [0x03, 0x9E, 0x56, 0x20, 0x15, 0x0C, 0x03, 0x9D, 0x4B, 0x18, 0xCD, 0x49, 0x5C, 0x24, 0x3F, 0x07, 0x5B]
  {
    VarintStep(926, [0x03]);
    VarintStep(237142, [0x03, 0x9E]);
    VarintStep(60708384, [0x03, 0x9E, 0x56]);
    VarintStep(15541346325, [0x03, 0x9E, 0x56, 0x20]);
    VarintStep(3978584659212, [0x03, 0x9E, 0x56, 0x20, 0x15]);
    VarintStep(1018517672758275, [0x03, 0x9E, 0x56, 0x20, 0x15, 0x0C]);
    VarintStep(260740524226118557, [0x03, 0x9E, 0x56, 0x20, 0x15, 0x0C, 0x03]);
    VarintStep(66749574201886350667, [0x03, 0x9E, 0x56, 0x20, 0x15, 0x0C, 0x03, 0x9D]);
    VarintStep(17087890995682905770776, [0x03, 0x9E, 0x56, 0x20, 0x15, 0x0C, 0x03, 0x9D, 0x4B]);
    VarintStep(4374500094894823877318861, [0x03, 0x9E, 0x56, 0x20, 0x15, 0x0C, 0x03, 0x9D, 0x4B, 0x18]);
    VarintStep(1119872024293074912593628489, [0x03, 0x9E, 0x56, 0x20, 0x15, 0x0C, 0x03, 0x9D, 0x4B, 0x18, 0xCD]);
    VarintStep(286687238219027177623968893276, [0x03, 0x9E, 0x56, 0x20, 0x15, 0x0C, 0x03, 0x9D, 0x4B, 0x18, 0xCD, 0x49]);
    VarintStep(73391932984070957471736036678692, [0x03, 0x9E, 0x56, 0x20, 0x15, 0x0C, 0x03, 0x9D, 0x4B, 0x18, 0xCD, 0x49, 0x5C]);
    VarintStep(18788334843922165112764425389745215, [0x03, 0x9E, 0x56, 0x20, 0x15, 0x0C, 0x03, 0x9D, 0x4B, 0x18, 0xCD, 0x49, 0x5C, 0x24]);
    VarintStep(4809813720044074268867692899774775047, [0x03, 0x9E, 0x56, 0x20, 0x15, 0x0C, 0x03, 0x9D, 0x4B, 0x18, 0xCD, 0x49, 0x5C, 0x24, 0x3F]);
    VarintStep(1231312312331283012830129382342342412123, [0x03, 0x9E, 0x56, 0x20, 0x15, 0x0C, 0x03, 0x9D, 0x4B, 0x18, 0xCD, 0x49, 0x5C, 0x24, 0x3F, 0x07]);
  }

  lemma NegativeVarintVector()
    ensures Raw(Varint, Integer(-234234234234)) == Success([0xC9, 0x76, 0x8D, 0x3A, 0x86])
  {
    assert Raw(Varint, Integer(-234234234234)) == Success(VarintBytes(-234234234234));
    assert VarintBytes(-234234234234) == [0xC9, 0x76, 0x8D, 0x3A, 0x86];
  }

  lemma DecimalVector()
    ensures Raw(Decimal, BigDecimal(1042342234234123423435647768234, 18)) ==
      Success([0x00, 0x00, 0x00, 0x12] + [0x0D, 0x27, 0xFD, 0x49, 0xAD, 0x80, 0x66, 0x11, 0x67, 0xDC, 0x66, 0x56, 0xAA])
  {
    assert BigEndian(18, 4) == [0x00, 0x00, 0x00, 0x12];
    DecimalVarintBytes();
  }

  lemma DecimalVarintBytes()
    ensures VarintBytes(1042342234234123423435647768234) ==
      [0x0D, 0x27, 0xFD, 0x49, 0xAD, 0x80, 0x66, 0x11, 0x67, 0xDC, 0x66, 0x56, 0xAA]
  {
    VarintStep(3367, [0x0D]);
    VarintStep(862205, [0x0D, 0x27]);
    VarintStep(220724553, [0x0D, 0x27, 0xFD]);
    VarintStep(56505485741, [0x0D, 0x27, 0xFD, 0x49]);
    VarintStep(14465404349824, [0x0D, 0x27, 0xFD, 0x49, 0xAD]);
    VarintStep(3703143513555046, [0x0D, 0x27, 0xFD, 0x49, 0xAD, 0x80]);
    VarintStep(948004739470091793, [0x0D, 0x27, 0xFD, 0x49, 0xAD, 0x80, 0x66]);
    VarintStep(242689213304343499111, [0x0D, 0x27, 0xFD, 0x49, 0xAD, 0x80, 0x66, 0x11]);
    VarintStep(62128438605911935772636, [0x0D, 0x27, 0xFD, 0x49, 0xAD, 0x80, 0x66, 0x11, 0x67]);
    VarintStep(15904880283113455557794918, [0x0D, 0x27, 0xFD, 0x49, 0xAD, 0x80, 0x66, 0x11, 0x67, 0xDC]);
    VarintStep(4071649352477044622795499094, [0x0D, 0x27, 0xFD, 0x49, 0xAD, 0x80, 0x66, 0x11, 0x67, 0xDC, 0x66]);
    VarintStep(1042342234234123423435647768234, [0x0D, 0x27, 0xFD, 0x49, 0xAD, 0x80, 0x66, 0x11, 0x67, 0xDC, 0x66, 0x56]);
  }

  /** float 12.13 and double 10000.123123123, given as their IEEE-754 bit patterns. */
  lemma FloatVectors()
    ensures Raw(Float, FloatBits(0x4142_147B)) == Success([0x41, 0x42, 0x14, 0x7B])
    ensures Raw(Double, FloatBits(0x40C3_880F_C27F_9D55)) == Success([0x40, 0xC3, 0x88, 0x0F, 0xC2, 0x7F, 0x9D, 0x55])
  {
    assert Raw(Float, FloatBits(0x4142_147B)) == Success(PackInt(0x4142_147B));
    FloatBytes();
    assert Raw(Double, FloatBits(0x40C3_880F_C27F_9D55)) == Success(BigEndian(0x40C3_880F_C27F_9D55, 8));
    DoubleBytes();
  }

  lemma FloatBytes()
    ensures BigEndian(0x4142_147B, 4) == [0x41, 0x42, 0x14, 0x7B]
  {
  }

  lemma DoubleBytes()
    ensures BigEndian(0x40C3_880F_C27F_9D55, 8) == [0x40, 0xC3, 0x88, 0x0F, 0xC2, 0x7F, 0x9D, 0x55]
  {
    var n := 0x40C3_880F_C27F_9D55;
    BigEndianSplit(n, 4, 4);
    assert ShiftRight(n, 4) == 0x40C3_880F;
    assert BigEndian(n, 4) == [0xC2, 0x7F, 0x9D, 0x55];
    assert BigEndian(0x40C3_880F, 4) == [0x40, 0xC3, 0x88, 0x0F];
  }

  lemma PassThroughVectors()
    ensures Raw(Ascii, Str(Latin1("test"))) == Success(Latin1("test"))
    ensures Raw(Text, Str(Latin1("FOOBAR"))) == Success(Latin1("FOOBAR"))
    ensures Raw(Varchar, Str(Latin1("hello"))) == Success(Latin1("hello"))
    ensures Raw(Blob, Str([0xAB, 0xCD])) == Success([0xAB, 0xCD])
  {
  }

  lemma AddressVectors()
    ensures Raw(Inet, IpAddr([8, 8, 8, 8])) == Success([8, 8, 8, 8])
    ensures Raw(Inet, IpAddr([0, 0, 0, 0, 0, 0, 0, 0, 0, 0, 0, 0, 0, 0, 0, 1])) ==
      Success([0, 0, 0, 0, 0, 0, 0, 0, 0, 0, 0, 0, 0, 0, 0, 1])
  {
  }

  lemma UuidVectors()
    ensures Raw(Timeuuid, UuidValue([0xA4, 0xA7, 0x09, 0x00, 0x24, 0xE1, 0x11, 0xDF, 0x89, 0x24, 0x00, 0x1F, 0xF3, 0x59, 0x17, 0x11])) ==
      Success([0xA4, 0xA7, 0x09, 0x00, 0x24, 0xE1, 0x11, 0xDF, 0x89, 0x24, 0x00, 0x1F, 0xF3, 0x59, 0x17, 0x11])
    ensures Raw(Uuid, UuidValue([0xCF, 0xD6, 0x6C, 0xCC, 0xD8, 0x57, 0x4E, 0x90, 0xB1, 0xE5, 0xDF, 0x98, 0xA3, 0xD4, 0x0C, 0xD6])) ==
      Success([0xCF, 0xD6, 0x6C, 0xCC, 0xD8, 0x57, 0x4E, 0x90, 0xB1, 0xE5, 0xDF, 0x98, 0xA3, 0xD4, 0x0C, 0xD6])
  {
  }

  /** A metadata symbol outside the known types, such as :imaginary, is refused. */
  lemma UnsupportedVector(v: Value)
    ensures ToBytes("imaginary", v) == Failure(Protocol(UnsupportedColumnTypeError))
  {
  }
}
