/**
 * The constant tables of the protocol: the error hierarchy, the consistency
 * ordinals, the big-endian pack formats and the boolean bytes.
 */
module Protocol {
  import opened Wrappers

  /** A byte, the element of every Ruby binary String on the wire. */
  type byte = x: int | 0 <= x < 256

  /** A Ruby String in the ascii-8bit encoding. */
  type Bytes = seq<byte>

  /** The bytes of a string literal whose characters are all below 256, as an ascii-8bit Ruby String holds them. */
  function Latin1(s: string): (r: Bytes)
    ensures |r| == |s|
    ensures forall i :: 0 <= i < |s| ==> r[i] == s[i] as int % 256
  {
    seq(|s|, i requires 0 <= i < |s| => s[i] as int % 256)
  }

  /** A binary String shown character by character, each byte as the character of the same code. */
  function Chars(b: Bytes): (r: string)
    ensures |r| == |b|
    ensures forall i :: 0 <= i < |b| ==> r[i] as int == b[i]
  {
    seq(|b|, i requires 0 <= i < |b| => b[i] as char)
  }

  // ---------------------------------------------------------------------------
  // Errors
  // ---------------------------------------------------------------------------

  /** The nine error classes defined as subclasses of ProtocolError. */
  datatype ProtocolError =
    | DecodingError
    | EncodingError
    | InvalidStreamIdError
    | InvalidValueError
    | UnsupportedOperationError
    | UnsupportedFrameTypeError
    | UnsupportedResultKindError
    | UnsupportedColumnTypeError
    | UnsupportedEventTypeError

  /**
   * Everything the request encoder can raise: a protocol error, Ruby's own
   * ArgumentError (EXECUTE with mismatched metadata and values), or the
   * TypeError Ruby raises when a value's class does not suit its column type.
   */
  datatype Error =
    | Protocol(kind: ProtocolError)
    | ArgumentError
    | TypeError

  function ClassName(k: ProtocolError): string
  {
    match k
    case DecodingError => "DecodingError"
    case EncodingError => "EncodingError"
    case InvalidStreamIdError => "InvalidStreamIdError"
    case InvalidValueError => "InvalidValueError"
    case UnsupportedOperationError => "UnsupportedOperationError"
    case UnsupportedFrameTypeError => "UnsupportedFrameTypeError"
    case UnsupportedResultKindError => "UnsupportedResultKindError"
    case UnsupportedColumnTypeError => "UnsupportedColumnTypeError"
    case UnsupportedEventTypeError => "UnsupportedEventTypeError"
  }

  /** The class names a Ruby `rescue` clause can name to catch `e`, most specific first. */
  function Ancestors(e: Error): seq<string>
  {
    match e
    case Protocol(k) => [ClassName(k), "ProtocolError", "CqlError"]
    case ArgumentError => ["ArgumentError"]
    case TypeError => ["TypeError"]
  }

  /** Whether `rescue handler` catches the error `e`. */
  predicate Rescues(handler: string, e: Error)
  {
    handler in Ancestors(e)
  }

  /** Rescuing ProtocolError catches exactly the nine protocol error kinds. */
  lemma RescueProtocolError(e: Error)
    ensures Rescues("ProtocolError", e) <==> e.Protocol?
  {
    match e
    case Protocol(k) =>
    case ArgumentError =>
      assert Ancestors(e) == ["ArgumentError"];
      assert "ArgumentError" != "ProtocolError";
    case TypeError =>
      assert Ancestors(e) == ["TypeError"];
      assert "TypeError" != "ProtocolError";
  }

  /** The nine kinds are distinct classes: rescuing one kind catches no other error. */
  lemma RescueKind(k: ProtocolError, e: Error)
    ensures Rescues(ClassName(k), e) <==> e == Protocol(k)
  {
    ClassNameOutsideHierarchy(k);
    if e.Protocol? && ClassName(k) == ClassName(e.kind) {
      ClassNameInjective(k, e.kind);
    }
  }

  lemma ClassNameOutsideHierarchy(k: ProtocolError)
    ensures ClassName(k) !in ["ProtocolError", "CqlError", "ArgumentError", "TypeError"]
  {
  }

  lemma ClassNameInjective(k: ProtocolError, k': ProtocolError)
    requires ClassName(k) == ClassName(k')
    ensures k == k'
  {
  }

  // ---------------------------------------------------------------------------
  // Consistency levels
  // ---------------------------------------------------------------------------

  datatype Consistency = Any | One | Two | Three | Quorum | All | LocalQuorum | EachQuorum

  /** The CONSISTENCIES table: a level's wire ordinal is its index here. */
  const CONSISTENCIES: seq<Consistency> :=
    [Any, One, Two, Three, Quorum, All, LocalQuorum, EachQuorum]

  /** The ordinal sent as a [consistency] short. */
  function Ordinal(c: Consistency): (r: nat)
    ensures r < |CONSISTENCIES| && CONSISTENCIES[r] == c
    ensures r < 0x1_0000
  {
    match c
    case Any => 0
    case One => 1
    case Two => 2
    case Three => 3
    case Quorum => 4
    case All => 5
    case LocalQuorum => 6
    case EachQuorum => 7
  }

  /** The level with a given ordinal, if there is one. */
  function FromOrdinal(n: int): (r: Option<Consistency>)
    ensures r.Some? <==> 0 <= n < |CONSISTENCIES|
  {
    if 0 <= n < |CONSISTENCIES| then Some(CONSISTENCIES[n]) else None
  }

  /** Ordinals and levels correspond one to one, in both directions. */
  lemma OrdinalBijective(c: Consistency, n: int)
    ensures FromOrdinal(Ordinal(c)) == Some(c)
    ensures FromOrdinal(n) == Some(c) ==> Ordinal(c) == n
  {
    if FromOrdinal(n) == Some(c) {
      assert CONSISTENCIES[n] == c;
      var i := Ordinal(c);
      assert CONSISTENCIES[i] == c;
      assert forall j, k :: 0 <= j < k < |CONSISTENCIES| ==> CONSISTENCIES[j] != CONSISTENCIES[k];
    }
  }

  lemma OrdinalInjective(c: Consistency, d: Consistency)
    ensures Ordinal(c) == Ordinal(d) ==> c == d
  {
  }

  /** The Ruby symbol naming a level, as listed in CONSISTENCIES. */
  function Symbol(c: Consistency): string
  {
    match c
    case Any => "any"
    case One => "one"
    case Two => "two"
    case Three => "three"
    case Quorum => "quorum"
    case All => "all"
    case LocalQuorum => "local_quorum"
    case EachQuorum => "each_quorum"
  }

  /** ASCII upper-casing, as Ruby's String#upcase on ASCII text. */
  function Upcase(s: string): (r: string)
    ensures |r| == |s|
    ensures forall i :: 0 <= i < |s| ==> ('a' <= s[i] <= 'z' ==> r[i] as int == s[i] as int - 32)
    ensures forall i :: 0 <= i < |s| ==> (!('a' <= s[i] <= 'z') ==> r[i] == s[i])
  {
    seq(|s|, i requires 0 <= i < |s| => if 'a' <= s[i] <= 'z' then (s[i] as int - 32) as char else s[i])
  }

  /** The level as it appears in a request's rendering: its symbol, upper-cased. */
  function Name(c: Consistency): string
  {
    Upcase(Symbol(c))
  }

  // ---------------------------------------------------------------------------
  // Formats: Ruby's Array#pack directives, all big-endian
  // ---------------------------------------------------------------------------

  /** 256 to the power k, the number of values k bytes can hold. */
  function Pow256(k: nat): (r: nat)
    ensures r > 0
  {
    if k == 0 then 1 else 256 * Pow256(k - 1)
  }

  /** Half of 256^k for k > 0: the bound of a signed k-byte field. */
  function Half(k: nat): (r: nat)
    requires k > 0
    ensures r > 0 && 2 * r == Pow256(k)
  {
    128 * Pow256(k - 1)
  }

  /** Ruby's `n >> (8 * k)`: floor division by 256^k, one byte at a time. */
  function ShiftRight(n: int, k: nat): int
    decreases k
  {
    if k == 0 then n else ShiftRight(n / 256, k - 1)
  }

  /**
   * The low `width` bytes of `n`, most significant first: two's complement
   * for negative `n`, silently truncated when `n` does not fit, as `pack` does.
   */
  function BigEndian(n: int, width: nat): (r: Bytes)
    ensures |r| == width
    decreases width
  {
    if width == 0 then [] else BigEndian(n / 256, width - 1) + [n % 256]
  }

  /** The unsigned big-endian value of a byte string (what `unpack('N')` and `unpack('n')` give). */
  function Unsigned(b: Bytes): nat
  {
    if b == [] then 0 else Unsigned(b[..|b| - 1]) * 256 + b[|b| - 1]
  }

  /** The two's-complement big-endian value of a byte string: the sign is the leading byte's top bit. */
  function Signed(b: Bytes): int
  {
    if b == [] then 0
    else if b[0] < 128 then Unsigned(b)
    else Unsigned(b) - Pow256(|b|)
  }

  /** Whether `n` fits a signed two's-complement field of `width` bytes. */
  predicate FitsSigned(n: int, width: nat)
  {
    width > 0 && -(Half(width) as int) <= n < Half(width)
  }

  /** 'c': one signed byte. */
  function PackChar(n: int): (r: Bytes)
    ensures |r| == 1 && Unsigned(r) == n % 256
    ensures -128 <= n < 128 ==> Signed(r) == n
  {
    PackedField(n, 1);
    BigEndian(n, 1)
  }

  /** 'n': an unsigned 16-bit big-endian short. */
  function PackShort(n: int): (r: Bytes)
    ensures |r| == 2 && Unsigned(r) == n % 0x1_0000
  {
    PackedField(n, 2);
    BigEndian(n, 2)
  }

  /** 'N': an unsigned 32-bit big-endian int; a negative `n` comes out as its two's complement. */
  function PackInt(n: int): (r: Bytes)
    ensures |r| == 4 && Unsigned(r) == n % 0x1_0000_0000
    ensures FitsSigned(n, 4) ==> Signed(r) == n
  {
    PackedField(n, 4);
    BigEndian(n, 4)
  }

  /** 'NN': two ints, the form in which a 64-bit long is written as its high and low words. */
  function PackTwoInts(high: int, low: int): (r: Bytes)
    ensures |r| == 8 && r[..4] == PackInt(high) && r[4..] == PackInt(low)
  {
    PackInt(high) + PackInt(low)
  }

  /** 'c4': the four single-byte header fields. */
  function PackHeader(version: int, flags: int, stream: int, opcode: int): (r: Bytes)
    ensures |r| == 4
    ensures r[0] == version % 256 && r[1] == flags % 256 && r[2] == stream % 256 && r[3] == opcode % 256
  {
    PackChar(version) + PackChar(flags) + PackChar(stream) + PackChar(opcode)
  }

  /**
   * A packed field reads back unsigned as its value modulo 256^width; a field
   * of at least one byte reads back signed as the value exactly when the value fits.
   */
  lemma PackedField(n: int, width: nat)
    ensures Unsigned(BigEndian(n, width)) == n % Pow256(width)
    ensures FitsSigned(n, width) ==> Signed(BigEndian(n, width)) == n
    ensures width > 0 && Signed(BigEndian(n, width)) == n ==> FitsSigned(n, width)
  {
    UnsignedBigEndian(n, width);
    if FitsSigned(n, width) { SignedBigEndian(n, width); }
    if width > 0 { SignedFits(BigEndian(n, width)); }
  }

  /**
   * A 64-bit long written as 'NN', high word `n >> 32` then low word
   * `n & 0xffffffff`, is its 8-byte big-endian form.
   */
  lemma LongAsTwoInts(n: int)
    ensures PackTwoInts(ShiftRight(n, 4), n % 0x1_0000_0000) == BigEndian(n, 8)
  {
    BigEndianSplit(n, 4, 4);
    LowWord(n);
  }

  /** `n & 0xffffffff` has the same four low bytes as `n`. */
  lemma LowWord(n: int)
    ensures BigEndian(n % 0x1_0000_0000, 4) == BigEndian(n, 4)
  {
    Pow256Four();
    BigEndianMod(n, 4);
  }

  /** Only the value modulo 256^width shows in a field of that width. */
  lemma BigEndianMod(n: int, width: nat)
    ensures BigEndian(n % Pow256(width), width) == BigEndian(n, width)
  {
    var p := Pow256(width);
    var m, k := n % p, n / p;
    assert n == m + p * k;
    BigEndianShift(m, width, k);
  }

  lemma Pow256Four()
    ensures Pow256(4) == 0x1_0000_0000
  {
    assert Pow256(2) == 0x1_0000;
  }

  /** Splitting a wide field: the high part is the shifted value, the low part the value's low bytes. */
  lemma {:induction false} BigEndianSplit(n: int, high: nat, low: nat)
    ensures BigEndian(n, high + low) == BigEndian(ShiftRight(n, low), high) + BigEndian(n, low)
    decreases low
  {
    if low > 0 {
      calc {
        BigEndian(n, high + low);
        BigEndian(n / 256, high + low - 1) + [n % 256];
        { BigEndianSplit(n / 256, high, low - 1); }
        BigEndian(ShiftRight(n / 256, low - 1), high) + BigEndian(n / 256, low - 1) + [n % 256];
      }
    }
  }

  /** Adding a multiple of 256^width does not change the `width` low bytes. */
  lemma {:induction false} BigEndianShift(n: int, width: nat, k: int)
    ensures BigEndian(n + Pow256(width) * k, width) == BigEndian(n, width)
    decreases if k < 0 then -k else k
  {
    var p := Pow256(width);
    if k > 0 {
      assert n + p * k == (n + p * (k - 1)) + p;
      BigEndianPeriodic(n + p * (k - 1), width);
      BigEndianShift(n, width, k - 1);
    } else if k < 0 {
      assert n + p * k + p == n + p * (k + 1);
      BigEndianPeriodic(n + p * k, width);
      BigEndianShift(n, width, k + 1);
    }
  }

  /** The `width` low bytes repeat with period 256^width. */
  lemma {:induction false} BigEndianPeriodic(n: int, width: nat)
    ensures BigEndian(n + Pow256(width), width) == BigEndian(n, width)
    decreases width
  {
    if width > 0 {
      var p := Pow256(width - 1);
      assert (n + 256 * p) / 256 == n / 256 + p;
      assert (n + 256 * p) % 256 == n % 256;
      BigEndianPeriodic(n / 256, width - 1);
    }
  }

  /** Reading back a packed field gives the value reduced modulo 256^width. */
  lemma UnsignedBigEndian(n: int, width: nat)
    ensures Unsigned(BigEndian(n, width)) == n % Pow256(width)
  {
    BigEndianMod(n, width);
    UnsignedBigEndianInRange(n % Pow256(width), width);
  }

  lemma {:induction false} UnsignedBigEndianInRange(n: int, width: nat)
    requires 0 <= n < Pow256(width)
    ensures Unsigned(BigEndian(n, width)) == n
  {
    if width > 0 {
      var b := BigEndian(n, width);
      var q := n / 256;
      assert n == q * 256 + n % 256;
      assert q < Pow256(width - 1);
      assert b[..width - 1] == BigEndian(q, width - 1);
      UnsignedBigEndianInRange(q, width - 1);
    }
  }

  /** A byte string of length k holds an unsigned value below 256^k. */
  lemma {:induction false} UnsignedBound(b: Bytes)
    ensures Unsigned(b) < Pow256(|b|)
  {
    if b != [] {
      UnsignedBound(b[..|b| - 1]);
    }
  }

  /** The leading byte's top bit is set exactly when the unsigned value is in the upper half. */
  lemma {:induction false} LeadingBit(b: Bytes)
    requires b != []
    ensures b[0] < 128 <==> Unsigned(b) < Half(|b|)
  {
    if |b| > 1 {
      var front := b[..|b| - 1];
      assert front[0] == b[0];
      LeadingBit(front);
    }
  }

  /** Within the signed range, the two's-complement field reads back as the same integer. */
  lemma SignedBigEndian(n: int, width: nat)
    requires FitsSigned(n, width)
    ensures Signed(BigEndian(n, width)) == n
  {
    var b := BigEndian(n, width);
    if n >= 0 {
      UnsignedBigEndianInRange(n, width);
    } else {
      BigEndianPeriodic(n, width);
      UnsignedBigEndianInRange(n + Pow256(width), width);
    }
    LeadingBit(b);
  }

  /** A signed field of `width` bytes holds only values that fit `width` bytes. */
  lemma SignedFits(b: Bytes)
    requires b != []
    ensures FitsSigned(Signed(b), |b|)
  {
    UnsignedBound(b);
    LeadingBit(b);
  }

  /** Wider fields hold everything narrower ones do. */
  lemma {:induction false} FitsSignedMonotone(n: int, narrow: nat, wide: nat)
    requires FitsSigned(n, narrow) && narrow <= wide
    ensures FitsSigned(n, wide)
    decreases wide - narrow
  {
    if narrow < wide {
      FitsSignedMonotone(n, narrow + 1, wide);
    }
  }

  // ---------------------------------------------------------------------------
  // Constants
  // ---------------------------------------------------------------------------

  const TRUE_BYTE: Bytes := [0x01]
  const FALSE_BYTE: Bytes := [0x00]

  /** The boolean encoding: one byte, 1 for true and 0 for false. */
  function BooleanByte(b: bool): (r: Bytes)
    ensures |r| == 1 && (r[0] == 1 <==> b) && (r[0] == 0 <==> !b)
  {
    if b then TRUE_BYTE else FALSE_BYTE
  }
}
