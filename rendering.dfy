/**
 * The `to_s` renderings of the requests: the message name followed by its
 * arguments as Ruby's `inspect` shows them, the EXECUTE statement id in
 * lowercase hexadecimal, and consistency levels by their upper-cased symbol.
 */
module Rendering {
  import opened Wrappers
  import opened Protocol
  import opened Encoding
  import opened TypeConverter
  import opened Requests

  // ---------------------------------------------------------------------------
  // Quoted strings
  // ---------------------------------------------------------------------------

  /** A string as `inspect` shows it: between double quotes (no character is escaped in this model). */
  function Quote(b: Bytes): (r: string)
    ensures |r| == |b| + 2
    ensures r[0] == '"' && r[|r| - 1] == '"' && r[1..|r| - 1] == Chars(b)
  {
    var r := "\"" + Chars(b) + "\"";
    assert r[1..|r| - 1] == Chars(b);
    r
  }

  /** The bytes between the outer double quotes, when every character is below 256. */
  function Unquote(s: string): Option<Bytes>
  {
    if |s| >= 2 && s[0] == '"' && s[|s| - 1] == '"' && forall i :: 1 <= i < |s| - 1 ==> s[i] as int < 256 then
      Some(Latin1(s[1..|s| - 1]))
    else None
  }

  /** Reading the bytes of a shown binary string back gives the bytes. */
  lemma Latin1Chars(b: Bytes)
    ensures Latin1(Chars(b)) == b
  {
    var r := Latin1(Chars(b));
    assert forall i :: 0 <= i < |b| ==> r[i] == b[i];
  }

  /** A quoted string reads back as the bytes it was made from. */
  lemma UnquoteQuote(b: Bytes)
    ensures Unquote(Quote(b)) == Some(b)
  {
    var q := Quote(b);
    assert forall i :: 1 <= i < |q| - 1 ==> q[i] as int < 256 by {
      forall i | 1 <= i < |q| - 1
        ensures q[i] as int < 256
      {
        assert q[i] == q[1..|q| - 1][i - 1];
      }
    }
    Latin1Chars(b);
  }

  // ---------------------------------------------------------------------------
  // Lowercase hexadecimal
  // ---------------------------------------------------------------------------

  /** The lowercase hex digit of a value below 16. */
  function HexDigit(d: int): (c: char)
    requires 0 <= d < 16
    ensures '0' <= c <= '9' || 'a' <= c <= 'f'
  {
    if d < 10 then ('0' as int + d) as char else ('a' as int + d - 10) as char
  }

  /** The value of a hex digit, in either case. */
  function HexValue(c: char): Option<int>
  {
    if '0' <= c <= '9' then Some(c as int - '0' as int)
    else if 'a' <= c <= 'f' then Some(c as int - 'a' as int + 10)
    else if 'A' <= c <= 'F' then Some(c as int - 'A' as int + 10)
    else None
  }

  lemma HexValueDigit(d: int)
    requires 0 <= d < 16
    ensures HexValue(HexDigit(d)) == Some(d)
  {
  }

  /** Two lowercase hex digits per byte, high nibble first, zero-padded. */
  function Hex(b: Bytes): (r: string)
    ensures |r| == 2 * |b|
    ensures forall i :: 0 <= i < |b| ==> r[2 * i] == HexDigit(b[i] / 16) && r[2 * i + 1] == HexDigit(b[i] % 16)
  {
    if b == [] then []
    else
      var rest := Hex(b[1..]);
      var r := [HexDigit(b[0] / 16), HexDigit(b[0] % 16)] + rest;
      assert forall i :: 1 <= i < |b| ==> r[2 * i] == HexDigit(b[i] / 16) && r[2 * i + 1] == HexDigit(b[i] % 16) by {
        forall i | 1 <= i < |b|
          ensures r[2 * i] == HexDigit(b[i] / 16) && r[2 * i + 1] == HexDigit(b[i] % 16)
        {
          var k := i - 1;
          assert b[1..][k] == b[i];
          assert r[2 * i] == rest[2 * k];
          assert r[2 * i + 1] == rest[2 * k + 1];
        }
      }
      r
  }

  /** The hex of two byte strings one after the other is the two hex strings one after the other. */
  lemma {:induction false} HexAppend(a: Bytes, b: Bytes)
    ensures Hex(a + b) == Hex(a) + Hex(b)
  {
    if a == [] {
      assert a + b == b;
    } else {
      assert (a + b)[1..] == a[1..] + b;
      HexAppend(a[1..], b);
    }
  }

  /** The bytes a string of hex digit pairs spells, high nibble first. */
  function Unhex(s: string): Option<Bytes>
    decreases |s|
  {
    if s == [] then Some([])
    else if |s| < 2 then None
    else match (HexValue(s[0]), HexValue(s[1]), Unhex(s[2..]))
      case (Some(high), Some(low), Some(rest)) => Some([high * 16 + low] + rest)
      case _ => None
  }

  /** Reading the hex digits back gives the bytes. */
  lemma {:induction false} UnhexHex(b: Bytes)
    ensures Unhex(Hex(b)) == Some(b)
  {
    if b != [] {
      var h := Hex(b);
      assert h[2..] == Hex(b[1..]);
      UnhexHex(b[1..]);
      HexValueDigit(b[0] / 16);
      HexValueDigit(b[0] % 16);
      assert [b[0]] + b[1..] == b;
    }
  }

  // ---------------------------------------------------------------------------
  // Decimal integers
  // ---------------------------------------------------------------------------

  predicate IsDigit(c: char)
  {
    '0' <= c <= '9'
  }

  /** The decimal digits of a natural number, without leading zeros. */
  function Digits(n: nat): (r: string)
    ensures |r| >= 1 && forall i :: 0 <= i < |r| ==> IsDigit(r[i])
    ensures r[0] == '0' ==> n == 0
    decreases n
  {
    if n < 10 then [('0' as int + n) as char]
    else Digits(n / 10) + [('0' as int + n % 10) as char]
  }

  /** The number a string of decimal digits spells. */
  function DigitsValue(s: string): nat
    requires forall i :: 0 <= i < |s| ==> IsDigit(s[i])
  {
    if s == [] then 0
    else
      assert IsDigit(s[|s| - 1]);
      DigitsValue(s[..|s| - 1]) * 10 + (s[|s| - 1] as int - '0' as int)
  }

  lemma {:induction false} DigitsValueDigits(n: nat)
    ensures DigitsValue(Digits(n)) == n
    decreases n
  {
    if n >= 10 {
      var d := Digits(n);
      assert d[..|d| - 1] == Digits(n / 10);
      DigitsValueDigits(n / 10);
    }
  }

  /** `Integer#inspect`: a minus sign for negative numbers, then the decimal digits. */
  function Decimal(n: int): (r: string)
    ensures |r| >= 1 && (r[0] == '-' <==> n < 0)
  {
    if n < 0 then "-" + Digits(-n) else Digits(n)
  }

  /** The integer a decimal rendering spells. */
  function ParseDecimal(s: string): Option<int>
  {
    if |s| >= 2 && s[0] == '-' && forall i :: 1 <= i < |s| ==> IsDigit(s[i]) then Some(0 - DigitsValue(s[1..]))
    else if |s| >= 1 && forall i :: 0 <= i < |s| ==> IsDigit(s[i]) then Some(DigitsValue(s))
    else None
  }

  /** A string of digits reads back as its value, and with a minus sign in front as its negation. */
  lemma ParseDigits(d: string)
    requires |d| >= 1 && forall i :: 0 <= i < |d| ==> IsDigit(d[i])
    ensures ParseDecimal(d) == Some(DigitsValue(d))
    ensures ParseDecimal("-" + d) == Some(0 - DigitsValue(d))
  {
    var m := "-" + d;
    assert m[1..] == d;
    assert forall i :: 1 <= i < |m| ==> IsDigit(m[i]) by {
      forall i | 1 <= i < |m|
        ensures IsDigit(m[i])
      {
        assert m[i] == d[i - 1];
      }
    }
    assert !IsDigit('-');
  }

  /** Reading a rendered integer back gives the integer. */
  lemma DecimalRoundTrip(n: int)
    ensures ParseDecimal(Decimal(n)) == Some(n)
  {
    var m: nat := if n < 0 then -n else n;
    ParseDigits(Digits(m));
    DigitsValueDigits(m);
  }

  // ---------------------------------------------------------------------------
  // inspect of values, arrays and hashes
  // ---------------------------------------------------------------------------

  /** The bound values whose rendering this model covers. */
  predicate Shown(v: Value)
  {
    v.Nil? || v.Str? || v.Integer? || v.Bool?
  }

  /** The quoted form of bytes whose characters are known. */
  lemma QuoteOf(b: Bytes, text: string)
    requires Chars(b) == text
    ensures Quote(b) == "\"" + text + "\""
  {
  }

  /** A bound value as `inspect` shows it. */
  function Inspect(v: Value): (r: string)
    requires Shown(v)
    ensures |r| >= 1
  {
    match v
    case Nil => "nil"
    case Str(s) => Quote(s)
    case Integer(i) => Decimal(i)
    case Bool(b) => if b then "true" else "false"
  }

  /** The value a rendering shows, read back. */
  function ParseInspected(s: string): Option<Value>
  {
    if s == "nil" then Some(Nil)
    else if s == "true" then Some(Bool(true))
    else if s == "false" then Some(Bool(false))
    else if |s| >= 1 && s[0] == '"' then
      match Unquote(s)
      case Some(b) => Some(Str(b))
      case None => None
    else
      match ParseDecimal(s)
      case Some(i) => Some(Integer(i))
      case None => None
  }

  /** Each rendered value reads back as itself: the renderings of distinct values differ. */
  lemma InspectRoundTrip(v: Value)
    requires Shown(v)
    ensures ParseInspected(Inspect(v)) == Some(v)
  {
    match v
    case Nil =>
    case Str(s) =>
      UnquoteQuote(s);
      assert Quote(s) != "nil" && Quote(s) != "true" && Quote(s) != "false" by {
        assert Quote(s)[0] == '"';
      }
    case Integer(i) =>
      DecimalRoundTrip(i);
      var r := Decimal(i);
      assert r != "nil" && r != "true" && r != "false" && r[0] != '"' by {
        if i >= 0 {
          assert IsDigit(Digits(i)[0]);
        }
      }
    case Bool(b) =>
  }

  /** Items separated by ", ". */
  function Join(items: seq<string>): (r: string)
    ensures items == [] ==> r == []
    ensures |items| == 1 ==> r == items[0]
  {
    if items == [] then [] else if |items| == 1 then items[0] else items[0] + ", " + Join(items[1..])
  }

  /** `Array#inspect` of already rendered items. */
  function InspectArray(items: seq<string>): (r: string)
    ensures |r| >= 2 && r[0] == '[' && r[|r| - 1] == ']'
  {
    "[" + Join(items) + "]"
  }

  /** `Hash#inspect` of a string map: each pair as "key"=>"value". */
  function InspectHash(m: StringMap): (r: string)
    ensures |r| >= 2 && r[0] == '{' && r[|r| - 1] == '}'
  {
    "{" + Join(seq(|m|, i requires 0 <= i < |m| => Quote(m[i].0) + "=>" + Quote(m[i].1))) + "}"
  }

  // ---------------------------------------------------------------------------
  // to_s
  // ---------------------------------------------------------------------------

  /** The message name each request's rendering starts with. */
  function Command(r: Request): string
  {
    match r
    case Startup(_, _) => "STARTUP"
    case Options => "OPTIONS"
    case Register(_) => "REGISTER"
    case Query(_, _) => "QUERY"
    case Prepare(_) => "PREPARE"
    case Execute(_, _, _, _) => "EXECUTE"
  }

  /** What the rendering of a request needs: a shown kind for every bound value. */
  predicate Renderable(r: Request)
  {
    r.Execute? ==> forall i :: 0 <= i < |r.values| ==> Shown(r.values[i])
  }

  /** The bound values of an EXECUTE, each shown by `inspect`. */
  function InspectValues(values: seq<Value>): (r: seq<string>)
    requires forall i :: 0 <= i < |values| ==> Shown(values[i])
    ensures |r| == |values|
  {
    seq(|values|, i requires 0 <= i < |values| => Inspect(values[i]))
  }

  /** Each shown bound value reads back as itself. */
  lemma InspectValuesRoundTrip(values: seq<Value>)
    requires forall i :: 0 <= i < |values| ==> Shown(values[i])
    ensures forall i :: 0 <= i < |values| ==> ParseInspected(InspectValues(values)[i]) == Some(values[i])
  {
    forall i | 0 <= i < |values|
      ensures ParseInspected(InspectValues(values)[i]) == Some(values[i])
    {
      InspectRoundTrip(values[i]);
    }
  }

  /** `to_s` of each request class. */
  function ToS(r: Request): (s: string)
    requires Renderable(r)
    ensures |Command(r)| <= |s| && s[..|Command(r)|] == Command(r)
  {
    match r
    case Startup(version, compression) => "STARTUP " + InspectHash(StartupOptions(version, compression))
    case Options => "OPTIONS"
    case Register(events) => "REGISTER " + InspectArray(seq(|events|, i requires 0 <= i < |events| => Quote(events[i])))
    case Query(cql, consistency) => "QUERY " + Quote(cql) + " " + Name(consistency)
    case Prepare(cql) => "PREPARE " + Quote(cql)
    case Execute(id, _, values, consistency) =>
      "EXECUTE " + Hex(id) + " " + InspectArray(InspectValues(values)) + " " + Name(consistency)
  }

  /** Every rendering starts with the request's message name, followed by a space unless it is all there is. */
  lemma ToSStartsWithCommand(r: Request)
    requires Renderable(r)
    ensures |Command(r)| <= |ToS(r)| && ToS(r)[..|Command(r)|] == Command(r)
    ensures !r.Options? ==> |ToS(r)| > |Command(r)| && ToS(r)[|Command(r)|] == ' '
    ensures r.Options? ==> ToS(r) == Command(r)
  {
  }

  /** The message name tells the request class, as the opcode does. */
  lemma CommandIdentifiesKind(a: Request, b: Request)
    ensures Command(a) == Command(b) <==> Opcode(a) == Opcode(b)
  {
  }

  // ---------------------------------------------------------------------------
  // Reading the fixed shapes back
  // ---------------------------------------------------------------------------

  /** The level an upper-cased symbol names. */
  function FromName(s: string): Option<Consistency>
  {
    if s == "ANY" then Some(Any)
    else if s == "ONE" then Some(One)
    else if s == "TWO" then Some(Two)
    else if s == "THREE" then Some(Three)
    else if s == "QUORUM" then Some(Quorum)
    else if s == "ALL" then Some(All)
    else if s == "LOCAL_QUORUM" then Some(LocalQuorum)
    else if s == "EACH_QUORUM" then Some(EachQuorum)
    else None
  }

  /** Each level's name reads back as the level. */
  lemma NameRoundTrip(c: Consistency)
    ensures FromName(Name(c)) == Some(c)
  {
    match c
    case Any => assert Name(c) == "ANY";
    case One => assert Name(c) == "ONE";
    case Two => assert Name(c) == "TWO";
    case Three => assert Name(c) == "THREE";
    case Quorum => assert Name(c) == "QUORUM";
    case All => assert Name(c) == "ALL";
    case LocalQuorum => assert Name(c) == "LOCAL_QUORUM";
    case EachQuorum => assert Name(c) == "EACH_QUORUM";
  }

  /** No level's name holds a double quote, so the quoted text of a QUERY rendering ends before it. */
  lemma NameUnquoted(c: Consistency)
    ensures forall i :: 0 <= i < |Name(c)| ==> Name(c)[i] != '"'
  {
    assert forall i :: 0 <= i < |Symbol(c)| ==> Symbol(c)[i] == '_' || 'a' <= Symbol(c)[i] <= 'z';
  }

  /** The index of the last double quote in a string. */
  function LastQuote(s: string): (r: Option<nat>)
    ensures r.Some? ==> r.value < |s| && s[r.value] == '"'
  {
    if s == [] then None
    else if s[|s| - 1] == '"' then Some(|s| - 1)
    else LastQuote(s[..|s| - 1])
  }

  lemma {:induction false} LastQuoteBefore(a: string, b: string)
    requires forall i :: 0 <= i < |b| ==> b[i] != '"'
    ensures LastQuote(a + ['"'] + b) == Some(|a|)
    decreases |b|
  {
    if b != [] {
      var s := a + ['"'] + b;
      assert s[..|s| - 1] == a + ['"'] + b[..|b| - 1];
      LastQuoteBefore(a, b[..|b| - 1]);
    }
  }

  /** The text and level of a QUERY rendering: the quoted text runs to the last double quote. */
  function ParseQueryText(s: string): Option<(Bytes, Consistency)>
  {
    if |s| < 6 || s[..6] != "QUERY " then None
    else
      var t := s[6..];
      match LastQuote(t)
      case None => None
      case Some(k) =>
        if k + 1 >= |t| || t[k + 1] != ' ' then None
        else match (Unquote(t[..k + 1]), FromName(t[k + 2..]))
          case (Some(cql), Some(c)) => Some((cql, c))
          case _ => None
  }

  /** In a QUERY's rendering after the command, the last double quote closes the text. */
  lemma QueryTextEnds(cql: Bytes, consistency: Consistency)
    ensures LastQuote(Quote(cql) + (" " + Name(consistency))) == Some(|Quote(cql)| - 1)
  {
    var q := Quote(cql);
    var tail := " " + Name(consistency);
    NameUnquoted(consistency);
    assert forall i :: 0 <= i < |tail| ==> tail[i] != '"';
    assert q + tail == q[..|q| - 1] + ['"'] + tail;
    LastQuoteBefore(q[..|q| - 1], tail);
  }

  /** The parts of a QUERY rendering after the command: the quoted text, a space, the level's name. */
  lemma QueryTextParts(cql: Bytes, consistency: Consistency)
    ensures var q := Quote(cql); var t := q + (" " + Name(consistency));
      |t| > |q| && t[..|q|] == q && t[|q|] == ' ' && t[|q| + 1..] == Name(consistency)
  {
  }

  /** A QUERY rendering is the command, a space, and the rest. */
  lemma QueryToSSplit(cql: Bytes, consistency: Consistency)
    ensures var s := ToS(Query(cql, consistency));
      |s| >= 6 && s[..6] == "QUERY " && s[6..] == Quote(cql) + (" " + Name(consistency))
  {
    var t := Quote(cql) + (" " + Name(consistency));
    assert ToS(Query(cql, consistency)) == "QUERY " + t;
  }

  /** A QUERY's rendering reads back as its text and level. */
  lemma QueryToSRoundTrip(cql: Bytes, consistency: Consistency)
    ensures ParseQueryText(ToS(Query(cql, consistency))) == Some((cql, consistency))
  {
    QueryToSSplit(cql, consistency);
    QueryTextEnds(cql, consistency);
    QueryTextParts(cql, consistency);
    NameRoundTrip(consistency);
    UnquoteQuote(cql);
  }

  /** The text of a PREPARE rendering. */
  function ParsePrepareText(s: string): Option<Bytes>
  {
    if |s| < 8 || s[..8] != "PREPARE " then None else Unquote(s[8..])
  }

  /** A PREPARE's rendering reads back as its text. */
  lemma PrepareToSRoundTrip(cql: Bytes)
    ensures ParsePrepareText(ToS(Prepare(cql))) == Some(cql)
  {
    var s := ToS(Prepare(cql));
    assert s[..8] == "PREPARE " && s[8..] == Quote(cql);
    UnquoteQuote(cql);
  }

  /** A slice inside the front part of a concatenation is a slice of that part: a sequence identity that keeps proofs cheap. */
  lemma SliceOfFront(a: string, b: string, i: int, j: int)
    requires 0 <= i <= j <= |a|
    ensures (a + b)[i..j] == a[i..j]
  {
  }

  /** An EXECUTE's rendering carries its statement id, which reads back from the hex digits. */
  lemma ExecuteToSId(r: Request)
    requires r.Execute? && Renderable(r)
    ensures |ToS(r)| > 8 + 2 * |r.id|
    ensures Unhex(ToS(r)[8..8 + 2 * |r.id|]) == Some(r.id)
  {
    var shown := InspectArray(InspectValues(r.values));
    ExecuteToSOf(r, Hex(r.id), shown);
    var front := "EXECUTE " + Hex(r.id);
    var k := 8 + 2 * |r.id|;
    SliceOfFront(front + " " + shown + " ", Name(r.consistency), 8, k);
    SliceOfFront(front + " " + shown, " ", 8, k);
    SliceOfFront(front + " ", shown, 8, k);
    SliceOfFront(front, " ", 8, k);
    assert front[8..k] == Hex(r.id);
    UnhexHex(r.id);
  }

  // ---------------------------------------------------------------------------
  // The renderings pinned by the request frame specs
  // ---------------------------------------------------------------------------

  /** A short narrow literal shown from its Latin-1 bytes. */
  lemma ShownLiterals()
    ensures Chars(Latin1("CQL_VERSION")) == "CQL_VERSION" && Chars(Latin1("3.0.0")) == "3.0.0"
    ensures Chars(Latin1("TOPOLOGY_CHANGE")) == "TOPOLOGY_CHANGE" && Chars(Latin1("STATUS_CHANGE")) == "STATUS_CHANGE"
    ensures Chars(Latin1("hello")) == "hello" && Chars(Latin1("foo")) == "foo"
  {
  }

  /** The names of the levels the examples use. */
  lemma ShownNames()
    ensures Name(LocalQuorum) == "LOCAL_QUORUM" && Name(EachQuorum) == "EACH_QUORUM"
  {
  }

  lemma StartupToS(r: Request)
    requires r == Startup(DefaultCqlVersion(), None)
    ensures ToS(r) == "STARTUP " + ("{" + ("\"" + "CQL_VERSION" + "\"" + "=>" + ("\"" + "3.0.0" + "\"")) + "}")
  {
    var m := StartupOptions(DefaultCqlVersion(), None);
    var pair := Quote(CqlVersionKey()) + "=>" + Quote(DefaultCqlVersion());
    assert pair == "\"" + "CQL_VERSION" + "\"" + "=>" + ("\"" + "3.0.0" + "\"") by {
      OptionKeysText();
      ShownLiterals();
      QuoteOf(CqlVersionKey(), "CQL_VERSION");
      QuoteOf(DefaultCqlVersion(), "3.0.0");
    }
    var items := seq(|m|, i requires 0 <= i < |m| => Quote(m[i].0) + "=>" + Quote(m[i].1));
    assert |items| == 1 && items[0] == pair;
    assert ToS(r) == "STARTUP " + ("{" + pair + "}");
  }

  lemma RegisterToS(r: Request)
    requires r == Register([Latin1("TOPOLOGY_CHANGE"), Latin1("STATUS_CHANGE")])
    ensures ToS(r) == "REGISTER " + ("[" + (("\"" + "TOPOLOGY_CHANGE" + "\"") + ", " + ("\"" + "STATUS_CHANGE" + "\"")) + "]")
  {
    var items := seq(|r.events|, i requires 0 <= i < |r.events| => Quote(r.events[i]));
    var first, second := "\"" + "TOPOLOGY_CHANGE" + "\"", "\"" + "STATUS_CHANGE" + "\"";
    assert |items| == 2 && items[0] == first && items[1] == second by {
      ShownLiterals();
      QuoteOf(Latin1("TOPOLOGY_CHANGE"), "TOPOLOGY_CHANGE");
      QuoteOf(Latin1("STATUS_CHANGE"), "STATUS_CHANGE");
    }
    assert Join(items) == first + ", " + second by {
      var tail := items[1..];
      assert |tail| == 1 && tail[0] == second;
    }
    assert ToS(r) == "REGISTER " + ("[" + (first + ", " + second) + "]");
  }

  lemma QueryToS(r: Request)
    requires r == Query(Latin1("SELECT * FROM system.peers"), LocalQuorum)
    ensures ToS(r) == "QUERY " + ("\"" + "SELECT * FROM system.peers" + "\"") + " " + "LOCAL_QUORUM"
  {
    assert Quote(r.cql) == "\"" + "SELECT * FROM system.peers" + "\"" by {
      assert Chars(Latin1("SELECT * FROM system.peers")) == "SELECT * FROM system.peers";
      QuoteOf(r.cql, "SELECT * FROM system.peers");
    }
    ShownNames();
  }

  /** Latin-1 bytes and their rendering split where the text splits. */
  lemma ShownAppend(a: string, b: string)
    ensures Latin1(a + b) == Latin1(a) + Latin1(b)
    ensures Chars(Latin1(a) + Latin1(b)) == Chars(Latin1(a)) + Chars(Latin1(b))
  {
    var x := Latin1(a + b);
    assert forall i :: 0 <= i < |x| ==> x[i] == (Latin1(a) + Latin1(b))[i] by {
      forall i | 0 <= i < |x|
        ensures x[i] == (Latin1(a) + Latin1(b))[i]
      {
        if i < |a| {
          assert (a + b)[i] == a[i];
        } else {
          assert (a + b)[i] == b[i - |a|];
        }
      }
    }
  }

  /** The two halves of the PREPARE example's statement, shown from their Latin-1 bytes. */
  lemma PrepareHalvesShown()
    ensures Chars(Latin1("UPDATE users SET email = ?")) == "UPDATE users SET email = ?"
    ensures Chars(Latin1(" WHERE user_name = ?")) == " WHERE user_name = ?"
  {
  }

  /** The Latin-1 bytes of the PREPARE example's statement, split in two. */
  lemma PrepareTextSplit()
    ensures Latin1("UPDATE users SET email = ? WHERE user_name = ?") ==
      Latin1("UPDATE users SET email = ?") + Latin1(" WHERE user_name = ?")
  {
    assert "UPDATE users SET email = ?" + " WHERE user_name = ?" == "UPDATE users SET email = ? WHERE user_name = ?";
    ShownAppend("UPDATE users SET email = ?", " WHERE user_name = ?");
  }

  /** The PREPARE example's statement, shown from its Latin-1 bytes. */
  lemma PrepareTextShown()
    ensures Chars(Latin1("UPDATE users SET email = ? WHERE user_name = ?")) == "UPDATE users SET email = ? WHERE user_name = ?"
  {
    var first, second := "UPDATE users SET email = ?", " WHERE user_name = ?";
    PrepareTextSplit();
    PrepareHalvesShown();
    ShownAppend(first, second);
    assert first + second == "UPDATE users SET email = ? WHERE user_name = ?";
  }

  lemma PrepareToS(r: Request)
    requires r == Prepare(Latin1("UPDATE users SET email = ? WHERE user_name = ?"))
    ensures ToS(r) == "PREPARE " + ("\"" + "UPDATE users SET email = ? WHERE user_name = ?" + "\"")
  {
    PrepareTextShown();
    QuoteOf(r.cql, "UPDATE users SET email = ? WHERE user_name = ?");
  }

  /** The first two four-byte pieces of the EXECUTE example's statement id in hex. */
  lemma ExampleIdFrontQuads()
    ensures Hex([0xCA, 0x48, 0x7F, 0x1E]) == "ca487f1e" && Hex([0x7A, 0x82, 0xD2, 0x3C]) == "7a82d23c"
  {
  }

  /** The last two four-byte pieces of the EXECUTE example's statement id in hex. */
  lemma ExampleIdBackQuads()
    ensures Hex([0x4E, 0x8A, 0xF3, 0x35]) == "4e8af335" && Hex([0x51, 0x71, 0xA5, 0x2F]) == "5171a52f"
  {
  }

  /** The statement id of the EXECUTE example, four bytes at a time. */
  lemma ExampleIdHex()
    ensures Hex(ExampleStatementId()) == "ca487f1e" + "7a82d23c" + "4e8af335" + "5171a52f"
  {
    var a, b, c, d := [0xCA, 0x48, 0x7F, 0x1E], [0x7A, 0x82, 0xD2, 0x3C], [0x4E, 0x8A, 0xF3, 0x35], [0x51, 0x71, 0xA5, 0x2F];
    assert ExampleStatementId() == a + b + c + d;
    ExampleIdFrontQuads();
    ExampleIdBackQuads();
    HexAppend(a, b);
    HexAppend(a + b, c);
    HexAppend(a + b + c, d);
  }

  /** `Array#inspect` of three rendered items. */
  lemma InspectArrayThree(items: seq<string>)
    requires |items| == 3
    ensures InspectArray(items) == "[" + (items[0] + ", " + (items[1] + ", " + items[2])) + "]"
  {
    var tail := items[1..];
    assert |tail| == 2 && tail[0] == items[1] && tail[1..] == [items[2]];
    assert Join(tail) == items[1] + ", " + items[2];
    assert Join(items) == items[0] + ", " + Join(tail);
  }

  /** The bound values of the EXECUTE example as `inspect` shows them. */
  lemma ExampleValuesShown()
    ensures InspectArray(InspectValues(ExampleValues())) ==
      "[" + (("\"" + "hello" + "\"") + ", " + ("42" + ", " + ("\"" + "foo" + "\""))) + "]"
  {
    var items := InspectValues(ExampleValues());
    assert |items| == 3;
    assert items[0] == "\"" + "hello" + "\"" by {
      assert Chars(Latin1("hello")) == "hello";
      QuoteOf(Latin1("hello"), "hello");
    }
    assert items[1] == "42";
    assert items[2] == "\"" + "foo" + "\"" by {
      assert Chars(Latin1("foo")) == "foo";
      QuoteOf(Latin1("foo"), "foo");
    }
    InspectArrayThree(items);
  }

  /** The same, for a sequence known to be the example's values. */
  lemma ExampleValuesRendered(values: seq<Value>)
    requires values == ExampleValues()
    ensures forall i :: 0 <= i < |values| ==> Shown(values[i])
    ensures InspectArray(InspectValues(values)) == "[" + (("\"" + "hello" + "\"") + ", " + ("42" + ", " + ("\"" + "foo" + "\""))) + "]"
  {
    ExampleValuesShown();
  }

  /** The rendering of any EXECUTE, from the renderings of its id and its values (an unfolding of `ToS`). */
  lemma ExecuteToSOf(r: Request, hex: string, shown: string)
    requires r.Execute? && Renderable(r)
    requires Hex(r.id) == hex && InspectArray(InspectValues(r.values)) == shown
    ensures ToS(r) == "EXECUTE " + hex + " " + shown + " " + Name(r.consistency)
  {
  }

  /** The pieces of the EXECUTE example's rendering. */
  lemma ExampleExecuteShown(r: Request)
    requires r.Execute? && r.id == ExampleStatementId() && r.values == ExampleValues() && r.consistency == EachQuorum
    ensures Renderable(r) && Hex(r.id) == "ca487f1e" + "7a82d23c" + "4e8af335" + "5171a52f"
    ensures InspectArray(InspectValues(r.values)) == "[" + (("\"" + "hello" + "\"") + ", " + ("42" + ", " + ("\"" + "foo" + "\""))) + "]"
    ensures Name(r.consistency) == "EACH_QUORUM"
  {
    ExampleIdHex();
    ExampleValuesRendered(r.values);
    ShownNames();
  }

  /** The rendering does not show the metadata, so any EXECUTE with these id, values and level renders the same. */
  lemma ExecuteToS(r: Request)
    requires r.Execute? && r.id == ExampleStatementId() && r.values == ExampleValues() && r.consistency == EachQuorum
    ensures ToS(r) ==
      "EXECUTE " + ("ca487f1e" + "7a82d23c" + "4e8af335" + "5171a52f") + " " +
      ("[" + (("\"" + "hello" + "\"") + ", " + ("42" + ", " + ("\"" + "foo" + "\""))) + "]") + " " + "EACH_QUORUM"
  {
    ExampleExecuteShown(r);
    ExecuteToSOf(r, "ca487f1e" + "7a82d23c" + "4e8af335" + "5171a52f",
      "[" + (("\"" + "hello" + "\"") + ", " + ("42" + ", " + ("\"" + "foo" + "\""))) + "]");
  }
}
