/**
 * The notations of the native protocol (section 3 of the CQL binary protocol
 * v1): [short], [int], [string], [long string], [string list],
 * [string map], [bytes], [short bytes] and [consistency]. Each notation is a
 * pure function giving its bytes, a reader that takes it back off the front
 * of a buffer, and a method that appends it to a growing `ByteBuffer`.
 */
module Encoding {
  import opened Wrappers
  import opened Protocol

  const SHORT_LIMIT: nat := 0x1_0000
  const INT_LIMIT: nat := 0x1_0000_0000

  /** A string whose length a [short] can carry. */
  predicate ShortString(s: Bytes)
  {
    |s| < SHORT_LIMIT
  }

  /** A string whose length an unsigned [int] can carry. */
  predicate LongString(s: Bytes)
  {
    |s| < INT_LIMIT
  }

  /** The key/value pairs of a [string map], in the order they are written. */
  type StringMap = seq<(Bytes, Bytes)>

  // ---------------------------------------------------------------------------
  // Layouts
  // ---------------------------------------------------------------------------

  /** [string]: a [short] length, then the bytes. [short bytes] has the same layout. */
  function StringBytes(s: Bytes): (r: Bytes)
    ensures |r| == 2 + |s| && r[2..] == s
    ensures Unsigned(r[..2]) == |s| % SHORT_LIMIT
  {
    assert (PackShort(|s|) + s)[..2] == PackShort(|s|);
    PackShort(|s|) + s
  }

  /** [long string]: an [int] length, then the bytes. */
  function LongStringBytes(s: Bytes): (r: Bytes)
    ensures |r| == 4 + |s| && r[4..] == s
    ensures Unsigned(r[..4]) == |s| % INT_LIMIT
  {
    assert (PackInt(|s|) + s)[..4] == PackInt(|s|);
    PackInt(|s|) + s
  }

  /** The [string]s of a list, one after the other. */
  function Strings(ss: seq<Bytes>): Bytes
  {
    if ss == [] then [] else StringBytes(ss[0]) + Strings(ss[1..])
  }

  /** [string list]: a [short] count, then that many [string]s. */
  function StringListBytes(ss: seq<Bytes>): (r: Bytes)
    ensures |r| >= 2 && Unsigned(r[..2]) == |ss| % SHORT_LIMIT && r[2..] == Strings(ss)
  {
    assert (PackShort(|ss|) + Strings(ss))[..2] == PackShort(|ss|);
    PackShort(|ss|) + Strings(ss)
  }

  /** The key and value [string]s of each map entry, one entry after the other. */
  function Entries(m: StringMap): Bytes
  {
    if m == [] then [] else StringBytes(m[0].0) + StringBytes(m[0].1) + Entries(m[1..])
  }

  /** [string map]: a [short] entry count, then each key and value as a [string]. */
  function StringMapBytes(m: StringMap): (r: Bytes)
    ensures |r| >= 2 && Unsigned(r[..2]) == |m| % SHORT_LIMIT && r[2..] == Entries(m)
  {
    assert (PackShort(|m|) + Entries(m))[..2] == PackShort(|m|);
    PackShort(|m|) + Entries(m)
  }

  /** [bytes]: an [int] length then the bytes, or the length -1 alone for a null value. */
  function BytesField(v: Option<Bytes>): (r: Bytes)
    ensures v.None? ==> r == [0xFF, 0xFF, 0xFF, 0xFF]
    ensures v.Some? ==> |r| == 4 + |v.value| && r[4..] == v.value
    ensures v.Some? ==> Unsigned(r[..4]) == |v.value| % INT_LIMIT
  {
    match v
    case None => PackInt(-1)
    case Some(b) =>
      assert (PackInt(|b|) + b)[..4] == PackInt(|b|);
      PackInt(|b|) + b
  }

  /** [consistency]: the level's ordinal as a [short]. */
  function ConsistencyBytes(c: Consistency): (r: Bytes)
    ensures |r| == 2 && r[0] == 0 && r[1] == Ordinal(c)
  {
    PackShort(Ordinal(c))
  }

  lemma {:induction false} StringsSnoc(ss: seq<Bytes>, s: Bytes)
    ensures Strings(ss + [s]) == Strings(ss) + StringBytes(s)
  {
    if ss != [] {
      assert (ss + [s])[1..] == ss[1..] + [s];
      StringsSnoc(ss[1..], s);
    } else {
      assert [s][1..] == [];
    }
  }

  /** Appending in two steps is appending the concatenation: a sequence identity that keeps proofs cheap. */
  lemma Assoc(a: Bytes, b: Bytes, c: Bytes)
    ensures a + b + c == a + (b + c)
  {
  }

  lemma {:induction false} EntriesSnoc(m: StringMap, key: Bytes, value: Bytes)
    ensures Entries(m + [(key, value)]) == Entries(m) + StringBytes(key) + StringBytes(value)
  {
    if m != [] {
      assert (m + [(key, value)])[1..] == m[1..] + [(key, value)];
      EntriesSnoc(m[1..], key, value);
    } else {
      assert [(key, value)][1..] == [];
    }
  }

  // ---------------------------------------------------------------------------
  // Readers: what a peer decoding the notation takes back off a buffer
  // ---------------------------------------------------------------------------

  function ReadShort(b: Bytes): Option<(nat, Bytes)>
  {
    if |b| < 2 then None else Some((Unsigned(b[..2]), b[2..]))
  }

  /** A signed [int]. */
  function ReadInt(b: Bytes): Option<(int, Bytes)>
  {
    if |b| < 4 then None else Some((Signed(b[..4]), b[4..]))
  }

  /** `n` raw bytes. */
  function ReadRaw(n: int, b: Bytes): Option<(Bytes, Bytes)>
  {
    if 0 <= n <= |b| then Some((b[..n], b[n..])) else None
  }

  function ReadString(b: Bytes): Option<(Bytes, Bytes)>
  {
    if |b| < 2 then None else ReadRaw(Unsigned(b[..2]), b[2..])
  }

  /** A [long string], whose length is read as the unsigned 'N' it was written with. */
  function ReadLongString(b: Bytes): Option<(Bytes, Bytes)>
  {
    if |b| < 4 then None else ReadRaw(Unsigned(b[..4]), b[4..])
  }

  function ReadStrings(n: nat, b: Bytes): Option<(seq<Bytes>, Bytes)>
  {
    if n == 0 then Some(([], b))
    else
      var first := ReadString(b);
      if first.None? then None
      else
        var more := ReadStrings(n - 1, first.value.1);
        if more.None? then None
        else Some(([first.value.0] + more.value.0, more.value.1))
  }

  function ReadStringList(b: Bytes): Option<(seq<Bytes>, Bytes)>
  {
    var count := ReadShort(b);
    if count.None? then None else ReadStrings(count.value.0, count.value.1)
  }

  function ReadEntries(n: nat, b: Bytes): Option<(StringMap, Bytes)>
  {
    if n == 0 then Some(([], b))
    else
      var key := ReadString(b);
      if key.None? then None
      else
        var value := ReadString(key.value.1);
        if value.None? then None
        else
          var more := ReadEntries(n - 1, value.value.1);
          if more.None? then None
          else Some(([(key.value.0, value.value.0)] + more.value.0, more.value.1))
  }

  function ReadStringMap(b: Bytes): Option<(StringMap, Bytes)>
  {
    var count := ReadShort(b);
    if count.None? then None else ReadEntries(count.value.0, count.value.1)
  }

  /** A [bytes] field; a negative length stands for null. */
  function ReadBytesField(b: Bytes): Option<(Option<Bytes>, Bytes)>
  {
    if |b| < 4 then None
    else
      var n := Signed(b[..4]);
      if n < 0 then Some((None, b[4..]))
      else if n <= |b| - 4 then Some((Some(b[4..4 + n]), b[4 + n..]))
      else None
  }

  function ReadConsistency(b: Bytes): Option<(Consistency, Bytes)>
  {
    if |b| < 2 then None
    else
      var c := FromOrdinal(Unsigned(b[..2]));
      if c.None? then None else Some((c.value, b[2..]))
  }

  // ---------------------------------------------------------------------------
  // Lengths below 256: a short or int length is zeros and one byte
  // ---------------------------------------------------------------------------

  lemma SmallShort(n: int)
    requires 0 <= n < 256
    ensures PackShort(n) == [0x00, n]
  {
    assert BigEndian(n / 256, 1) == BigEndian(0, 0) + [0];
  }

  lemma SmallInt(n: int)
    requires 0 <= n < 256
    ensures PackInt(n) == [0x00, 0x00, 0x00, n]
  {
    assert BigEndian(0, 3) == [0x00, 0x00, 0x00];
    assert BigEndian(n / 256, 3) == BigEndian(0, 3);
  }

  /** A [string] shorter than 256 bytes: a zero byte, its length, then the bytes. */
  lemma ShortStringLayout(s: Bytes)
    requires |s| < 256
    ensures StringBytes(s) == [0x00, |s|] + s
  {
    SmallShort(|s|);
  }

  /** A [long string] shorter than 256 bytes: three zero bytes, its length, then the bytes. */
  lemma ShortLongStringLayout(s: Bytes)
    requires |s| < 256
    ensures LongStringBytes(s) == [0x00, 0x00, 0x00, |s|] + s
  {
    SmallInt(|s|);
  }

  // ---------------------------------------------------------------------------
  // Round trips: each reader takes back exactly what was written
  // ---------------------------------------------------------------------------

  lemma ShortRoundTrip(n: int, rest: Bytes)
    requires 0 <= n < SHORT_LIMIT
    ensures ReadShort(PackShort(n) + rest) == Some((n, rest))
  {
    var b := PackShort(n) + rest;
    assert b[..2] == PackShort(n) && b[2..] == rest;
  }

  lemma IntRoundTrip(n: int, rest: Bytes)
    requires FitsSigned(n, 4)
    ensures ReadInt(PackInt(n) + rest) == Some((n, rest))
  {
    var b := PackInt(n) + rest;
    assert b[..4] == PackInt(n) && b[4..] == rest;
  }

  lemma StringRoundTrip(s: Bytes, rest: Bytes)
    requires ShortString(s)
    ensures ReadString(StringBytes(s) + rest) == Some((s, rest))
  {
    var b := StringBytes(s) + rest;
    assert b[..2] == PackShort(|s|) && b[2..] == s + rest;
    assert (s + rest)[..|s|] == s && (s + rest)[|s|..] == rest;
  }

  lemma LongStringRoundTrip(s: Bytes, rest: Bytes)
    requires LongString(s)
    ensures ReadLongString(LongStringBytes(s) + rest) == Some((s, rest))
  {
    var b := LongStringBytes(s) + rest;
    assert b[..4] == PackInt(|s|) && b[4..] == s + rest;
    assert (s + rest)[..|s|] == s && (s + rest)[|s|..] == rest;
  }

  lemma {:induction false} StringsRoundTrip(ss: seq<Bytes>, rest: Bytes)
    requires forall i :: 0 <= i < |ss| ==> ShortString(ss[i])
    ensures ReadStrings(|ss|, Strings(ss) + rest) == Some((ss, rest))
  {
    if ss != [] {
      var tail := Strings(ss[1..]) + rest;
      assert Strings(ss) + rest == StringBytes(ss[0]) + tail;
      StringRoundTrip(ss[0], tail);
      StringsRoundTrip(ss[1..], rest);
      assert ReadString(Strings(ss) + rest) == Some((ss[0], tail));
      assert ReadStrings(|ss| - 1, tail) == Some((ss[1..], rest));
      assert [ss[0]] + ss[1..] == ss;
    } else {
      assert Strings(ss) + rest == rest;
    }
  }

  lemma StringListRoundTrip(ss: seq<Bytes>, rest: Bytes)
    requires |ss| < SHORT_LIMIT
    requires forall i :: 0 <= i < |ss| ==> ShortString(ss[i])
    ensures ReadStringList(StringListBytes(ss) + rest) == Some((ss, rest))
  {
    assert StringListBytes(ss) == PackShort(|ss|) + Strings(ss);
    Assoc(PackShort(|ss|), Strings(ss), rest);
    ShortRoundTrip(|ss|, Strings(ss) + rest);
    StringsRoundTrip(ss, rest);
  }

  lemma {:induction false} EntriesRoundTrip(m: StringMap, rest: Bytes)
    requires forall i :: 0 <= i < |m| ==> ShortString(m[i].0) && ShortString(m[i].1)
    ensures ReadEntries(|m|, Entries(m) + rest) == Some((m, rest))
  {
    if m != [] {
      var tail := Entries(m[1..]) + rest;
      assert Entries(m) + rest == StringBytes(m[0].0) + (StringBytes(m[0].1) + tail);
      StringRoundTrip(m[0].0, StringBytes(m[0].1) + tail);
      StringRoundTrip(m[0].1, tail);
      EntriesRoundTrip(m[1..], rest);
      assert ReadString(Entries(m) + rest) == Some((m[0].0, StringBytes(m[0].1) + tail));
      assert ReadString(StringBytes(m[0].1) + tail) == Some((m[0].1, tail));
      assert ReadEntries(|m| - 1, tail) == Some((m[1..], rest));
      assert [(m[0].0, m[0].1)] + m[1..] == m;
    } else {
      assert Entries(m) + rest == rest;
    }
  }

  lemma StringMapRoundTrip(m: StringMap, rest: Bytes)
    requires |m| < SHORT_LIMIT
    requires forall i :: 0 <= i < |m| ==> ShortString(m[i].0) && ShortString(m[i].1)
    ensures ReadStringMap(StringMapBytes(m) + rest) == Some((m, rest))
  {
    assert StringMapBytes(m) == PackShort(|m|) + Entries(m);
    Assoc(PackShort(|m|), Entries(m), rest);
    ShortRoundTrip(|m|, Entries(m) + rest);
    EntriesRoundTrip(m, rest);
  }

  /** A null and a present value both come back; a present value must fit a signed [int] length. */
  lemma BytesFieldRoundTrip(v: Option<Bytes>, rest: Bytes)
    requires v.Some? ==> |v.value| < 0x8000_0000
    ensures ReadBytesField(BytesField(v) + rest) == Some((v, rest))
  {
    match v
    case None =>
      var f := BytesField(v) + rest;
      assert f[..4] == PackInt(-1) && f[4..] == rest;
    case Some(b) =>
      var f := BytesField(v) + rest;
      assert f[..4] == PackInt(|b|) && f[4..] == b + rest;
      assert f[4..4 + |b|] == b && f[4 + |b|..] == rest;
  }

  lemma ConsistencyRoundTrip(c: Consistency, rest: Bytes)
    ensures ReadConsistency(ConsistencyBytes(c) + rest) == Some((c, rest))
  {
    var b := ConsistencyBytes(c) + rest;
    assert b[..2] == PackShort(Ordinal(c)) && b[2..] == rest;
    OrdinalBijective(c, Ordinal(c));
  }

  // ---------------------------------------------------------------------------
  // The output buffer
  // ---------------------------------------------------------------------------

  /** The binary String a request is written into; every write appends to it. */
  class ByteBuffer {
    var bytes: Bytes

    constructor ()
      ensures bytes == []
    {
      bytes := [];
    }

    method Append(s: Bytes)
      modifies this
      ensures bytes == old(bytes) + s
    {
      bytes := bytes + s;
    }

    method AppendShort(n: int)
      modifies this
      ensures bytes == old(bytes) + PackShort(n)
    {
      bytes := bytes + PackShort(n);
    }

    method AppendInt(n: int)
      modifies this
      ensures bytes == old(bytes) + PackInt(n)
    {
      bytes := bytes + PackInt(n);
    }

    /** Replaces the [int] at `at`, as a frame's length placeholder is filled in once its body is known. */
    method OverwriteInt(at: nat, n: int)
      requires at + 4 <= |bytes|
      modifies this
      ensures bytes == old(bytes)[..at] + PackInt(n) + old(bytes)[at + 4..]
    {
      bytes := bytes[..at] + PackInt(n) + bytes[at + 4..];
    }

    method AppendString(s: Bytes)
      modifies this
      ensures bytes == old(bytes) + StringBytes(s)
    {
      AppendShort(|s|);
      Append(s);
      Assoc(old(bytes), PackShort(|s|), s);
    }

    method AppendLongString(s: Bytes)
      modifies this
      ensures bytes == old(bytes) + LongStringBytes(s)
    {
      AppendInt(|s|);
      Append(s);
      Assoc(old(bytes), PackInt(|s|), s);
    }

    method AppendStringList(ss: seq<Bytes>)
      modifies this
      ensures bytes == old(bytes) + StringListBytes(ss)
    {
      AppendShort(|ss|);
      AppendStrings(ss);
      Assoc(old(bytes), PackShort(|ss|), Strings(ss));
    }

    method AppendStrings(ss: seq<Bytes>)
      modifies this
      ensures bytes == old(bytes) + Strings(ss)
    {
      var i := 0;
      while i < |ss|
        invariant 0 <= i <= |ss|
        invariant bytes == old(bytes) + Strings(ss[..i])
      {
        ghost var done := Strings(ss[..i]);
        AppendString(ss[i]);
        assert bytes == old(bytes) + Strings(ss[..i + 1]) by {
          StringsSnoc(ss[..i], ss[i]);
          assert ss[..i + 1] == ss[..i] + [ss[i]];
          Assoc(old(bytes), done, StringBytes(ss[i]));
        }
        i := i + 1;
      }
      assert ss[..i] == ss;
    }

    method AppendStringMap(m: StringMap)
      modifies this
      ensures bytes == old(bytes) + StringMapBytes(m)
    {
      AppendShort(|m|);
      AppendEntries(m);
      Assoc(old(bytes), PackShort(|m|), Entries(m));
    }

    method AppendEntries(m: StringMap)
      modifies this
      ensures bytes == old(bytes) + Entries(m)
    {
      var i := 0;
      while i < |m|
        invariant 0 <= i <= |m|
        invariant bytes == old(bytes) + Entries(m[..i])
      {
        var key, value := m[i].0, m[i].1;
        ghost var done := Entries(m[..i]);
        AppendEntry(key, value);
        assert bytes == old(bytes) + Entries(m[..i + 1]) by {
          EntriesSnoc(m[..i], key, value);
          assert m[..i + 1] == m[..i] + [(key, value)];
          Assoc(old(bytes), done, StringBytes(key));
          Assoc(old(bytes), done + StringBytes(key), StringBytes(value));
        }
        i := i + 1;
      }
      assert m[..i] == m;
    }

    method AppendEntry(key: Bytes, value: Bytes)
      modifies this
      ensures bytes == old(bytes) + StringBytes(key) + StringBytes(value)
    {
      AppendString(key);
      AppendString(value);
    }

    method AppendBytes(v: Option<Bytes>)
      modifies this
      ensures bytes == old(bytes) + BytesField(v)
    {
      match v
      case None =>
        AppendInt(-1);
      case Some(b) =>
        AppendInt(|b|);
        Append(b);
        Assoc(old(bytes), PackInt(|b|), b);
    }

    method AppendConsistency(c: Consistency)
      modifies this
      ensures bytes == old(bytes) + ConsistencyBytes(c)
    {
      AppendShort(Ordinal(c));
    }
  }
}
