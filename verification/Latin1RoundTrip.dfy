/** What the two conversion directions guarantee about each other. */
module Latin1RoundTrip {
  import opened Helpers
  import opened Bytes
  import opened Utf8
  import opened EncodingConverter

  // ----- the conversions of whole strings

  /** Like the conversion of a text, but with a question mark for what Latin-1 lacks. */
  function Latin1String(s: seq<byte>): seq<byte> {
    if s == [] then []
    else [if IsLatin1Char(s) then CharValue(s) else '?' as int] + Latin1String(s[CharLength(s)..])
  }

  lemma {:induction false} Latin1StringFrom(s: seq<byte>, pos: nat)
    requires pos < |s|
    ensures var c, n := CharValue(s[pos..]), CharLength(s[pos..]);
      && pos + n <= |s|
      && Latin1String(s[pos..]) == [if 0 <= c <= 0xFF then c else '?' as int] + Latin1String(s[pos + n..])
      && (IsAscii(s[pos]) ==> n == 1 && c == s[pos])
  {
    assert s[pos..][CharLength(s[pos..])..] == s[pos + CharLength(s[pos..])..];
  }

  function Encoded(c: byte): seq<byte> {
    if IsAscii(c) then [c] else [0xC0 + c / 64, 0x80 + c % 64]
  }

  lemma {:induction false} ConvertedFrom(s: seq<byte>, pos: nat)
    requires pos < |s|
    ensures Converted(Latin1ToUtf8, s[pos..]) == Encoded(s[pos]) + Converted(Latin1ToUtf8, s[pos + 1..])
    ensures IsAscii(s[pos]) ==> Encoded(s[pos]) == [s[pos]]
  {
    assert s[pos..][1..] == s[pos + 1..];
  }

  method SkipAscii(bytes: seq<byte>, start: nat) returns (pos: nat)
    requires start <= |bytes| && IsBeginOfWChar(bytes, start)
    ensures start <= pos <= |bytes| && IsBeginOfWChar(bytes, pos)
    ensures forall i | start <= i < pos :: IsAscii(bytes[i])
    ensures pos < |bytes| ==> !IsAscii(bytes[pos])
  {
    pos := start;
    while pos < |bytes| && IsAscii(bytes[pos])
      invariant start <= pos <= |bytes| && IsBeginOfWChar(bytes, pos)
      invariant forall i | start <= i < pos :: IsAscii(bytes[i])
    {
      pos := pos + 1;
    }
  }

  /** A run of ASCII goes through either conversion unchanged. */
  lemma {:induction false} AsciiRunStays(s: seq<byte>, start: nat, pos: nat)
    requires start <= pos <= |s|
    requires forall i | start <= i < pos :: IsAscii(s[i])
    ensures Latin1String(s[start..]) == s[start..pos] + Latin1String(s[pos..])
    ensures Converted(Latin1ToUtf8, s[start..]) == s[start..pos] + Converted(Latin1ToUtf8, s[pos..])
    decreases pos - start
  {
    hide Latin1String, Converted, CharLength, CharValue, Encoded;
    if start < pos {
      Latin1StringFrom(s, start);
      ConvertedFrom(s, start);
      AsciiRunStays(s, start + 1, pos);
      assert s[start..pos] == [s[start]] + s[start + 1..pos];
    }
  }

  /** Decode characters up to the next ASCII byte. */
  method DecodeRun(bytes: seq<byte>, start: nat, head: seq<byte>) returns (pos: nat, rslt: seq<byte>)
    requires start <= |bytes| && IsBeginOfWChar(bytes, start)
    ensures start <= pos <= |bytes| && IsBeginOfWChar(bytes, pos)
    ensures start < |bytes| && !IsAscii(bytes[start]) ==> start < pos
    ensures rslt + Latin1String(bytes[pos..]) == head + Latin1String(bytes[start..])
  {
    hide Latin1String, CharLength, CharValue;
    pos, rslt := start, head;
    while pos < |bytes| && !IsAscii(bytes[pos])
      invariant start <= pos <= |bytes| && IsBeginOfWChar(bytes, pos)
      invariant rslt + Latin1String(bytes[pos..]) == head + Latin1String(bytes[start..])
      invariant pos == start && start < |bytes| && !IsAscii(bytes[start]) ==> pos < |bytes| && !IsAscii(bytes[pos])
      decreases |bytes| - pos
    {
      Latin1StringFrom(bytes, pos);
      var wchar, next := GetWCharAndIncrementPos(bytes, pos);
      Assoc(rslt, [if 0 <= wchar <= 0xFF then wchar else '?' as int], Latin1String(bytes[next..]));
      if 0 <= wchar <= 0xFF {
        rslt := rslt + [wchar];
      } else {
        rslt := rslt + ['?' as int];
      }
      pos := next;
    }
  }

  method ConvertUtf8ToLatin1String(bytes: seq<byte>) returns (rslt: seq<byte>)
    ensures rslt == Latin1String(bytes)
  {
    hide Latin1String;
    rslt := [];
    var pos := 0;
    assert bytes[0..] == bytes;
    while pos < |bytes|
      invariant 0 <= pos <= |bytes| && IsBeginOfWChar(bytes, pos)
      invariant Latin1String(bytes) == rslt + Latin1String(bytes[pos..])
      decreases |bytes| - pos
    {
      var appendedPos := pos;
      pos := SkipAscii(bytes, pos);
      AsciiRunStays(bytes, appendedPos, pos);
      Assoc(rslt, bytes[appendedPos..pos], Latin1String(bytes[pos..]));
      rslt := rslt + bytes[appendedPos..pos];
      pos, rslt := DecodeRun(bytes, pos, rslt);
    }
    assert bytes[pos..] == [];
    NoMoreLatin1();
  }

  lemma {:induction false} NoMoreLatin1()
    ensures Latin1String([]) == []
  {
  }

  /** Encode bytes up to the next ASCII byte. */
  method EncodeRun(bytes: seq<byte>, start: nat, head: seq<byte>) returns (pos: nat, rslt: seq<byte>)
    requires start <= |bytes|
    ensures start <= pos <= |bytes|
    ensures start < |bytes| && !IsAscii(bytes[start]) ==> start < pos
    ensures rslt + Converted(Latin1ToUtf8, bytes[pos..]) == head + Converted(Latin1ToUtf8, bytes[start..])
  {
    hide Converted;
    pos, rslt := start, head;
    while pos < |bytes| && !IsAscii(bytes[pos])
      invariant start <= pos <= |bytes|
      invariant rslt + Converted(Latin1ToUtf8, bytes[pos..]) == head + Converted(Latin1ToUtf8, bytes[start..])
      invariant pos == start && start < |bytes| && !IsAscii(bytes[start]) ==> pos < |bytes| && !IsAscii(bytes[pos])
    {
      var c := bytes[pos];
      ConvertedFrom(bytes, pos);
      Assoc(rslt, Encoded(c), Converted(Latin1ToUtf8, bytes[pos + 1..]));
      ghost var before := rslt;
      pos := pos + 1;
      BitMasksAreArithmetic(Bits(c));
      rslt := rslt + [(0xC0 | ((Bits(c) >> 6) & 0x1F)) as int];
      rslt := rslt + [(0x80 | (Bits(c) & 0x3F)) as int];
      assert rslt == before + Encoded(c);
    }
  }

  method ConvertLatin1ToUtf8String(bytes: seq<byte>) returns (rslt: seq<byte>)
    ensures rslt == Converted(Latin1ToUtf8, bytes)
  {
    hide Converted;
    rslt := [];
    var pos := 0;
    assert bytes[0..] == bytes;
    while pos < |bytes|
      invariant 0 <= pos <= |bytes|
      invariant Converted(Latin1ToUtf8, bytes) == rslt + Converted(Latin1ToUtf8, bytes[pos..])
      decreases |bytes| - pos
    {
      var appendedPos := pos;
      while pos < |bytes| && IsAscii(bytes[pos])
        invariant appendedPos <= pos <= |bytes|
        invariant forall i | appendedPos <= i < pos :: IsAscii(bytes[i])
      {
        pos := pos + 1;
      }
      AsciiRunStays(bytes, appendedPos, pos);
      Assoc(rslt, bytes[appendedPos..pos], Converted(Latin1ToUtf8, bytes[pos..]));
      rslt := rslt + bytes[appendedPos..pos];
      pos, rslt := EncodeRun(bytes, pos, rslt);
    }
    assert bytes[pos..] == [];
    NothingLeft(Latin1ToUtf8);
  }

  // ----- from Latin-1 and back

  /** ASCII bytes and two-byte sequences that start with 0xC2 or 0xC3. */
  predicate IsUtf8OfLatin1(s: seq<byte>) {
    s == []
    || (IsAscii(s[0]) && IsUtf8OfLatin1(s[1..]))
    || (|s| >= 2 && (s[0] == 0xC2 || s[0] == 0xC3) && IsFollower(s[1]) && IsUtf8OfLatin1(s[2..]))
  }

  lemma {:induction false} Latin1BecomesUtf8(s: seq<byte>)
    ensures IsUtf8OfLatin1(Converted(Latin1ToUtf8, s))
  {
    hide CharLength, CharValue;
    if s != [] {
      Latin1BecomesUtf8(s[1..]);
      var out, rest := UnitOutput(Latin1ToUtf8, s), Converted(Latin1ToUtf8, s[1..]);
      assert (out + rest)[|out|..] == rest;
    }
  }

  lemma {:induction false} TwoByteChar(s: seq<byte>)
    requires |s| >= 2 && (s[0] == 0xC2 || s[0] == 0xC3) && IsFollower(s[1])
    requires |s| > 2 ==> !IsFollower(s[2])
    ensures CharLength(s) == 2 == WellFormedLength(s)
    ensures CharValue(s) == (s[0] as int - 0xC0) * 64 + Payload(s[1])
  {
    FollowersOf(s[1..], 1);
    FirstByteOf(s[0]);
    FollowersUnrolled(FirstByteBits(s[0], 1), s[1..2]);
  }

  /** The first unit of such text, as both decoders and the standard see it. */
  lemma {:induction false} FirstUnit(s: seq<byte>)
    requires s != [] && IsUtf8OfLatin1(s)
    ensures var n := if IsAscii(s[0]) then 1 else 2;
      && n <= |s| && CharLength(s) == n == WellFormedLength(s) && IsUtf8OfLatin1(s[n..])
      && CharValue(s) == (if n == 1 then s[0] else (s[0] as int - 0xC0) * 64 + Payload(s[1]))
      && IsLatin1Char(s) && UnitOutput(Utf8ToLatin1, s) == [CharValue(s)]
  {
    if !IsAscii(s[0]) {
      hide CharLength, CharValue;
      assert s[2..] == [] || !IsFollower(s[2..][0]);
      TwoByteChar(s);
    }
  }

  /** Encoding a character of Latin-1 gives back the unit it was decoded from. */
  lemma {:induction false} FirstUnitBack(s: seq<byte>)
    requires s != [] && IsUtf8OfLatin1(s)
    ensures IsLatin1Char(s) && UnitOutput(Latin1ToUtf8, [CharValue(s)]) == s[..CharLength(s)]
  {
    FirstUnit(s);
    hide CharLength, CharValue, IsUtf8OfLatin1;
  }

  /** Any byte string goes to UTF-8 and back unharmed, and nothing is reported. */
  lemma {:induction false} Latin1RoundTrips(s: seq<byte>)
    ensures Converted(Utf8ToLatin1, Converted(Latin1ToUtf8, s)) == s
    ensures Latin1String(Converted(Latin1ToUtf8, s)) == s
    ensures !IsLossy(Utf8ToLatin1, Converted(Latin1ToUtf8, s)) && !IsLossy(Latin1ToUtf8, s)
    ensures WellFormed(Converted(Latin1ToUtf8, s))
  {
    if s != [] {
      Latin1RoundTrips(s[1..]);
      Latin1BecomesUtf8(s);
      var t, rest := Converted(Latin1ToUtf8, s), Converted(Latin1ToUtf8, s[1..]);
      ThereAndBack(s);
      assert s == [s[0]] + s[1..];
    }
  }

  lemma {:induction false} ThereAndBack(s: seq<byte>)
    requires s != []
    ensures var t := Converted(Latin1ToUtf8, s);
      && t != [] && CharValue(t) == s[0] && IsLatin1Char(t) && WellFormedLength(t) == CharLength(t)
      && t[CharLength(t)..] == Converted(Latin1ToUtf8, s[1..])
      && UnitOutput(Utf8ToLatin1, t) == [s[0]]
  {
    Latin1BecomesUtf8(s);
    var t, out := Converted(Latin1ToUtf8, s), UnitOutput(Latin1ToUtf8, s);
    assert t == out + Converted(Latin1ToUtf8, s[1..]);
    FirstUnit(t);
  }

  // ----- from UTF-8 and back

  lemma {:induction false} Utf8OfLatin1GoesBack(s: seq<byte>)
    requires IsUtf8OfLatin1(s)
    ensures Converted(Latin1ToUtf8, Converted(Utf8ToLatin1, s)) == s
  {
    if s != [] {
      FirstUnit(s);
      FirstUnitBack(s);
      var n := CharLength(s);
      Utf8OfLatin1GoesBack(s[n..]);
      EncodeFirst(CharValue(s), Converted(Utf8ToLatin1, s[n..]));
      assert s == s[..n] + s[n..];
    }
  }

  lemma {:induction false} EncodeFirst(c: byte, rest: seq<byte>)
    ensures Converted(Latin1ToUtf8, [c] + rest) == UnitOutput(Latin1ToUtf8, [c]) + Converted(Latin1ToUtf8, rest)
  {
    var t := [c] + rest;
    assert t[1..] == rest;
  }

  lemma {:induction false} WellFormedAndLossless(s: seq<byte>)
    ensures IsUtf8OfLatin1(s) <==> WellFormed(s) && !IsLossy(Utf8ToLatin1, s)
    decreases |s|
  {
    if s != [] {
      if IsUtf8OfLatin1(s) {
        FirstUnit(s);
        WellFormedAndLossless(s[CharLength(s)..]);
      }
      if WellFormed(s) && !IsLossy(Utf8ToLatin1, s) {
        DecodesWellFormed(s);
        StandardValueRange(s);
        WellFormedAndLossless(s[CharLength(s)..]);
      }
    }
  }

  /**
   * The converter can report success for text that does not come back: the decoder also accepts
   * overlong forms and stray followers. A success can be undone exactly when the text was well-formed.
   */
  lemma {:induction false} SuccessIsReversibleIffWellFormed(s: seq<byte>)
    requires !IsLossy(Utf8ToLatin1, s)
    ensures Converted(Latin1ToUtf8, Converted(Utf8ToLatin1, s)) == s <==> WellFormed(s)
  {
    WellFormedAndLossless(s);
    Latin1BecomesUtf8(Converted(Utf8ToLatin1, s));
    if IsUtf8OfLatin1(s) {
      Utf8OfLatin1GoesBack(s);
    }
  }

  /** Two stray followers count as the character `@`, without any report. */
  lemma {:induction false} StrayFollowersPass()
    ensures var s: seq<byte> := [0x81, 0x80];
      && !IsLossy(Utf8ToLatin1, s)
      && Converted(Utf8ToLatin1, s) == [0x40]
      && Converted(Latin1ToUtf8, Converted(Utf8ToLatin1, s)) != s
  {
    var s: seq<byte> := [0x81, 0x80];
    assert s[1..] == [0x80] && s[1..][1..] == [];
    FollowersOf(s[1..], 1);
    FollowersUnrolled(FirstByteBits(0x81, 1), s[1..2]);
    assert CharValue(s) == 0x40;
    assert s[2..] == [];
    var u: seq<byte> := [0x40];
    assert u[1..] == [];
    assert Converted(Utf8ToLatin1, s) == u;
    assert Converted(Latin1ToUtf8, u) == u;
  }
}
