/** Which texts the converter to Latin-1 accepts and what it makes of any text, in ranges of bytes. */
module Latin1Text {
  import opened Bytes
  import opened Helpers
  import opened Utf8
  import opened EncodingConverter
  import opened Latin1RoundTrip

  /** How many followers a first byte asks for. The bytes 0x80..0xBF ask for as many as those 0x40 above them. */
  function Announced(b: byte): (n: nat)
    requires 0x80 <= b
  {
    var c := if b < 0xC0 then b + 0x40 else b;
    if c <= 0xDF then 1 else if c <= 0xEF then 2 else if c <= 0xF7 then 3 else if c <= 0xFB then 4 else 5
  }

  /** A first byte and the followers it asks for that stand for a character up to 255: only the lowest bits are set. */
  predicate HasEightBits(b: byte, t: seq<byte>)
    requires 0x80 <= b && |t| == Announced(b)
  {
    match |t|
    case 1 => 0x80 <= b <= 0x83 || 0xC0 <= b <= 0xC3
    case 2 => b in [0xA0, 0xE0] && t[0] <= 0x83
    case 3 => b in [0xB0, 0xF0] && t[0] == 0x80 && t[1] <= 0x83
    case 4 => b in [0xB8, 0xF8] && t[0] == t[1] == 0x80 && t[2] <= 0x83
    case _ => b in [0xBC, 0xBE, 0xFC, 0xFE] && t[0] == t[1] == t[2] == 0x80 && t[3] <= 0x83
  }

  /** The first character, whatever its form, is one of Latin-1. */
  predicate BeginsInLatin1(s: seq<byte>)
    requires s != []
  {
    s[0] < 0x80 || (Followers(s[1..]) == Announced(s[0]) && HasEightBits(s[0], s[1..1 + Announced(s[0])]))
  }

  /** The first character: the byte itself, or two bits of the last but one byte and six of the last. */
  function FirstInLatin1(s: seq<byte>): byte
    requires s != [] && BeginsInLatin1(s)
  {
    if s[0] < 0x80 then s[0] else s[Announced(s[0]) - 1] % 4 * 64 + s[Announced(s[0])] % 64
  }

  /** One byte of ASCII, or any other byte with all followers behind it. */
  function FirstLength(s: seq<byte>): (n: nat)
    requires s != []
    ensures 1 <= n <= |s|
  {
    if s[0] < 0x80 then 1 else 1 + Followers(s[1..])
  }

  predicate IsLatin1Text(s: seq<byte>) {
    s == [] || (BeginsInLatin1(s) && IsLatin1Text(s[FirstLength(s)..]))
  }

  /** Each character that Latin-1 has becomes its byte; the others stay as they are, or give way to `lost`. */
  function InLatin1(s: seq<byte>, lost: Option<byte>): seq<byte> {
    if s == [] then []
    else (if BeginsInLatin1(s) then [FirstInLatin1(s)] else if lost.Some? then [lost.value] else s[..FirstLength(s)])
         + InLatin1(s[FirstLength(s)..], lost)
  }

  // ----- the decoder, in these terms

  lemma {:induction false} NoBits(value: nat, s: seq<byte>)
    ensures WithFollowers(value, s) == 0 <==> value == 0 && forall i | 0 <= i < |s| :: s[i] % 64 == 0
  {
    if s != [] {
      NoBits(value, s[..|s| - 1]);
    }
  }

  /** Up to 255 only the lowest eight bits are used: six of the last byte, and two of the one before. */
  lemma {:induction false} EightBits(value: nat, s: seq<byte>)
    requires s != []
    ensures |s| == 1 ==> WithFollowers(value, s) == value * 64 + s[0] % 64
    ensures |s| >= 2 ==>
      (WithFollowers(value, s) <= 255
       <==> && value == 0 && (forall i | 0 <= i < |s| - 2 :: s[i] % 64 == 0) && s[|s| - 2] % 64 <= 3)
    ensures |s| >= 2 && WithFollowers(value, s) <= 255 ==>
      WithFollowers(value, s) == s[|s| - 2] % 64 * 64 + s[|s| - 1] % 64
  {
    var init := s[..|s| - 1];
    if |s| >= 2 {
      var high := WithFollowers(value, init[..|init| - 1]);
      NoBits(value, init[..|init| - 1]);
      assert WithFollowers(value, init) == high * 64 + s[|s| - 2] % 64;
      assert forall i | 0 <= i < |s| - 2 :: init[..|init| - 1][i] == s[i];
    } else {
      assert init == [];
    }
  }

  lemma {:induction false} AnnouncedIsStrict(b: byte)
    requires 0x80 <= b
    ensures Announced(b) == StrictFollowers(b)
  {
  }

  /** A first byte without value bits, or with two of them if there is one follower only. */
  lemma {:induction false} LeadBits(b: byte)
    requires 0x80 <= b
    ensures var n, bits := Announced(b), FirstByteBits(b, Announced(b));
      && (n == 1 ==> (bits <= 3 <==> 0x80 <= b <= 0x83 || 0xC0 <= b <= 0xC3) && (bits <= 3 ==> bits == b % 4))
      && (n == 2 ==> (bits == 0 <==> b in [0xA0, 0xE0]))
      && (n == 3 ==> (bits == 0 <==> b in [0xB0, 0xF0]))
      && (n == 4 ==> (bits == 0 <==> b in [0xB8, 0xF8]))
      && (n == 5 ==> (bits == 0 <==> b in [0xBC, 0xBE, 0xFC, 0xFE]))
  {
  }

  lemma {:induction false} HasEightBitsIff(b: byte, t: seq<byte>)
    requires 0x80 <= b && |t| == Announced(b)
    ensures |t| == 1 ==> (HasEightBits(b, t) <==> FirstByteBits(b, 1) <= 3)
    ensures |t| >= 2 ==>
      (HasEightBits(b, t)
       <==> && FirstByteBits(b, |t|) == 0 && (forall i | 0 <= i < |t| - 2 :: t[i] == 0x80) && t[|t| - 2] <= 0x83)
  {
    LeadBits(b);
    hide FirstByteBits, Announced;
  }

  lemma {:induction false} FollowerBits(t: seq<byte>)
    requires forall i | 0 <= i < |t| :: IsFollower(t[i])
    ensures forall i | 0 <= i < |t| ::
      && (t[i] % 64 == 0 <==> t[i] == 0x80)
      && (t[i] % 64 <= 3 <==> t[i] <= 0x83) && (t[i] <= 0x83 ==> t[i] % 64 == t[i] % 4)
  {
  }

  lemma {:induction false} EightBitsByRanges(b: byte, t: seq<byte>)
    requires 0x80 <= b && |t| == Announced(b) && forall i | 0 <= i < |t| :: IsFollower(t[i])
    ensures var value := WithFollowers(FirstByteBits(b, |t|), t);
      && (value <= 255 <==> HasEightBits(b, t))
      && (value <= 255 ==> value == (if |t| == 1 then b else t[|t| - 2]) % 4 * 64 + t[|t| - 1] % 64)
  {
    EightBits(FirstByteBits(b, |t|), t);
    LeadBits(b);
    FollowerBits(t);
    HasEightBitsIff(b, t);
    hide FirstByteBits, WithFollowers, Announced, IsFollower, HasEightBits;
    if |t| >= 2 {
      assert forall i | 0 <= i < |t| - 2 :: t[i] % 64 == 0 <==> t[i] == 0x80;
    }
  }

  /** The byte ranges say exactly when the decoder finds a character of Latin-1, and which one. */
  lemma {:induction false} FirstCharacter(s: seq<byte>)
    requires s != []
    ensures IsLatin1Char(s) <==> BeginsInLatin1(s)
    ensures BeginsInLatin1(s) ==> CharValue(s) == FirstInLatin1(s)
    ensures CharLength(s) == FirstLength(s)
  {
    if !IsAscii(s[0]) {
      AnnouncedIsStrict(s[0]);
      hide StrictFollowers, IsAscii, IsFollower, WithFollowers, HasEightBits, Announced, FirstByteBits;
      var n := Announced(s[0]);
      if Followers(s[1..]) == n {
        var t := s[1..1 + n];
        assert forall i | 0 <= i < n :: t[i] == s[1..][i];
        EightBitsByRanges(s[0], t);
      }
    }
  }

  /** The decoder refuses exactly the characters whose first byte asks for another number of followers. */
  lemma {:induction false} RefusedIffWrongCount(s: seq<byte>)
    requires s != []
    ensures CharValue(s) == -1 <==> 0x80 <= s[0] && Followers(s[1..]) != Announced(s[0])
  {
    if !IsAscii(s[0]) {
      AnnouncedIsStrict(s[0]);
    }
  }

  // ----- whole texts

  /** The converter makes of any text what the byte ranges say, and reports exactly the texts that Latin-1 lacks. */
  lemma {:induction false} ConvertedByRanges(s: seq<byte>)
    ensures Converted(Utf8ToLatin1, s) == InLatin1(s, None)
    ensures Latin1String(s) == InLatin1(s, Some('?' as int))
    ensures !IsLossy(Utf8ToLatin1, s) <==> IsLatin1Text(s)
    decreases |s|
  {
    if s != [] {
      FirstCharacter(s);
      hide CharValue, CharLength, BeginsInLatin1, FirstInLatin1;
      FirstUnitIs(s);
      ConvertedByRanges(s[FirstLength(s)..]);
    }
  }

  lemma {:induction false} FirstUnitIs(s: seq<byte>)
    requires s != []
    ensures UnitLength(Utf8ToLatin1, s) == CharLength(s) && (UnitIsLossy(Utf8ToLatin1, s) <==> !IsLatin1Char(s))
    ensures UnitOutput(Utf8ToLatin1, s) == if IsLatin1Char(s) then [CharValue(s)] else s[..CharLength(s)]
  {
    if IsAscii(s[0]) {
      AsciiUnit(Utf8ToLatin1, s);
      assert CharValue(s) == s[0];
    } else {
      CharUnit(s);
    }
  }

  lemma {:induction false} Slices<T>(s: seq<T>, n: nat, i: nat)
    requires n <= i <= |s|
    ensures s[..i][n..] == s[n..][..i - n] == s[n..i] && s[n..][i - n..] == s[i..]
    ensures n < |s| ==> s[n..][0] == s[n]
  {
  }

  lemma {:induction false} NoText()
    ensures Converted(Utf8ToLatin1, []) == [] && !IsLossy(Utf8ToLatin1, [])
  {
  }

  lemma {:induction false} UnitThenRest(s: seq<byte>)
    requires s != []
    ensures var n := CharLength(s);
      && Converted(Utf8ToLatin1, s) == UnitOutput(Utf8ToLatin1, s) + Converted(Utf8ToLatin1, s[n..])
      && (IsLossy(Utf8ToLatin1, s) <==> UnitIsLossy(Utf8ToLatin1, s) || IsLossy(Utf8ToLatin1, s[n..]))
  {
  }

  /** What stands in front of a byte that is no follower, and what begins with it, are converted independently. */
  lemma {:induction false} SplitsAtFirstByte(s: seq<byte>, i: nat)
    requires i <= |s| && (i < |s| ==> !IsFollower(s[i]))
    ensures Converted(Utf8ToLatin1, s) == Converted(Utf8ToLatin1, s[..i]) + Converted(Utf8ToLatin1, s[i..])
    ensures IsLossy(Utf8ToLatin1, s) <==> IsLossy(Utf8ToLatin1, s[..i]) || IsLossy(Utf8ToLatin1, s[i..])
    decreases i
  {
    hide UnitOutput, UnitIsLossy, CharLength, Converted, IsLossy;
    if i == 0 {
      NoText();
      assert s[0..] == s && s[..0] == [] && [] + Converted(Utf8ToLatin1, s) == Converted(Utf8ToLatin1, s);
    } else {
      var n := CharLength(s);
      SameFirstUnit(s, i);
      Slices(s, n, i);
      hide IsFollower;
      SplitsAtFirstByte(s[n..], i - n);
      UnitThenRest(s);
      UnitThenRest(s[..i]);
      Assoc(UnitOutput(Utf8ToLatin1, s), Converted(Utf8ToLatin1, s[n..][..i - n]), Converted(Utf8ToLatin1, s[i..]));
    }
  }

  lemma {:induction false} SameFirstUnit(s: seq<byte>, i: nat)
    requires 0 < i <= |s| && (i < |s| ==> !IsFollower(s[i]))
    ensures CharLength(s) == CharLength(s[..i]) <= i
    ensures UnitOutput(Utf8ToLatin1, s[..i]) == UnitOutput(Utf8ToLatin1, s)
    ensures UnitIsLossy(Utf8ToLatin1, s[..i]) <==> UnitIsLossy(Utf8ToLatin1, s)
    ensures UnitLength(Utf8ToLatin1, s) == UnitLength(Utf8ToLatin1, s[..i]) == CharLength(s)
  {
    var t, n := s[1..], Followers(s[1..]);
    if !IsAscii(s[0]) {
      hide IsFollower;
      assert i < |s| ==> t[i - 1] == s[i];
      assert n <= i - 1;
      var u := s[..i][1..];
      assert forall k | 0 <= k < n :: u[k] == t[k];
      assert n < |u| ==> u[n] == t[n];
      FollowersOf(u, n);
      assert s[..i][1..n + 1] == s[1..n + 1];
      assert s[..i][..n + 1] == s[..n + 1];
    }
  }

  /** A first byte in 0xC0..0xF7 that is not followed by as many followers as it asks for. */
  predicate HasWrongCount(s: seq<byte>, i: nat)
    requires i < |s|
  {
    var n := Followers(s[i + 1..]);
    || (0xC0 <= s[i] <= 0xDF && n != 1)
    || (0xE0 <= s[i] <= 0xEF && n != 2)
    || (0xF0 <= s[i] <= 0xF7 && n != 3)
  }

  /** Wherever it stands, such a character makes the text lossy, and its bytes come through unchanged. */
  lemma {:induction false} WrongCountIsKept(s: seq<byte>, i: nat)
    requires i < |s| && HasWrongCount(s, i)
    ensures IsLossy(Utf8ToLatin1, s)
    ensures var end := i + 1 + Followers(s[i + 1..]);
      Converted(Utf8ToLatin1, s)
      == Converted(Utf8ToLatin1, s[..i]) + s[i..end] + Converted(Utf8ToLatin1, s[end..])
  {
    hide *;
    var end, t := i + 1 + Followers(s[i + 1..]), s[i..];
    Slices(s, i, i + 1);
    Slices(s, i, end);
    KeptFirst(s, i);
    SplitsAtFirstByte(s, i);
    UnitThenRest(t);
    Assoc(Converted(Utf8ToLatin1, s[..i]), s[i..end], Converted(Utf8ToLatin1, s[end..]));
  }

  lemma {:induction false} KeptFirst(s: seq<byte>, i: nat)
    requires i < |s| && HasWrongCount(s, i)
    ensures !IsFollower(s[i]) && UnitIsLossy(Utf8ToLatin1, s[i..]) && CharLength(s[i..]) == 1 + Followers(s[i + 1..])
    ensures UnitOutput(Utf8ToLatin1, s[i..]) == s[i..][..1 + Followers(s[i + 1..])]
  {
    Slices(s, i, i + 1);
    FirstCharacter(s[i..]);
    FirstUnitIs(s[i..]);
    hide UnitOutput, UnitIsLossy, CharLength, CharValue, HasEightBits, FirstInLatin1;
  }

  /** Latin-1 text that is taken for UTF-8 is reported, and stays as it is. */
  lemma {:induction false} UmlautBeforeAscii()
    ensures var s: seq<byte> := [0xE4, 0x41];
      IsLossy(Utf8ToLatin1, s) && Converted(Utf8ToLatin1, s) == s
  {
    var s: seq<byte> := [0xE4, 0x41];
    var t: seq<byte> := [0x41];
    assert s[1..] == t && t[1..] == [] && s[..0] == [] && s[0..1] == [0xE4];
    FollowersOf(s[1..], 0);
    WrongCountIsKept(s, 0);
    assert Converted(Utf8ToLatin1, t) == t;
  }
}
