/** Decoding UTF-8 the way the editor does it, beside what section 4 of RFC 3629 calls well-formed. */
module Utf8 {
  import opened Bytes

  predicate IsAscii(b: byte): (yes: bool)
    ensures yes <==> b < 128
  {
    BitTestsAreComparisons(Bits(b));
    Bits(b) & 0x80 == 0
  }

  /** A byte of the form 10xxxxxx. */
  predicate IsFollower(b: byte): (yes: bool)
    ensures yes <==> 128 <= b < 192
  {
    BitTestsAreComparisons(Bits(b));
    Bits(b) & 0xC0 == 0x80
  }

  /** The table of follower counts, looked up by the low six bits of a first byte. */
  function StrictFollowers(b: byte): (n: nat)
    ensures 1 <= n <= 5
    ensures n == FollowersByTable(b % 64)
  {
    LowBitsAreRemainders(Bits(b));
    FollowersByTable((Bits(b) & 0x3F) as int)
  }

  function FollowersByTable(m: nat): nat {
    if m < 32 then 1 else if m < 48 then 2 else if m < 56 then 3 else if m < 60 then 4 else 5
  }

  /** The value bits of a first byte that announces `count` followers: its low 6 - count bits. */
  function FirstByteBits(b: byte, count: nat): (bits: nat)
    requires 1 <= count <= 5
    ensures bits
         == b % (if count == 1 then 32 else if count == 2 then 16 else if count == 3 then 8 else if count == 4 then 4
                 else 2)
  {
    LowBitsAreRemainders(Bits(b));
    FourOrThreeBitsAreRemainders(Bits(b));
    TwoBitsOrOneAreRemainders(Bits(b));
    (Bits(b) & (if count == 1 then 0x1F else if count == 2 then 0x0F else if count == 3 then 0x07
                else if count == 4 then 0x03 else 0x01)) as int
  }

  /** Length of the run of followers at the start of `s`. */
  function Followers(s: seq<byte>): (n: nat)
    ensures n <= |s|
    ensures forall i | 0 <= i < n :: IsFollower(s[i])
    ensures n < |s| ==> !IsFollower(s[n])
  {
    if s != [] && IsFollower(s[0]) then 1 + Followers(s[1..]) else 0
  }

  /** Appending six bits for each follower. */
  function WithFollowers(value: nat, s: seq<byte>): nat {
    if s == [] then value else WithFollowers(value, s[..|s| - 1]) * 64 + s[|s| - 1] % 64
  }

  /** How many bytes the first character of `s` takes: all followers, whatever the first byte announces. */
  function CharLength(s: seq<byte>): (n: nat)
    requires s != []
    ensures 1 <= n <= |s|
  {
    if IsAscii(s[0]) then 1 else 1 + Followers(s[1..])
  }

  /** The first character of `s`, or -1 if the number of followers is not the announced one. */
  function CharValue(s: seq<byte>): int
    requires s != []
  {
    if IsAscii(s[0]) then s[0]
    else if Followers(s[1..]) != StrictFollowers(s[0]) then -1
    else WithFollowers(FirstByteBits(s[0], StrictFollowers(s[0])), s[1..CharLength(s)])
  }

  predicate IsBeginOfWChar(s: seq<byte>, pos: nat)
    requires pos <= |s|
  {
    pos == 0 || IsAscii(s[pos - 1]) || pos == |s| || !IsFollower(s[pos])
  }

  method GetWCharAndIncrementPos(s: seq<byte>, start: nat) returns (rslt: int, pos: nat)
    requires start < |s| && IsBeginOfWChar(s, start)
    ensures start < pos <= |s| && pos == start + CharLength(s[start..])
    ensures rslt == CharValue(s[start..])
    ensures IsBeginOfWChar(s, pos)
  {
    hide IsAscii, IsFollower, StrictFollowers, FirstByteBits, Bits;
    pos := start;
    var b := s[pos];
    if IsAscii(b) {
      rslt := b;
      pos := pos + 1;
    } else {
      var count: int := StrictFollowers(b);
      ghost var n, first, rest := StrictFollowers(b), FirstByteBits(b, StrictFollowers(b)), s[start + 1..];
      rslt := FirstByteBits(b, count);
      pos := pos + 1;
      while pos != |s| && IsFollower(s[pos])
        invariant start < pos <= |s|
        invariant pos - start - 1 <= Followers(rest)
        invariant rslt == WithFollowers(first, rest[..pos - start - 1])
        invariant count == n - (pos - start - 1)
        decreases |s| - pos
      {
        assert rest[..pos - start][..pos - start - 1] == rest[..pos - start - 1];
        assert rest[pos - start - 1] == s[pos];
        LowBitsAreRemainders(Bits(s[pos]));
        rslt := rslt * 64 + (Bits(s[pos]) & 0x3F) as int;
        count := count - 1;
        pos := pos + 1;
      }
      assert pos - start - 1 == Followers(rest) by {
        if pos < |s| { assert rest[pos - start - 1] == s[pos]; }
      }
      assert s[start..][1..] == rest && s[start..][1..pos - start] == rest[..pos - start - 1];
      if count != 0 {
        rslt := -1;
      }
    }
  }

  // ----- well-formed UTF-8

  /** Length of a well-formed character at the start of `s`, or 0 if there is none. */
  function WellFormedLength(s: seq<byte>): (n: nat)
    ensures n <= |s| && n <= 4
  {
    if |s| >= 1 && s[0] < 0x80 then 1
    else if |s| >= 2 && 0xC2 <= s[0] <= 0xDF && IsFollower(s[1]) then 2
    else if |s| >= 3 && 0xE0 <= s[0] <= 0xEF && IsFollower(s[1]) && IsFollower(s[2])
            && (s[0] == 0xE0 ==> 0xA0 <= s[1]) && (s[0] == 0xED ==> s[1] <= 0x9F) then 3
    else if |s| >= 4 && 0xF0 <= s[0] <= 0xF4 && IsFollower(s[1]) && IsFollower(s[2]) && IsFollower(s[3])
            && (s[0] == 0xF0 ==> 0x90 <= s[1]) && (s[0] == 0xF4 ==> s[1] <= 0x8F) then 4
    else 0
  }

  predicate WellFormed(s: seq<byte>) {
    s == [] || (WellFormedLength(s) > 0 && WellFormed(s[WellFormedLength(s)..]))
  }

  lemma {:induction false} WellFormedStartsNoFollower(s: seq<byte>)
    requires WellFormed(s)
    ensures s == [] || !IsFollower(s[0])
  {
  }

  lemma {:induction false} FollowersOf(s: seq<byte>, n: nat)
    requires n <= |s|
    requires forall i | 0 <= i < n :: IsFollower(s[i])
    requires n < |s| ==> !IsFollower(s[n])
    ensures Followers(s) == n
  {
  }

  /** The character a well-formed sequence stands for (section 3 of RFC 3629). */
  function StandardValue(s: seq<byte>): int
    requires WellFormedLength(s) > 0
  {
    var n, a: int := WellFormedLength(s), s[0];
    if n == 1 then a
    else if n == 2 then (a - 0xC0) * 64 + Payload(s[1])
    else if n == 3 then (a - 0xE0) * 4096 + Payload(s[1]) * 64 + Payload(s[2])
    else (a - 0xF0) * 262144 + Payload(s[1]) * 4096 + Payload(s[2]) * 64 + Payload(s[3])
  }

  function Payload(b: byte): int { b as int - 0x80 }

  /** Each length is used only for characters that need it. */
  lemma {:induction false} StandardValueRange(s: seq<byte>)
    requires WellFormedLength(s) > 0
    ensures var n := WellFormedLength(s);
      StandardValue(s) >= if n == 1 then 0 else if n == 2 then 0x80 else if n == 3 then 0x800 else 0x10000
    ensures WellFormedLength(s) == 2 ==> (StandardValue(s) <= 0xFF <==> s[0] == 0xC2 || s[0] == 0xC3)
  {
  }

  lemma {:induction false} FirstByteOf(b: byte)
    ensures 0xC0 <= b <= 0xDF ==> StrictFollowers(b) == 1 && FirstByteBits(b, 1) == b - 0xC0
    ensures 0xE0 <= b <= 0xEF ==> StrictFollowers(b) == 2 && FirstByteBits(b, 2) == b - 0xE0
    ensures 0xF0 <= b <= 0xF4 ==> StrictFollowers(b) == 3 && FirstByteBits(b, 3) == b - 0xF0
  {
  }

  /** On well-formed text the decoder takes exactly the standard's characters. */
  lemma {:induction false} DecodesWellFormed(s: seq<byte>)
    requires s != [] && WellFormed(s)
    ensures CharLength(s) == WellFormedLength(s)
    ensures CharValue(s) == StandardValue(s)
  {
    hide IsAscii, IsFollower, StrictFollowers, FirstByteBits, Bits;
    var n := WellFormedLength(s);
    WellFormedStartsNoFollower(s[n..]);
    if n > 1 {
      var t := s[1..];
      assert forall i | 0 <= i < n - 1 :: IsFollower(t[i]);
      assert n - 1 < |t| ==> t[n - 1] == s[n..][0];
      FollowersOf(t, n - 1);
      FirstByteOf(s[0]);
      FollowersUnrolled(FirstByteBits(s[0], n - 1), s[1..n]);
    }
  }

  lemma {:induction false} FollowersUnrolled(value: nat, s: seq<byte>)
    requires forall i | 0 <= i < |s| :: IsFollower(s[i])
    ensures |s| == 1 ==> WithFollowers(value, s) == value * 64 + Payload(s[0])
    ensures |s| == 2 ==> WithFollowers(value, s) == (value * 64 + Payload(s[0])) * 64 + Payload(s[1])
    ensures |s| == 3 ==>
              WithFollowers(value, s) == ((value * 64 + Payload(s[0])) * 64 + Payload(s[1])) * 64 + Payload(s[2])
  {
    if 1 < |s| {
      FollowersUnrolled(value, s[..|s| - 1]);
    } else if |s| == 1 {
      assert s[..0] == [];
    }
  }
}
