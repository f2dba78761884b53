/**
 * Conversion between UTF-8 and Latin-1. The reference is a conversion of the whole text unit by
 * unit; the converter works in chunks, in place, and stops whenever a unit does not fit.
 */
module EncodingConverter {
  import opened Bytes
  import opened Helpers
  import opened Utf8

  datatype Direction = Utf8ToLatin1 | Latin1ToUtf8 | DoNothing

  datatype LowLevelResult = ConversionOk | NonReversibleConversionsOccurred | OutputBufferTooSmall

  // ----- one unit

  function UnitLength(d: Direction, s: seq<byte>): (n: nat)
    requires s != []
    ensures 1 <= n <= |s|
  {
    if d == Utf8ToLatin1 then CharLength(s) else 1
  }

  /** A character that Latin-1 has; all others are copied as they are. */
  predicate IsLatin1Char(s: seq<byte>)
    requires s != []
  {
    0 <= CharValue(s) <= 0xFF
  }

  predicate UnitIsLossy(d: Direction, s: seq<byte>)
    requires s != []
  {
    d == Utf8ToLatin1 && !IsLatin1Char(s)
  }

  function UnitOutput(d: Direction, s: seq<byte>): (out: seq<byte>)
    requires s != []
    ensures out != []
  {
    if IsAscii(s[0]) || d == DoNothing then [s[0]]
    else if d == Latin1ToUtf8 then [0xC0 + s[0] / 64, 0x80 + s[0] % 64]
    else if IsLatin1Char(s) then [CharValue(s)]
    else s[..CharLength(s)]
  }

  // ----- the whole text

  function Converted(d: Direction, s: seq<byte>): seq<byte> {
    if s == [] then [] else UnitOutput(d, s) + Converted(d, s[UnitLength(d, s)..])
  }

  predicate IsLossy(d: Direction, s: seq<byte>) {
    s != [] && (UnitIsLossy(d, s) || IsLossy(d, s[UnitLength(d, s)..]))
  }

  /** `n` bytes of `s` are a whole number of units. */
  predicate WholeUnits(d: Direction, s: seq<byte>, n: nat)
    requires n <= |s|
    decreases |s|
  {
    n == 0 || (UnitLength(d, s) <= n && WholeUnits(d, s[UnitLength(d, s)..], n - UnitLength(d, s)))
  }

  function ConvertedPart(d: Direction, s: seq<byte>, n: nat): seq<byte>
    requires n <= |s|
    decreases |s|
  {
    if n == 0 || n < UnitLength(d, s) then []
    else UnitOutput(d, s) + ConvertedPart(d, s[UnitLength(d, s)..], n - UnitLength(d, s))
  }

  predicate IsPartLossy(d: Direction, s: seq<byte>, n: nat)
    requires n <= |s|
    decreases |s|
  {
    n > 0 && UnitLength(d, s) <= n && (UnitIsLossy(d, s) || IsPartLossy(d, s[UnitLength(d, s)..], n - UnitLength(d, s)))
  }

  /** Converting in two parts that meet between units is converting at once. */
  lemma {:induction false} PartsAddUp(d: Direction, s: seq<byte>, n: nat)
    requires n <= |s| && WholeUnits(d, s, n)
    ensures Converted(d, s) == ConvertedPart(d, s, n) + Converted(d, s[n..])
    ensures IsLossy(d, s) <==> IsPartLossy(d, s, n) || IsLossy(d, s[n..])
    decreases |s|
  {
    hide UnitOutput, UnitLength, UnitIsLossy;
    if n > 0 {
      var k := UnitLength(d, s);
      PartsAddUp(d, s[k..], n - k);
      assert s[k..][n - k..] == s[n..];
      Assoc(UnitOutput(d, s), ConvertedPart(d, s[k..], n - k), Converted(d, s[n..]));
    }
  }

  /** A further unit behind whole units. */
  lemma {:induction false} OneMoreUnit(d: Direction, s: seq<byte>, n: nat)
    requires n < |s| && WholeUnits(d, s, n)
    ensures var m := n + UnitLength(d, s[n..]);
      && m <= |s| && WholeUnits(d, s, m)
      && ConvertedPart(d, s, m) == ConvertedPart(d, s, n) + UnitOutput(d, s[n..])
      && (IsPartLossy(d, s, m) <==> IsPartLossy(d, s, n) || UnitIsLossy(d, s[n..]))
    decreases |s|
  {
    hide UnitOutput, UnitLength, UnitIsLossy;
    if n > 0 {
      var k := UnitLength(d, s);
      assert s[k..][n - k..] == s[n..];
      OneMoreUnit(d, s[k..], n - k);
    } else {
      assert s[0..] == s;
    }
  }

  /** The unit that a byte of each kind begins. */
  lemma {:induction false} AsciiUnit(d: Direction, s: seq<byte>)
    requires s != [] && (IsAscii(s[0]) || d == DoNothing)
    ensures UnitLength(d, s) == 1 && UnitOutput(d, s) == [s[0]] && !UnitIsLossy(d, s)
  {
  }

  lemma {:induction false} CharUnit(s: seq<byte>)
    requires s != [] && !IsAscii(s[0])
    ensures UnitLength(Utf8ToLatin1, s) == CharLength(s)
    ensures UnitIsLossy(Utf8ToLatin1, s) <==> !IsLatin1Char(s)
    ensures UnitOutput(Utf8ToLatin1, s) == if IsLatin1Char(s) then [CharValue(s)] else s[..CharLength(s)]
  {
  }

  lemma {:induction false} Latin1Unit(s: seq<byte>)
    requires s != [] && !IsAscii(s[0])
    ensures UnitLength(Latin1ToUtf8, s) == 1 && !UnitIsLossy(Latin1ToUtf8, s)
    ensures UnitOutput(Latin1ToUtf8, s) == [0xC0 + s[0] / 64, 0x80 + s[0] % 64]
  {
  }

  lemma {:induction false} NoUnits(d: Direction, s: seq<byte>)
    ensures WholeUnits(d, s, 0) && ConvertedPart(d, s, 0) == [] && !IsPartLossy(d, s, 0)
  {
  }

  // ----- the low-level converter

  /** All that a call with `room` bytes of output space promises. */
  predicate IsChunk(d: Direction, input: seq<byte>, room: nat, consumed: nat, out: seq<byte>, rslt: LowLevelResult) {
    && consumed <= |input| && WholeUnits(d, input, consumed)
    && out == ConvertedPart(d, input, consumed) && |out| <= room
    // It stops only where the next unit does not fit.
    && (consumed < |input| ==> room < |out| + |UnitOutput(d, input[consumed..])|)
    && rslt == if IsPartLossy(d, input, consumed) then NonReversibleConversionsOccurred
               else if consumed < |input| && d != DoNothing then OutputBufferTooSmall
               else ConversionOk
  }

  /** Copy ASCII bytes as far as they go and fit. */
  method CopyAscii(d: Direction, input: seq<byte>, room: nat, start: nat, out: seq<byte>)
    returns (p: nat, copied: seq<byte>)
    requires d != DoNothing
    requires start < |input| && WholeUnits(d, input, start) && out == ConvertedPart(d, input, start) && |out| < room
    ensures start <= p <= |input| && WholeUnits(d, input, p)
    ensures copied == ConvertedPart(d, input, p) && |copied| <= room
    ensures IsPartLossy(d, input, p) <==> IsPartLossy(d, input, start)
    ensures p < |input| && IsAscii(input[p]) ==> |copied| == room
    ensures p == start ==> !IsAscii(input[start])
  {
    hide UnitOutput, UnitLength, UnitIsLossy, WholeUnits, ConvertedPart, IsPartLossy;
    p := start;
    var end := if |input| < start + (room - |out|) then |input| else start + (room - |out|);
    while p < end && IsAscii(input[p])
      invariant start <= p <= end && WholeUnits(d, input, p)
      invariant out + input[start..p] == ConvertedPart(d, input, p)
      invariant IsPartLossy(d, input, p) <==> IsPartLossy(d, input, start)
    {
      OneMoreUnit(d, input, p);
      AsciiUnit(d, input[p..]);
      assert input[start..p + 1] == input[start..p] + [input[p]];
      p := p + 1;
    }
    copied := out + input[start..p];
  }

  /** A parser of its own for what is left of the input. */
  method FirstWChar(input: seq<byte>) returns (c: int, pos: nat)
    requires input != []
    ensures c == CharValue(input) && pos == CharLength(input)
  {
    c, pos := GetWCharAndIncrementPos(input, 0);
    assert input[0..] == input;
  }

  method ConvertUtf8ToLatin1(input: seq<byte>, room: nat)
    returns (consumed: nat, out: seq<byte>, rslt: LowLevelResult)
    ensures IsChunk(Utf8ToLatin1, input, room, consumed, out, rslt)
  {
    hide IsAscii, CharLength, CharValue, UnitOutput, UnitLength, UnitIsLossy, WholeUnits, ConvertedPart, IsPartLossy;
    var d := Utf8ToLatin1;
    NoUnits(d, input);
    rslt, consumed, out := ConversionOk, 0, [];
    label End: while consumed < |input|
      invariant consumed <= |input| && WholeUnits(d, input, consumed)
      invariant out == ConvertedPart(d, input, consumed) && |out| <= room
      invariant rslt == if IsPartLossy(d, input, consumed) then NonReversibleConversionsOccurred else ConversionOk
      decreases |input| - consumed
    {
      if |out| == room {
        if rslt == ConversionOk { rslt := OutputBufferTooSmall; }
        break End;
      }
      ghost var before := consumed;
      consumed, out := CopyAscii(d, input, room, consumed, out);
      while consumed < |input| && !IsAscii(input[consumed])
        invariant before <= consumed <= |input| && WholeUnits(d, input, consumed)
        invariant out == ConvertedPart(d, input, consumed) && |out| <= room
        invariant rslt == if IsPartLossy(d, input, consumed) then NonReversibleConversionsOccurred else ConversionOk
        invariant consumed == before ==> !IsAscii(input[consumed])
        decreases |input| - consumed
      {
        OneMoreUnit(d, input, consumed);
        CharUnit(input[consumed..]);
        var c, pos := FirstWChar(input[consumed..]);
        if 0 <= c <= 0xFF {
          if |out| + 1 > room {
            if rslt == ConversionOk { rslt := OutputBufferTooSmall; }
            break End;
          }
          out := out + [c];
        } else {
          if |out| + pos > room {
            if rslt == ConversionOk { rslt := OutputBufferTooSmall; }
            break End;
          }
          out := out + input[consumed..consumed + pos];
          assert input[consumed..consumed + pos] == input[consumed..][..pos];
          rslt := NonReversibleConversionsOccurred;
        }
        consumed := consumed + pos;
      }
    }
  }

  method ConvertLatin1ToUtf8(input: seq<byte>, room: nat)
    returns (consumed: nat, out: seq<byte>, rslt: LowLevelResult)
    ensures IsChunk(Latin1ToUtf8, input, room, consumed, out, rslt)
  {
    hide IsAscii, CharLength, CharValue, UnitOutput, UnitLength, UnitIsLossy, WholeUnits, ConvertedPart, IsPartLossy;
    var d := Latin1ToUtf8;
    NoUnits(d, input);
    rslt, consumed, out := ConversionOk, 0, [];
    label End: while consumed < |input|
      invariant consumed <= |input| && WholeUnits(d, input, consumed)
      invariant out == ConvertedPart(d, input, consumed) && |out| <= room
      invariant rslt == ConversionOk && !IsPartLossy(d, input, consumed)
      decreases |input| - consumed
    {
      if |out| == room {
        if rslt == ConversionOk { rslt := OutputBufferTooSmall; }
        break End;
      }
      ghost var before := consumed;
      consumed, out := CopyAscii(d, input, room, consumed, out);
      while consumed < |input| && !IsAscii(input[consumed])
        invariant before <= consumed <= |input| && WholeUnits(d, input, consumed)
        invariant out == ConvertedPart(d, input, consumed) && |out| <= room
        invariant rslt == ConversionOk && !IsPartLossy(d, input, consumed)
        invariant consumed == before ==> !IsAscii(input[consumed])
        decreases |input| - consumed
      {
        OneMoreUnit(d, input, consumed);
        Latin1Unit(input[consumed..]);
        if |out| + 2 > room {
          if rslt == ConversionOk { rslt := OutputBufferTooSmall; }
          break End;
        }
        var c := Bits(input[consumed]);
        BitMasksAreArithmetic(c);
        out := out + [(0xC0 | ((c >> 6) & 0x1F)) as int, (0x80 | (c & 0x3F)) as int];
        consumed := consumed + 1;
      }
    }
  }

  method CopyBytes(input: seq<byte>, room: nat) returns (consumed: nat, out: seq<byte>, rslt: LowLevelResult)
    ensures IsChunk(DoNothing, input, room, consumed, out, rslt)
  {
    consumed := if |input| < room then |input| else room;
    out := input[..consumed];
    rslt := ConversionOk;
    CopiedUnits(input, consumed);
  }

  lemma {:induction false} CopiedUnits(s: seq<byte>, n: nat)
    requires n <= |s|
    ensures WholeUnits(DoNothing, s, n) && ConvertedPart(DoNothing, s, n) == s[..n] && !IsPartLossy(DoNothing, s, n)
  {
    if n > 0 {
      CopiedUnits(s[1..], n - 1);
      assert s[..n] == [s[0]] + s[1..][..n - 1];
    }
  }

  method Convert(d: Direction, input: seq<byte>, room: nat)
    returns (consumed: nat, out: seq<byte>, rslt: LowLevelResult)
    ensures IsChunk(d, input, room, consumed, out, rslt)
  {
    match d
    case Utf8ToLatin1 => consumed, out, rslt := ConvertUtf8ToLatin1(input, room);
    case Latin1ToUtf8 => consumed, out, rslt := ConvertLatin1ToUtf8(input, room);
    case DoNothing => consumed, out, rslt := CopyBytes(input, room);
  }

  // ----- converting a buffer in place

  function Zeros(n: nat): (zeros: seq<byte>)
    ensures |zeros| == n
  {
    if n == 0 then [] else [0] + Zeros(n - 1)
  }

  /** A growable buffer. Bytes of a freshly inserted gap are arbitrary. */
  class ByteBuffer {
    var bytes: seq<byte>

    constructor (content: seq<byte>)
      ensures bytes == content
    {
      bytes := content;
    }

    method InsertAmount(pos: nat, amount: nat)
      requires pos <= |bytes|
      modifies this
      ensures |bytes| == |old(bytes)| + amount
      ensures bytes[..pos] == old(bytes)[..pos] && bytes[pos + amount..] == old(bytes)[pos..]
    {
      assert |Zeros(amount)| == amount;
      var gap: seq<byte> :| |gap| == amount;
      bytes := bytes[..pos] + gap + bytes[pos..];
    }

    method Overwrite(pos: nat, out: seq<byte>)
      requires pos + |out| <= |bytes|
      modifies this
      ensures bytes == old(bytes)[..pos] + out + old(bytes)[pos + |out|..]
    {
      bytes := bytes[..pos] + out + bytes[pos + |out|..];
    }

    method RemoveAmount(pos: nat, amount: nat)
      requires pos + amount <= |bytes|
      modifies this
      ensures bytes == old(bytes)[..pos] + old(bytes)[pos + amount..]
    {
      bytes := bytes[..pos] + bytes[pos + amount..];
    }
  }

  /** How the conversion ended: an exception is raised if some characters were copied unconverted. */
  datatype Outcome = Converts | NonReversible

  /** One turn of a conversion loop: the rest of the text after a chunk, with what is still to be done. */
  lemma {:induction false} AfterChunk(d: Direction, rest: seq<byte>, room: nat, consumed: nat, out: seq<byte>,
                                      rslt: LowLevelResult)
    requires rest != [] && 1 <= room && IsChunk(d, rest, room, consumed, out, rslt)
    ensures Converted(d, rest) == out + Converted(d, rest[consumed..])
    ensures IsLossy(d, rest) <==> rslt == NonReversibleConversionsOccurred || IsLossy(d, rest[consumed..])
    // Without progress the room was too small for the next unit, and all of it is left.
    ensures consumed == 0 ==> rslt == OutputBufferTooSmall && out == [] && room < |UnitOutput(d, rest)|
  {
    hide UnitOutput, UnitLength, UnitIsLossy;
    PartsAddUp(d, rest, consumed);
    if consumed == 0 {
      assert rest[0..] == rest;
      if d == DoNothing { AsciiUnit(d, rest); }
    }
  }

  method ConvertChunkInBuffer(d: Direction, buffer: ByteBuffer, toPos: nat, insertSize: nat)
    returns (consumed: nat, produced: nat, rslt: LowLevelResult)
    requires toPos <= |buffer.bytes|
    modifies buffer
    ensures consumed <= |old(buffer.bytes)| - toPos && toPos + produced <= |buffer.bytes| && produced <= insertSize
    ensures IsChunk(d, old(buffer.bytes)[toPos..], insertSize, consumed, buffer.bytes[toPos..toPos + produced], rslt)
    ensures buffer.bytes[..toPos] == old(buffer.bytes)[..toPos]
    ensures buffer.bytes[toPos + produced..] == old(buffer.bytes)[toPos + consumed..]
  {
    hide IsChunk, Converted, ConvertedPart, WholeUnits;
    ghost var start := buffer.bytes;
    buffer.InsertAmount(toPos, insertSize);
    var fromPos := toPos + insertSize;
    var out;
    consumed, out, rslt := Convert(d, buffer.bytes[fromPos..], insertSize);
    ChunkFits(d, start[toPos..], insertSize, consumed, out, rslt);
    produced := |out|;
    ghost var gapped := buffer.bytes;
    buffer.Overwrite(toPos, out);
    fromPos := fromPos + consumed;
    buffer.RemoveAmount(toPos + produced, fromPos - (toPos + produced));
    GapClosed(start, gapped, toPos, insertSize, consumed, out);
    Parts(start[..toPos], out, start[toPos + consumed..]);
  }

  /** The gap, filled with `out` and closed together with the consumed bytes. */
  lemma {:induction false} GapClosed(start: seq<byte>, gapped: seq<byte>, toPos: nat, size: nat, consumed: nat,
                                     out: seq<byte>)
    requires toPos + consumed <= |start| && |gapped| == |start| + size && |out| <= size
    requires gapped[..toPos] == start[..toPos] && gapped[toPos + size..] == start[toPos..]
    ensures var written, n := gapped[..toPos] + out + gapped[toPos + |out|..], toPos + |out|;
      written[..n] + written[n + (size - |out| + consumed)..] == start[..toPos] + out + start[toPos + consumed..]
  {
    var written, n := gapped[..toPos] + out + gapped[toPos + |out|..], toPos + |out|;
    assert written[..n] == start[..toPos] + out;
    assert written[n + (size - |out| + consumed)..] == gapped[toPos + size..][consumed..] == start[toPos + consumed..];
  }

  lemma {:induction false} ChunkFits(d: Direction, input: seq<byte>, room: nat, consumed: nat, out: seq<byte>,
                                     rslt: LowLevelResult)
    requires IsChunk(d, input, room, consumed, out, rslt)
    ensures consumed <= |input| && |out| <= room
  {
  }

  /** The in-place conversion, for any initial chunk size. */
  method ConvertInPlaceBy(d: Direction, buffer: ByteBuffer, firstInsertSize: nat) returns (outcome: Outcome)
    requires 1 <= firstInsertSize
    modifies buffer
    ensures buffer.bytes == Converted(d, old(buffer.bytes))
    ensures outcome == if IsLossy(d, old(buffer.bytes)) then NonReversible else Converts
  {
    hide UnitOutput, UnitLength, UnitIsLossy, Converted, IsLossy, IsChunk;
    ghost var input := buffer.bytes;
    var hasErrors := false;
    var toPos, fromLength, nextInsertSize := 0, |buffer.bytes|, firstInsertSize;
    while fromLength > 0
      invariant 0 <= toPos && 0 <= fromLength && toPos + fromLength == |buffer.bytes|
      invariant Converted(d, input) == buffer.bytes[..toPos] + Converted(d, buffer.bytes[toPos..])
      invariant IsLossy(d, input) <==> hasErrors || IsLossy(d, buffer.bytes[toPos..])
      invariant 1 <= nextInsertSize
      decreases fromLength, Missing(d, buffer.bytes[toPos..], nextInsertSize)
    {
      ghost var rest := buffer.bytes[toPos..];
      var insertSize := nextInsertSize;
      var consumed, produced, rslt := ConvertChunkInBuffer(d, buffer, toPos, insertSize);
      ghost var out := buffer.bytes[toPos..toPos + produced];
      AfterChunk(d, rest, insertSize, consumed, out, rslt);
      if rslt == OutputBufferTooSmall {
        if insertSize - produced > 0 {
          nextInsertSize := nextInsertSize + insertSize - produced;
        }
      } else if rslt == NonReversibleConversionsOccurred {
        hasErrors := true;
      }
      assert buffer.bytes[toPos + produced..] == rest[consumed..];
      assert buffer.bytes[..toPos + produced] == buffer.bytes[..toPos] + out;
      fromLength := fromLength - consumed;
      toPos := toPos + produced;
    }
    NothingLeft(d);
    assert buffer.bytes[toPos..] == [] && buffer.bytes[..toPos] == buffer.bytes;
    outcome := if hasErrors then NonReversible else Converts;
  }

  lemma {:induction false} NothingLeft(d: Direction)
    ensures Converted(d, []) == [] && !IsLossy(d, [])
  {
  }

  /** How much larger the output space must become for the next unit to fit. */
  ghost function Missing(d: Direction, rest: seq<byte>, room: nat): nat {
    if rest == [] || |UnitOutput(d, rest)| <= room then 0 else |UnitOutput(d, rest)| - room
  }

  method ConvertInPlace(d: Direction, buffer: ByteBuffer) returns (outcome: Outcome)
    modifies buffer
    ensures buffer.bytes == Converted(d, old(buffer.bytes))
    ensures outcome == if IsLossy(d, old(buffer.bytes)) then NonReversible else Converts
  {
    var nextInsertSize: nat := 1000000;
    if 2 * |buffer.bytes| < nextInsertSize {
      nextInsertSize := 2 * |buffer.bytes|;
    }
    if nextInsertSize == 0 {
      return Converts;
    }
    outcome := ConvertInPlaceBy(d, buffer, nextInsertSize);
  }

  /** Writing the converted text piece by piece gives the same bytes and the same outcome. */
  method ConvertToFile(d: Direction, buffer: seq<byte>) returns (file: seq<byte>, outcome: Outcome)
    ensures file == Converted(d, buffer)
    ensures outcome == if IsLossy(d, buffer) then NonReversible else Converts
  {
    hide UnitOutput, UnitLength, UnitIsLossy, Converted, IsLossy, IsChunk;
    var hasErrors := false;
    file := [];
    var from := 0;
    var nextOutBufferSize: nat := 1000000;
    if 2 * |buffer| < nextOutBufferSize {
      nextOutBufferSize := 2 * |buffer|;
    }
    assert buffer[0..] == buffer;
    while |buffer| - from > 0
      invariant from <= |buffer|
      invariant Converted(d, buffer) == file + Converted(d, buffer[from..])
      invariant IsLossy(d, buffer) <==> hasErrors || IsLossy(d, buffer[from..])
      invariant buffer != [] ==> 1 <= nextOutBufferSize
      decreases |buffer| - from, Missing(d, buffer[from..], nextOutBufferSize)
    {
      var consumed, out, rslt := Convert(d, buffer[from..], nextOutBufferSize);
      ChunkFits(d, buffer[from..], nextOutBufferSize, consumed, out, rslt);
      AfterChunk(d, buffer[from..], nextOutBufferSize, consumed, out, rslt);
      if rslt == OutputBufferTooSmall {
        nextOutBufferSize := nextOutBufferSize + (nextOutBufferSize - |out|);
      } else if rslt == NonReversibleConversionsOccurred {
        hasErrors := true;
      }
      assert buffer[from..][consumed..] == buffer[from + consumed..];
      from := from + consumed;
      file := file + out;
    }
    NothingLeft(d);
    assert buffer[from..] == [];
    outcome := if hasErrors then NonReversible else Converts;
  }
}
