/**
 * The break list of the syntax highlighter, edited in place while any number of cursors
 * ("iterators") cache an absolute text position, a stack position and an index into it.
 */
module HilitingBase {
  import opened Bytes
  import opened BreakList

  datatype IteratorData = IteratorData(inUseCounter: nat, breakIndex: nat, stackStartPos: int, textStartPos: int)

  /** The positions a cursor caches are those of the break its index names. */
  predicate Coherent(b: seq<BreakData>, cursor: IteratorData) {
    && cursor.breakIndex <= |b|
    && cursor.textStartPos == StartPos(b, cursor.breakIndex)
    && cursor.stackStartPos == StackPos(b, cursor.breakIndex)
  }

  function ShiftedCursor(cursor: IteratorData, k: nat, count: nat, growth: nat): IteratorData {
    if cursor.breakIndex >= k
    then cursor.(stackStartPos := cursor.stackStartPos + growth, breakIndex := cursor.breakIndex + count)
    else cursor
  }

  predicate SameUse(before: seq<IteratorData>, after: seq<IteratorData>) {
    |before| == |after| && forall i | 0 <= i < |before| :: after[i].inUseCounter == before[i].inUseCounter
  }

  /** The old break at index `i` is found again at `NewIndex(i)`; breaks `k..e` gave way to `count` others. */
  function NewIndex(i: nat, k: nat, e: nat, count: nat): nat
    requires k <= e
  {
    if i >= e then i - e + k + count else if i >= k then k else i
  }

  /** The last break that ends at or before `textPos`, or one that ends exactly there. */
  predicate NextBefore(view: seq<Break>, p: nat, textPos: int) {
    && p < |view|
    && view[p].EndPos() <= textPos
    && (p + 1 < |view| && view[p].EndPos() < textPos ==> textPos < view[p + 1].EndPos())
    && (p + 1 < |view| ==> textPos <= view[p + 1].EndPos())
  }

  /**
   * What survives an update of the text `begin..oldEnd`: the breaks up to `last`, which ends at or
   * before `begin`, and those from `next` on. The break right behind `last` is never kept.
   */
  predicate Survivors(view: seq<Break>, begin: int, oldEnd: int, last: nat, next: nat) {
    && NextBefore(view, last, begin)
    && last < next <= |view|
    && (last + 1 < |view| ==> last + 2 <= next)
    && (forall j | last + 2 <= j < next :: view[j].start < oldEnd)
    && (next < |view| ==> oldEnd <= view[next].start)
  }

  /** The distance of break `p` leaves room for the break, unless it is the last one. */
  predicate OffsetFits(b: seq<BreakData>, p: nat)
    requires p < |b|
  {
    0 <= b[p].nextStartOffset && (p + 1 < |b| ==> b[p].breakLength <= b[p].nextStartOffset)
  }

  /** The list without the breaks `k..next`, and with the text positions of the later ones moved by `amount`. */
  function Without(view: seq<Break>, k: nat, next: nat, amount: int): (rest: seq<Break>)
    requires k <= next <= |view|
    ensures |rest| == k + |view| - next
  {
    view[..k] + Shifted(view[next..], amount)
  }

  /** What an update of the text has to do to the list, when break `last` is the last one before the change. */
  ghost predicate UpdateIsDone(view: seq<Break>, after: seq<Break>, begin: int, oldEnd: int, amount: int, last: nat) {
    exists next: nat ::
      Survivors(view, begin, oldEnd, last, next) && after == Without(view, last + 1, next, amount)
  }

  class HilitingBase {
    var breaks: seq<BreakData>
    var stack: seq<byte>
    var iterators: seq<IteratorData>
    var lastFreeIteratorIndex: nat

    predicate Valid()
      reads this
    {
      && WellFormed(breaks, stack)
      && lastFreeIteratorIndex <= |iterators|
      && (forall i | 0 <= i < |iterators| && iterators[i].inUseCounter > 0 :: Coherent(breaks, iterators[i]))
    }

    /** No slot from `lastFreeIteratorIndex` on is in use. Holds as long as no handle is shared. */
    predicate FreeTail()
      reads this
    {
      forall i | lastFreeIteratorIndex <= i < |iterators| :: iterators[i].inUseCounter == 0
    }

    predicate InUse(i: nat)
      reads this
    {
      i < |iterators| && iterators[i].inUseCounter > 0
    }

    ghost function Contents(): seq<Break>
      requires Valid()
      reads this
    {
      View(breaks, stack)
    }

    function EndMarker(): int
      reads this
    {
      StartPos(breaks, |breaks|)
    }

    constructor ()
      ensures Valid() && FreeTail() && Ordered(breaks)
      ensures Contents() == [Break(0, 0, Null, [0])] && EndMarker() == 0
      ensures |iterators| == 1 && lastFreeIteratorIndex == 0 && !InUse(0)
    {
      stack := [0];
      breaks := [FIRST_BREAK];
      lastFreeIteratorIndex := 0;
      iterators := [IteratorData(0, 0, 0, 0)];
      new;
      InitialList();
    }

    method Clear()
      requires Valid()
      modifies this
      ensures Valid() && Ordered(breaks)
      ensures Contents() == [Break(0, 0, Null, [0])] && EndMarker() == 0
      ensures SameUse(old(iterators), iterators) && lastFreeIteratorIndex == old(lastFreeIteratorIndex)
      ensures forall i | 0 <= i < |iterators| && InUse(i) :: iterators[i].breakIndex == 0
    {
      stack := [0];
      breaks := [FIRST_BREAK];
      InitialList();
      var n := |iterators|;
      for i := 0 to n
        invariant |iterators| == n && SameUse(old(iterators), iterators)
        invariant stack == [0] && breaks == [FIRST_BREAK]
        invariant lastFreeIteratorIndex == old(lastFreeIteratorIndex)
        invariant forall j | 0 <= j < i && InUse(j) ::
                    iterators[j].breakIndex == 0 && Coherent(breaks, iterators[j])
      {
        if iterators[i].inUseCounter > 0 {
          iterators := iterators[i := iterators[i].(breakIndex := 0, stackStartPos := 0, textStartPos := 0)];
        }
      }
    }

    // ----- cursor slots

    method CreateNewIterator() returns (i: nat)
      requires Valid()
      modifies this`iterators, this`lastFreeIteratorIndex
      ensures Valid() && InUse(i) && iterators[i].breakIndex == 0
      ensures |old(iterators)| <= |iterators|
      ensures iterators[i].inUseCounter == (if i < |old(iterators)| then old(iterators)[i].inUseCounter else 0) + 1
      ensures forall j | 0 <= j < |iterators| && j != i ::
                if j < |old(iterators)| then iterators[j] == old(iterators)[j] else iterators[j].inUseCounter == 0
      ensures old(FreeTail()) ==> FreeTail() && !old(InUse(i))
      // A live slot is handed out again exactly when the slot at the free index is live.
      ensures old(InUse(i)) <==> old(InUse(lastFreeIteratorIndex))
      ensures old(lastFreeIteratorIndex) < |old(iterators)| ==>
                i == old(lastFreeIteratorIndex) && lastFreeIteratorIndex == i + 1 && |iterators| == |old(iterators)|
      // Otherwise the first slot that is not in use is taken, and a new one if there is none.
      ensures old(lastFreeIteratorIndex) == |old(iterators)| ==>
                && i <= |old(iterators)| && (forall j | 0 <= j < i :: old(InUse(j)))
                && if i < |old(iterators)|
                   then |iterators| == |old(iterators)| && lastFreeIteratorIndex == old(lastFreeIteratorIndex)
                   else |iterators| == i + 2 && lastFreeIteratorIndex == i + 1
    {
      if lastFreeIteratorIndex == |iterators| {
        i := 0;
        while i < |iterators| && iterators[i].inUseCounter != 0
          invariant i <= |iterators|
          invariant forall j | 0 <= j < i :: iterators[j].inUseCounter > 0
        {
          i := i + 1;
        }
        if i == |iterators| {
          iterators := iterators + [IteratorData(0, 0, 0, 0), IteratorData(0, 0, 0, 0)];
          lastFreeIteratorIndex := i + 1;
        }
      } else {
        i := lastFreeIteratorIndex;
        lastFreeIteratorIndex := lastFreeIteratorIndex + 1;
      }
      iterators := iterators[i := IteratorData(iterators[i].inUseCounter + 1, 0, 0, 0)];
    }

    /** Copying a handle: both copies then name the same slot. */
    method ShareIterator(i: nat)
      requires Valid() && InUse(i)
      modifies this`iterators
      ensures Valid() && lastFreeIteratorIndex == old(lastFreeIteratorIndex)
      ensures iterators == old(iterators)[i := old(iterators)[i].(inUseCounter := old(iterators)[i].inUseCounter + 1)]
      ensures old(FreeTail()) ==> FreeTail()
    {
      iterators := iterators[i := iterators[i].(inUseCounter := iterators[i].inUseCounter + 1)];
    }

    /** Assigning one handle to another: the slot of the first loses a user, and its free index is not lowered. */
    method AssignIterator(dst: nat, src: nat)
      requires Valid() && InUse(dst) && InUse(src)
      modifies this`iterators
      ensures Valid() && lastFreeIteratorIndex == old(lastFreeIteratorIndex) && |iterators| == |old(iterators)|
      ensures forall i | 0 <= i < |iterators| ::
                iterators[i] == old(iterators)[i].(inUseCounter := old(iterators)[i].inUseCounter
                                                   - (if i == dst then 1 else 0) + if i == src then 1 else 0)
      ensures old(FreeTail()) ==> FreeTail()
    {
      iterators := iterators[dst := iterators[dst].(inUseCounter := iterators[dst].inUseCounter - 1)];
      iterators := iterators[src := iterators[src].(inUseCounter := iterators[src].inUseCounter + 1)];
    }

    /** Destroying a handle. The free index is lowered even when other copies of the handle live on. */
    method ReleaseIterator(i: nat)
      requires Valid() && InUse(i)
      modifies this`iterators, this`lastFreeIteratorIndex
      ensures Valid()
      ensures iterators == old(iterators)[i := old(iterators)[i].(inUseCounter := old(iterators)[i].inUseCounter - 1)]
      ensures lastFreeIteratorIndex == if i + 1 == old(lastFreeIteratorIndex) then i else old(lastFreeIteratorIndex)
      ensures old(FreeTail()) ==>
                (FreeTail() <==> old(iterators)[i].inUseCounter == 1 || i + 1 != old(lastFreeIteratorIndex))
    {
      iterators := iterators[i := iterators[i].(inUseCounter := iterators[i].inUseCounter - 1)];
      if i + 1 == lastFreeIteratorIndex {
        lastFreeIteratorIndex := i;
      }
      assert iterators[i].inUseCounter == old(iterators)[i].inUseCounter - 1;
    }

    // ----- reading and moving one cursor

    predicate IsEndOfBreaks(i: nat)
      requires i < |iterators|
      reads this
    {
      iterators[i].breakIndex == |breaks|
    }

    predicate IsLastBreak(i: nat)
      requires i < |iterators|
      reads this
    {
      iterators[i].breakIndex >= |breaks| - 1
    }

    function BreakStartPos(i: nat): int
      requires i < |iterators|
      reads this
    {
      iterators[i].textStartPos
    }

    /** For the end marker this is its position, for a break its end. */
    function BreakEndPos(i: nat): int
      requires i < |iterators| && iterators[i].breakIndex <= |breaks|
      reads this
    {
      if IsEndOfBreaks(i) then iterators[i].textStartPos
      else iterators[i].textStartPos + breaks[iterators[i].breakIndex].breakLength
    }

    function PrevBreakEndPos(i: nat): int
      requires i < |iterators| && 0 < iterators[i].breakIndex <= |breaks|
      reads this
    {
      var prev := breaks[iterators[i].breakIndex - 1];
      iterators[i].textStartPos - prev.nextStartOffset + prev.breakLength
    }

    method CopyToIteratorFromIterator(dst: nat, src: nat)
      requires Valid() && InUse(dst) && InUse(src)
      modifies this`iterators
      ensures Valid() && SameUse(old(iterators), iterators)
      ensures iterators == old(iterators)[dst := iterators[dst]]
      ensures iterators[dst].breakIndex == old(iterators)[src].breakIndex
      ensures old(FreeTail()) ==> FreeTail()
    {
      var from := iterators[src];
      iterators := iterators[dst := iterators[dst].(breakIndex := from.breakIndex,
                                                    stackStartPos := from.stackStartPos,
                                                    textStartPos := from.textStartPos)];
    }

    method IncIterator(i: nat)
      requires Valid() && InUse(i) && !IsEndOfBreaks(i)
      modifies this`iterators
      ensures Valid() && SameUse(old(iterators), iterators)
      ensures iterators == old(iterators)[i := iterators[i]]
      ensures iterators[i].breakIndex == old(iterators)[i].breakIndex + 1
      ensures old(FreeTail()) ==> FreeTail()
    {
      var c := iterators[i];
      iterators := iterators[i := c.(stackStartPos := c.stackStartPos + breaks[c.breakIndex].stackLength,
                                     textStartPos := c.textStartPos + breaks[c.breakIndex].nextStartOffset,
                                     breakIndex := c.breakIndex + 1)];
    }

    method DecIterator(i: nat)
      requires Valid() && InUse(i) && 0 < iterators[i].breakIndex
      modifies this`iterators
      ensures Valid() && SameUse(old(iterators), iterators)
      ensures iterators == old(iterators)[i := iterators[i]]
      ensures iterators[i].breakIndex == old(iterators)[i].breakIndex - 1
      ensures old(FreeTail()) ==> FreeTail()
    {
      var c := iterators[i];
      iterators := iterators[i := c.(stackStartPos := c.stackStartPos - breaks[c.breakIndex - 1].stackLength,
                                     textStartPos := c.textStartPos - breaks[c.breakIndex - 1].nextStartOffset,
                                     breakIndex := c.breakIndex - 1)];
    }

    // ----- finding a break by text position

    /** Start from the live cursor (or the first break) whose end is nearest to `textPos`. */
    method MoveIteratorToNearest(h: nat, textPos: int)
      requires Valid() && InUse(h)
      modifies this`iterators
      ensures Valid() && SameUse(old(iterators), iterators)
      ensures iterators == old(iterators)[h := iterators[h]]
      ensures iterators[h].breakIndex == 0
           || exists i | 0 <= i < |iterators| && InUse(i) :: iterators[h].breakIndex == old(iterators)[i].breakIndex
    {
      var dist := Abs(textPos - BreakEndPos(h));
      if textPos - 0 < dist {
        iterators := iterators[h := iterators[h].(breakIndex := 0, stackStartPos := 0, textStartPos := 0)];
        dist := textPos - 0;
      }
      for i := 0 to |iterators|
        invariant Valid() && SameUse(old(iterators), iterators)
        invariant iterators == old(iterators)[h := iterators[h]]
        invariant iterators[h].breakIndex == 0
               || exists j | 0 <= j < |iterators| && InUse(j) :: iterators[h].breakIndex == old(iterators)[j].breakIndex
      {
        if iterators[i].inUseCounter > 0 && i != h {
          var dist2 := Abs(textPos - BreakEndPos(i));
          if dist2 < dist {
            CopyToIteratorFromIterator(h, i);
            dist := dist2;
          }
        }
      }
    }

    method RetreatIterator(h: nat, textPos: int)
      requires Valid() && InUse(h) && 0 <= textPos
      requires IsEndOfBreaks(h) || textPos < BreakEndPos(h)
      modifies this`iterators
      ensures Valid() && SameUse(old(iterators), iterators)
      ensures iterators == old(iterators)[h := iterators[h]]
      ensures NextBefore(Contents(), iterators[h].breakIndex, textPos)
    {
      while iterators[h].breakIndex != 0
        invariant Valid() && SameUse(old(iterators), iterators)
        invariant iterators == old(iterators)[h := iterators[h]]
        invariant IsEndOfBreaks(h) || textPos < BreakEndPos(h)
        decreases iterators[h].breakIndex
      {
        DecIterator(h);
        if BreakEndPos(h) <= textPos {
          break;
        }
      }
      ViewNear(breaks, stack, iterators[h].breakIndex);
    }

    method AdvanceIterator(h: nat, textPos: int)
      requires Valid() && InUse(h) && !IsEndOfBreaks(h) && BreakEndPos(h) < textPos
      modifies this`iterators
      ensures Valid() && SameUse(old(iterators), iterators)
      ensures iterators == old(iterators)[h := iterators[h]]
      ensures NextBefore(Contents(), iterators[h].breakIndex, textPos)
    {
      while !IsLastBreak(h)
        invariant Valid() && SameUse(old(iterators), iterators)
        invariant iterators == old(iterators)[h := iterators[h]]
        invariant !IsEndOfBreaks(h) && BreakEndPos(h) <= textPos
        decreases |breaks| - iterators[h].breakIndex
      {
        IncIterator(h);
        if textPos < BreakEndPos(h) {
          DecIterator(h);
          break;
        }
      }
      ViewNear(breaks, stack, iterators[h].breakIndex);
    }

    method MoveIteratorToNextBefore(h: nat, textPos: int)
      requires Valid() && InUse(h) && 0 <= textPos
      modifies this`iterators
      ensures Valid() && SameUse(old(iterators), iterators)
      ensures iterators == old(iterators)[h := iterators[h]]
      ensures iterators[h].breakIndex < |breaks| && Contents()[iterators[h].breakIndex].EndPos() <= textPos
      ensures Ordered(breaks) ==> NextBefore(Contents(), iterators[h].breakIndex, textPos)
      ensures old(FreeTail()) ==> FreeTail()
    {
      MoveIteratorToNearest(h, textPos);
      if IsEndOfBreaks(h) {
        RetreatIterator(h, textPos);
      } else if BreakEndPos(h) < textPos {
        AdvanceIterator(h, textPos);
      } else if BreakEndPos(h) > textPos {
        RetreatIterator(h, textPos);
      } else {
        if Ordered(breaks) {
          PositionsIncrease(breaks, iterators[h].breakIndex, iterators[h].breakIndex + 1);
        }
        ViewNear(breaks, stack, iterators[h].breakIndex);
      }
    }

    // ----- editing the list

    method RepairAfterDelete(ghost b: seq<BreakData>, ghost st: seq<byte>, s: nat, e: nat, ghost offset: int,
                             stackBegin: int, stackEnd: int, textEnd: int)
      requires WellFormed(b, st) && 1 <= s < e <= |b|
      requires breaks == Spliced(b, s, e, offset, [])
      requires offset == b[s - 1].nextStartOffset + textEnd - StartPos(b, s)
      requires stackBegin == StackPos(b, s) && stackEnd == StackPos(b, e) && textEnd == StartPos(b, e)
      requires forall i | 0 <= i < |iterators| && InUse(i) :: Coherent(b, iterators[i])
      modifies this`iterators
      ensures SameUse(old(iterators), iterators)
      ensures forall i | 0 <= i < |iterators| && InUse(i) ::
                && Coherent(breaks, iterators[i])
                && iterators[i].breakIndex == NewIndex(old(iterators)[i].breakIndex, s, e, 0)
    {
      ghost var its := iterators;
      var stackLength := stackEnd - stackBegin;
      for i := 0 to |iterators|
        invariant SameUse(its, iterators)
        invariant forall j | 0 <= j < i && InUse(j) ::
                    && Coherent(breaks, iterators[j])
                    && iterators[j].breakIndex == NewIndex(its[j].breakIndex, s, e, 0)
        invariant forall j | i <= j < |its| :: iterators[j] == its[j]
      {
        var c := iterators[i];
        if c.inUseCounter > 0 {
          CursorAcrossDelete(b, st, c, s, e, offset);
          if c.stackStartPos >= stackEnd {
            c := c.(stackStartPos := c.stackStartPos - stackLength);
          } else if c.stackStartPos > stackBegin {
            c := c.(stackStartPos := stackBegin);
          }
          if c.breakIndex >= e {
            c := c.(breakIndex := c.breakIndex - (e - s));
          } else if c.breakIndex >= s {
            c := c.(breakIndex := s, textStartPos := textEnd);
          }
          iterators := iterators[i := c];
        }
      }
    }

    method DeleteBreaks(startIter: nat, endIter: nat)
      requires Valid() && InUse(startIter) && InUse(endIter)
      requires 0 < iterators[startIter].breakIndex
      modifies this
      ensures Valid() && SameUse(old(iterators), iterators)
      ensures lastFreeIteratorIndex == old(lastFreeIteratorIndex)
      ensures var s, e := old(iterators)[startIter].breakIndex, old(iterators)[endIter].breakIndex;
        if s < e then
          && Contents() == old(Contents())[..s] + old(Contents())[e..]
          && EndMarker() == old(EndMarker())
          && (forall i | 0 <= i < |iterators| && InUse(i) ::
                iterators[i].breakIndex == NewIndex(old(iterators)[i].breakIndex, s, e, 0))
        else
          breaks == old(breaks) && stack == old(stack) && iterators == old(iterators)
      ensures old(Ordered(breaks)) ==> Ordered(breaks)
      ensures old(FreeTail()) ==> FreeTail()
    {
      var startBreak := iterators[startIter].breakIndex;
      var endBreak := iterators[endIter].breakIndex;
      if startBreak < endBreak {
        ghost var b, st := breaks, stack;
        var stackBegin := iterators[startIter].stackStartPos;
        var stackEnd := iterators[endIter].stackStartPos;
        StackPosIncreases(b, st, startBreak, endBreak);
        stack := stack[..stackBegin] + stack[stackEnd..];

        var textStart := iterators[startIter].textStartPos;
        var textEnd := iterators[endIter].textStartPos;
        var prev := breaks[startBreak - 1];
        breaks := breaks[startBreak - 1 := prev.(nextStartOffset := prev.nextStartOffset + textEnd - textStart)];
        breaks := breaks[..startBreak] + breaks[endBreak..];

        ghost var offset := prev.nextStartOffset + textEnd - textStart;
        assert breaks == Spliced(b, startBreak, endBreak, offset, []);
        assert stack == SplicedStack(b, st, startBreak, endBreak, []);
        DeleteRefines(b, st, startBreak, endBreak, offset);
        RepairAfterDelete(b, st, startBreak, endBreak, offset, stackBegin, stackEnd, textEnd);
      }
    }

    /** Cursors at the end marker follow it to its new place. */
    method MoveCursorsAtEnd(h: nat, k: nat, newEnd: int)
      requires InUse(h)
      modifies this`iterators
      ensures SameUse(old(iterators), iterators) && iterators[h] == old(iterators)[h]
      ensures forall i | 0 <= i < |iterators| && InUse(i) && i != h :: iterators[i]
                == if old(iterators)[i].breakIndex == k then old(iterators)[i].(textStartPos := newEnd)
                   else old(iterators)[i]
    {
      ghost var its := iterators;
      for i := 0 to |iterators|
        invariant SameUse(its, iterators) && iterators[h] == its[h]
        invariant forall j | 0 <= j < i && InUse(j) && j != h ::
                    iterators[j] == if its[j].breakIndex == k then its[j].(textStartPos := newEnd) else its[j]
        invariant forall j | i <= j < |its| :: iterators[j] == its[j]
      {
        if iterators[i].inUseCounter > 0 && i != h && iterators[i].breakIndex == k {
          iterators := iterators[i := iterators[i].(textStartPos := newEnd)];
        }
      }
    }

    /** Cursors at or behind the insertion move on by the inserted breaks and bytes. */
    method ShiftCursors(h: nat, k: nat, stackBegin: int, fillCount: nat, growth: nat)
      requires InUse(h)
      requires forall i | 0 <= i < |iterators| && InUse(i) && i != h ::
                 iterators[i].stackStartPos >= stackBegin <==> iterators[i].breakIndex >= k
      modifies this`iterators
      ensures SameUse(old(iterators), iterators) && iterators[h] == old(iterators)[h]
      ensures forall i | 0 <= i < |iterators| && InUse(i) && i != h ::
                iterators[i] == ShiftedCursor(old(iterators)[i], k, fillCount, growth)
    {
      ghost var its := iterators;
      for i := 0 to |iterators|
        invariant SameUse(its, iterators) && iterators[h] == its[h]
        invariant forall j | 0 <= j < i && InUse(j) && j != h ::
                    iterators[j] == ShiftedCursor(its[j], k, fillCount, growth)
        invariant forall j | i <= j < |its| :: iterators[j] == its[j]
      {
        if i != h && iterators[i].inUseCounter > 0 {
          var c := iterators[i];
          if c.stackStartPos >= stackBegin {
            c := c.(stackStartPos := c.stackStartPos + growth);
          }
          if c.breakIndex >= k {
            c := c.(breakIndex := c.breakIndex + fillCount);
          }
          iterators := iterators[i := c];
        }
      }
    }

    method RepairAfterInsert(h: nat, ghost b: seq<BreakData>, ghost st: seq<byte>, k: nat, ghost mid: seq<BreakData>,
                             ghost midStack: seq<byte>, atEnd: bool, stackBegin: int, startPos: int, newEnd: int,
                             fillCount: nat, growth: nat)
      requires InUse(h) && iterators[h].breakIndex == k
      requires WellFormed(b, st) && Stacked(mid, midStack) && 1 <= k <= |b| && |mid| == fillCount
      requires breaks == Spliced(b, k, k, startPos - StartPos(b, k - 1), mid)
      requires |midStack| == growth
      requires stackBegin == StackPos(b, k) && (atEnd <==> k == |b|)
      requires newEnd == startPos + StartPos(mid, |mid|)
      requires !atEnd ==> newEnd == StartPos(b, k)
      requires forall i | 0 <= i < |iterators| && InUse(i) :: Coherent(b, iterators[i])
      modifies this`iterators
      ensures SameUse(old(iterators), iterators)
      ensures forall i | 0 <= i < |iterators| && InUse(i) ::
                && Coherent(breaks, iterators[i])
                && iterators[i].breakIndex
                   == if i == h then k else NewIndex(old(iterators)[i].breakIndex, k, k, fillCount)
    {
      ghost var its := iterators;
      forall i | 0 <= i < |its| && InUse(i)
        ensures its[i].stackStartPos >= stackBegin <==> its[i].breakIndex >= k
        ensures Coherent(breaks, ShiftedCursor(
                  if k == |b| && its[i].breakIndex == k then its[i].(textStartPos := newEnd) else its[i],
                  k, fillCount, growth))
        ensures StartPos(breaks, k) == startPos && StackPos(breaks, k) == stackBegin && k <= |breaks|
      {
        CursorAcrossInsert(b, st, its[i], k, mid, midStack, startPos, newEnd);
      }
      assert InUse(h);
      iterators := iterators[h := iterators[h].(textStartPos := startPos)];
      if atEnd {
        MoveCursorsAtEnd(h, k, newEnd);
      }
      ShiftCursors(h, k, stackBegin, fillCount, growth);
    }

    method InsertBreaks(h: nat, startPos: int, breakLength: int, breakType: BreakType,
                        parsingStack: seq<byte>, fillCount: nat, fillDistance: int)
      requires Valid() && InUse(h)
      requires 1 <= fillCount
      requires |parsingStack| > 0 && parsingStack[0] == 0
      requires iterators[h].breakIndex != 0
      requires PrevBreakEndPos(h) <= startPos
      requires breakType == Inter || fillCount == 1
      requires fillCount == 1 || breakLength == 0
      requires IsEndOfBreaks(h) || startPos + (fillCount - 1) * fillDistance + breakLength <= BreakStartPos(h)
      modifies this
      ensures Valid() && SameUse(old(iterators), iterators)
      ensures lastFreeIteratorIndex == old(lastFreeIteratorIndex)
      ensures var k := old(iterators)[h].breakIndex;
        && Contents() == old(Contents())[..k]
                         + Filling(fillCount, startPos, fillDistance, breakLength, breakType, parsingStack)
                         + old(Contents())[k..]
        && EndMarker() == (if k == |old(breaks)| then startPos + (fillCount - 1) * fillDistance + breakLength
                           else old(EndMarker()))
        && (forall i | 0 <= i < |iterators| && InUse(i) :: iterators[i].breakIndex
              == if i == h then k else NewIndex(old(iterators)[i].breakIndex, k, k, fillCount))
      ensures old(Ordered(breaks)) && 0 <= breakLength && (fillCount == 1 || 0 <= fillDistance) ==> Ordered(breaks)
      ensures old(FreeTail()) ==> FreeTail()
    {
      hide Ordered, View, Filling, Repeated, Run;
      ghost var b, st := breaks, stack;
      var atEnd := IsEndOfBreaks(h);
      var breakIndex := iterators[h].breakIndex;
      var nextBreakStartPos := iterators[h].textStartPos;
      var prevBreakStartPos := iterators[h].textStartPos - breaks[breakIndex - 1].nextStartOffset;
      var stackBegin := iterators[h].stackStartPos;
      var stackLength := |parsingStack|;

      var copies := CopyRepeatedly(parsingStack, fillCount);
      StackPosIncreases(b, st, breakIndex, breakIndex);
      stack := stack[..stackBegin] + copies + stack[stackBegin..];

      var lastOffset := if atEnd then breakLength
                        else nextBreakStartPos - (startPos + (fillCount - 1) * fillDistance);
      var mid := FillRun(fillCount, fillDistance, breakLength, breakType, stackLength, lastOffset);
      var prev := breaks[breakIndex - 1];
      breaks := breaks[..breakIndex] + mid + breaks[breakIndex..];
      breaks := breaks[breakIndex - 1 := prev.(nextStartOffset := startPos - prevBreakStartPos)];

      assert breaks == Spliced(b, breakIndex, breakIndex, startPos - prevBreakStartPos, mid);
      assert stack == SplicedStack(b, st, breakIndex, breakIndex, copies);
      RunIsFilling(fillCount, startPos, fillDistance, breakLength, breakType, lastOffset, parsingStack);
      InsertRefines(b, st, breakIndex, startPos, fillCount, fillDistance, breakLength, breakType, lastOffset,
                    parsingStack);
      RepairAfterInsert(h, b, st, breakIndex, mid, copies, atEnd, stackBegin, startPos,
                        startPos + (fillCount - 1) * fillDistance + lastOffset, fillCount, fillCount * stackLength);
    }

    // ----- following a change of the text

    method ShiftTextPositions(ghost b: seq<BreakData>, breakIndex: nat, amount: int)
      requires 1 <= breakIndex && |breaks| == |b|
      requires forall i | 0 <= i <= |b| :: StackPos(breaks, i) == StackPos(b, i)
                                        && StartPos(breaks, i) == StartPos(b, i) + if i < breakIndex then 0 else amount
      requires forall i | 0 <= i < |iterators| && InUse(i) :: Coherent(b, iterators[i])
      modifies this`iterators
      ensures SameUse(old(iterators), iterators)
      ensures forall i | 0 <= i < |iterators| && InUse(i) ::
                Coherent(breaks, iterators[i]) && iterators[i].breakIndex == old(iterators)[i].breakIndex
    {
      ghost var its := iterators;
      for i := 0 to |iterators|
        invariant SameUse(its, iterators)
        invariant forall j | 0 <= j < i && InUse(j) ::
                    Coherent(breaks, iterators[j]) && iterators[j].breakIndex == its[j].breakIndex
        invariant forall j | i <= j < |its| :: iterators[j] == its[j]
      {
        var c := iterators[i];
        if c.inUseCounter > 0 && c.breakIndex > 0 {
          if c.breakIndex >= breakIndex {
            iterators := iterators[i := c.(textStartPos := c.textStartPos + amount)];
          }
        }
      }
    }

    method SetTextPositions(ghost b: seq<BreakData>, breakIndex: nat, pos: int)
      requires 1 <= breakIndex == |breaks| == |b|
      requires forall i | 0 <= i <= |b| :: StackPos(breaks, i) == StackPos(b, i)
                                        && StartPos(breaks, i) == if i < breakIndex then StartPos(b, i) else pos
      requires forall i | 0 <= i < |iterators| && InUse(i) :: Coherent(b, iterators[i])
      modifies this`iterators
      ensures SameUse(old(iterators), iterators)
      ensures forall i | 0 <= i < |iterators| && InUse(i) ::
                Coherent(breaks, iterators[i]) && iterators[i].breakIndex == old(iterators)[i].breakIndex
    {
      ghost var its := iterators;
      for i := 0 to |iterators|
        invariant SameUse(its, iterators)
        invariant forall j | 0 <= j < i && InUse(j) ::
                    Coherent(breaks, iterators[j]) && iterators[j].breakIndex == its[j].breakIndex
        invariant forall j | i <= j < |its| :: iterators[j] == its[j]
      {
        var c := iterators[i];
        if c.inUseCounter > 0 && c.breakIndex > 0 {
          if c.breakIndex >= breakIndex {
            iterators := iterators[i := c.(textStartPos := pos)];
          }
        }
      }
    }

    /** Give break `last` a new distance; `shift` is what that adds to the position of all that follows. */
    method PullFollowingBreaks(last: nat, amount: int)
      requires Valid() && last < |breaks|
      modifies this`breaks, this`iterators
      ensures Valid() && SameUse(old(iterators), iterators)
      ensures var prior := old(breaks)[last];
        breaks == old(breaks)[last := prior.(nextStartOffset := prior.nextStartOffset + amount)]
      ensures forall i | 0 <= i < |iterators| && InUse(i) :: iterators[i].breakIndex == old(iterators)[i].breakIndex
    {
      ghost var b := breaks;
      ShiftRefines(b, stack, last, amount);
      breaks := breaks[last := breaks[last].(nextStartOffset := breaks[last].nextStartOffset + amount)];
      ShiftTextPositions(b, last + 1, amount);
    }

    method DropEndMarkerOntoBreak(last: nat, pos: int)
      requires Valid() && last + 1 == |breaks| && pos == StartPos(breaks, last)
      modifies this`breaks, this`iterators
      ensures Valid() && SameUse(old(iterators), iterators)
      ensures breaks == old(breaks)[last := old(breaks)[last].(nextStartOffset := 0)]
      ensures forall i | 0 <= i < |iterators| && InUse(i) :: iterators[i].breakIndex == old(iterators)[i].breakIndex
    {
      ghost var b := breaks;
      assert StartPos(b, last + 1) == StartPos(b, last) + b[last].nextStartOffset;
      ShiftRefines(b, stack, last, -b[last].nextStartOffset);
      breaks := breaks[last := breaks[last].(nextStartOffset := 0)];
      SetTextPositions(b, last + 1, pos);
    }

    /** `h` stands behind the last kept break: pull in what follows, or drop the end marker onto that break. */
    method CloseGap(h: nat, ghost begin: int, oldEnd: int, amount: int)
      requires Valid() && InUse(h) && begin <= oldEnd && begin - oldEnd <= amount
      requires 0 < iterators[h].breakIndex
      requires !IsEndOfBreaks(h) ==> oldEnd <= BreakStartPos(h)
      modifies this
      ensures Valid() && SameUse(old(iterators), iterators)
      ensures lastFreeIteratorIndex == old(lastFreeIteratorIndex)
      ensures var p := old(iterators)[h].breakIndex;
        && Contents() == Without(old(Contents()), p, p, amount)
        && EndMarker() == (if oldEnd <= old(BreakStartPos(h)) then old(EndMarker()) + amount
                           else old(Contents())[p - 1].start)
        && (old(Ordered(breaks)) ==> (Ordered(breaks) <==> OffsetFits(breaks, p - 1)))
        && (old(Ordered(breaks)) && old(Contents())[p - 1].EndPos() <= begin ==> Ordered(breaks))
        && (forall i | 0 <= i < |iterators| && InUse(i) ::
              iterators[i].breakIndex == if i == h then p - 1 else old(iterators)[i].breakIndex)
    {
      ghost var b := breaks;
      ViewNear(b, stack, iterators[h].breakIndex - 1);
      var wasAtOrBehindOldEnd := BreakStartPos(h) >= oldEnd;
      DecIterator(h);
      var last := iterators[h].breakIndex;
      if wasAtOrBehindOldEnd {
        ClosingRefines(b, stack, last, begin, oldEnd, amount, amount);
        PullFollowingBreaks(last, amount);
      } else {
        ClosingRefines(b, stack, last, begin, oldEnd, amount, -b[last].nextStartOffset);
        DropEndMarkerOntoBreak(last, BreakStartPos(h));
      }
    }

    method SkipBreaksBefore(i: nat, oldEnd: int)
      requires Valid() && InUse(i) && !IsEndOfBreaks(i)
      modifies this`iterators
      ensures Valid() && SameUse(old(iterators), iterators)
      ensures iterators == old(iterators)[i := iterators[i]]
      ensures old(iterators)[i].breakIndex < iterators[i].breakIndex <= |breaks|
      ensures forall j | old(iterators)[i].breakIndex < j < iterators[i].breakIndex :: Contents()[j].start < oldEnd
      ensures iterators[i].breakIndex < |breaks| ==> oldEnd <= Contents()[iterators[i].breakIndex].start
      ensures old(FreeTail()) ==> FreeTail()
    {
      ghost var view := Contents();
      IncIterator(i);
      while !IsEndOfBreaks(i) && BreakStartPos(i) < oldEnd
        invariant Valid() && SameUse(old(iterators), iterators)
        invariant iterators == old(iterators)[i := iterators[i]]
        invariant old(iterators)[i].breakIndex < iterators[i].breakIndex <= |breaks|
        invariant forall j | old(iterators)[i].breakIndex < j < iterators[i].breakIndex :: view[j].start < oldEnd
        decreases |breaks| - iterators[i].breakIndex
      {
        ViewNear(breaks, stack, iterators[i].breakIndex);
        IncIterator(i);
      }
      ViewNear(breaks, stack, iterators[i].breakIndex);
    }

    /**
     * A new cursor on the first break behind the one at `h` that starts at or behind `oldEnd`. If shared handles left
     * a live slot at the free index, that slot is taken; if it is that of `h`, the search starts at the first break.
     */
    method CreateIteratorBehind(h: nat, oldEnd: int) returns (behind: nat)
      requires Valid() && InUse(h) && !IsEndOfBreaks(h)
      modifies this`iterators, this`lastFreeIteratorIndex
      ensures Valid() && InUse(h) && InUse(behind) && (behind == h <==> h == old(lastFreeIteratorIndex))
      ensures old(InUse(behind)) <==> old(InUse(lastFreeIteratorIndex))
      ensures old(InUse(behind)) ==> behind == old(lastFreeIteratorIndex)
      ensures old(FreeTail()) ==> FreeTail() && !old(InUse(behind))
      ensures |old(iterators)| <= |iterators|
      ensures iterators[behind].inUseCounter
           == (if behind < |old(iterators)| then old(iterators)[behind].inUseCounter else 0) + 1
      ensures forall j | 0 <= j < |iterators| && j != behind ::
                if j < |old(iterators)| then iterators[j] == old(iterators)[j] else iterators[j].inUseCounter == 0
      ensures var from := if behind == h then 0 else iterators[h].breakIndex;
        && from < iterators[behind].breakIndex <= |breaks|
        && (forall j | from < j < iterators[behind].breakIndex :: Contents()[j].start < oldEnd)
        && (iterators[behind].breakIndex < |breaks| ==> oldEnd <= Contents()[iterators[behind].breakIndex].start)
    {
      behind := CreateNewIterator();
      CopyToIteratorFromIterator(behind, h);
      SkipBreaksBefore(behind, oldEnd);
    }

    /**
     * Delete the break at `h` and all later ones that start before `oldEnd`; or nothing, if the temporary cursor took
     * the slot of `h`, which then stands where that one ended up.
     */
    method CutInvalidBreaks(h: nat, oldEnd: int) returns (behind: nat, ghost next: nat)
      requires Valid() && InUse(h) && 0 < iterators[h].breakIndex < |breaks|
      modifies this
      ensures Valid() && InUse(h) && InUse(behind) && (behind == h <==> h == old(lastFreeIteratorIndex))
      ensures old(Ordered(breaks)) ==> Ordered(breaks)
      ensures old(InUse(behind)) <==> old(InUse(lastFreeIteratorIndex))
      ensures old(InUse(behind)) ==> behind == old(lastFreeIteratorIndex)
      ensures old(FreeTail()) ==> FreeTail() && !old(InUse(behind))
      ensures var from, k := if behind == h then 0 else old(iterators)[h].breakIndex, iterators[h].breakIndex;
        && from < next <= |old(Contents())| && k == (if behind == h then next else from)
        && (forall j | from < j < next :: old(Contents())[j].start < oldEnd)
        && (next < |old(Contents())| ==> oldEnd <= old(Contents())[next].start)
        && Contents() == old(Contents())[..k] + old(Contents())[next..]
        && EndMarker() == old(EndMarker())
        && |old(iterators)| <= |iterators|
        && (forall i | 0 <= i < |iterators| :: iterators[i].inUseCounter
              == (if i < |old(iterators)| then old(iterators)[i].inUseCounter else 0) + if i == behind then 1 else 0)
        && (forall i | 0 <= i < |iterators| && InUse(i) :: iterators[i].breakIndex
              == if i == behind then k else NewIndex(old(iterators)[i].breakIndex, k, next, 0))
    {
      hide Ordered, Coherent, StartPos;
      ghost var view := Contents();
      behind := CreateIteratorBehind(h, oldEnd);
      next := iterators[behind].breakIndex;
      assert Contents() == view;
      DeleteBreaks(h, behind);
      assert view[..next] + view[next..] == view;
    }

    /** The same, then close the gap. */
    method DeleteInvalidBreaks(h: nat, ghost begin: int, oldEnd: int, amount: int) returns (ghost next: nat)
      requires Valid() && InUse(h) && begin <= oldEnd && begin - oldEnd <= amount
      requires 0 < iterators[h].breakIndex < |breaks|
      modifies this
      ensures Valid() && (old(FreeTail()) ==> FreeTail())
      ensures var own, view := h == old(lastFreeIteratorIndex), old(Contents());
        var from := if own then 0 else old(iterators)[h].breakIndex;
        var k := if own then next else from;
        && from < next <= |view| && k - 1 < |breaks|
        && (forall j | from < j < next :: view[j].start < oldEnd)
        && (next < |view| ==> oldEnd <= view[next].start)
        && Contents() == Without(view, k, next, amount)
        && EndMarker() == (if oldEnd <= (if next < |view| then view[next].start else old(EndMarker()))
                           then old(EndMarker()) + amount else view[k - 1].start)
        && (old(Ordered(breaks)) ==> (Ordered(breaks) <==> OffsetFits(breaks, k - 1)))
        && (old(Ordered(breaks)) && view[k - 1].EndPos() <= begin ==> Ordered(breaks))
        && |old(iterators)| <= |iterators|
        && (forall i | 0 <= i < |iterators| :: iterators[i].inUseCounter
              == if i < |old(iterators)| then old(iterators)[i].inUseCounter else 0)
        && (forall i | 0 <= i < |old(iterators)| && InUse(i) :: iterators[i].breakIndex
              == if i == h then k - 1
                 else if i == old(lastFreeIteratorIndex) then k
                 else NewIndex(old(iterators)[i].breakIndex, k, next, 0))
    {
      hide Ordered, OffsetFits, Without, StartPos, StackPos, View;
      ghost var view, end := Contents(), EndMarker();
      var behind;
      behind, next := CutInvalidBreaks(h, oldEnd);
      ghost var k := iterators[h].breakIndex;
      CutThenClose(view, k, next, amount);
      ViewNear(breaks, stack, k);
      assert BreakStartPos(h) == if next < |view| then view[next].start else end;
      CloseGap(h, begin, oldEnd, amount);
      ReleaseIterator(behind);
    }

    /**
     * The update is done unless shared handles left the slot of `h` at the free index and there are breaks to delete:
     * then the temporary cursor and `h` are the same, and no break is deleted. Every cursor stays coherent either way.
     * Another cursor whose slot is taken for the temporary one loses its break.
     */
    method TreatTextDataUpdate(h: nat, begin: int, oldEnd: int, amount: int) returns (ghost last: nat, ghost next: nat)
      requires Valid() && InUse(h)
      requires 0 <= begin <= oldEnd && begin - oldEnd <= amount
      modifies this
      ensures Valid() && (old(FreeTail()) ==> FreeTail())
      ensures last < |old(breaks)| && 0 < next <= |old(breaks)|
      ensures old(Ordered(breaks)) ==> NextBefore(old(Contents()), last, begin)
      ensures old(Ordered(breaks)) ==>
                (UpdateIsDone(old(Contents()), Contents(), begin, oldEnd, amount, last)
                 <==> !(h == old(lastFreeIteratorIndex) && last + 1 < |old(breaks)|))
      ensures !(h == old(lastFreeIteratorIndex) && last + 1 < |old(breaks)|) ==>
                && last < next
                && Contents() == Without(old(Contents()), last + 1, next, amount)
                && (old(Ordered(breaks)) ==>
                      && Ordered(breaks)
                      && Survivors(old(Contents()), begin, oldEnd, last, next)
                      && EndMarker() == if last + 1 == |old(breaks)| then old(EndMarker())
                                        else if oldEnd <= old(EndMarker()) then old(EndMarker()) + amount
                                        else old(Contents())[last].start)
      ensures h == old(lastFreeIteratorIndex) && last + 1 < |old(breaks)| ==>
                && (forall j | 0 < j < next :: old(Contents())[j].start < oldEnd)
                && (next < |old(Contents())| ==> oldEnd <= old(Contents())[next].start)
                && Contents() == Without(old(Contents()), next, next, amount)
                && |breaks| == |old(breaks)|
                && (old(Ordered(breaks)) ==> (Ordered(breaks) <==> OffsetFits(breaks, next - 1)))
      ensures |old(iterators)| <= |iterators|
      ensures forall i | 0 <= i < |iterators| :: iterators[i].inUseCounter
                == if i < |old(iterators)| then old(iterators)[i].inUseCounter else 0
      ensures h == old(lastFreeIteratorIndex) && last + 1 < |old(breaks)| ==>
                forall i | 0 <= i < |old(iterators)| && InUse(i) ::
                  iterators[i].breakIndex == if i == h then next - 1 else old(iterators)[i].breakIndex
      ensures !(h == old(lastFreeIteratorIndex) && last + 1 < |old(breaks)|) ==>
                forall i | 0 <= i < |old(iterators)| && InUse(i) :: iterators[i].breakIndex
                  == if i == h then last
                     else if i == old(lastFreeIteratorIndex) && last + 1 < |old(breaks)| then last + 1
                     else NewIndex(old(iterators)[i].breakIndex, last + 1, next, 0)
    {
      hide Ordered, OffsetFits, NextBefore, UpdateIsDone, Survivors, Coherent, StartPos, View, WellFormed, StackPos;
      hide Without;
      ghost var view, own, ordered := Contents(), h == lastFreeIteratorIndex, Ordered(breaks);
      StartsBeforeEnd(breaks, stack);
      MoveIteratorToNextBefore(h, begin);
      assert Contents() == view && EndMarker() == old(EndMarker());
      last := iterators[h].breakIndex;
      next := last + 1;
      if !IsLastBreak(h) {
        IncIterator(h);
        assert Contents() == view && EndMarker() == old(EndMarker());
        next := DeleteInvalidBreaks(h, begin, oldEnd, amount);
        if own {
          UpdateNotDone(view, Contents(), begin, oldEnd, amount, last);
        } else if ordered {
          assert next < |view| ==> oldEnd <= view[next].start <= old(EndMarker());
          SurvivorsAre(view, begin, oldEnd, last, next);
          UpdateDone(view, Contents(), begin, oldEnd, amount, last, next);
        }
      } else {
        NothingWithout(view, amount);
        if ordered {
          SurvivorsAre(view, begin, oldEnd, last, next);
          UpdateDone(view, Contents(), begin, oldEnd, amount, last, next);
        }
      }
    }
  }

  lemma {:induction false} NothingWithout(view: seq<Break>, amount: int)
    ensures Without(view, |view|, |view|, amount) == view
  {
  }

  lemma {:induction false} SurvivorsAre(view: seq<Break>, begin: int, oldEnd: int, last: nat, next: nat)
    requires NextBefore(view, last, begin) && last < next <= |view| && (last + 1 < |view| ==> last + 2 <= next)
    requires forall j | last + 1 < j < next :: view[j].start < oldEnd
    requires next < |view| ==> oldEnd <= view[next].start
    ensures Survivors(view, begin, oldEnd, last, next)
  {
  }

  lemma {:induction false} StartsBeforeEnd(b: seq<BreakData>, st: seq<byte>)
    requires WellFormed(b, st)
    ensures |View(b, st)| == |b|
    ensures Ordered(b) ==> forall j | 0 <= j < |b| :: View(b, st)[j].start <= StartPos(b, |b|)
  {
    if Ordered(b) {
      forall j | 0 <= j < |b| ensures View(b, st)[j].start <= StartPos(b, |b|) {
        ViewNear(b, st, j);
        PositionsIncrease(b, j, |b|);
      }
    }
  }

  lemma {:induction false} UpdateDone(view: seq<Break>, after: seq<Break>, begin: int, oldEnd: int, amount: int,
                                      last: nat, next: nat)
    requires Survivors(view, begin, oldEnd, last, next) && after == Without(view, last + 1, next, amount)
    ensures UpdateIsDone(view, after, begin, oldEnd, amount, last)
  {
  }

  /** The break behind `last` is always among the deleted ones, so that a list of the same length was not updated. */
  lemma {:induction false} UpdateNotDone(view: seq<Break>, after: seq<Break>, begin: int, oldEnd: int, amount: int,
                                         last: nat)
    requires last + 1 < |view| == |after|
    ensures !UpdateIsDone(view, after, begin, oldEnd, amount, last)
  {
  }

  lemma {:induction false} CutThenClose(view: seq<Break>, k: nat, next: nat, amount: int)
    requires k <= next <= |view|
    ensures var cut := view[..k] + view[next..];
      && |cut| == k + |view| - next && (0 < k ==> cut[k - 1] == view[k - 1])
      && (next < |view| ==> cut[k] == view[next])
      && Without(cut, k, k, amount) == Without(view, k, next, amount)
  {
    var cut := view[..k] + view[next..];
    assert cut[..k] == view[..k] && cut[k..] == view[next..];
  }

  method CopyRepeatedly(bytes: seq<byte>, count: nat) returns (copies: seq<byte>)
    ensures copies == Repeated(bytes, count)
  {
    copies := [];
    for i := 0 to count
      invariant copies == Repeated(bytes, i)
    {
      copies := copies + bytes;
    }
  }

  method FillRun(count: nat, distance: int, length: int, breakType: BreakType, stackLength: int, lastOffset: int)
    returns (run: seq<BreakData>)
    requires 1 <= count
    ensures run == Run(count, distance, length, breakType, stackLength, lastOffset)
  {
    run := [];
    for i := 0 to count - 1
      invariant |run| == i
      invariant forall j | 0 <= j < i :: run[j] == BreakData(distance, length, breakType, stackLength)
    {
      run := run + [BreakData(distance, length, breakType, stackLength)];
    }
    run := run + [BreakData(lastOffset, length, breakType, stackLength)];
  }

  function Abs(x: int): int { if x < 0 then -x else x }

  /** What deleting the breaks `s..e` does to the list. */
  lemma {:induction false} DeleteRefines(b: seq<BreakData>, st: seq<byte>, s: nat, e: nat, offset: int)
    requires WellFormed(b, st) && 1 <= s < e <= |b|
    requires offset == b[s - 1].nextStartOffset + StartPos(b, e) - StartPos(b, s)
    ensures var c, cs := Spliced(b, s, e, offset, []), SplicedStack(b, st, s, e, []);
      && WellFormed(c, cs)
      && View(c, cs) == View(b, st)[..s] + View(b, st)[e..]
      && StartPos(c, |c|) == StartPos(b, |b|)
      && (Ordered(b) ==> Ordered(c))
  {
    assert StartPos(b, s) == StartPos(b, s - 1) + b[s - 1].nextStartOffset;
    SpliceRefines(b, st, s, e, offset, [], []);
    BehindSplice(b, s, e, offset, [], |b|);
    if Ordered(b) {
      PositionsIncrease(b, s, e);
      SpliceStaysOrdered(b, s, e, offset, []);
    }
  }

  /** The stack position alone tells on which side of a deleted range a cursor stands. */
  lemma {:induction false} CursorAcrossDelete(b: seq<BreakData>, st: seq<byte>, cursor: IteratorData, s: nat, e: nat,
                                              offset: int)
    requires WellFormed(b, st) && 1 <= s < e <= |b|
    requires offset == b[s - 1].nextStartOffset + StartPos(b, e) - StartPos(b, s)
    requires Coherent(b, cursor)
    ensures cursor.stackStartPos >= StackPos(b, e) <==> cursor.breakIndex >= e
    ensures cursor.stackStartPos > StackPos(b, s) <==> cursor.breakIndex > s
    ensures var c, i := Spliced(b, s, e, offset, []), cursor.breakIndex;
      var n := NewIndex(i, s, e, 0);
      && n <= |c|
      && StartPos(c, n) == (if s <= i < e then StartPos(b, e) else cursor.textStartPos)
      && StackPos(c, n) == if i >= e then cursor.stackStartPos - (StackPos(b, e) - StackPos(b, s))
                           else if i >= s then StackPos(b, s) else cursor.stackStartPos
  {
    var i := cursor.breakIndex;
    assert StartPos(b, s) == StartPos(b, s - 1) + b[s - 1].nextStartOffset;
    BeforeSplice(b, s, e, offset, [], if i < s then i else s);
    if i >= e {
      BehindSplice(b, s, e, offset, [], i);
      StackPosIncreases(b, st, e, i);
    } else {
      StackPosIncreases(b, st, i, e);
    }
    if i >= s {
      StackPosIncreases(b, st, s, i);
    } else {
      StackPosIncreases(b, st, i, s);
    }
  }

  /** What inserting a filling before break `k` does to the list. */
  lemma {:induction false} InsertRefines(b: seq<BreakData>, st: seq<byte>, k: nat, startPos: int, count: nat,
                                         distance: int,
                                         length: int, breakType: BreakType, lastOffset: int, bytes: seq<byte>)
    requires WellFormed(b, st) && 1 <= k <= |b| && 1 <= count && 1 <= |bytes|
    requires StartPos(b, k - 1) + b[k - 1].breakLength <= startPos
    requires lastOffset == if k == |b| then length else StartPos(b, k) - (startPos + (count - 1) * distance)
    requires k < |b| ==> length <= lastOffset
    requires count == 1 || length == 0
    ensures var mid, stacks := Run(count, distance, length, breakType, |bytes|, lastOffset), Repeated(bytes, count);
      && Stacked(mid, stacks)
      && var c, s := Spliced(b, k, k, startPos - StartPos(b, k - 1), mid), SplicedStack(b, st, k, k, stacks);
      && WellFormed(c, s)
      && View(c, s)
         == View(b, st)[..k] + Filling(count, startPos, distance, length, breakType, bytes) + View(b, st)[k..]
      && StartPos(c, |c|) == (if k == |b| then startPos + (count - 1) * distance + length else StartPos(b, |b|))
      && (Ordered(b) && 0 <= length && (count == 1 || 0 <= distance) ==> Ordered(c))
  {
    var mid, stacks := Run(count, distance, length, breakType, |bytes|, lastOffset), Repeated(bytes, count);
    var offset := startPos - StartPos(b, k - 1);
    RunIsFilling(count, startPos, distance, length, breakType, lastOffset, bytes);
    SpliceRefines(b, st, k, k, offset, mid, stacks);
    BehindSplice(b, k, k, offset, mid, |b|);
    assert |Spliced(b, k, k, offset, mid)| == |b| - k + k + |mid|;
    if Ordered(b) && 0 <= length && (count == 1 || 0 <= distance) {
      SpliceStaysOrdered(b, k, k, offset, mid);
    }
  }

  lemma {:induction false} CursorAcrossInsert(b: seq<BreakData>, st: seq<byte>, cursor: IteratorData, k: nat,
                                              mid: seq<BreakData>,
                                              midStack: seq<byte>, startPos: int, newEnd: int)
    requires WellFormed(b, st) && Stacked(mid, midStack) && 1 <= k <= |b|
    requires Coherent(b, cursor)
    requires newEnd == startPos + StartPos(mid, |mid|)
    ensures cursor.stackStartPos >= StackPos(b, k) <==> cursor.breakIndex >= k
    ensures var c, i := Spliced(b, k, k, startPos - StartPos(b, k - 1), mid), cursor.breakIndex;
      var n := NewIndex(i, k, k, |mid|);
      && |c| == |b| + |mid|
      && StartPos(c, k) == startPos && StackPos(c, k) == StackPos(b, k)
      && StartPos(c, n) == (if i >= k then newEnd + cursor.textStartPos - StartPos(b, k) else cursor.textStartPos)
      && StackPos(c, n) == if i >= k then cursor.stackStartPos + |midStack| else cursor.stackStartPos
  {
    var i := cursor.breakIndex;
    var offset := startPos - StartPos(b, k - 1);
    BeforeSplice(b, k, k, offset, mid, if i < k then i else k);
    BeforeSplice(b, k, k, offset, mid, k);
    if i >= k {
      BehindSplice(b, k, k, offset, mid, i);
      StackPosIncreases(b, st, k, i);
    } else {
      StackPosIncreases(b, st, i, k);
    }
  }

  /** What closing the gap behind break `last` does to the list. */
  lemma {:induction false} ClosingRefines(b: seq<BreakData>, st: seq<byte>, last: nat, begin: int, oldEnd: int,
                                          amount: int, shift: int)
    requires WellFormed(b, st) && last < |b|
    requires begin <= oldEnd && begin - oldEnd <= amount
    requires last + 1 < |b| ==> oldEnd <= StartPos(b, last + 1)
    requires shift == if oldEnd <= StartPos(b, last + 1) then amount else -b[last].nextStartOffset
    ensures var c := b[last := b[last].(nextStartOffset := b[last].nextStartOffset + shift)];
      && WellFormed(c, st)
      && View(c, st) == Without(View(b, st), last + 1, last + 1, amount)
      && StartPos(c, |c|) == (if oldEnd <= StartPos(b, last + 1) then StartPos(b, |b|) + amount else StartPos(b, last))
      && (Ordered(b) ==> (Ordered(c) <==> OffsetFits(c, last)))
      && (Ordered(b) && StartPos(b, last) + b[last].breakLength <= begin ==> Ordered(c))
  {
    assert StartPos(b, last + 1) == StartPos(b, last) + b[last].nextStartOffset;
    ShiftRefines(b, st, last, shift);
    OneOffsetChanged(b, last, shift);
  }

  lemma {:induction false} OneOffsetChanged(b: seq<BreakData>, p: nat, shift: int)
    requires p < |b|
    ensures var c := b[p := b[p].(nextStartOffset := b[p].nextStartOffset + shift)];
      Ordered(b) ==> (Ordered(c) <==> OffsetFits(c, p))
  {
    var c := b[p := b[p].(nextStartOffset := b[p].nextStartOffset + shift)];
    assert forall i | 0 <= i < |b| && i != p :: c[i] == b[i];
    assert c[p].breakLength == b[p].breakLength;
    if Ordered(b) && OffsetFits(c, p) {
      assert forall i | 0 <= i < |c| :: 0 <= c[i].nextStartOffset && 0 <= c[i].breakLength;
    }
  }

  /**
   * Whatever replaces the breaks `k..e`, a cursor on any other break is afterwards on that same
   * break, and a cursor on a removed one is on the first break behind the removed range.
   */
  lemma {:induction false} CursorsKeepTheirBreaks(view: seq<Break>, k: nat, e: nat, mid: seq<Break>, i: nat)
    requires k <= e <= |view| && i <= |view|
    ensures var after := view[..k] + mid + view[e..];
      && (i < |view| && (i < k || e <= i) ==> after[NewIndex(i, k, e, |mid|)] == view[i])
      && (i == |view| ==> NewIndex(i, k, e, |mid|) == |after|)
      && (k <= i < e && mid == [] ==> after[NewIndex(i, k, e, 0)..] == view[e..])
  {
  }

  /**
   * With a shared handle the promise that a new cursor gets a slot of its own is broken: dropping one
   * copy lowers the free index although the other copy lives, and the next cursor takes that slot.
   */
  method SharedHandleLosesItsSlot() returns (hb: HilitingBase, live: nat, wasInUse: bool, created: nat)
    ensures hb.Valid() && wasInUse && created == live < |hb.iterators| && hb.iterators[live].inUseCounter == 2
  {
    hb := new HilitingBase();
    live := hb.CreateNewIterator();
    hb.ShareIterator(live);
    hb.ReleaseIterator(live);
    wasInUse := hb.InUse(live);
    created := hb.CreateNewIterator();
  }

  /**
   * The restart cursor of an update can be that live copy: then the temporary cursor of the update takes its slot, and
   * a break at 5 stays in the list although the text 2..8 is gone.
   */
  method SharedHandleMissesUpdate() returns (hb: HilitingBase, ghost before: seq<Break>, ghost last: nat)
    ensures hb.Valid()
    ensures |before| == 2 && before[1] == Break(5, 1, Begin, [0])
    ensures NextBefore(before, last, 2) && !UpdateIsDone(before, hb.Contents(), 2, 8, -6, last)
    ensures hb.Contents() == before
  {
    hide Ordered, OffsetFits, Survivors, UpdateIsDone, StackPos, View;
    hb := new HilitingBase();
    var h := hb.CreateNewIterator();
    hb.ShareIterator(h);
    hb.ReleaseIterator(h);
    hb.IncIterator(h);
    hb.InsertBreaks(h, 5, 1, Begin, [0], 1, 0);
    before := hb.Contents();
    ghost var next;
    last, next := hb.TreatTextDataUpdate(h, 2, 8, -6);
  }

  // ----- any run of operations

  datatype Operation =
    | Create
    | Share(i: nat)
    | Assign(dst: nat, src: nat)
    | Release(i: nat)
    | Copy(dst: nat, src: nat)
    | Inc(i: nat)
    | Dec(i: nat)
    | MoveBefore(i: nat, textPos: int)
    | Insert(h: nat, startPos: int, length: int, breakType: BreakType, parsingStack: seq<byte>, count: nat,
             distance: int)
    | Delete(startIter: nat, endIter: nat)
    | TextUpdate(h: nat, begin: int, oldEnd: int, amount: int)
    | Reset

  /** What the code demands of its callers: live handles, and what it asserts on entry. */
  predicate Allowed(hb: HilitingBase, o: Operation)
    requires hb.Valid()
    reads hb
  {
    match o
    case Create => true
    case Share(i) => hb.InUse(i)
    case Assign(dst, src) => hb.InUse(dst) && hb.InUse(src)
    case Release(i) => hb.InUse(i)
    case Copy(dst, src) => hb.InUse(dst) && hb.InUse(src)
    case Inc(i) => hb.InUse(i) && !hb.IsEndOfBreaks(i)
    case Dec(i) => hb.InUse(i) && 0 < hb.iterators[i].breakIndex
    case MoveBefore(i, textPos) => hb.InUse(i) && 0 <= textPos
    case Insert(h, startPos, length, breakType, parsingStack, count, distance) =>
      && hb.InUse(h) && 1 <= count
      && |parsingStack| > 0 && parsingStack[0] == 0
      && hb.iterators[h].breakIndex != 0
      && hb.PrevBreakEndPos(h) <= startPos
      && (breakType == Inter || count == 1) && (count == 1 || length == 0)
      && (hb.IsEndOfBreaks(h) || startPos + (count - 1) * distance + length <= hb.BreakStartPos(h))
    case Delete(startIter, endIter) =>
      hb.InUse(startIter) && hb.InUse(endIter) && 0 < hb.iterators[startIter].breakIndex
    case TextUpdate(h, begin, oldEnd, amount) => hb.InUse(h) && 0 <= begin <= oldEnd && begin - oldEnd <= amount
    case Reset => true
  }

  /** As long as no handle was shared, no slot in use is at or behind the free index, and none has two users. */
  predicate Unshared(hb: HilitingBase)
    reads hb
  {
    hb.FreeTail() && forall i | 0 <= i < |hb.iterators| :: hb.iterators[i].inUseCounter <= 1
  }

  /** Handles are not shared, and lengths and distances are not negative. */
  predicate IsOrdinary(o: Operation) {
    && !o.Share? && !o.Assign?
    && (o.Insert? ==> 0 <= o.length && 0 <= o.distance)
  }

  method Perform(hb: HilitingBase, o: Operation)
    requires hb.Valid() && Allowed(hb, o)
    modifies hb
    ensures hb.Valid()
    ensures old(Unshared(hb) && Ordered(hb.breaks)) && IsOrdinary(o) ==> Unshared(hb) && Ordered(hb.breaks)
  {
    hide Ordered, OffsetFits, Coherent, NextBefore, Survivors, UpdateIsDone;
    match o
    case Create =>
      var _ := hb.CreateNewIterator();
    case Share(i) => hb.ShareIterator(i);
    case Assign(dst, src) => hb.AssignIterator(dst, src);
    case Release(i) => hb.ReleaseIterator(i);
    case Copy(dst, src) => hb.CopyToIteratorFromIterator(dst, src);
    case Inc(i) => hb.IncIterator(i);
    case Dec(i) => hb.DecIterator(i);
    case MoveBefore(i, textPos) => hb.MoveIteratorToNextBefore(i, textPos);
    case Insert(h, startPos, length, breakType, parsingStack, count, distance) =>
      hb.InsertBreaks(h, startPos, length, breakType, parsingStack, count, distance);
    case Delete(startIter, endIter) => hb.DeleteBreaks(startIter, endIter);
    case TextUpdate(h, begin, oldEnd, amount) =>
      var _, _ := hb.TreatTextDataUpdate(h, begin, oldEnd, amount);
    case Reset => hb.Clear();
  }

  /**
   * After any run of operations, with handles copied and assigned in any way, every cursor in use caches the sums over
   * the breaks before its index, and the stack buffer is exactly as long as all stacks together. Without sharing, and
   * with lengths and distances that are not negative, the breaks do not overlap.
   */
  method PerformAll(operations: seq<Operation>) returns (hb: HilitingBase)
    ensures hb.Valid()
    ensures StackPos(hb.breaks, |hb.breaks|) == |hb.stack|
    ensures forall i | 0 <= i < |hb.iterators| && hb.InUse(i) ::
              && hb.iterators[i].breakIndex <= |hb.breaks|
              && hb.iterators[i].textStartPos == StartPos(hb.breaks, hb.iterators[i].breakIndex)
              && hb.iterators[i].stackStartPos == StackPos(hb.breaks, hb.iterators[i].breakIndex)
    ensures (forall n | 0 <= n < |operations| :: IsOrdinary(operations[n])) ==> Unshared(hb) && Ordered(hb.breaks)
  {
    hb := new HilitingBase();
    var n := 0;
    while n < |operations|
      invariant 0 <= n <= |operations|
      invariant fresh(hb) && hb.Valid()
      invariant (forall m | 0 <= m < n :: IsOrdinary(operations[m])) ==> Unshared(hb) && Ordered(hb.breaks)
    {
      if Allowed(hb, operations[n]) {
        Perform(hb, operations[n]);
      }
      n := n + 1;
    }
  }
}
