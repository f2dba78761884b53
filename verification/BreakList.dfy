/**
 * The two encodings of a list of highlighting breaks: the stored one, where each break holds
 * only the distance to the next start and the length of its pattern stack, and the plain one,
 * where each break has its absolute start and its own stack bytes.
 */
module BreakList {
  import opened Bytes

  datatype BreakType = Null | Begin | Inter | End

  /** A break as stored. */
  datatype BreakData = BreakData(nextStartOffset: int, breakLength: int, breakType: BreakType, stackLength: int)

  /** A break as its users see it. */
  datatype Break = Break(start: int, length: int, breakType: BreakType, stack: seq<byte>) {
    function EndPos(): int { start + length }
  }

  const FIRST_BREAK := BreakData(0, 0, Null, 1)

  /** Absolute start of break `i`; for `i == |b|` the position of the end marker. */
  function StartPos(b: seq<BreakData>, i: nat): int
    requires i <= |b|
  {
    if i == 0 then 0 else StartPos(b, i - 1) + b[i - 1].nextStartOffset
  }

  /** Where the stack bytes of break `i` begin. */
  function StackPos(b: seq<BreakData>, i: nat): int
    requires i <= |b|
  {
    if i == 0 then 0 else StackPos(b, i - 1) + b[i - 1].stackLength
  }

  /** Equal stretches of two lists cover equal distances, wherever they sit. */
  lemma {:induction false} EqualStretches(b: seq<BreakData>, k: nat, c: seq<BreakData>, l: nat, n: nat)
    requires k + n <= |b| && l + n <= |c|
    requires forall j | k <= j < k + n :: b[j] == c[j - k + l]
    ensures StartPos(b, k + n) - StartPos(b, k) == StartPos(c, l + n) - StartPos(c, l)
    ensures StackPos(b, k + n) - StackPos(b, k) == StackPos(c, l + n) - StackPos(c, l)
  {
    if n > 0 {
      EqualStretches(b, k, c, l, n - 1);
      assert b[k + n - 1] == c[l + n - 1];
    }
  }

  /** The stack bytes are exactly the non-empty stacks of the breaks, one after the other. */
  predicate Stacked(b: seq<BreakData>, stack: seq<byte>) {
    && (forall i | 0 <= i < |b| :: 1 <= b[i].stackLength)
    && StackPos(b, |b|) == |stack|
  }

  /** Break 0 is the sentinel at position 0. Only its distance to the next start ever changes. */
  predicate WellFormed(b: seq<BreakData>, stack: seq<byte>) {
    && |b| >= 1
    && b[0] == FIRST_BREAK.(nextStartOffset := b[0].nextStartOffset)
    && Stacked(b, stack)
  }

  /** Breaks do not overlap, and starts never decrease. */
  predicate Ordered(b: seq<BreakData>) {
    && (forall i | 0 <= i < |b| :: 0 <= b[i].nextStartOffset && 0 <= b[i].breakLength)
    && (forall i | 0 <= i < |b| - 1 :: b[i].breakLength <= b[i].nextStartOffset)
  }

  /** A later break's stack begins strictly later, because no stack is empty. */
  lemma {:induction false} StackPosIncreases(b: seq<BreakData>, stack: seq<byte>, i: nat, j: nat)
    requires Stacked(b, stack)
    requires i <= j <= |b|
    ensures 0 <= StackPos(b, i) <= StackPos(b, j) <= |stack|
    ensures i < j ==> StackPos(b, i) < StackPos(b, j)
  {
    StackPosGrows(b, 0, i);
    StackPosGrows(b, i, j);
    StackPosGrows(b, j, |b|);
  }

  lemma {:induction false} StackPosGrows(b: seq<BreakData>, i: nat, j: nat)
    requires forall k | 0 <= k < |b| :: 1 <= b[k].stackLength
    requires i <= j <= |b|
    ensures StackPos(b, i) + j - i <= StackPos(b, j)
  {
    if i < j { StackPosGrows(b, i, j - 1); }
  }

  function BreakAt(b: seq<BreakData>, stack: seq<byte>, i: nat): Break
    requires Stacked(b, stack) && i < |b|
  {
    StackPosIncreases(b, stack, i, i + 1);
    Break(StartPos(b, i), b[i].breakLength, b[i].breakType, stack[StackPos(b, i)..StackPos(b, i + 1)])
  }

  /** The plain list that a stored list stands for. */
  function View(b: seq<BreakData>, stack: seq<byte>): (view: seq<Break>)
    requires Stacked(b, stack)
    ensures |view| == |b|
  {
    ViewUpTo(b, stack, |b|)
  }

  function ViewUpTo(b: seq<BreakData>, stack: seq<byte>, n: nat): (view: seq<Break>)
    requires Stacked(b, stack) && n <= |b|
    ensures |view| == n
  {
    if n == 0 then [] else ViewUpTo(b, stack, n - 1) + [BreakAt(b, stack, n - 1)]
  }

  lemma {:induction false} ViewAt(b: seq<BreakData>, stack: seq<byte>, i: nat)
    requires Stacked(b, stack) && i < |b|
    ensures View(b, stack)[i] == BreakAt(b, stack, i)
  {
    ViewUpToAt(b, stack, |b|, i);
  }

  /** A break and its successor as the plain list shows them. */
  lemma {:induction false} ViewNear(b: seq<BreakData>, stack: seq<byte>, i: nat)
    requires Stacked(b, stack)
    ensures i < |b| ==> View(b, stack)[i].start == StartPos(b, i) && View(b, stack)[i].length == b[i].breakLength
    ensures i + 1 < |b| ==>
              && View(b, stack)[i + 1].start == StartPos(b, i) + b[i].nextStartOffset
              && View(b, stack)[i + 1].length == b[i + 1].breakLength
  {
    if i < |b| { ViewAt(b, stack, i); }
    if i + 1 < |b| { ViewAt(b, stack, i + 1); }
  }

  lemma {:induction false} ViewUpToAt(b: seq<BreakData>, stack: seq<byte>, n: nat, i: nat)
    requires Stacked(b, stack) && i < n <= |b|
    ensures ViewUpTo(b, stack, n)[i] == BreakAt(b, stack, i)
  {
    if i < n - 1 { ViewUpToAt(b, stack, n - 1, i); }
  }

  /** A list that holds only the sentinel. */
  lemma {:induction false} InitialList()
    ensures WellFormed([FIRST_BREAK], [0]) && Ordered([FIRST_BREAK])
    ensures View([FIRST_BREAK], [0]) == [Break(0, 0, Null, [0])]
    ensures StartPos([FIRST_BREAK], 1) == 0
  {
    var b := [FIRST_BREAK];
    assert StackPos(b, 0) == 0 && StackPos(b, 1) == 1;
    assert StartPos(b, 0) == 0 && StartPos(b, 1) == 0;
    ViewAt(b, [0], 0);
    assert BreakAt(b, [0], 0) == Break(0, 0, Null, [0]);
    assert View(b, [0]) == [View(b, [0])[0]];
  }

  function Shifted(view: seq<Break>, amount: int): (shifted: seq<Break>)
    ensures |shifted| == |view|
    ensures forall i | 0 <= i < |view| :: shifted[i] == view[i].(start := view[i].start + amount)
  {
    if view == [] then []
    else [view[0].(start := view[0].start + amount)] + Shifted(view[1..], amount)
  }

  /** Replacing the breaks `k..e` by `mid` and giving break `k - 1` the distance `offset`. */
  function Spliced(b: seq<BreakData>, k: nat, e: nat, offset: int, mid: seq<BreakData>): seq<BreakData>
    requires 1 <= k <= e <= |b|
  {
    b[..k - 1] + [b[k - 1].(nextStartOffset := offset)] + mid + b[e..]
  }

  function SplicedStack(b: seq<BreakData>, stack: seq<byte>, k: nat, e: nat, midStack: seq<byte>): seq<byte>
    requires Stacked(b, stack)
    requires k <= e <= |b|
  {
    StackPosIncreases(b, stack, k, e);
    stack[..StackPos(b, k)] + midStack + stack[StackPos(b, e)..]
  }

  /** Where the breaks before, inside and behind a splice are found afterwards. */
  lemma {:induction false} BeforeSplice(b: seq<BreakData>, k: nat, e: nat, offset: int, mid: seq<BreakData>, i: nat)
    requires 1 <= k <= e <= |b| && i <= k
    ensures var c := Spliced(b, k, e, offset, mid);
      && StackPos(c, i) == StackPos(b, i)
      && StartPos(c, i) == if i < k then StartPos(b, i) else StartPos(b, k - 1) + offset
  {
    var c := Spliced(b, k, e, offset, mid);
    EqualStretches(c, 0, b, 0, if i < k then i else k - 1);
  }

  lemma {:induction false} InsideSplice(b: seq<BreakData>, k: nat, e: nat, offset: int, mid: seq<BreakData>, j: nat)
    requires 1 <= k <= e <= |b| && j <= |mid|
    ensures var c := Spliced(b, k, e, offset, mid);
      && StartPos(c, k + j) == StartPos(b, k - 1) + offset + StartPos(mid, j)
      && StackPos(c, k + j) == StackPos(b, k) + StackPos(mid, j)
  {
    var c := Spliced(b, k, e, offset, mid);
    BeforeSplice(b, k, e, offset, mid, k);
    EqualStretches(c, k, mid, 0, j);
  }

  lemma {:induction false} BehindSplice(b: seq<BreakData>, k: nat, e: nat, offset: int, mid: seq<BreakData>, i: nat)
    requires 1 <= k <= e <= i <= |b|
    ensures var c, n := Spliced(b, k, e, offset, mid), |mid|;
      && StartPos(c, i - e + k + n) == StartPos(b, i) - StartPos(b, e) + StartPos(b, k - 1) + offset + StartPos(mid, n)
      && StackPos(c, i - e + k + n) == StackPos(b, i) - StackPos(b, e) + StackPos(b, k) + StackPos(mid, n)
  {
    var c := Spliced(b, k, e, offset, mid);
    InsideSplice(b, k, e, offset, mid, |mid|);
    EqualStretches(c, k + |mid|, b, e, i - e);
  }

  lemma {:induction false} SpliceStaysWellFormed(b: seq<BreakData>, stack: seq<byte>, k: nat, e: nat, offset: int,
                                                 mid: seq<BreakData>, midStack: seq<byte>)
    requires WellFormed(b, stack) && Stacked(mid, midStack)
    requires 1 <= k <= e <= |b|
    ensures WellFormed(Spliced(b, k, e, offset, mid), SplicedStack(b, stack, k, e, midStack))
  {
    var c := Spliced(b, k, e, offset, mid);
    BehindSplice(b, k, e, offset, mid, |b|);
    StackPosIncreases(b, stack, k, e);
    assert |c| == |b| - e + k + |mid|;
    forall i | 0 <= i < |c| ensures 1 <= c[i].stackLength {
      if i >= k + |mid| { assert c[i] == b[i - k - |mid| + e]; }
    }
  }

  lemma {:induction false} BreakBeforeSplice(b: seq<BreakData>, stack: seq<byte>, k: nat, e: nat, offset: int,
                                             mid: seq<BreakData>, midStack: seq<byte>, i: nat)
    requires WellFormed(b, stack) && Stacked(mid, midStack)
    requires 1 <= k <= e <= |b| && i < k
    ensures var c, s := Spliced(b, k, e, offset, mid), SplicedStack(b, stack, k, e, midStack);
      WellFormed(c, s) && BreakAt(c, s, i) == BreakAt(b, stack, i)
  {
    SpliceStaysWellFormed(b, stack, k, e, offset, mid, midStack);
    BeforeSplice(b, k, e, offset, mid, i);
    BeforeSplice(b, k, e, offset, mid, i + 1);
    StackPosIncreases(b, stack, i, i + 1);
    StackPosIncreases(b, stack, i + 1, k);
    StackPosIncreases(b, stack, k, e);
    SliceOfLeft(stack[..StackPos(b, k)], midStack + stack[StackPos(b, e)..], StackPos(b, i), StackPos(b, i + 1));
    assert SplicedStack(b, stack, k, e, midStack) == stack[..StackPos(b, k)] + (midStack + stack[StackPos(b, e)..]);
  }

  lemma {:induction false} BreakInsideSplice(b: seq<BreakData>, stack: seq<byte>, k: nat, e: nat, offset: int,
                                             mid: seq<BreakData>, midStack: seq<byte>, j: nat)
    requires WellFormed(b, stack) && Stacked(mid, midStack)
    requires 1 <= k <= e <= |b| && j < |mid|
    ensures var c, s := Spliced(b, k, e, offset, mid), SplicedStack(b, stack, k, e, midStack);
      var m := BreakAt(mid, midStack, j);
      WellFormed(c, s) && BreakAt(c, s, k + j) == m.(start := StartPos(b, k - 1) + offset + m.start)
  {
    SpliceStaysWellFormed(b, stack, k, e, offset, mid, midStack);
    InsideSplice(b, k, e, offset, mid, j);
    InsideSplice(b, k, e, offset, mid, j + 1);
    StackPosIncreases(b, stack, k, e);
    StackPosIncreases(mid, midStack, j, j + 1);
    var low, high := StackPos(mid, j), StackPos(mid, j + 1);
    SliceOfLeft(midStack, stack[StackPos(b, e)..], low, high);
    SliceOfRight(stack[..StackPos(b, k)], midStack + stack[StackPos(b, e)..], low, high);
    assert SplicedStack(b, stack, k, e, midStack) == stack[..StackPos(b, k)] + (midStack + stack[StackPos(b, e)..]);
  }

  lemma {:induction false} BreakBehindSplice(b: seq<BreakData>, stack: seq<byte>, k: nat, e: nat, offset: int,
                                             mid: seq<BreakData>, midStack: seq<byte>, i: nat)
    requires WellFormed(b, stack) && Stacked(mid, midStack)
    requires 1 <= k <= e <= i < |b|
    ensures var c, s := Spliced(b, k, e, offset, mid), SplicedStack(b, stack, k, e, midStack);
      var r := BreakAt(b, stack, i);
      && WellFormed(c, s)
      && BreakAt(c, s, i - e + k + |mid|)
         == r.(start := r.start + StartPos(b, k - 1) + offset + StartPos(mid, |mid|) - StartPos(b, e))
  {
    SpliceStaysWellFormed(b, stack, k, e, offset, mid, midStack);
    StackBehindSplice(b, stack, k, e, midStack, i);
    PositionBehindSplice(b, k, e, offset, mid, i);
  }

  lemma {:induction false} PositionBehindSplice(b: seq<BreakData>, k: nat, e: nat, offset: int, mid: seq<BreakData>,
                                                i: nat)
    requires 1 <= k <= e <= i < |b|
    ensures var c, x := Spliced(b, k, e, offset, mid), i - e + k + |mid|;
      var d := StackPos(b, k) + StackPos(mid, |mid|) - StackPos(b, e);
      && x < |c| && c[x] == b[i]
      && StartPos(c, x) == StartPos(b, i) - StartPos(b, e) + StartPos(b, k - 1) + offset + StartPos(mid, |mid|)
      && StackPos(c, x) == StackPos(b, i) + d
      && StackPos(c, x + 1) == StackPos(b, i + 1) + d
  {
    BehindSplice(b, k, e, offset, mid, i);
  }

  lemma {:induction false} StackBehindSplice(b: seq<BreakData>, stack: seq<byte>, k: nat, e: nat, midStack: seq<byte>,
                                             i: nat)
    requires Stacked(b, stack) && k <= e <= i < |b|
    ensures var d := StackPos(b, k) + |midStack| - StackPos(b, e);
      && 0 <= StackPos(b, i) + d <= StackPos(b, i + 1) + d <= |SplicedStack(b, stack, k, e, midStack)|
      && SplicedStack(b, stack, k, e, midStack)[StackPos(b, i) + d..StackPos(b, i + 1) + d]
         == BreakAt(b, stack, i).stack
  {
    StackPosIncreases(b, stack, k, e);
    StackPosIncreases(b, stack, e, i);
    StackPosIncreases(b, stack, i, i + 1);
    SliceBehindCut(stack, StackPos(b, k), StackPos(b, e), midStack, StackPos(b, i), StackPos(b, i + 1));
  }

  lemma {:induction false} SliceBehindCut<T>(s: seq<T>, p: nat, q: nat, mid: seq<T>, low: nat, high: nat)
    requires p <= q <= low <= high <= |s|
    ensures (s[..p] + mid + s[q..])[low - q + p + |mid|..high - q + p + |mid|] == s[low..high]
  {
    SliceOfRight(s[..p] + mid, s[q..], low - q, high - q);
    assert s[q..][low - q..high - q] == s[low..high];
  }

  lemma {:induction false} SliceOfLeft<T>(left: seq<T>, right: seq<T>, low: nat, high: nat)
    requires low <= high <= |left|
    ensures (left + right)[low..high] == left[low..high]
  {
  }

  lemma {:induction false} SliceOfRight<T>(left: seq<T>, right: seq<T>, low: nat, high: nat)
    requires low <= high <= |right|
    ensures (left + right)[|left| + low..|left| + high] == right[low..high]
  {
  }

  /**
   * Splicing the stored list is splicing the plain list: the new breaks appear in place, and
   * if the distances add up then no other break moves, changes or gets other stack bytes.
   */
  lemma {:induction false} SpliceRefines(b: seq<BreakData>, stack: seq<byte>, k: nat, e: nat, offset: int,
                                         mid: seq<BreakData>, midStack: seq<byte>)
    requires WellFormed(b, stack) && Stacked(mid, midStack)
    requires 1 <= k <= e <= |b|
    requires e < |b| ==> StartPos(b, k - 1) + offset + StartPos(mid, |mid|) == StartPos(b, e)
    ensures var c, s := Spliced(b, k, e, offset, mid), SplicedStack(b, stack, k, e, midStack);
      && WellFormed(c, s)
      && View(c, s) == View(b, stack)[..k]
                       + Shifted(View(mid, midStack), StartPos(b, k - 1) + offset)
                       + View(b, stack)[e..]
  {
    var c, s := Spliced(b, k, e, offset, mid), SplicedStack(b, stack, k, e, midStack);
    SpliceStaysWellFormed(b, stack, k, e, offset, mid, midStack);
    var before, inside, behind :=
      View(b, stack)[..k], Shifted(View(mid, midStack), StartPos(b, k - 1) + offset), View(b, stack)[e..];
    var view := View(c, s);
    forall j | 0 <= j < |c| ensures view[j] == SplicedBreak(b, stack, k, e, offset, mid, midStack, j) {
      SplicedView(b, stack, k, e, offset, mid, midStack, j);
    }
    hide View, StartPos, StackPos;
    JoinOfParts(view, before, inside, behind);
  }

  /** What stands at place `j` of the view after the splice. */
  function SplicedBreak(b: seq<BreakData>, stack: seq<byte>, k: nat, e: nat, offset: int,
                        mid: seq<BreakData>, midStack: seq<byte>, j: nat): Break
    requires WellFormed(b, stack) && Stacked(mid, midStack)
    requires 1 <= k <= e <= |b| && j < k + |mid| + |b| - e
  {
    if j < k then View(b, stack)[j]
    else if j < k + |mid| then Shifted(View(mid, midStack), StartPos(b, k - 1) + offset)[j - k]
    else View(b, stack)[j - k - |mid| + e]
  }

  lemma {:induction false} SplicedView(b: seq<BreakData>, stack: seq<byte>, k: nat, e: nat, offset: int,
                                       mid: seq<BreakData>, midStack: seq<byte>, j: nat)
    requires WellFormed(b, stack) && Stacked(mid, midStack)
    requires 1 <= k <= e <= |b| && j < k + |mid| + |b| - e
    requires e < |b| ==> StartPos(b, k - 1) + offset + StartPos(mid, |mid|) == StartPos(b, e)
    ensures var c, s := Spliced(b, k, e, offset, mid), SplicedStack(b, stack, k, e, midStack);
      WellFormed(c, s) && View(c, s)[j] == SplicedBreak(b, stack, k, e, offset, mid, midStack, j)
  {
    var c, s := Spliced(b, k, e, offset, mid), SplicedStack(b, stack, k, e, midStack);
    SpliceStaysWellFormed(b, stack, k, e, offset, mid, midStack);
    hide View, StartPos, StackPos;
    ViewAt(c, s, j);
    if j < k {
      ViewAt(b, stack, j);
      BreakBeforeSplice(b, stack, k, e, offset, mid, midStack, j);
    } else if j < k + |mid| {
      ViewAt(mid, midStack, j - k);
      BreakInsideSplice(b, stack, k, e, offset, mid, midStack, j - k);
    } else {
      ViewAt(b, stack, j - k - |mid| + e);
      BreakBehindSplice(b, stack, k, e, offset, mid, midStack, j - k - |mid| + e);
    }
  }

  lemma {:induction false} JoinOfParts<T>(whole: seq<T>, p: seq<T>, q: seq<T>, r: seq<T>)
    requires |whole| == |p| + |q| + |r|
    requires forall i | 0 <= i < |p| :: whole[i] == p[i]
    requires forall i | |p| <= i < |p| + |q| :: whole[i] == q[i - |p|]
    requires forall i | |p| + |q| <= i < |whole| :: whole[i] == r[i - |p| - |q|]
    ensures whole == p + q + r
  {
  }

  lemma {:induction false} SpliceStaysOrdered(b: seq<BreakData>, k: nat, e: nat, offset: int, mid: seq<BreakData>)
    requires 1 <= k <= e <= |b|
    requires Ordered(b) && Ordered(mid) && 0 <= offset
    requires mid != [] || e < |b| ==> b[k - 1].breakLength <= offset
    requires mid != [] && e < |b| ==> mid[|mid| - 1].breakLength <= mid[|mid| - 1].nextStartOffset
    ensures Ordered(Spliced(b, k, e, offset, mid))
  {
    var c := Spliced(b, k, e, offset, mid);
    assert |c| == k + |mid| + |b| - e;
    assert forall i | 0 <= i < k - 1 :: c[i] == b[i];
    assert forall i | k <= i < k + |mid| :: c[i] == mid[i - k];
    assert forall i | k + |mid| <= i < |c| :: c[i] == b[i - k - |mid| + e];
  }

  /** Neither starts nor ends of breaks ever go backwards along the list. */
  lemma {:induction false} PositionsIncrease(b: seq<BreakData>, i: nat, j: nat)
    requires Ordered(b)
    requires i <= j <= |b|
    ensures 0 <= StartPos(b, i) <= StartPos(b, j)
    ensures i < j < |b| ==> StartPos(b, i) + b[i].breakLength <= StartPos(b, j)
  {
    StartPosGrows(b, 0, i);
    StartPosGrows(b, i, j);
    if i < j {
      StartPosGrows(b, i + 1, j);
    }
  }

  lemma {:induction false} StartPosGrows(b: seq<BreakData>, i: nat, j: nat)
    requires Ordered(b)
    requires i <= j <= |b|
    ensures StartPos(b, i) <= StartPos(b, j)
  {
    if i < j { StartPosGrows(b, i, j - 1); }
  }

  /** Changing one distance moves exactly the later breaks, and changes nothing else about them. */
  lemma {:induction false} ShiftRefines(b: seq<BreakData>, stack: seq<byte>, p: nat, amount: int)
    requires WellFormed(b, stack) && p < |b|
    ensures var c := b[p := b[p].(nextStartOffset := b[p].nextStartOffset + amount)];
      && WellFormed(c, stack)
      && View(c, stack) == View(b, stack)[..p + 1] + Shifted(View(b, stack)[p + 1..], amount)
      && (forall i | 0 <= i <= |b| :: StackPos(c, i) == StackPos(b, i)
                                   && StartPos(c, i) == StartPos(b, i) + if i <= p then 0 else amount)
  {
    var c := b[p := b[p].(nextStartOffset := b[p].nextStartOffset + amount)];
    forall i | 0 <= i <= |b|
      ensures StackPos(c, i) == StackPos(b, i)
           && StartPos(c, i) == StartPos(b, i) + if i <= p then 0 else amount
    {
      ShiftMovesPosition(b, p, amount, i);
    }
    hide StartPos, StackPos, View;
    var w := View(b, stack)[..p + 1] + Shifted(View(b, stack)[p + 1..], amount);
    forall i | 0 <= i < |c| ensures View(c, stack)[i] == w[i] {
      ViewAt(c, stack, i);
      ViewAt(b, stack, i);
    }
    assert View(c, stack) == w;
  }

  lemma {:induction false} ShiftMovesPosition(b: seq<BreakData>, p: nat, amount: int, i: nat)
    requires p < |b| && i <= |b|
    ensures var c := b[p := b[p].(nextStartOffset := b[p].nextStartOffset + amount)];
      && StackPos(c, i) == StackPos(b, i)
      && StartPos(c, i) == StartPos(b, i) + if i <= p then 0 else amount
  {
    var c := b[p := b[p].(nextStartOffset := b[p].nextStartOffset + amount)];
    if i <= p {
      EqualStretches(c, 0, b, 0, i);
    } else {
      EqualStretches(c, 0, b, 0, p);
      EqualStretches(c, p + 1, b, p + 1, i - p - 1);
    }
  }

  /** `count` breaks of equal shape, `distance` apart; the last one's distance is given separately. */
  function Run(count: nat, distance: int, length: int, breakType: BreakType, stackLength: int,
               lastOffset: int): (run: seq<BreakData>)
    requires 1 <= count
    ensures |run| == count
    ensures forall i | 0 <= i < count ::
              run[i] == BreakData(if i < count - 1 then distance else lastOffset, length, breakType, stackLength)
  {
    (if count == 1 then [] else Run(count - 1, distance, length, breakType, stackLength, distance))
    + [BreakData(lastOffset, length, breakType, stackLength)]
  }

  function Repeated(bytes: seq<byte>, count: nat): (r: seq<byte>)
  {
    if count == 0 then [] else Repeated(bytes, count - 1) + bytes
  }

  lemma {:induction false} RepeatedAt(bytes: seq<byte>, count: nat, j: nat)
    requires j < count
    ensures 0 <= j * |bytes| <= (j + 1) * |bytes| <= |Repeated(bytes, count)| == count * |bytes|
    ensures Repeated(bytes, count)[j * |bytes|..(j + 1) * |bytes|] == bytes
  {
    assert count * |bytes| == (count - 1) * |bytes| + |bytes|;
    assert (j + 1) * |bytes| == j * |bytes| + |bytes|;
    if count > 1 {
      RepeatedAt(bytes, count - 1, if j < count - 1 then j else 0);
    }
    if j < count - 1 {
      SliceOfLeft(Repeated(bytes, count - 1), bytes, j * |bytes|, (j + 1) * |bytes|);
    }
  }

  /** The plain list of a filling: evenly spaced breaks that all carry the given stack. */
  function Filling(count: nat, startPos: int, distance: int, length: int, breakType: BreakType,
                   stack: seq<byte>): (filling: seq<Break>)
    ensures |filling| == count
    ensures forall j | 0 <= j < count :: filling[j] == Break(startPos + j * distance, length, breakType, stack)
  {
    if count == 0 then []
    else Filling(count - 1, startPos, distance, length, breakType, stack)
         + [Break(startPos + (count - 1) * distance, length, breakType, stack)]
  }

  lemma {:induction false} RunIsFilling(count: nat, startPos: int, distance: int, length: int, breakType: BreakType,
                                        lastOffset: int, stack: seq<byte>)
    requires 1 <= count && 1 <= |stack|
    ensures var mid := Run(count, distance, length, breakType, |stack|, lastOffset);
      && Stacked(mid, Repeated(stack, count))
      && Shifted(View(mid, Repeated(stack, count)), startPos)
         == Filling(count, startPos, distance, length, breakType, stack)
      && StartPos(mid, count) == (count - 1) * distance + lastOffset
      && StackPos(mid, count) == count * |stack| == |Repeated(stack, count)|
  {
    var mid := Run(count, distance, length, breakType, |stack|, lastOffset);
    var bytes := Repeated(stack, count);
    forall j | 0 <= j < count ensures StartPos(mid, j) == j * distance && StackPos(mid, j) == j * |stack| {
      PositionsInRun(mid, distance, |stack|, j);
    }
    assert StartPos(mid, count) == StartPos(mid, count - 1) + lastOffset;
    assert StackPos(mid, count) == StackPos(mid, count - 1) + |stack|;
    assert count * |stack| == (count - 1) * |stack| + |stack|;
    RepeatedAt(stack, count, 0);
    var w := Shifted(View(mid, bytes), startPos);
    forall j | 0 <= j < count
      ensures w[j] == Filling(count, startPos, distance, length, breakType, stack)[j]
    {
      ViewAt(mid, bytes, j);
      RepeatedAt(stack, count, j);
      assert StackPos(mid, j + 1) == (j + 1) * |stack|;
    }
  }

  lemma {:induction false} PositionsInRun(mid: seq<BreakData>, distance: int, stackLength: int, j: nat)
    requires j < |mid|
    requires forall i | 0 <= i < j :: mid[i].nextStartOffset == distance && mid[i].stackLength == stackLength
    ensures StartPos(mid, j) == j * distance && StackPos(mid, j) == j * stackLength
  {
    if j > 0 {
      PositionsInRun(mid, distance, stackLength, j - 1);
      assert j * distance == (j - 1) * distance + distance;
      assert j * stackLength == (j - 1) * stackLength + stackLength;
    }
  }
}
