/** The range that undo and redo select when they are done: where the document may have changed. */
module SelectedRange {
  import opened Bytes
  import opened EditingHistory
  import opened Helpers

  /** The range found so far; `first` is the largest integer in the program as long as nothing was done. */
  datatype Range = Range(first: Option<int>, end: int) {
    function FirstUpTo(pos: int): Option<int> {
      if first.Some? && first.value <= pos then first else Some(pos)
    }

    function WithInserted(pos: int, length: int): Range {
      Range(FirstUpTo(pos), if end < pos + length then pos + length else end + length)
    }

    function WithRemoved(pos: int, length: int): Range {
      Range(FirstUpTo(pos), if end < pos + length then pos else end - length)
    }

    function WithSelected(pos: int, length: int): Range {
      Range(FirstUpTo(pos), if end < pos + length then pos + length else end)
    }

    /** A text put in at `pos` begins in front of the end of the range and reaches behind it. */
    predicate Straddles(pos: int, length: int) { pos < end < pos + length }

    predicate IsEmpty() { first.None? || end < first.value }

    /** Where the mark is set. */
    function Mark(): Option<int> { if IsEmpty() then None else first }

    function Length(): (length: nat) { if IsEmpty() then 0 else end - first.value }
  }

  const NOTHING := Range(None, 0)

  // ----- what it means that a range covers a change

  function Take(doc: seq<byte>, n: int): seq<byte> {
    if n <= 0 then [] else if |doc| <= n then doc else doc[..n]
  }

  function Last(doc: seq<byte>, n: int): seq<byte> {
    if n <= 0 then [] else if |doc| <= n then doc else doc[|doc| - n..]
  }

  /** In front of the range and behind it, `doc` is what `was` was. */
  predicate Covers(was: seq<byte>, doc: seq<byte>, r: Range) {
    match r.first
    case None => doc == was
    case Some(first) => Take(doc, first) == Take(was, first) && Last(doc, |doc| - r.end) == Last(was, |doc| - r.end)
  }

  lemma {:induction false} FewerAtBothEnds(was: seq<byte>, doc: seq<byte>, m: int, n: int)
    requires m <= n
    ensures Take(doc, n) == Take(was, n) ==> Take(doc, m) == Take(was, m)
    ensures Last(doc, n) == Last(was, n) ==> Last(doc, m) == Last(was, m)
  {
    TakeOfTake(doc, m, n);
    TakeOfTake(was, m, n);
  }

  lemma {:induction false} TakeOfTake(doc: seq<byte>, m: int, n: int)
    requires m <= n
    ensures Take(Take(doc, n), m) == Take(doc, m) && Last(Last(doc, n), m) == Last(doc, m)
  {
  }

  /** A smaller or equal part in front and behind is covered, too. */
  lemma {:induction false} WiderCovers(was: seq<byte>, doc: seq<byte>, r: Range, wider: Range)
    requires Covers(was, doc, r) && wider.first.Some? && r.end <= wider.end
    requires r.first.Some? ==> wider.first.value <= r.first.value
    ensures Covers(was, doc, wider)
  {
    hide Take, Last;
    if r.first.Some? {
      FewerAtBothEnds(was, doc, wider.first.value, r.first.value);
      FewerAtBothEnds(was, doc, |doc| - wider.end, |doc| - r.end);
    }
  }

  lemma {:induction false} SelectedIsCovered(was: seq<byte>, doc: seq<byte>, r: Range, pos: int, length: int)
    requires Covers(was, doc, r)
    ensures Covers(was, doc, r.WithSelected(pos, length))
  {
    WiderCovers(was, doc, r, r.WithSelected(pos, length));
  }

  /** What lies between two parts does not matter to what is taken of them. */
  lemma {:induction false} EndsOf(head: seq<byte>, t: seq<byte>, rest: seq<byte>, m: int, n: int)
    requires m <= |head| && n <= |rest|
    ensures Take(head + t + rest, m) == Take(head, m)
    ensures Last(head + t + rest, n) == Last(rest, n)
  {
    var whole := head + t + rest;
    if 0 < m {
      assert whole[..m] == head[..m];
    }
    if 0 < n {
      assert whole[|whole| - n..] == rest[|rest| - n..];
    }
  }

  lemma {:induction false} RemovedIsCovered(was: seq<byte>, doc: seq<byte>, r: Range, pos: nat, length: nat)
    requires Covers(was, doc, r) && pos + length <= |doc|
    ensures Covers(was, doc[..pos] + doc[pos + length..], r.WithRemoved(pos, length))
  {
    hide Take, Last;
    var head, text, rest, wider := doc[..pos], doc[pos..pos + length], doc[pos + length..], r.WithRemoved(pos, length);
    WiderCovers(was, doc, r, Range(wider.first, wider.end + length));
    assert doc == head + text + rest && head + [] + rest == head + rest;
    EndsOf(head, text, rest, wider.first.value, |head + rest| - wider.end);
    EndsOf(head, [], rest, wider.first.value, |head + rest| - wider.end);
  }

  lemma {:induction false} InsertedIsCovered(was: seq<byte>, doc: seq<byte>, r: Range, pos: nat, text: seq<byte>)
    requires Covers(was, doc, r) && pos <= |doc| && !r.Straddles(pos, |text|)
    ensures Covers(was, doc[..pos] + text + doc[pos..], r.WithInserted(pos, |text|))
  {
    hide Take, Last;
    var head, rest, wider := doc[..pos], doc[pos..], r.WithInserted(pos, |text|);
    WiderCovers(was, doc, r, Range(wider.first, wider.end - |text|));
    assert doc == head + [] + rest;
    EndsOf(head, [], rest, wider.first.value, |doc| + |text| - wider.end);
    EndsOf(head, text, rest, wider.first.value, |doc| + |text| - wider.end);
  }

  /** Whatever documents the range covers, it covers them with a text put in at `pos`, too. */
  ghost predicate AlwaysCoversInserted(r: Range, pos: nat, length: nat) {
    forall was: seq<byte>, doc: seq<byte>, text: seq<byte> ::
      IsInsertion(was, doc, text, r, pos, length) ==>
        Covers(was, doc[..pos] + text + doc[pos..], r.WithInserted(pos, length))
  }

  predicate IsInsertion(was: seq<byte>, doc: seq<byte>, text: seq<byte>, r: Range, pos: nat, length: nat) {
    Covers(was, doc, r) && pos <= |doc| && |text| == length
  }

  function Copies(n: nat): (doc: seq<byte>)
    ensures |doc| == n && forall i | 0 <= i < n :: doc[i] == 0
  {
    if n == 0 then [] else Copies(n - 1) + [0]
  }

  /** That is so exactly if the text does not begin in front of the end of the range and reach behind it. */
  lemma {:induction false} InsertedIsCoveredIff(r: Range, pos: nat, length: nat)
    requires r.first.Some? && r.first.value <= r.end
    ensures AlwaysCoversInserted(r, pos, length) <==> !r.Straddles(pos, length)
  {
    if r.Straddles(pos, length) {
      StraddlingIsNotCovered(r, pos, length);
    } else {
      forall was: seq<byte>, doc: seq<byte>, text: seq<byte> | IsInsertion(was, doc, text, r, pos, length)
        ensures Covers(was, doc[..pos] + text + doc[pos..], r.WithInserted(pos, length))
      {
        InsertedIsCovered(was, doc, r, pos, text);
      }
    }
  }

  /** Here the last byte was replaced by those up to the end of the range, and is not behind it any more. */
  lemma {:induction false} StraddlingIsNotCovered(r: Range, pos: nat, length: nat)
    requires r.first.Some? && r.first.value <= r.end && r.Straddles(pos, length)
    ensures !AlwaysCoversInserted(r, pos, length)
  {
    var doc, text := Copies(r.end), Copies(length);
    var was := Take(doc, r.first.value) + [1];
    assert Covers(was, doc, r) && IsInsertion(was, doc, text, r, pos, length);
    var after, n := doc[..pos] + text + doc[pos..], r.end - pos;
    var behind, before := Last(after, n), Last(was, n);
    assert behind[|behind| - 1] == 0 && before[|before| - 1] == 1;
    assert !Covers(was, after, r.WithInserted(pos, length));
  }

  // ----- the range of a whole section

  /** What one action does to the range when it is undone or redone. */
  function Over(a: Action, undone: bool, r: Range): Range {
    match a.kind
    case Insert => if undone then r.WithRemoved(a.textDataPos, a.length) else r.WithInserted(a.textDataPos, a.length)
    case Delete => if undone then r.WithInserted(a.textDataPos, a.length) else r.WithRemoved(a.textDataPos, a.length)
    case Select => r.WithSelected(a.textDataPos, a.length)
    case NoAction => r
  }

  /** The action does not put in a text across the end of the range. */
  predicate IsCovered(a: Action, undone: bool, r: Range) {
    a.kind == (if undone then Delete else Insert) ==> !r.Straddles(a.textDataPos, a.length)
  }

  function RangeBack(actions: seq<Action>, n: nat, m: nat): Range
    requires m <= n <= |actions|
    decreases n - m
  {
    if m == n then NOTHING else Over(actions[m], true, RangeBack(actions, n, m + 1))
  }

  predicate AllCoveredBack(actions: seq<Action>, n: nat, m: nat)
    requires m <= n <= |actions|
    decreases n - m
  {
    m < n ==> AllCoveredBack(actions, n, m + 1) && IsCovered(actions[m], true, RangeBack(actions, n, m + 1))
  }

  function RangeForth(actions: seq<Action>, n: nat, m: nat): Range
    requires n <= m <= |actions|
  {
    if m == n then NOTHING else Over(actions[m - 1], false, RangeForth(actions, n, m - 1))
  }

  predicate AllCoveredForth(actions: seq<Action>, n: nat, m: nat)
    requires n <= m <= |actions|
  {
    m > n ==> AllCoveredForth(actions, n, m - 1) && IsCovered(actions[m - 1], false, RangeForth(actions, n, m - 1))
  }

  lemma {:induction false} OneUndone(was: seq<byte>, before: seq<byte>, a: Action, s: Step, r: Range)
    requires Records(a, s) && Fits(before, s) && Covers(was, Apply(before, s), r) && IsCovered(a, true, r)
    ensures Covers(was, before, Over(a, true, r))
  {
    assert s.kind != NoAction && (0 <= s.pos || s.kind == Select);
    hide Covers, Fits, Apply;
    var doc := Apply(before, s);
    match s.kind {
      case Insert =>
        InsertionRemoved(before, s);
        RemovedIsCovered(was, doc, r, s.pos, |s.text|);
      case Delete =>
        DeletionUndone(before, s);
        InsertedIsCovered(was, doc, r, s.pos, s.text);
      case Select =>
        SelectsNothing(before, s);
        SelectedIsCovered(was, doc, r, a.textDataPos, a.length);
      case NoAction =>
    }
  }

  lemma {:induction false} OneRedone(was: seq<byte>, before: seq<byte>, a: Action, s: Step, r: Range)
    requires Records(a, s) && Fits(before, s) && Covers(was, before, r) && IsCovered(a, false, r)
    ensures Covers(was, Apply(before, s), Over(a, false, r))
  {
    hide Covers;
    match s.kind {
      case Insert => InsertedIsCovered(was, before, r, s.pos, s.text);
      case Delete => RemovedIsCovered(was, before, r, s.pos, |s.text|);
      case Select => SelectedIsCovered(was, before, r, a.textDataPos, a.length);
      case NoAction =>
    }
  }

  /**
   * If each text that is put back is covered when its turn comes, the whole document is as it was in front of the
   * selected range and behind it.
   */
  lemma {:induction false} UndoneIsCovered(start: seq<byte>, actions: seq<Action>, steps: seq<Step>, n: nat, m: nat)
    requires |steps| == |actions| && forall k | 0 <= k < |actions| :: Records(actions[k], steps[k])
    requires Consistent(start, steps) && m <= n <= |actions| && AllCoveredBack(actions, n, m)
    ensures Covers(Replay(start, steps[..n]), Replay(start, steps[..m]), RangeBack(actions, n, m))
    decreases n - m
  {
    hide Replay, Records, FitsAt, Over;
    if m < n {
      UndoneIsCovered(start, actions, steps, n, m + 1);
      OneStep(start, steps, m);
      StepFits(start, steps, m);
      OneUndone(Replay(start, steps[..n]), Replay(start, steps[..m]), actions[m], steps[m],
                RangeBack(actions, n, m + 1));
    }
  }

  lemma {:induction false} RedoneIsCovered(start: seq<byte>, actions: seq<Action>, steps: seq<Step>, n: nat, m: nat)
    requires |steps| == |actions| && forall k | 0 <= k < |actions| :: Records(actions[k], steps[k])
    requires Consistent(start, steps) && n <= m <= |actions| && AllCoveredForth(actions, n, m)
    ensures Covers(Replay(start, steps[..n]), Replay(start, steps[..m]), RangeForth(actions, n, m))
  {
    hide Replay, Records, FitsAt, Over;
    if m > n {
      RedoneIsCovered(start, actions, steps, n, m - 1);
      OneStep(start, steps, m - 1);
      StepFits(start, steps, m - 1);
      OneRedone(Replay(start, steps[..n]), Replay(start, steps[..m - 1]), actions[m - 1], steps[m - 1],
                RangeForth(actions, n, m - 1));
    }
  }

  lemma {:induction false} StepFits(start: seq<byte>, steps: seq<Step>, k: nat)
    requires Consistent(start, steps) && k < |steps|
    ensures Fits(Replay(start, steps[..k]), steps[k])
  {
    assert FitsAt(start, steps, k);
  }

  lemma {:induction false} SelectsNothing(doc: seq<byte>, s: Step)
    requires s.kind == Select
    ensures Apply(doc, s) == doc
  {
  }

  /** The range starts where the first of the actions did something, and not earlier. */
  lemma {:induction false} StartsAtFirst(actions: seq<Action>, n: nat, m: nat)
    requires m < n <= |actions| && forall k | m <= k < n :: actions[k].kind != NoAction
    ensures RangeBack(actions, n, m).first == RangeForth(actions, m, n).first
    ensures RangeBack(actions, n, m).first.Some?
    ensures forall k | m <= k < n :: RangeBack(actions, n, m).first.value <= actions[k].textDataPos
    ensures exists k | m <= k < n :: actions[k].textDataPos == RangeBack(actions, n, m).first.value
  {
    var b := BackStart(actions, n, m);
    var f := ForthStart(actions, m, n);
  }

  lemma {:induction false} BackStart(actions: seq<Action>, n: nat, m: nat) returns (at: nat)
    requires m < n <= |actions| && forall k | m <= k < n :: actions[k].kind != NoAction
    ensures m <= at < n && RangeBack(actions, n, m).first == Some(actions[at].textDataPos)
    ensures forall k | m <= k < n :: actions[at].textDataPos <= actions[k].textDataPos
    decreases n - m
  {
    at := m;
    if m + 1 < n {
      var later := BackStart(actions, n, m + 1);
      if actions[later].textDataPos <= actions[m].textDataPos {
        at := later;
      }
    } else {
      assert RangeBack(actions, n, m + 1) == NOTHING;
    }
  }

  lemma {:induction false} ForthStart(actions: seq<Action>, m: nat, n: nat) returns (at: nat)
    requires m < n <= |actions| && forall k | m <= k < n :: actions[k].kind != NoAction
    ensures m <= at < n && RangeForth(actions, m, n).first == Some(actions[at].textDataPos)
    ensures forall k | m <= k < n :: actions[at].textDataPos <= actions[k].textDataPos
  {
    at := n - 1;
    if m + 1 < n {
      var earlier := ForthStart(actions, m, n - 1);
      if actions[earlier].textDataPos <= actions[n - 1].textDataPos {
        at := earlier;
      }
    } else {
      assert RangeForth(actions, m, n - 1) == NOTHING;
    }
  }

  /** After one action exactly the text that came back is selected, or nothing where one was taken out. */
  lemma {:induction false} OneActionSelects(actions: seq<Action>, k: nat)
    requires k < |actions| && 0 <= actions[k].textDataPos && 0 <= actions[k].length
    ensures var a, back, forth := actions[k], RangeBack(actions, k + 1, k), RangeForth(actions, k, k + 1);
      && (a.kind != NoAction ==> back.Mark() == forth.Mark() == Some(a.textDataPos))
      && back.Length() == (if a.kind == Delete || a.kind == Select then a.length else 0)
      && forth.Length() == (if a.kind == Insert || a.kind == Select then a.length else 0)
  {
    assert RangeBack(actions, k + 1, k + 1) == NOTHING == RangeForth(actions, k, k);
  }

  // ----- the range lies in the document

  predicate IsInside(r: Range, length: nat) {
    if r.first.None? then r.end == 0 else 0 <= r.first.value <= r.end <= length
  }

  /** A recorded selection lies in the document it was made in. */
  predicate SelectsInside(a: Action, length: nat) {
    a.kind == Select ==> 0 <= a.textDataPos && 0 <= a.length && a.textDataPos + a.length <= length
  }

  lemma {:induction false} OneStaysInside(before: seq<byte>, a: Action, s: Step, r: Range)
    requires Records(a, s) && Fits(before, s) && SelectsInside(a, |before|)
    ensures IsInside(r, |Apply(before, s)|) ==> IsInside(Over(a, true, r), |before|)
    ensures IsInside(r, |before|) ==> IsInside(Over(a, false, r), |Apply(before, s)|)
  {
    assert |Apply(before, s)| == |before| + match s.kind
                                            case Insert => |s.text|
                                            case Delete => -|s.text|
                                            case _ => 0;
    match s.kind {
      case Insert =>
      case Delete =>
      case Select =>
      case NoAction =>
    }
  }

  /** Undo and redo select a range of the document they end with. */
  lemma {:induction false} RangeIsInside(start: seq<byte>, actions: seq<Action>, steps: seq<Step>, n: nat, m: nat)
    requires |steps| == |actions| && forall k | 0 <= k < |actions| :: Records(actions[k], steps[k])
    requires Consistent(start, steps) && n <= m <= |actions|
    requires forall k | n <= k < m :: SelectsInside(actions[k], |Replay(start, steps[..k])|)
    ensures IsInside(RangeForth(actions, n, m), |Replay(start, steps[..m])|)
    ensures IsInside(RangeBack(actions, m, n), |Replay(start, steps[..n])|)
  {
    ForthIsInside(start, actions, steps, n, m);
    BackIsInside(start, actions, steps, n, m);
  }

  lemma {:induction false} ForthIsInside(start: seq<byte>, actions: seq<Action>, steps: seq<Step>, n: nat, m: nat)
    requires |steps| == |actions| && forall k | 0 <= k < |actions| :: Records(actions[k], steps[k])
    requires Consistent(start, steps) && n <= m <= |actions|
    requires forall k | n <= k < m :: SelectsInside(actions[k], |Replay(start, steps[..k])|)
    ensures IsInside(RangeForth(actions, n, m), |Replay(start, steps[..m])|)
  {
    hide Replay, Records, FitsAt, Over;
    if n < m {
      ForthIsInside(start, actions, steps, n, m - 1);
      OneStep(start, steps, m - 1);
      StepFits(start, steps, m - 1);
      OneStaysInside(Replay(start, steps[..m - 1]), actions[m - 1], steps[m - 1], RangeForth(actions, n, m - 1));
    }
  }

  lemma {:induction false} BackIsInside(start: seq<byte>, actions: seq<Action>, steps: seq<Step>, n: nat, m: nat)
    requires |steps| == |actions| && forall k | 0 <= k < |actions| :: Records(actions[k], steps[k])
    requires Consistent(start, steps) && n <= m <= |actions|
    requires forall k | n <= k < m :: SelectsInside(actions[k], |Replay(start, steps[..k])|)
    ensures IsInside(RangeBack(actions, m, n), |Replay(start, steps[..n])|)
    decreases m - n
  {
    hide Replay, Records, FitsAt, Over;
    if n < m {
      BackIsInside(start, actions, steps, n + 1, m);
      OneStep(start, steps, n);
      StepFits(start, steps, n);
      OneStaysInside(Replay(start, steps[..n]), actions[n], steps[n], RangeBack(actions, m, n + 1));
    }
  }
}
