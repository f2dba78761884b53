/**
 * The undo history: one list of actions and one byte buffer. The buffer holds the texts of past
 * deletions up to `historyDataIndex`, and the texts of undone insertions from there on.
 */
module EditingHistory {
  import opened Bytes
  import opened Helpers

  datatype ActionType = NoAction | Insert | Delete | Select

  /** What the history stores about an edit. The text itself is not part of it. A selection can have any length. */
  datatype Action = Action(kind: ActionType, textDataPos: int, length: int, sectionMark: bool, mergeStop: bool)

  // ----- edits and their effect on a document

  /** An edit together with the text it inserted or deleted. */
  datatype Step = Step(kind: ActionType, pos: int, text: seq<byte>)

  predicate Fits(doc: seq<byte>, s: Step) {
    match s.kind
    case Insert => 0 <= s.pos <= |doc|
    case Delete => 0 <= s.pos && s.pos + |s.text| <= |doc| && doc[s.pos..s.pos + |s.text|] == s.text
    case Select => s.text == []
    case NoAction => false
  }

  function Apply(doc: seq<byte>, s: Step): seq<byte> {
    if !Fits(doc, s) then doc
    else if s.kind == Insert then doc[..s.pos] + s.text + doc[s.pos..]
    else if s.kind == Delete then doc[..s.pos] + doc[s.pos + |s.text|..]
    else doc
  }

  /** The document after all `steps`. */
  function Replay(doc: seq<byte>, steps: seq<Step>): seq<byte> {
    if steps == [] then doc else Apply(Replay(doc, steps[..|steps| - 1]), steps[|steps| - 1])
  }

  /** Every step fits the document its predecessors lead to. */
  predicate Consistent(doc: seq<byte>, steps: seq<Step>) {
    forall k | 0 <= k < |steps| :: FitsAt(doc, steps, k)
  }

  predicate FitsAt(doc: seq<byte>, steps: seq<Step>, k: nat)
    requires k < |steps|
  {
    Fits(Replay(doc, steps[..k]), steps[k])
  }

  function DeletedText(steps: seq<Step>): seq<byte> {
    if steps == [] then []
    else DeletedText(steps[..|steps| - 1])
         + if steps[|steps| - 1].kind == Delete then steps[|steps| - 1].text else []
  }

  function InsertedText(steps: seq<Step>): seq<byte> {
    if steps == [] then []
    else (if steps[0].kind == Insert then steps[0].text else []) + InsertedText(steps[1..])
  }

  /** One step forwards or backwards changes each of these functions only at its end. */
  lemma {:induction false} OneStep(doc: seq<byte>, steps: seq<Step>, k: nat)
    requires k < |steps|
    ensures Replay(doc, steps[..k + 1]) == Apply(Replay(doc, steps[..k]), steps[k])
    ensures DeletedText(steps[..k + 1])
         == DeletedText(steps[..k]) + if steps[k].kind == Delete then steps[k].text else []
    ensures InsertedText(steps[k..])
         == (if steps[k].kind == Insert then steps[k].text else []) + InsertedText(steps[k + 1..])
  {
    assert steps[..k + 1][..k] == steps[..k];
    assert steps[k..][1..] == steps[k + 1..];
  }

  lemma {:induction false} ConsistentAfterReplacingTail(doc: seq<byte>, steps: seq<Step>, k: nat, s: Step)
    requires Consistent(doc, steps) && k <= |steps|
    requires Fits(Replay(doc, steps[..k]), s)
    ensures Consistent(doc, steps[..k] + [s])
    ensures Replay(doc, steps[..k] + [s]) == Apply(Replay(doc, steps[..k]), s)
    ensures DeletedText(steps[..k] + [s]) == DeletedText(steps[..k]) + if s.kind == Delete then s.text else []
  {
    var t := steps[..k] + [s];
    assert t[..k] == steps[..k];
    forall i | 0 <= i < |t| ensures FitsAt(doc, t, i) {
      assert t[..i] == steps[..i];
      if i < k { assert FitsAt(doc, steps, i); }
    }
  }

  lemma {:induction false} InsertionIsThere(doc: seq<byte>, s: Step)
    requires s.kind == Insert && Fits(doc, s)
    ensures s.pos + |s.text| <= |Apply(doc, s)| && Apply(doc, s)[s.pos..s.pos + |s.text|] == s.text
  {
  }

  lemma {:induction false} InsertionRemoved(doc: seq<byte>, s: Step)
    requires s.kind == Insert && Fits(doc, s)
    ensures var after := Apply(doc, s);
      s.pos + |s.text| <= |after| && after[..s.pos] + after[s.pos + |s.text|..] == doc
  {
    Parts(doc[..s.pos], s.text, doc[s.pos..]);
  }

  lemma {:induction false} DeletionUndone(doc: seq<byte>, s: Step)
    requires s.kind == Delete && Fits(doc, s)
    ensures var after := Apply(doc, s);
      s.pos <= |after| && after[..s.pos] + s.text + after[s.pos..] == doc
  {
    Parts(doc[..s.pos], [], doc[s.pos + |s.text|..]);
    assert doc[..s.pos] + [] + doc[s.pos + |s.text|..] == Apply(doc, s);
  }

  // ----- merging two edits into one

  function MergedInsert(first: Step, second: Step): Step {
    if first.pos + |first.text| == second.pos then first.(text := first.text + second.text)
    else first.(text := second.text + first.text)
  }

  lemma {:induction false} MergedInsertIsBoth(doc: seq<byte>, first: Step, second: Step)
    requires first.kind == second.kind == Insert && Fits(doc, first)
    requires first.pos + |first.text| == second.pos || first.pos == second.pos
    ensures Fits(doc, MergedInsert(first, second)) && Fits(Apply(doc, first), second)
    ensures Apply(doc, MergedInsert(first, second)) == Apply(Apply(doc, first), second)
  {
    var l, r := doc[..first.pos], doc[first.pos..];
    if first.pos + |first.text| == second.pos {
      Parts(l + first.text, [], r);
      assert l + first.text + [] + r == l + first.text + r;
    } else {
      Parts(l, [], first.text + r);
      assert l + [] + (first.text + r) == l + first.text + r;
    }
  }

  /** The second deletion covers the place where the first one was. */
  function MergedDelete(first: Step, second: Step): Step
    requires second.pos <= first.pos <= second.pos + |second.text|
  {
    var n := first.pos - second.pos;
    Step(Delete, second.pos, second.text[..n] + first.text + second.text[n..])
  }

  lemma {:induction false} FitsToDelete(doc: seq<byte>, s: Step)
    requires s.kind == Delete
    ensures var end := s.pos + |s.text|;
      && (Fits(doc, s) <==> 0 <= s.pos && end <= |doc| && doc[s.pos..end] == s.text)
      && (Fits(doc, s) ==> Apply(doc, s) == doc[..s.pos] + doc[end..])
  {
  }

  lemma {:induction false} MergedDeleteIsBoth(doc: seq<byte>, first: Step, second: Step)
    requires first.kind == second.kind == Delete && Fits(doc, first) && Fits(Apply(doc, first), second)
    requires second.pos <= first.pos <= second.pos + |second.text|
    ensures Fits(doc, MergedDelete(first, second))
    ensures Apply(doc, MergedDelete(first, second)) == Apply(Apply(doc, first), second)
  {
    FitsToDelete(doc, first);
    FitsToDelete(Apply(doc, first), second);
    hide Apply, Fits;
    var head, rest := doc[..first.pos], doc[first.pos + |first.text|..];
    assert doc == head + first.text + rest;
    CutAcross(doc, Apply(doc, first), head, first.text, rest, second.pos, second.text);
    var merged := MergedDelete(first, second);
    assert second.pos + |merged.text| == second.pos + |second.text| + |first.text|;
    assert doc[second.pos..second.pos + |merged.text|] == merged.text;
    FitsToDelete(doc, merged);
  }

  /** Cutting `text` out across the seam of `head` and `rest`, and out of `whole`, where `t` sits in that seam. */
  lemma {:induction false} CutAcross<T>(whole: seq<T>, cut: seq<T>, head: seq<T>, t: seq<T>, rest: seq<T>,
                                        p: nat, text: seq<T>)
    requires whole == head + t + rest && cut == head + rest
    requires p <= |head| <= p + |text| <= |cut| && cut[p..p + |text|] == text
    ensures var n, end := |head| - p, p + |text| + |t|;
      && whole[p..end] == text[..n] + t + text[n..]
      && whole[..p] + whole[end..] == cut[..p] + cut[p + |text|..]
  {
    var n := |head| - p;
    var a, x, y, z := head[..p], head[p..], rest[..|text| - n], rest[|text| - n..];
    assert |a| == p && |x| == n && |y| == |text| - n;
    assert cut == a + (x + y) + z;
    Parts(a, x + y, z);
    assert text == x + y;
    Parts([], x, y);
    assert whole == a + (x + t + y) + z;
    Parts(a, x + t + y, z);
  }

  // ----- what the byte buffer holds

  /** Texts of the deletions before place `n`, then texts of the insertions from there on. */
  predicate Stored(steps: seq<Step>, n: nat, data: seq<byte>, index: nat) {
    && n <= |steps|
    && index == |DeletedText(steps[..n])|
    && data == DeletedText(steps[..n]) + InsertedText(steps[n..])
  }

  lemma {:induction false} StoredAfterUndoingInsert(steps: seq<Step>, n: nat, data: seq<byte>, index: nat)
    requires Stored(steps, n, data, index) && 0 < n && steps[n - 1].kind == Insert
    ensures index <= |data| && Stored(steps, n - 1, data[..index] + steps[n - 1].text + data[index..], index)
  {
    var past, text, future := DeletedText(steps[..n]), steps[n - 1].text, InsertedText(steps[n..]);
    OneStep([], steps, n - 1);
    StoredPrefix(steps, n, data, index);
    assert past + (text + future) == past + text + future;
  }

  lemma {:induction false} StoredAfterUndoingDelete(steps: seq<Step>, n: nat, data: seq<byte>, index: nat)
    requires Stored(steps, n, data, index) && 0 < n && steps[n - 1].kind == Delete
    ensures var length := |steps[n - 1].text|;
      && length <= index <= |data| && data[index - length..index] == steps[n - 1].text
      && Stored(steps, n - 1, data[..index - length] + data[index..], index - length)
  {
    OneStep([], steps, n - 1);
    Parts(DeletedText(steps[..n - 1]), steps[n - 1].text, InsertedText(steps[n..]));
  }

  lemma {:induction false} StoredAfterRedoingInsert(steps: seq<Step>, n: nat, data: seq<byte>, index: nat)
    requires Stored(steps, n, data, index) && n < |steps| && steps[n].kind == Insert
    ensures var length := |steps[n].text|;
      && index + length <= |data| && data[index..index + length] == steps[n].text
      && Stored(steps, n + 1, data[..index] + data[index + length..], index)
  {
    var past, text, future := DeletedText(steps[..n]), steps[n].text, InsertedText(steps[n + 1..]);
    OneStep([], steps, n);
    Parts(past, text, future);
    assert past + (text + future) == past + text + future;
  }

  lemma {:induction false} StoredAfterRedoingDelete(steps: seq<Step>, n: nat, data: seq<byte>, index: nat)
    requires Stored(steps, n, data, index) && n < |steps| && steps[n].kind == Delete
    ensures index <= |data|
    ensures Stored(steps, n + 1, data[..index] + steps[n].text + data[index..], index + |steps[n].text|)
  {
    OneStep([], steps, n);
    StoredPrefix(steps, n, data, index);
  }

  lemma {:induction false} StoredPrefix(steps: seq<Step>, n: nat, data: seq<byte>, index: nat)
    requires Stored(steps, n, data, index)
    ensures index <= |data| && data[..index] == DeletedText(steps[..n]) && data[index..] == InsertedText(steps[n..])
  {
  }

  /** Recording a step at place `k` forgets what was undone behind it. */
  lemma {:induction false} StoredAfterRecording(doc: seq<byte>, steps: seq<Step>, k: nat, s: Step)
    requires Consistent(doc, steps) && k <= |steps| && Fits(Replay(doc, steps[..k]), s)
    ensures var t, data := steps[..k] + [s], DeletedText(steps[..k]) + if s.kind == Delete then s.text else [];
      && Consistent(doc, t)
      && Replay(doc, t[..k + 1]) == Apply(Replay(doc, steps[..k]), s)
      && Stored(t, k + 1, data, |data|)
  {
    ConsistentAfterReplacingTail(doc, steps, k, s);
    var t := steps[..k] + [s];
    assert t[..k + 1] == t && t[k + 1..] == [];
  }

  lemma {:induction false} StoredAfterMergingInsert(doc: seq<byte>, steps: seq<Step>, n: nat, data: seq<byte>,
                                                    index: nat, s: Step)
    requires Consistent(doc, steps) && Stored(steps, n, data, index) && 0 < n
    requires s.kind == steps[n - 1].kind == Insert && Fits(Replay(doc, steps[..n]), s)
    requires steps[n - 1].pos + |steps[n - 1].text| == s.pos || steps[n - 1].pos == s.pos
    ensures var t := steps[..n - 1] + [MergedInsert(steps[n - 1], s)];
      && Consistent(doc, t) && |t| == n
      && Replay(doc, t[..n]) == Apply(Replay(doc, steps[..n]), s)
      && index <= |data| && Stored(t, n, data[..index], index)
  {
    assert FitsAt(doc, steps, n - 1);
    OneStep(doc, steps, n - 1);
    StoredPrefix(steps, n, data, index);
    MergedInsertIsBoth(Replay(doc, steps[..n - 1]), steps[n - 1], s);
    StoredAfterRecording(doc, steps, n - 1, MergedInsert(steps[n - 1], s));
  }

  lemma {:induction false} StoredAfterMergingDelete(doc: seq<byte>, steps: seq<Step>, n: nat, data: seq<byte>,
                                                    index: nat, s: Step)
    requires Consistent(doc, steps) && Stored(steps, n, data, index) && 0 < n
    requires s.kind == steps[n - 1].kind == Delete && Fits(Replay(doc, steps[..n]), s)
    requires s.pos <= steps[n - 1].pos <= s.pos + |s.text|
    ensures var merged, prev := MergedDelete(steps[n - 1], s), steps[n - 1].text;
      var t := steps[..n - 1] + [merged];
      && Consistent(doc, t) && |t| == n
      && Replay(doc, t[..n]) == Apply(Replay(doc, steps[..n]), s)
      && |prev| <= index <= |data| && data[index - |prev|..index] == prev
      && Stored(t, n, data[..index - |prev|] + merged.text, index + |s.text|)
  {
    var merged, past, prev := MergedDelete(steps[n - 1], s), DeletedText(steps[..n - 1]), steps[n - 1].text;
    assert FitsAt(doc, steps, n - 1);
    OneStep(doc, steps, n - 1);
    StoredPrefix(steps, n, data, index);
    Parts(past, prev, data[index..]);
    assert past + prev + data[index..] == data;
    MergedDeleteIsBoth(Replay(doc, steps[..n - 1]), steps[n - 1], s);
    StoredAfterRecording(doc, steps, n - 1, merged);
  }

  lemma {:induction false} JoinIsMerged(data: seq<byte>, index: nat, prev: Step, s: Step)
    requires |prev.text| <= index <= |data| && data[index - |prev.text|..index] == prev.text
    requires s.pos <= prev.pos <= s.pos + |s.text|
    ensures var h, n := data[..index], prev.pos - s.pos;
      h[..|h| - |prev.text|] + (s.text[..n] + h[|h| - |prev.text|..] + s.text[n..])
      == data[..index - |prev.text|] + MergedDelete(prev, s).text
  {
    assert data[..index][index - |prev.text|..] == prev.text;
    assert data[..index][..index - |prev.text|] == data[..index - |prev.text|];
  }

  /** Put the first part of `data` before the last `prevLength` bytes and the rest behind them. */
  method SurroundLast(h: seq<byte>, prevLength: nat, data: seq<byte>, lengthBefore: nat) returns (r: seq<byte>)
    requires prevLength <= |h| && lengthBefore <= |data|
    ensures r == h[..|h| - prevLength] + (data[..lengthBefore] + h[|h| - prevLength..] + data[lengthBefore..])
  {
    r := h;
    if lengthBefore > 0 {
      r := r[..|h| - prevLength] + data[..lengthBefore] + r[|h| - prevLength..];
    }
    if |data| - lengthBefore > 0 {
      r := r + data[lengthBefore..];
    }
  }

  // ----- sections

  /** A place where undo and redo stop: the beginning, the end, or behind a marked action. */
  predicate IsBoundary(actions: seq<Action>, n: nat) {
    n == 0 || n >= |actions| || actions[n - 1].sectionMark
  }

  function PrevBoundary(actions: seq<Action>, n: nat): (m: nat)
    requires n <= |actions|
    ensures m <= n
  {
    if n == 0 then 0
    else if n == 1 || actions[n - 2].sectionMark then n - 1
    else PrevBoundary(actions, n - 1)
  }

  function NextBoundary(actions: seq<Action>, n: nat): (m: nat)
    requires n <= |actions|
    ensures n <= m <= |actions|
    decreases |actions| - n
  {
    if n == |actions| then n
    else if n + 1 == |actions| || actions[n].sectionMark then n + 1
    else NextBoundary(actions, n + 1)
  }

  lemma {:induction false} BoundariesBetween(actions: seq<Action>, n: nat)
    requires n <= |actions|
    ensures PrevBoundary(actions, n) <= n && (n > 0 ==> PrevBoundary(actions, n) < n)
    ensures PrevBoundary(actions, n) == 0 || actions[PrevBoundary(actions, n) - 1].sectionMark
    ensures forall k | PrevBoundary(actions, n) < k < n :: !IsBoundary(actions, k)
  {
    if n > 1 && !actions[n - 2].sectionMark {
      BoundariesBetween(actions, n - 1);
    }
  }

  lemma {:induction false} NextBoundaryIsFirst(actions: seq<Action>, n: nat, m: nat)
    requires n < m <= |actions|
    requires forall k | n < k < m :: !IsBoundary(actions, k)
    ensures NextBoundary(actions, n) == if IsBoundary(actions, m) then m else NextBoundary(actions, m)
    decreases m - n
  {
    if n + 1 < m {
      assert !IsBoundary(actions, n + 1);
      NextBoundaryIsFirst(actions, n + 1, m);
    }
  }

  lemma {:induction false} PrevBoundaryIsLast(actions: seq<Action>, n: nat, m: nat)
    requires n < m <= |actions|
    requires forall k | n < k < m :: !IsBoundary(actions, k)
    ensures PrevBoundary(actions, m) == if n == 0 || actions[n - 1].sectionMark then n else PrevBoundary(actions, n)
  {
    if n + 1 < m {
      assert !IsBoundary(actions, m - 1);
      PrevBoundaryIsLast(actions, n, m - 1);
    }
  }

  lemma {:induction false} NextBoundaryStops(actions: seq<Action>, n: nat)
    requires n < |actions|
    ensures n < NextBoundary(actions, n) <= |actions|
    ensures IsBoundary(actions, NextBoundary(actions, n))
    ensures forall k | n < k < NextBoundary(actions, n) :: !IsBoundary(actions, k)
    decreases |actions| - n
  {
    if n + 1 < |actions| && !actions[n].sectionMark {
      NextBoundaryStops(actions, n + 1);
    }
  }

  /** Redo leads back to where undo came from exactly when that was a boundary, and the other way round. */
  lemma {:induction false} UndoAndRedoMeet(actions: seq<Action>, n: nat)
    requires n <= |actions|
    ensures n > 0 ==> (NextBoundary(actions, PrevBoundary(actions, n)) == n <==> IsBoundary(actions, n))
    ensures n < |actions| ==> (PrevBoundary(actions, NextBoundary(actions, n)) == n <==> IsBoundary(actions, n))
  {
    if n > 0 {
      BoundariesBetween(actions, n);
      NextBoundaryIsFirst(actions, PrevBoundary(actions, n), n);
      if n < |actions| { NextBoundaryStops(actions, n); }
    }
    if n < |actions| {
      NextBoundaryStops(actions, n);
      PrevBoundaryIsLast(actions, n, NextBoundary(actions, n));
      BoundariesBetween(actions, n);
    }
  }

  // ----- the history itself

  predicate Records(a: Action, s: Step) {
    a.kind == s.kind && a.textDataPos == s.pos && (s.kind != Select ==> a.length == |s.text|)
  }

  lemma {:induction false} RecordsAfterReplacingTail(actions: seq<Action>, steps: seq<Step>, k: nat, a: Action, s: Step)
    requires |steps| == |actions| && k <= |actions|
    requires forall i | 0 <= i < |actions| :: Records(actions[i], steps[i])
    requires Records(a, s)
    ensures var b, t := actions[..k] + [a], steps[..k] + [s];
      |b| == |t| && forall i | 0 <= i < |b| :: Records(b[i], t[i])
    ensures k < |actions| ==> actions[..k + 1][k := a] == actions[..k] + [a]
  {
  }

  /** The actions with an insert recorded behind the first `n`, as one of its own or merged into the last of these. */
  function WithInsert(actions: seq<Action>, n: nat, merges: bool, pos: int, length: nat): seq<Action>
    requires n <= |actions| && (merges ==> 0 < n)
  {
    if merges then actions[..n - 1] + [actions[n - 1].(length := actions[n - 1].length + length)]
    else actions[..n] + [Action(Insert, pos, length, false, false)]
  }

  function WithDelete(actions: seq<Action>, n: nat, merges: bool, pos: int, length: nat): seq<Action>
    requires n <= |actions| && (merges ==> 0 < n)
  {
    if merges then actions[..n - 1] + [actions[n - 1].(textDataPos := pos, length := actions[n - 1].length + length)]
    else actions[..n] + [Action(Delete, pos, length, false, false)]
  }

  class EditingHistory {
    var actions: seq<Action>
    var historyData: seq<byte>
    var nextActionIndex: nat
    var historyDataIndex: nat
    var savedActionIndex: int

    /** The document before the first action, and the recorded edits with their texts. */
    ghost var start: seq<byte>
    ghost var steps: seq<Step>

    ghost predicate Valid()
      reads this
    {
      && |steps| == |actions|
      && nextActionIndex <= |actions|
      && (forall k | 0 <= k < |actions| :: Records(actions[k], steps[k]))
      && Consistent(start, steps)
      && Stored(steps, nextActionIndex, historyData, historyDataIndex)
    }

    /** The document after the first `k` actions. */
    ghost function DocumentAt(k: nat): seq<byte>
      requires k <= |steps|
      reads this
    {
      Replay(start, steps[..k])
    }

    ghost function Document(): seq<byte>
      requires nextActionIndex <= |steps|
      reads this
    {
      DocumentAt(nextActionIndex)
    }

    /** Nothing recorded has changed; only the current place in the list may have. */
    twostate predicate SameRecord()
      reads this
    {
      actions == old(actions) && steps == old(steps) && start == old(start)
    }

    constructor (ghost doc: seq<byte>)
      ensures Valid() && start == doc && actions == [] && nextActionIndex == 0 && savedActionIndex == -1
    {
      actions, historyData, nextActionIndex, historyDataIndex, savedActionIndex := [], [], 0, 0, -1;
      start, steps := doc, [];
    }

    method Clear(ghost doc: seq<byte>)
      modifies this
      ensures Valid() && start == doc && actions == [] && nextActionIndex == 0 && savedActionIndex == -1
    {
      actions, historyData, nextActionIndex, historyDataIndex, savedActionIndex := [], [], 0, 0, -1;
      start, steps := doc, [];
    }

    predicate IsPreviousActionMergeable()
      requires nextActionIndex <= |actions|
      reads this
    {
      nextActionIndex != 0 && !actions[nextActionIndex - 1].mergeStop
    }

    predicate IsPreviousActionSavedState()
      reads this
    {
      nextActionIndex - 1 == savedActionIndex
    }

    method SetPreviousActionToSavedState()
      requires Valid()
      modifies this`savedActionIndex
      ensures Valid() && savedActionIndex == nextActionIndex - 1
    {
      savedActionIndex := nextActionIndex - 1;
    }

    predicate IsPreviousActionSectionSeparator()
      requires nextActionIndex <= |actions|
      reads this
    {
      nextActionIndex == 0 || actions[nextActionIndex - 1].sectionMark
    }

    function PreviousActionType(): ActionType
      requires nextActionIndex <= |actions|
      reads this
    {
      if nextActionIndex == 0 then NoAction else actions[nextActionIndex - 1].kind
    }

    function NextActionType(): ActionType
      requires nextActionIndex <= |actions|
      reads this
    {
      if nextActionIndex == |actions| then NoAction else actions[nextActionIndex].kind
    }

    predicate MergesInsert(beginIndex: int)
      requires nextActionIndex <= |actions|
      reads this
    {
      && IsPreviousActionMergeable()
      && PreviousActionType() == Insert
      && var prev := actions[nextActionIndex - 1];
         prev.textDataPos + prev.length == beginIndex || prev.textDataPos == beginIndex
    }

    predicate MergesDelete(beginIndex: int, length: nat)
      requires nextActionIndex <= |actions|
      reads this
    {
      && IsPreviousActionMergeable()
      && PreviousActionType() == Delete
      && beginIndex <= actions[nextActionIndex - 1].textDataPos <= beginIndex + length
    }

    // ----- recording

    /** Drop what was undone and add a new action. */
    method AppendAction(action: Action, data: seq<byte>, ghost s: Step)
      requires Valid() && Records(action, s) && Fits(Document(), s)
      requires data == if s.kind == Delete then s.text else []
      modifies this
      ensures savedActionIndex == old(savedActionIndex)
      ensures Valid() && start == old(start) && nextActionIndex == |actions|
      ensures Document() == Apply(old(Document()), s)
      ensures actions == old(actions)[..old(nextActionIndex)] + [action]
      ensures steps == old(steps)[..old(nextActionIndex)] + [s]
    {
      StoredAfterRecording(start, steps, nextActionIndex, s);
      StoredPrefix(steps, nextActionIndex, historyData, historyDataIndex);
      RecordsAfterReplacingTail(actions, steps, nextActionIndex, action, s);
      steps := steps[..nextActionIndex] + [s];
      actions := actions[..nextActionIndex] + [action];
      nextActionIndex := nextActionIndex + 1;
      historyData := historyData[..historyDataIndex] + data;
      historyDataIndex := historyDataIndex + |data|;
    }

    method MergeInsertAction(beginIndex: int, length: nat, ghost text: seq<byte>)
      requires Valid() && MergesInsert(beginIndex)
      requires 0 <= beginIndex <= |Document()| && |text| == length
      modifies this
      ensures savedActionIndex == old(savedActionIndex)
      ensures Valid() && start == old(start) && nextActionIndex == |actions| == old(nextActionIndex)
      ensures Document() == Apply(old(Document()), Step(Insert, beginIndex, text))
      ensures var n, prior := old(nextActionIndex), old(actions);
        actions == prior[..n - 1] + [prior[n - 1].(length := prior[n - 1].length + length)]
      ensures steps[..|steps| - 1] == old(steps)[..old(nextActionIndex) - 1]
    {
      ghost var n, s := nextActionIndex, Step(Insert, beginIndex, text);
      assert Records(actions[n - 1], steps[n - 1]);
      ghost var merged := MergedInsert(steps[n - 1], s);
      StoredAfterMergingInsert(start, steps, n, historyData, historyDataIndex, s);
      var prev := actions[nextActionIndex - 1];
      prev := prev.(length := prev.length + length);
      RecordsAfterReplacingTail(actions, steps, n - 1, prev, merged);
      steps := steps[..n - 1] + [merged];
      actions := actions[..nextActionIndex][nextActionIndex - 1 := prev];
      historyData := historyData[..historyDataIndex];
    }

    method RememberInsertAction(beginIndex: int, length: nat, ghost text: seq<byte>)
      requires Valid()
      requires 0 <= beginIndex <= |Document()| && |text| == length
      modifies this
      ensures savedActionIndex == old(savedActionIndex)
      ensures Valid() && start == old(start) && nextActionIndex == |actions|
      ensures Document() == Apply(old(Document()), Step(Insert, beginIndex, text))
      ensures var n, prior := old(nextActionIndex), old(actions);
        if n > 0 && prior[n - 1].kind == Insert && !prior[n - 1].mergeStop
           && (prior[n - 1].textDataPos + prior[n - 1].length == beginIndex || prior[n - 1].textDataPos == beginIndex)
        then actions == prior[..n - 1] + [prior[n - 1].(length := prior[n - 1].length + length)]
        else actions == prior[..n] + [Action(Insert, beginIndex, length, false, false)]
      ensures steps[..|steps| - 1] == old(steps)[..|steps| - 1]
    {
      if MergesInsert(beginIndex) {
        MergeInsertAction(beginIndex, length, text);
      } else {
        AppendAction(Action(Insert, beginIndex, length, false, false), [], Step(Insert, beginIndex, text));
      }
    }

    method MergeDeleteAction(beginIndex: int, length: nat, data: seq<byte>)
      requires Valid() && MergesDelete(beginIndex, length)
      requires 0 <= beginIndex && beginIndex + length <= |Document()|
      requires data == Document()[beginIndex..beginIndex + length]
      modifies this
      ensures savedActionIndex == old(savedActionIndex)
      ensures Valid() && start == old(start) && nextActionIndex == |actions| == old(nextActionIndex)
      ensures Document() == Apply(old(Document()), Step(Delete, beginIndex, data))
      ensures var n, prior := old(nextActionIndex), old(actions);
        actions == prior[..n - 1]
                   + [prior[n - 1].(textDataPos := beginIndex, length := prior[n - 1].length + length)]
      ensures steps[..|steps| - 1] == old(steps)[..old(nextActionIndex) - 1]
    {
      hide Replay, Consistent, Apply, DeletedText, InsertedText;
      ghost var n, s := nextActionIndex, Step(Delete, beginIndex, data);
      assert Records(actions[n - 1], steps[n - 1]);
      ghost var merged := MergedDelete(steps[n - 1], s);
      StoredAfterMergingDelete(start, steps, n, historyData, historyDataIndex, s);
      var prev := actions[nextActionIndex - 1];
      var lengthBefore := prev.textDataPos - beginIndex;
      var joined := SurroundLast(historyData[..historyDataIndex], prev.length, data, lengthBefore);
      JoinIsMerged(historyData, historyDataIndex, steps[n - 1], s);
      prev := prev.(textDataPos := prev.textDataPos - lengthBefore, length := prev.length + length);
      RecordsAfterReplacingTail(actions, steps, n - 1, prev, merged);
      steps := steps[..n - 1] + [merged];
      actions := actions[..nextActionIndex][nextActionIndex - 1 := prev];
      historyData := joined;
      historyDataIndex := historyDataIndex + length;
    }

    method RememberDeleteAction(beginIndex: int, length: nat, data: seq<byte>)
      requires Valid()
      requires 0 <= beginIndex && beginIndex + length <= |Document()|
      requires data == Document()[beginIndex..beginIndex + length]
      modifies this
      ensures savedActionIndex == old(savedActionIndex)
      ensures Valid() && start == old(start) && nextActionIndex == |actions|
      ensures Document() == Apply(old(Document()), Step(Delete, beginIndex, data))
      ensures var n, prior := old(nextActionIndex), old(actions);
        if n > 0 && prior[n - 1].kind == Delete && !prior[n - 1].mergeStop
           && beginIndex <= prior[n - 1].textDataPos <= beginIndex + length
        then actions == prior[..n - 1]
                        + [prior[n - 1].(textDataPos := beginIndex, length := prior[n - 1].length + length)]
        else actions == prior[..n] + [Action(Delete, beginIndex, length, false, false)]
      ensures steps[..|steps| - 1] == old(steps)[..|steps| - 1]
    {
      if MergesDelete(beginIndex, length) {
        MergeDeleteAction(beginIndex, length, data);
      } else {
        AppendAction(Action(Delete, beginIndex, length, false, false), data, Step(Delete, beginIndex, data));
      }
    }

    method RememberSelectAction(beginIndex: int, length: int)
      requires Valid()
      modifies this
      ensures savedActionIndex == old(savedActionIndex)
      ensures Valid() && start == old(start) && nextActionIndex == |actions|
      ensures Document() == old(Document())
      ensures actions == old(actions)[..old(nextActionIndex)] + [Action(Select, beginIndex, length, false, false)]
      ensures steps[..|steps| - 1] == old(steps)[..|steps| - 1]
    {
      AppendAction(Action(Select, beginIndex, length, false, false), [], Step(Select, beginIndex, []));
    }

    // ----- marks; none is set while more than one holder of a section exists

    method SetSectionMarkOnHistoryTop(sectionHolders: nat)
      requires Valid()
      modifies this`actions
      ensures Valid()
      ensures actions == if |old(actions)| > 0 && sectionHolders <= 1
                         then old(actions)[|old(actions)| - 1 := old(actions)[|old(actions)| - 1].(sectionMark := true)]
                         else old(actions)
    {
      if |actions| > 0 && sectionHolders <= 1 {
        actions := actions[|actions| - 1 := actions[|actions| - 1].(sectionMark := true)];
      }
    }

    method SetSectionMarkOnPreviousAction(sectionHolders: nat)
      requires Valid()
      modifies this`actions
      ensures Valid()
      ensures actions == if nextActionIndex > 0 && sectionHolders <= 1
                         then old(actions)[nextActionIndex - 1
                                           := old(actions)[nextActionIndex - 1].(sectionMark := true)]
                         else old(actions)
    {
      if nextActionIndex > 0 && sectionHolders <= 1 {
        actions := actions[nextActionIndex - 1 := actions[nextActionIndex - 1].(sectionMark := true)];
      }
    }

    method SetMergeStopMarkOnPreviousAction(flag: bool, sectionHolders: nat)
      requires Valid()
      modifies this`actions
      ensures Valid()
      ensures actions == if nextActionIndex > 0 && sectionHolders <= 1
                         then old(actions)[nextActionIndex - 1 := old(actions)[nextActionIndex - 1].(mergeStop := flag)]
                         else old(actions)
    {
      if nextActionIndex > 0 && sectionHolders <= 1 {
        actions := actions[nextActionIndex - 1 := actions[nextActionIndex - 1].(mergeStop := flag)];
      }
    }

    // ----- undoing and redoing one action

    method UndoInsertAction(insertedText: seq<byte>)
      requires Valid() && PreviousActionType() == Insert
      requires var prev := actions[nextActionIndex - 1];
        && 0 <= prev.textDataPos && prev.textDataPos + prev.length <= |Document()|
        && insertedText == Document()[prev.textDataPos..prev.textDataPos + prev.length]
      modifies this
      ensures savedActionIndex == old(savedActionIndex)
      ensures Valid() && SameRecord() && nextActionIndex == old(nextActionIndex) - 1
    {
      assert Records(actions[nextActionIndex - 1], steps[nextActionIndex - 1]);
      StoredAfterUndoingInsert(steps, nextActionIndex, historyData, historyDataIndex);
      assert FitsAt(start, steps, nextActionIndex - 1);
      InsertionIsThere(Replay(start, steps[..nextActionIndex - 1]), steps[nextActionIndex - 1]);
      OneStep(start, steps, nextActionIndex - 1);
      historyData := historyData[..historyDataIndex] + insertedText + historyData[historyDataIndex..];
      nextActionIndex := nextActionIndex - 1;
    }

    method GetContentForRedoInsertAction() returns (text: seq<byte>)
      requires Valid() && NextActionType() == Insert
      ensures text == steps[nextActionIndex].text
    {
      var length := actions[nextActionIndex].length;
      assert Records(actions[nextActionIndex], steps[nextActionIndex]);
      StoredAfterRedoingInsert(steps, nextActionIndex, historyData, historyDataIndex);
      text := historyData[historyDataIndex..historyDataIndex + length];
    }

    method RedoInsertAction()
      requires Valid() && NextActionType() == Insert
      modifies this
      ensures savedActionIndex == old(savedActionIndex)
      ensures Valid() && SameRecord() && nextActionIndex == old(nextActionIndex) + 1
    {
      assert Records(actions[nextActionIndex], steps[nextActionIndex]);
      StoredAfterRedoingInsert(steps, nextActionIndex, historyData, historyDataIndex);
      var length := actions[nextActionIndex].length;
      historyData := historyData[..historyDataIndex] + historyData[historyDataIndex + length..];
      nextActionIndex := nextActionIndex + 1;
    }

    method GetContentForUndoDeleteAction() returns (text: seq<byte>)
      requires Valid() && PreviousActionType() == Delete
      ensures text == steps[nextActionIndex - 1].text
    {
      var length := actions[nextActionIndex - 1].length;
      assert Records(actions[nextActionIndex - 1], steps[nextActionIndex - 1]);
      StoredAfterUndoingDelete(steps, nextActionIndex, historyData, historyDataIndex);
      text := historyData[historyDataIndex - length..historyDataIndex];
    }

    method UndoDeleteAction()
      requires Valid() && PreviousActionType() == Delete
      modifies this
      ensures savedActionIndex == old(savedActionIndex)
      ensures Valid() && SameRecord() && nextActionIndex == old(nextActionIndex) - 1
    {
      assert Records(actions[nextActionIndex - 1], steps[nextActionIndex - 1]);
      StoredAfterUndoingDelete(steps, nextActionIndex, historyData, historyDataIndex);
      var length := actions[nextActionIndex - 1].length;
      historyData := historyData[..historyDataIndex - length] + historyData[historyDataIndex..];
      historyDataIndex := historyDataIndex - length;
      nextActionIndex := nextActionIndex - 1;
    }

    method RedoDeleteAction(deletedText: seq<byte>, length: nat)
      requires Valid() && NextActionType() == Delete && length == actions[nextActionIndex].length
      requires deletedText == steps[nextActionIndex].text
      modifies this
      ensures savedActionIndex == old(savedActionIndex)
      ensures Valid() && SameRecord() && nextActionIndex == old(nextActionIndex) + 1
    {
      assert Records(actions[nextActionIndex], steps[nextActionIndex]);
      StoredAfterRedoingDelete(steps, nextActionIndex, historyData, historyDataIndex);
      historyData := historyData[..historyDataIndex] + deletedText + historyData[historyDataIndex..];
      historyDataIndex := historyDataIndex + length;
      nextActionIndex := nextActionIndex + 1;
    }

    method UndoSelectAction()
      requires Valid() && PreviousActionType() == Select
      modifies this
      ensures savedActionIndex == old(savedActionIndex)
      ensures Valid() && SameRecord() && nextActionIndex == old(nextActionIndex) - 1
      ensures historyData == old(historyData) && historyDataIndex == old(historyDataIndex)
    {
      assert Records(actions[nextActionIndex - 1], steps[nextActionIndex - 1]);
      OneStep([], steps, nextActionIndex - 1);
      nextActionIndex := nextActionIndex - 1;
    }

    method RedoSelectAction()
      requires Valid() && NextActionType() == Select
      modifies this
      ensures savedActionIndex == old(savedActionIndex)
      ensures Valid() && SameRecord() && nextActionIndex == old(nextActionIndex) + 1
      ensures historyData == old(historyData) && historyDataIndex == old(historyDataIndex)
    {
      assert Records(actions[nextActionIndex], steps[nextActionIndex]);
      OneStep([], steps, nextActionIndex);
      nextActionIndex := nextActionIndex + 1;
    }
  }
}
