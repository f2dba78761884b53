/** A document whose edits go through the undo history. */
module TextData {
  import opened Bytes
  import opened EditingHistory
  import opened Helpers
  import opened SelectedRange

  type Filter = Option<seq<byte> -> seq<byte>>

  function FilteredBy(filter: Filter, text: seq<byte>): seq<byte> {
    if filter.Some? then filter.value(text) else text
  }

  class TextData {
    var buffer: seq<byte>
    var filterCallback: Filter
    var isReadOnlyFlag: bool
    var modifiedFlag: bool
    const history: EditingHistory

    /** The document as it was when it was last saved. */
    ghost var saved: seq<byte>

    ghost predicate Valid()
      reads this, history
    {
      && history.Valid()
      && buffer == history.Document()
      && IsBoundary(history.actions, history.nextActionIndex)
    }

    /** The saved marker names a place in the history where the document is the saved one. */
    ghost predicate SavedMarkHolds()
      requires history.Valid()
      reads this, history
    {
      && -1 <= history.savedActionIndex < |history.actions|
      && history.DocumentAt(history.savedActionIndex + 1) == saved
    }

    /** The edit about to be recorded neither cuts off nor changes the saved place. */
    predicate LeavesSavedPlace(merges: bool)
      reads this, history
    {
      && history.savedActionIndex + 1 <= history.nextActionIndex
      && (merges ==> history.savedActionIndex + 1 < history.nextActionIndex)
    }

    /**
     * What decides whether the saved marker still names the saved document after an edit was recorded: the edit left
     * the saved place, or it happened right below it and happens to lead to the saved document again.
     */
    twostate predicate SavedMarkSurvives(merged: bool)
      reads this, history
    {
      || old(LeavesSavedPlace(merged))
      || (!merged && history.savedActionIndex == old(history.nextActionIndex) && buffer == saved)
    }

    /** The saved marker can be relied on, and a document that counts as unmodified is the saved one. */
    ghost predicate SavedStateIsKnown()
      requires history.Valid()
      reads this, history
    {
      SavedMarkHolds() && (!modifiedFlag ==> buffer == saved)
    }

    /** What the insert filter makes of a text. */
    function Filtered(text: seq<byte>): seq<byte>
      reads this
    {
      FilteredBy(filterCallback, text)
    }

    constructor (doc: seq<byte>)
      ensures Valid() && fresh(history) && SavedStateIsKnown() && !isReadOnlyFlag && !modifiedFlag
      ensures filterCallback == None
      ensures buffer == saved == history.start == doc && history.actions == [] && history.savedActionIndex == -1
    {
      buffer, saved := doc, doc;
      isReadOnlyFlag, modifiedFlag, filterCallback := false, false, None;
      history := new EditingHistory(doc);
    }

    method SetInsertFilterCallback(filterCallback: Filter)
      modifies this`filterCallback
      ensures this.filterCallback == filterCallback
    {
      this.filterCallback := filterCallback;
    }

    method InsertAtMark(pos: int, insertBuffer: seq<byte>) returns (length: nat)
      requires Valid() && 0 <= pos <= |buffer|
      modifies this, history
      ensures Valid() && saved == old(saved) && isReadOnlyFlag == old(isReadOnlyFlag)
      ensures filterCallback == old(filterCallback)
      ensures history.start == old(history.start) && history.savedActionIndex == old(history.savedActionIndex)
      ensures length == if isReadOnlyFlag then 0 else |Filtered(insertBuffer)|
      ensures Filtered(insertBuffer) == match filterCallback case None => insertBuffer case Some(f) => f(insertBuffer)
      ensures length == 0 ==> buffer == old(buffer) && history.SameRecord() && modifiedFlag == old(modifiedFlag)
                              && history.nextActionIndex == old(history.nextActionIndex)
      ensures length > 0 ==>
                && buffer == old(buffer)[..pos] + Filtered(insertBuffer) + old(buffer)[pos..]
                && history.nextActionIndex == |history.actions| && modifiedFlag
                && |history.actions| == old(history.nextActionIndex) + (if old(history.MergesInsert(pos)) then 0 else 1)
                && history.actions == WithInsert(old(history.actions), old(history.nextActionIndex),
                                                 old(history.MergesInsert(pos)), pos, length)
                && history.steps[..|history.steps| - 1] == old(history.steps)[..|history.steps| - 1]
      ensures old(SavedMarkHolds()) ==>
                (SavedMarkHolds() <==> length == 0 || SavedMarkSurvives(old(history.MergesInsert(pos))))
    {
      hide Replay, Stored, Consistent, Records, Apply, Fits, TextData.LeavesSavedPlace;
      length := 0;
      if !isReadOnlyFlag {
        var text := Filtered(insertBuffer);
        if |text| > 0 {
          InsertionApplied(buffer, pos, text);
          history.RememberInsertAction(pos, |text|, text);
          buffer := buffer[..pos] + text + buffer[pos..];
          modifiedFlag := true;
          SavedPlaceAfterEdit(old(history.MergesInsert(pos)));
        }
        length := |text|;
      }
    }

    method RemoveAtMark(pos: int, amount: nat)
      requires Valid() && 0 <= pos && pos + amount <= |buffer|
      modifies this, history
      ensures Valid() && saved == old(saved) && isReadOnlyFlag == old(isReadOnlyFlag)
      ensures filterCallback == old(filterCallback)
      ensures history.start == old(history.start) && history.savedActionIndex == old(history.savedActionIndex)
      ensures if isReadOnlyFlag || amount == 0 then
                && buffer == old(buffer) && history.SameRecord() && modifiedFlag == old(modifiedFlag)
                && history.nextActionIndex == old(history.nextActionIndex)
              else
                && buffer == old(buffer)[..pos] + old(buffer)[pos + amount..]
                && history.nextActionIndex == |history.actions| && modifiedFlag
                && |history.actions|
                   == old(history.nextActionIndex) + (if old(history.MergesDelete(pos, amount)) then 0 else 1)
                && history.actions == WithDelete(old(history.actions), old(history.nextActionIndex),
                                                 old(history.MergesDelete(pos, amount)), pos, amount)
                && history.steps[..|history.steps| - 1] == old(history.steps)[..|history.steps| - 1]
      ensures old(SavedMarkHolds()) ==>
                (SavedMarkHolds() <==>
                   isReadOnlyFlag || amount == 0 || SavedMarkSurvives(old(history.MergesDelete(pos, amount))))
    {
      hide Replay, Stored, Consistent, Records, Apply, Fits, TextData.LeavesSavedPlace;
      if !isReadOnlyFlag {
        if amount > 0 {
          DeletionApplied(buffer, pos, amount);
          history.RememberDeleteAction(pos, amount, buffer[pos..pos + amount]);
          buffer := buffer[..pos] + buffer[pos + amount..];
          modifiedFlag := true;
          SavedPlaceAfterEdit(old(history.MergesDelete(pos, amount)));
        }
      }
    }

    /**
     * Recording keeps the places before the new or merged action, changes the one behind it and cuts off all others.
     * A merged action changes the length of the document, so that it cannot lead back to the one before.
     */
    twostate lemma {:induction false} SavedPlaceAfterEdit(merged: bool)
      requires old(history.Valid()) && history.Valid() && history.start == old(history.start)
      requires buffer == history.Document() && old(buffer == history.Document())
      requires history.savedActionIndex == old(history.savedActionIndex) && saved == old(saved)
      requires history.nextActionIndex == |history.steps| == old(history.nextActionIndex) + if merged then 0 else 1
      requires 0 < |history.steps|
      requires history.steps[..|history.steps| - 1] == old(history.steps)[..|history.steps| - 1]
      requires merged ==> |buffer| != |old(buffer)|
      ensures old(SavedMarkHolds()) ==> (SavedMarkHolds() <==> SavedMarkSurvives(merged))
    {
      var k, n := history.savedActionIndex + 1, |history.steps| - 1;
      if old(SavedMarkHolds()) && k <= n {
        assert history.steps[..k] == history.steps[..n][..k];
        assert old(history.steps)[..k] == old(history.steps)[..n][..k];
      }
    }

    method RememberChangeAreaInHistory(spos: int, epos: int)
      requires Valid()
      modifies history
      ensures Valid() && history.start == old(history.start)
      ensures history.nextActionIndex == |history.actions| == old(history.nextActionIndex) + 1
      ensures history.actions == old(history.actions)[..old(history.nextActionIndex)]
                                 + [Action(Select, spos, epos - spos, false, false)]
      ensures history.steps[..|history.steps| - 1] == old(history.steps)[..|history.steps| - 1]
      ensures history.savedActionIndex == old(history.savedActionIndex)
      ensures old(SavedMarkHolds()) ==> (SavedMarkHolds() <==> SavedMarkSurvives(false))
    {
      history.RememberSelectAction(spos, epos - spos);
      SavedPlaceAfterEdit(false);
    }

    method SetHistorySeparator(sectionHolders: nat)
      requires Valid()
      modifies history
      ensures Valid() && |history.actions| == old(|history.actions|) && history.steps == old(history.steps)
      ensures history.start == old(history.start) && history.nextActionIndex == old(history.nextActionIndex)
      ensures history.savedActionIndex == old(history.savedActionIndex)
      ensures var n, prior := history.nextActionIndex, old(history.actions);
        history.actions == if n > 0 && sectionHolders <= 1
                           then prior[n - 1 := prior[n - 1].(sectionMark := true, mergeStop := true)] else prior
      ensures old(SavedMarkHolds()) <==> SavedMarkHolds()
    {
      history.SetSectionMarkOnPreviousAction(sectionHolders);
      history.SetMergeStopMarkOnPreviousAction(true, sectionHolders);
    }

    /** The section ends, but the next edit can still be merged into its last action. */
    method SetMergableHistorySeparator(sectionHolders: nat)
      requires Valid()
      modifies history
      ensures Valid() && |history.actions| == old(|history.actions|) && history.steps == old(history.steps)
      ensures history.start == old(history.start) && history.nextActionIndex == old(history.nextActionIndex)
      ensures history.savedActionIndex == old(history.savedActionIndex)
      ensures var n, prior := history.nextActionIndex, old(history.actions);
        history.actions == if n > 0 && sectionHolders <= 1
                           then prior[n - 1 := prior[n - 1].(sectionMark := true)] else prior
      ensures old(SavedMarkHolds()) <==> SavedMarkHolds()
    {
      history.SetSectionMarkOnPreviousAction(sectionHolders);
    }

    /** From now on undo ends at the present document. The saved marker names it, whether it was saved or not. */
    method ClearHistory()
      requires Valid()
      modifies history
      ensures Valid() && history.actions == [] && history.nextActionIndex == 0
      ensures history.start == buffer && history.savedActionIndex == -1
      ensures SavedMarkHolds() <==> buffer == saved
    {
      history.Clear(buffer);
    }

    /** `writable` tells whether the file can be written, if the document has one and it exists. */
    method CheckFileInfo(writable: Option<bool>)
      modifies this`isReadOnlyFlag
      ensures isReadOnlyFlag == if writable.Some? then !writable.value else old(isReadOnlyFlag)
    {
      if writable.Some? && isReadOnlyFlag != !writable.value {
        isReadOnlyFlag := !writable.value;
      }
    }

    method FlushPendingUpdates(sectionHolders: nat)
      requires Valid()
      modifies history
      ensures Valid() && |history.actions| == old(|history.actions|) && history.steps == old(history.steps)
      ensures history.start == old(history.start) && history.nextActionIndex == old(history.nextActionIndex)
      ensures history.savedActionIndex == old(history.savedActionIndex)
      ensures var n, prior := |old(history.actions)|, old(history.actions);
        history.actions == if n > 0 && sectionHolders <= 1
                           then prior[n - 1 := prior[n - 1].(sectionMark := true)] else prior
      ensures old(SavedMarkHolds()) <==> SavedMarkHolds()
    {
      history.SetSectionMarkOnHistoryTop(sectionHolders);
    }

    method SetToSavedState(sectionHolders: nat)
      requires Valid()
      modifies this, history
      ensures Valid() && SavedStateIsKnown() && !modifiedFlag && saved == buffer == old(buffer)
      ensures |history.actions| == old(|history.actions|) && history.steps == old(history.steps)
      ensures var n, prior := history.nextActionIndex, old(history.actions);
        history.actions == if n > 0 && sectionHolders <= 1
                           then prior[n - 1 := prior[n - 1].(sectionMark := true, mergeStop := true)] else prior
      ensures history.start == old(history.start) && history.nextActionIndex == old(history.nextActionIndex)
      ensures history.savedActionIndex == history.nextActionIndex - 1
      ensures isReadOnlyFlag == old(isReadOnlyFlag) && filterCallback == old(filterCallback)
    {
      SetHistorySeparator(sectionHolders);
      history.SetPreviousActionToSavedState();
      modifiedFlag := false;
      saved := buffer;
    }

    // ----- undo and redo of whole sections

    method UndoInsert()
      requires history.Valid() && buffer == history.Document()
      requires history.PreviousActionType() == Insert
      modifies this`buffer, history
      ensures history.Valid() && buffer == history.Document() && history.SameRecord()
      ensures history.nextActionIndex == old(history.nextActionIndex) - 1
      ensures history.savedActionIndex == old(history.savedActionIndex)
    {
      ghost var n := history.nextActionIndex;
      ghost var s, before := history.steps[n - 1], history.DocumentAt(n - 1);
      assert Records(history.actions[n - 1], s) && FitsAt(history.start, history.steps, n - 1);
      OneStep(history.start, history.steps, n - 1);
      hide Replay, Stored, Consistent, Records, FitsAt;
      var prev := history.actions[history.nextActionIndex - 1];
      var pos, length := prev.textDataPos, prev.length;
      InsertionIsThere(before, s);
      InsertionRemoved(before, s);
      hide Apply, Fits;
      history.UndoInsertAction(buffer[pos..pos + length]);
      buffer := buffer[..pos] + buffer[pos + length..];
    }

    method UndoDelete()
      requires history.Valid() && buffer == history.Document()
      requires history.PreviousActionType() == Delete
      modifies this`buffer, history
      ensures history.Valid() && buffer == history.Document() && history.SameRecord()
      ensures history.nextActionIndex == old(history.nextActionIndex) - 1
      ensures history.savedActionIndex == old(history.savedActionIndex)
    {
      ghost var n := history.nextActionIndex;
      ghost var s, before := history.steps[n - 1], history.DocumentAt(n - 1);
      assert Records(history.actions[n - 1], s) && FitsAt(history.start, history.steps, n - 1);
      OneStep(history.start, history.steps, n - 1);
      hide Replay, Stored, Consistent, Records, FitsAt;
      var pos := history.actions[history.nextActionIndex - 1].textDataPos;
      var text := history.GetContentForUndoDeleteAction();
      DeletionUndone(before, s);
      hide Apply, Fits;
      buffer := buffer[..pos] + text + buffer[pos..];
      history.UndoDeleteAction();
    }

    method UndoOneAction(range: Range) returns (after: Range)
      requires history.Valid() && buffer == history.Document()
      modifies this`buffer, history
      ensures history.Valid() && buffer == history.Document() && history.SameRecord()
      ensures history.nextActionIndex
           == if old(history.nextActionIndex) == 0 then 0 else old(history.nextActionIndex) - 1
      ensures history.savedActionIndex == old(history.savedActionIndex)
      ensures after == if old(history.nextActionIndex) == 0 then range
                       else Over(history.actions[history.nextActionIndex], true, range)
    {
      ghost var n := history.nextActionIndex;
      if n > 0 {
        assert Records(history.actions[n - 1], history.steps[n - 1]) && FitsAt(history.start, history.steps, n - 1);
        OneStep(history.start, history.steps, n - 1);
      }
      hide Replay, Stored, Consistent, Records, FitsAt;
      match history.PreviousActionType()
      case Insert =>
        UndoInsert();
        var prev := history.actions[history.nextActionIndex];
        after := range.WithRemoved(prev.textDataPos, prev.length);
      case Delete =>
        UndoDelete();
        var prev := history.actions[history.nextActionIndex];
        after := range.WithInserted(prev.textDataPos, prev.length);
      case Select =>
        history.UndoSelectAction();
        var prev := history.actions[history.nextActionIndex];
        after := range.WithSelected(prev.textDataPos, prev.length);
      case NoAction =>
        after := range;
    }

    method RedoInsert()
      requires history.Valid() && buffer == history.Document()
      requires history.NextActionType() == Insert
      modifies this`buffer, history
      ensures history.Valid() && buffer == history.Document() && history.SameRecord()
      ensures history.nextActionIndex == old(history.nextActionIndex) + 1
      ensures history.savedActionIndex == old(history.savedActionIndex)
    {
      ghost var n := history.nextActionIndex;
      ghost var s, before := history.steps[n], history.DocumentAt(n);
      assert Records(history.actions[n], s) && FitsAt(history.start, history.steps, n);
      OneStep(history.start, history.steps, n);
      hide Replay, Stored, Consistent, Records, FitsAt;
      var pos := history.actions[history.nextActionIndex].textDataPos;
      var text := history.GetContentForRedoInsertAction();
      buffer := buffer[..pos] + text + buffer[pos..];
      history.RedoInsertAction();
    }

    method RedoDelete()
      requires history.Valid() && buffer == history.Document()
      requires history.NextActionType() == Delete
      modifies this`buffer, history
      ensures history.Valid() && buffer == history.Document() && history.SameRecord()
      ensures history.nextActionIndex == old(history.nextActionIndex) + 1
      ensures history.savedActionIndex == old(history.savedActionIndex)
    {
      ghost var n := history.nextActionIndex;
      ghost var s, before := history.steps[n], history.DocumentAt(n);
      assert Records(history.actions[n], s) && FitsAt(history.start, history.steps, n);
      OneStep(history.start, history.steps, n);
      hide Replay, Stored, Consistent, Records, FitsAt;
      var pos := history.actions[history.nextActionIndex].textDataPos;
      var length := history.actions[history.nextActionIndex].length;
      history.RedoDeleteAction(buffer[pos..pos + length], length);
      buffer := buffer[..pos] + buffer[pos + length..];
    }

    method RedoOneAction(range: Range) returns (after: Range)
      requires history.Valid() && buffer == history.Document()
      modifies this`buffer, history
      ensures history.Valid() && buffer == history.Document() && history.SameRecord()
      ensures history.nextActionIndex
           == old(history.nextActionIndex) + if old(history.nextActionIndex) == |history.actions| then 0 else 1
      ensures history.savedActionIndex == old(history.savedActionIndex)
      ensures after == if old(history.nextActionIndex) == |history.actions| then range
                       else Over(history.actions[old(history.nextActionIndex)], false, range)
    {
      ghost var n := history.nextActionIndex;
      if n < |history.actions| {
        assert Records(history.actions[n], history.steps[n]) && FitsAt(history.start, history.steps, n);
        OneStep(history.start, history.steps, n);
      }
      hide Replay, Stored, Consistent, Records, FitsAt;
      match history.NextActionType()
      case Insert =>
        RedoInsert();
        var next := history.actions[history.nextActionIndex - 1];
        after := range.WithInserted(next.textDataPos, next.length);
      case Delete =>
        RedoDelete();
        var next := history.actions[history.nextActionIndex - 1];
        after := range.WithRemoved(next.textDataPos, next.length);
      case Select =>
        history.RedoSelectAction();
        var next := history.actions[history.nextActionIndex - 1];
        after := range.WithSelected(next.textDataPos, next.length);
      case NoAction =>
        after := range;
    }

    method Undo() returns (mark: Option<int>, length: nat)
      requires Valid()
      modifies this, history
      ensures Valid() && history.SameRecord() && saved == old(saved) && isReadOnlyFlag == old(isReadOnlyFlag)
      ensures filterCallback == old(filterCallback)
      ensures history.savedActionIndex == old(history.savedActionIndex)
      ensures history.nextActionIndex
           == if isReadOnlyFlag then old(history.nextActionIndex)
              else PrevBoundary(history.actions, old(history.nextActionIndex))
      ensures isReadOnlyFlag ==> buffer == old(buffer) && modifiedFlag == old(modifiedFlag)
      ensures !isReadOnlyFlag ==> (modifiedFlag <==> !history.IsPreviousActionSavedState())
      ensures isReadOnlyFlag ==> mark == None && length == 0
      ensures !isReadOnlyFlag ==>
                var range := RangeBack(history.actions, old(history.nextActionIndex), history.nextActionIndex);
                && mark == range.Mark() && length == range.Length()
                && (AllCoveredBack(history.actions, old(history.nextActionIndex), history.nextActionIndex) ==>
                      Covers(old(buffer), buffer, range))
      ensures old(SavedMarkHolds()) <==> SavedMarkHolds()
      ensures !isReadOnlyFlag && SavedMarkHolds() && !modifiedFlag ==> buffer == saved
    {
      hide Replay, Stored, Consistent, Records, Over, Covers, Range.Mark, Range.Length;
      mark, length := None, 0;
      if !isReadOnlyFlag {
        var first, range := true, NOTHING;
        while first || !history.IsPreviousActionSectionSeparator()
          invariant history.Valid() && buffer == history.Document() && history.SameRecord()
          invariant history.savedActionIndex == old(history.savedActionIndex)
          invariant saved == old(saved) && !isReadOnlyFlag && filterCallback == old(filterCallback)
          invariant first ==> history.nextActionIndex == old(history.nextActionIndex)
          invariant PrevBoundary(history.actions, old(history.nextActionIndex))
                 == if first || !history.IsPreviousActionSectionSeparator()
                    then PrevBoundary(history.actions, history.nextActionIndex) else history.nextActionIndex
          invariant history.nextActionIndex <= old(history.nextActionIndex)
          invariant range == RangeBack(history.actions, old(history.nextActionIndex), history.nextActionIndex)
          decreases first, history.nextActionIndex
        {
          hide EditingHistory.Valid, EditingHistory.Document;
          range := UndoOneAction(range);
          first := false;
        }
        modifiedFlag := !history.IsPreviousActionSavedState();
        mark, length := range.Mark(), range.Length();
        if AllCoveredBack(history.actions, old(history.nextActionIndex), history.nextActionIndex) {
          UndoneIsCovered(history.start, history.actions, history.steps, old(history.nextActionIndex),
                          history.nextActionIndex);
        }
      }
    }

    method Redo() returns (mark: Option<int>, length: nat)
      requires Valid()
      modifies this, history
      ensures Valid() && history.SameRecord() && saved == old(saved) && isReadOnlyFlag == old(isReadOnlyFlag)
      ensures filterCallback == old(filterCallback)
      ensures history.savedActionIndex == old(history.savedActionIndex)
      ensures history.nextActionIndex
           == if isReadOnlyFlag then old(history.nextActionIndex)
              else NextBoundary(history.actions, old(history.nextActionIndex))
      ensures isReadOnlyFlag ==> buffer == old(buffer) && modifiedFlag == old(modifiedFlag)
      ensures !isReadOnlyFlag ==> (modifiedFlag <==> !history.IsPreviousActionSavedState())
      ensures isReadOnlyFlag ==> mark == None && length == 0
      ensures !isReadOnlyFlag ==>
                var range := RangeForth(history.actions, old(history.nextActionIndex), history.nextActionIndex);
                && mark == range.Mark() && length == range.Length()
                && (AllCoveredForth(history.actions, old(history.nextActionIndex), history.nextActionIndex) ==>
                      Covers(old(buffer), buffer, range))
      ensures old(SavedMarkHolds()) <==> SavedMarkHolds()
      ensures !isReadOnlyFlag && SavedMarkHolds() && !modifiedFlag ==> buffer == saved
    {
      hide Replay, Stored, Consistent, Records, Over, Covers, Range.Mark, Range.Length;
      mark, length := None, 0;
      if !isReadOnlyFlag {
        var first, range := true, NOTHING;
        while first || (history.nextActionIndex != |history.actions| && !history.IsPreviousActionSectionSeparator())
          invariant history.Valid() && buffer == history.Document() && history.SameRecord()
          invariant history.savedActionIndex == old(history.savedActionIndex)
          invariant saved == old(saved) && !isReadOnlyFlag && filterCallback == old(filterCallback)
          invariant first ==> history.nextActionIndex == old(history.nextActionIndex)
          invariant !first ==> history.nextActionIndex > 0 || history.actions == []
          invariant NextBoundary(history.actions, old(history.nextActionIndex))
                 == if first || (history.nextActionIndex != |history.actions|
                                 && !history.IsPreviousActionSectionSeparator())
                    then NextBoundary(history.actions, history.nextActionIndex) else history.nextActionIndex
          invariant old(history.nextActionIndex) <= history.nextActionIndex
          invariant range == RangeForth(history.actions, old(history.nextActionIndex), history.nextActionIndex)
          decreases first, |history.actions| - history.nextActionIndex
        {
          hide EditingHistory.Valid, EditingHistory.Document;
          range := RedoOneAction(range);
          first := false;
        }
        modifiedFlag := !history.IsPreviousActionSavedState();
        mark, length := range.Mark(), range.Length();
        if AllCoveredForth(history.actions, old(history.nextActionIndex), history.nextActionIndex) {
          RedoneIsCovered(history.start, history.actions, history.steps, old(history.nextActionIndex),
                          history.nextActionIndex);
        }
      }
    }
  }

  lemma {:induction false} InsertionApplied(doc: seq<byte>, pos: int, text: seq<byte>)
    requires 0 <= pos <= |doc|
    ensures Apply(doc, Step(Insert, pos, text)) == doc[..pos] + text + doc[pos..]
  {
  }

  lemma {:induction false} DeletionApplied(doc: seq<byte>, pos: int, amount: nat)
    requires 0 <= pos && pos + amount <= |doc|
    ensures Apply(doc, Step(Delete, pos, doc[pos..pos + amount])) == doc[..pos] + doc[pos + amount..]
  {
  }

  // ----- whole runs

  /** Undo and redo undo each other: every byte and every index is as before. */
  method UndoThenRedo(t: TextData)
    requires t.Valid() && !t.isReadOnlyFlag && t.history.nextActionIndex > 0
    modifies t, t.history
    ensures t.Valid() && t.buffer == old(t.buffer) && t.history.SameRecord()
    ensures t.history.nextActionIndex == old(t.history.nextActionIndex)
    ensures t.history.historyData == old(t.history.historyData)
    ensures t.history.historyDataIndex == old(t.history.historyDataIndex)
  {
    UndoAndRedoMeet(t.history.actions, t.history.nextActionIndex);
    var _, _ := t.Undo();
    var _, _ := t.Redo();
  }

  method RedoThenUndo(t: TextData)
    requires t.Valid() && !t.isReadOnlyFlag && t.history.nextActionIndex < |t.history.actions|
    modifies t, t.history
    ensures t.Valid() && t.buffer == old(t.buffer) && t.history.SameRecord()
    ensures t.history.nextActionIndex == old(t.history.nextActionIndex)
    ensures t.history.historyData == old(t.history.historyData)
    ensures t.history.historyDataIndex == old(t.history.historyDataIndex)
  {
    UndoAndRedoMeet(t.history.actions, t.history.nextActionIndex);
    var _, _ := t.Redo();
    var _, _ := t.Undo();
  }

  /** What an editor does to a document, in any order. */
  datatype Command =
    | InsertText(pos: int, text: seq<byte>)
    | RemoveText(pos: int, amount: nat)
    | ChangeArea(spos: int, epos: int)
    | UndoSection
    | RedoSection
    | SetSeparator(sectionHolders: nat)
    | SetMergableSeparator(sectionHolders: nat)
    | FlushUpdates(sectionHolders: nat)
    | Save(sectionHolders: nat)
    | ClearHistory
    | CheckFile(writable: Option<bool>)

  predicate Applicable(c: Command, length: nat) {
    match c
    case InsertText(pos, _) => 0 <= pos <= length
    case RemoveText(pos, amount) => 0 <= pos && pos + amount <= length
    case _ => true
  }

  /** What a command does to the document. Undo and redo go by the record. */
  predicate HasEffect(c: Command, readOnly: bool, filter: Filter, doc: seq<byte>, after: seq<byte>) {
    if readOnly || !Applicable(c, |doc|) then after == doc
    else
      match c
      case InsertText(pos, text) => after == doc[..pos] + FilteredBy(filter, text) + doc[pos..]
      case RemoveText(pos, amount) => after == doc[..pos] + doc[pos + amount..]
      case UndoSection => true
      case RedoSection => true
      case _ => after == doc
  }

  function ReadOnlyAfter(c: Command, readOnly: bool): bool {
    if c.CheckFile? && c.writable.Some? then !c.writable.value else readOnly
  }

  /** The command does not record anything that would cut off or change the saved place. */
  predicate LeavesSavedPlace(t: TextData, c: Command)
    requires t.history.nextActionIndex <= |t.history.actions|
    reads t, t.history
  {
    match c
    case InsertText(pos, text) =>
      t.isReadOnlyFlag || t.Filtered(text) == [] || t.LeavesSavedPlace(t.history.MergesInsert(pos))
    case RemoveText(pos, amount) =>
      t.isReadOnlyFlag || amount == 0 || t.LeavesSavedPlace(t.history.MergesDelete(pos, amount))
    case ChangeArea(_, _) => t.LeavesSavedPlace(false)
    case ClearHistory => !t.modifiedFlag
    case _ => true
  }

  /** What decides whether the saved marker still holds after the command. */
  twostate predicate MarkSurvives(t: TextData, c: Command)
    requires old(t.history.nextActionIndex <= |t.history.actions|)
    reads t, t.history
  {
    match c
    case InsertText(pos, text) =>
      old(t.isReadOnlyFlag || t.Filtered(text) == []) || t.SavedMarkSurvives(old(t.history.MergesInsert(pos)))
    case RemoveText(pos, amount) =>
      old(t.isReadOnlyFlag) || amount == 0 || t.SavedMarkSurvives(old(t.history.MergesDelete(pos, amount)))
    case ChangeArea(_, _) => t.SavedMarkSurvives(false)
    case ClearHistory => t.buffer == t.saved
    case _ => true
  }

  method Execute(t: TextData, c: Command)
    requires t.Valid() && Applicable(c, |t.buffer|)
    modifies t, t.history
    ensures t.Valid() && t.isReadOnlyFlag == ReadOnlyAfter(c, old(t.isReadOnlyFlag))
    ensures t.filterCallback == old(t.filterCallback)
    ensures t.history.start == if c.ClearHistory? then old(t.buffer) else old(t.history.start)
    ensures t.saved == if c.Save? then old(t.buffer) else old(t.saved)
    ensures c.Save? ==> t.SavedStateIsKnown()
    ensures old(t.SavedMarkHolds()) ==> (t.SavedMarkHolds() <==> MarkSurvives(t, c))
    ensures old(t.SavedStateIsKnown()) ==> (t.SavedStateIsKnown() <==> MarkSurvives(t, c))
    ensures HasEffect(c, old(t.isReadOnlyFlag), t.filterCallback, old(t.buffer), t.buffer)
    ensures c.UndoSection? || c.RedoSection? ==> t.history.SameRecord()
  {
    hide Replay, Stored, Consistent, Records, EditingHistory.Valid, EditingHistory.Document;
    match c
    case InsertText(pos, text) =>
      var _ := t.InsertAtMark(pos, text);
    case RemoveText(pos, amount) => t.RemoveAtMark(pos, amount);
    case ChangeArea(spos, epos) => t.RememberChangeAreaInHistory(spos, epos);
    case UndoSection => var _, _ := t.Undo();
    case RedoSection => var _, _ := t.Redo();
    case SetSeparator(holders) => t.SetHistorySeparator(holders);
    case SetMergableSeparator(holders) => t.SetMergableHistorySeparator(holders);
    case FlushUpdates(holders) => t.FlushPendingUpdates(holders);
    case Save(holders) => t.SetToSavedState(holders);
    case ClearHistory => t.ClearHistory();
    case CheckFile(writable) => t.CheckFileInfo(writable);
  }

  /** Whether the document can be edited after the first `n` commands. */
  function ReadOnlyAt(readOnly: bool, commands: seq<Command>, n: nat): bool
    requires n <= |commands|
  {
    if n == 0 then readOnly else ReadOnlyAfter(commands[n - 1], ReadOnlyAt(readOnly, commands, n - 1))
  }

  /** Where undo ends after the first `n` commands: at the document that was there when the history was last cleared. */
  function Origin(start: seq<byte>, docs: seq<seq<byte>>, commands: seq<Command>, n: nat): seq<byte>
    requires n <= |commands| && n <= |docs|
  {
    if n == 0 then start
    else if commands[n - 1].ClearHistory? then docs[n - 1]
    else Origin(start, docs, commands, n - 1)
  }

  lemma {:induction false} OriginIsStart(start: seq<byte>, docs: seq<seq<byte>>, commands: seq<Command>, n: nat)
    requires n <= |commands| && n <= |docs|
    requires forall i | 0 <= i < n :: !commands[i].ClearHistory?
    ensures Origin(start, docs, commands, n) == start
  {
    if n > 0 { OriginIsStart(start, docs, commands, n - 1); }
  }

  /** `docs` are the documents before, between and after the commands of a run. */
  predicate IsHistoryOf(docs: seq<seq<byte>>, commands: seq<Command>, readOnly: bool, filter: Filter, n: nat) {
    && n <= |commands| && |docs| == n + 1
    && forall i | 0 <= i < n ::
         HasEffect(commands[i], ReadOnlyAt(readOnly, commands, i), filter, docs[i], docs[i + 1])
  }

  lemma {:induction false} SameOrigin(start: seq<byte>, docs: seq<seq<byte>>, doc: seq<byte>, commands: seq<Command>,
                                      n: nat)
    requires n <= |commands| && n <= |docs|
    ensures Origin(start, docs + [doc], commands, n) == Origin(start, docs, commands, n)
  {
    if n > 0 { SameOrigin(start, docs, doc, commands, n - 1); }
  }

  lemma {:induction false} OneMoreCommand(start: seq<byte>, docs: seq<seq<byte>>, doc: seq<byte>,
                                          commands: seq<Command>, readOnly: bool, filter: Filter, n: nat)
    requires n < |commands| && IsHistoryOf(docs, commands, readOnly, filter, n)
    requires HasEffect(commands[n], ReadOnlyAt(readOnly, commands, n), filter, docs[n], doc)
    ensures IsHistoryOf(docs + [doc], commands, readOnly, filter, n + 1)
    ensures ReadOnlyAt(readOnly, commands, n + 1)
         == ReadOnlyAfter(commands[n], ReadOnlyAt(readOnly, commands, n))
    ensures Origin(start, docs + [doc], commands, n + 1)
         == if commands[n].ClearHistory? then docs[n] else Origin(start, docs, commands, n)
  {
    hide HasEffect;
    SameOrigin(start, docs, doc, commands, n);
  }

  lemma {:induction false} NotApplicable(c: Command, readOnly: bool, filter: Filter, doc: seq<byte>)
    requires !Applicable(c, |doc|)
    ensures HasEffect(c, readOnly, filter, doc, doc) && !c.ClearHistory? && ReadOnlyAfter(c, readOnly) == readOnly
  {
  }

  /**
   * After any run of commands, however its actions were merged, replaying the recorded actions up to the current
   * place gives the document, starting from the one that was there when the history was last cleared.
   */
  method ExecuteAll(t: TextData, commands: seq<Command>) returns (ghost docs: seq<seq<byte>>)
    requires t.Valid()
    modifies t, t.history
    ensures t.Valid() && t.isReadOnlyFlag == ReadOnlyAt(old(t.isReadOnlyFlag), commands, |commands|)
    ensures IsHistoryOf(docs, commands, old(t.isReadOnlyFlag), t.filterCallback, |commands|)
    ensures t.filterCallback == old(t.filterCallback) && docs[0] == old(t.buffer) && docs[|commands|] == t.buffer
    ensures t.history.start == Origin(old(t.history.start), docs, commands, |commands|)
    ensures t.buffer == Replay(t.history.start, t.history.steps[..t.history.nextActionIndex])
    ensures Stored(t.history.steps, t.history.nextActionIndex, t.history.historyData, t.history.historyDataIndex)
  {
    hide Replay, Stored, Consistent, Records;
    docs := [t.buffer];
    var i := 0;
    while i < |commands|
      invariant 0 <= i <= |commands| && t.Valid()
      invariant t.isReadOnlyFlag == ReadOnlyAt(old(t.isReadOnlyFlag), commands, i)
      invariant t.filterCallback == old(t.filterCallback)
      invariant IsHistoryOf(docs, commands, old(t.isReadOnlyFlag), t.filterCallback, i)
      invariant docs[0] == old(t.buffer) && docs[i] == t.buffer
      invariant t.history.start == Origin(old(t.history.start), docs, commands, i)
    {
      hide *;
      if Applicable(commands[i], |t.buffer|) {
        Execute(t, commands[i]);
      } else {
        NotApplicable(commands[i], t.isReadOnlyFlag, t.filterCallback, t.buffer);
      }
      OneMoreCommand(old(t.history.start), docs, t.buffer, commands, old(t.isReadOnlyFlag), t.filterCallback, i);
      docs := docs + [t.buffer];
      i := i + 1;
    }
  }

  /**
   * As long as every edit of a run leaves the saved place, the saved marker holds, and whenever the document counts as
   * unmodified it is the saved one, whatever was undone and redone. The run stops before the first other edit.
   */
  method ExecuteWhileSavedPlaceStays(t: TextData, commands: seq<Command>) returns (done: nat)
    requires t.Valid() && t.SavedStateIsKnown()
    modifies t, t.history
    ensures t.Valid() && t.SavedStateIsKnown() && done <= |commands|
    ensures done < |commands| ==> Applicable(commands[done], |t.buffer|) && !LeavesSavedPlace(t, commands[done])
    ensures (forall i | 0 <= i < done :: !commands[i].Save?) ==> t.saved == old(t.saved)
  {
    done := 0;
    while done < |commands|
      invariant 0 <= done <= |commands|
      invariant t.Valid() && t.SavedStateIsKnown()
      invariant (forall i | 0 <= i < done :: !commands[i].Save?) ==> t.saved == old(t.saved)
    {
      if Applicable(commands[done], |t.buffer|) {
        if !LeavesSavedPlace(t, commands[done]) {
          return;
        }
        Execute(t, commands[done]);
      }
      done := done + 1;
    }
  }

  /** Once the document is writable again, undoing everything restores what was there when recording last began. */
  method ExecuteAndUndoEverything(t: TextData, commands: seq<Command>) returns (ghost docs: seq<seq<byte>>)
    requires t.Valid()
    modifies t, t.history
    ensures IsHistoryOf(docs, commands, old(t.isReadOnlyFlag), old(t.filterCallback), |commands|)
    ensures docs[0] == old(t.buffer)
    ensures t.buffer == Origin(old(t.history.start), docs, commands, |commands|)
    ensures (forall i | 0 <= i < |commands| :: !commands[i].ClearHistory?) ==> t.buffer == old(t.history.start)
  {
    docs := ExecuteAll(t, commands);
    t.CheckFileInfo(Some(true));
    UndoEverything(t);
    if forall i | 0 <= i < |commands| :: !commands[i].ClearHistory? {
      OriginIsStart(old(t.history.start), docs, commands, |commands|);
    }
  }

  // ----- what one undo takes back

  /** An edit that is recorded. */
  datatype Edit =
    | Insertion(pos: int, text: seq<byte>)
    | Removal(pos: int, amount: nat)
    | Selection(spos: int, epos: int)

  predicate CanRecord(t: TextData, e: Edit)
    reads t
  {
    match e
    case Insertion(pos, text) => 0 <= pos <= |t.buffer| && t.Filtered(text) != []
    case Removal(pos, amount) => 0 <= pos && 0 < amount && pos + amount <= |t.buffer|
    case Selection(_, _) => true
  }

  /** The edit is of the kind of the last action, which has no merge stop, and touches its text. */
  predicate ContinuesLast(actions: seq<Action>, n: nat, e: Edit)
    requires n <= |actions|
  {
    && n > 0 && !actions[n - 1].mergeStop
    && var from, to := actions[n - 1].textDataPos, actions[n - 1].textDataPos + actions[n - 1].length;
       match e
       case Insertion(pos, _) => actions[n - 1].kind == Insert && (pos == from || pos == to)
       case Removal(pos, amount) => actions[n - 1].kind == Delete && pos <= from <= pos + amount
       case Selection(_, _) => false
  }

  /** An edit is an action of its own exactly if it does not continue the last one; new actions end no section. */
  method Record(t: TextData, e: Edit)
    requires t.Valid() && !t.isReadOnlyFlag && CanRecord(t, e)
    modifies t, t.history
    ensures t.Valid() && !t.isReadOnlyFlag && t.history.start == old(t.history.start)
    ensures t.filterCallback == old(t.filterCallback)
    ensures t.history.nextActionIndex == |t.history.actions|
    ensures var n, prior := old(t.history.nextActionIndex), old(t.history.actions);
      if ContinuesLast(prior, n, e)
      then |t.history.actions| == n && t.history.actions[..n - 1] == prior[..n - 1]
           && t.history.actions[n - 1].sectionMark == prior[n - 1].sectionMark
      else |t.history.actions| == n + 1 && t.history.actions[..n] == prior[..n] && !t.history.actions[n].sectionMark
    ensures |t.history.steps| == |t.history.actions|
    ensures t.history.steps[..|t.history.steps| - 1] == old(t.history.steps)[..|t.history.steps| - 1]
  {
    hide Replay, Stored, Consistent, Records;
    match e
    case Insertion(pos, text) =>
      var _ := t.InsertAtMark(pos, text);
    case Removal(pos, amount) => t.RemoveAtMark(pos, amount);
    case Selection(spos, epos) => t.RememberChangeAreaInHistory(spos, epos);
  }

  /** A place at which a section ends, behind which an edit was recorded: one undo goes back there. */
  method UndoBackTo(t: TextData, ghost n: nat, ghost doc: seq<byte>)
    requires t.Valid() && !t.isReadOnlyFlag && n < t.history.nextActionIndex == |t.history.actions|
    requires n == 0 || t.history.actions[n - 1].sectionMark
    requires forall k | n <= k < |t.history.actions| - 1 :: !t.history.actions[k].sectionMark
    requires doc == t.history.DocumentAt(n)
    modifies t, t.history
    ensures t.Valid() && !t.isReadOnlyFlag && t.history.nextActionIndex == n && t.buffer == doc
  {
    hide Replay, Stored, Consistent, Records;
    PrevBoundaryIsLast(t.history.actions, n, t.history.nextActionIndex);
    var _, _ := t.Undo();
  }

  /** After a separator an edit is always an action of its own, and one undo takes it back. */
  method EditBehindSeparator(t: TextData, sectionHolders: nat, e: Edit) returns (recorded: nat)
    requires t.Valid() && !t.isReadOnlyFlag && CanRecord(t, e) && sectionHolders <= 1
    modifies t, t.history
    ensures t.Valid() && t.buffer == old(t.buffer)
    ensures t.history.nextActionIndex == old(t.history.nextActionIndex) == recorded - 1
  {
    hide Replay, Stored, Consistent, Records;
    ghost var doc, n := t.buffer, t.history.nextActionIndex;
    t.SetHistorySeparator(sectionHolders);
    ghost var steps := t.history.steps;
    Record(t, e);
    recorded := |t.history.actions|;
    assert t.history.steps[..n] == steps[..n];
    UndoBackTo(t, n, doc);
  }

  /** After a flush the same holds for an edit that does not continue the last action. */
  method EditBehindFlush(t: TextData, sectionHolders: nat, e: Edit) returns (recorded: nat)
    requires t.Valid() && !t.isReadOnlyFlag && CanRecord(t, e) && sectionHolders <= 1
    requires !ContinuesLast(t.history.actions, t.history.nextActionIndex, e)
    modifies t, t.history
    ensures t.Valid() && t.buffer == old(t.buffer)
    ensures t.history.nextActionIndex == old(t.history.nextActionIndex) == recorded - 1
  {
    hide Replay, Stored, Consistent, Records;
    ghost var doc, n := t.buffer, t.history.nextActionIndex;
    t.FlushPendingUpdates(sectionHolders);
    ghost var steps := t.history.steps;
    Record(t, e);
    recorded := |t.history.actions|;
    assert t.history.steps[..n] == steps[..n];
    UndoBackTo(t, n, doc);
  }

  lemma {:induction false} StillMarked(actions: seq<Action>, marked: seq<Action>, n: nat)
    requires n <= |actions| && n <= |marked| && actions[..n] == marked[..n]
    ensures n > 0 ==> actions[n - 1] == marked[n - 1]
  {
    if n > 0 { assert actions[..n][n - 1] == marked[..n][n - 1]; }
  }

  lemma {:induction false} PrefixStays<T>(now: seq<T>, was: seq<T>, m: nat, n: nat)
    requires n <= m <= |now| && m <= |was| && now[..m] == was[..m]
    ensures now[..n] == was[..n]
  {
    assert now[..n] == now[..m][..n] && was[..n] == was[..m][..n];
  }

  /** However many edits follow a separator, and however they are merged, one undo takes back all of them. */
  method SectionBehindSeparator(t: TextData, sectionHolders: nat, edits: seq<Edit>)
    requires t.Valid() && !t.isReadOnlyFlag && sectionHolders <= 1
    modifies t, t.history
    ensures t.Valid() && t.buffer == old(t.buffer) && t.history.nextActionIndex == old(t.history.nextActionIndex)
  {
    hide Replay, Stored, Consistent, Records;
    ghost var doc, n := t.buffer, t.history.nextActionIndex;
    t.SetHistorySeparator(sectionHolders);
    ghost var steps, marked := t.history.steps, t.history.actions;
    var i, any := 0, false;
    while i < |edits|
      invariant 0 <= i <= |edits| && t.Valid() && !t.isReadOnlyFlag
      invariant n <= t.history.nextActionIndex && n <= |t.history.steps| == |t.history.actions|
      invariant t.history.actions[..n] == marked[..n] && t.history.steps[..n] == steps[..n]
      invariant t.history.start == old(t.history.start)
      invariant any <==> n < t.history.nextActionIndex
      invariant any ==> t.history.nextActionIndex == |t.history.actions|
      invariant any ==> forall k | n <= k < |t.history.actions| :: !t.history.actions[k].sectionMark
      invariant !any ==> t.buffer == doc && t.history.actions == marked
    {
      if CanRecord(t, edits[i]) {
        hide TextData.Valid, EditingHistory.Valid;
        StillMarked(t.history.actions, marked, n);
        ghost var was, prior := t.history.steps, t.history.actions;
        Record(t, edits[i]);
        PrefixStays(t.history.steps, was, |t.history.steps| - 1, n);
        PrefixStays(t.history.actions, prior, |t.history.actions| - 1, n);
        any := true;
      }
      i := i + 1;
    }
    if any {
      StillMarked(t.history.actions, marked, n);
      UndoBackTo(t, n, doc);
    }
  }

  // ----- undo and redo by single actions

  datatype Direction = Back | Forth

  /** Going back and forth in any way changes nothing that is recorded, and the place alone determines the rest. */
  method Walk(t: TextData, walk: seq<Direction>)
    requires t.history.Valid() && t.buffer == t.history.Document()
    modifies t`buffer, t.history
    ensures t.history.Valid() && t.history.SameRecord() && t.history.savedActionIndex == old(t.history.savedActionIndex)
    ensures var steps, n := t.history.steps, t.history.nextActionIndex;
      && t.buffer == Replay(t.history.start, steps[..n])
      && t.history.historyData == DeletedText(steps[..n]) + InsertedText(steps[n..])
      && t.history.historyDataIndex == |DeletedText(steps[..n])|
  {
    hide Replay, Consistent, Records;
    var i := 0;
    while i < |walk|
      invariant 0 <= i <= |walk|
      invariant t.history.Valid() && t.buffer == t.history.Document() && t.history.SameRecord()
      invariant t.history.savedActionIndex == old(t.history.savedActionIndex)
    {
      if walk[i] == Back {
        var _ := t.UndoOneAction(NOTHING);
      } else {
        var _ := t.RedoOneAction(NOTHING);
      }
      i := i + 1;
    }
  }

  /** Two walks that end at the same place end with the same document and the same buffer, split at the same index. */
  method TwoWalks(t: TextData, first: seq<Direction>, second: seq<Direction>)
    returns (place: nat, buffer: seq<byte>, data: seq<byte>, index: nat)
    requires t.history.Valid() && t.buffer == t.history.Document()
    modifies t`buffer, t.history
    ensures t.history.Valid() && t.history.SameRecord()
    ensures place == t.history.nextActionIndex ==>
      buffer == t.buffer && data == t.history.historyData && index == t.history.historyDataIndex
  {
    hide Replay, Stored, Consistent, Records, DeletedText, InsertedText;
    Walk(t, first);
    place, buffer := t.history.nextActionIndex, t.buffer;
    data, index := t.history.historyData, t.history.historyDataIndex;
    Walk(t, second);
  }

  /** Undoing until nothing is left to undo restores the starting document byte for byte. */
  method UndoEverything(t: TextData)
    requires t.Valid() && !t.isReadOnlyFlag
    modifies t, t.history
    ensures t.Valid() && t.buffer == t.history.start == old(t.history.start)
  {
    while t.history.nextActionIndex != 0
      invariant t.Valid() && !t.isReadOnlyFlag && t.history.start == old(t.history.start)
      decreases t.history.nextActionIndex
    {
      BoundariesBetween(t.history.actions, t.history.nextActionIndex);
      var _, _ := t.Undo();
    }
  }

  /** An empty document after a text was typed, saved and undone. */
  method TypeSaveAndUndo() returns (t: TextData)
    ensures fresh(t) && fresh(t.history) && t.Valid() && !t.isReadOnlyFlag && t.filterCallback == None
    ensures t.buffer == t.history.start == [] && t.saved == [97]
    ensures t.history.nextActionIndex == 0 && t.history.savedActionIndex == 0
  {
    hide Replay, Stored, Consistent, Records;
    hide TextData.SavedMarkHolds, TextData.SavedMarkSurvives, TextData.LeavesSavedPlace;
    hide WithInsert, RangeBack, RangeForth, AllCoveredBack, AllCoveredForth, Covers;
    t := new TextData([]);
    var n := t.InsertAtMark(0, [97]);
    t.SetToSavedState(0);
    assert |t.history.actions| == 1 && t.history.nextActionIndex == 1;
    var _, _ := t.Undo();
    assert t.history.nextActionIndex == 0 && t.history.steps[..0] == [];
    NothingReplayed(t.history.start);
  }

  lemma {:induction false} NothingReplayed(doc: seq<byte>)
    ensures Replay(doc, []) == doc
  {
  }

  /**
   * The saved marker is only an index. An edit made below the saved place leaves the index where it
   * was, and after undo and redo it names another document: the text counts as unmodified although
   * it is not what was saved.
   */
  method SavedMarkGoesStale() returns (t: TextData)
    ensures t.Valid() && !t.modifiedFlag && t.saved == [97] && t.buffer == [98]
  {
    hide Replay, Stored, Consistent, Records;
    hide WithInsert, RangeBack, RangeForth, AllCoveredBack, AllCoveredForth, Covers;
    t := TypeSaveAndUndo();
    var n := t.InsertAtMark(0, [98]);
    assert t.buffer == [98] && t.history.nextActionIndex == |t.history.actions| == 1;
    ghost var steps := t.history.steps;
    assert Replay(t.history.start, steps[..1]) == [98];
    var _, _ := t.Undo();
    assert t.history.nextActionIndex == 0;
    var _, _ := t.Redo();
    assert t.history.nextActionIndex == 1 && t.history.steps == steps;
  }

  /**
   * Clearing the history moves the saved marker to the present document: here a text that was never saved counts as
   * unmodified once an edit behind it is undone.
   */
  method ClearedHistoryCountsAsSaved() returns (t: TextData)
    ensures t.Valid() && !t.modifiedFlag && t.saved == [] && t.buffer == [97]
  {
    hide Replay, Stored, Consistent, Records;
    hide WithInsert, RangeBack, RangeForth, AllCoveredBack, AllCoveredForth, Covers;
    t := new TextData([]);
    var n := t.InsertAtMark(0, [97]);
    t.ClearHistory();
    assert t.buffer == t.history.start == [97];
    n := t.InsertAtMark(1, [98]);
    var _, _ := t.Undo();
    assert t.history.nextActionIndex == 0 && t.history.steps[..0] == [];
    NothingReplayed(t.history.start);
  }

  /**
   * Undo can select less than it changed: three bytes at 1 and then one at 2 are deleted in one section. Undoing it
   * selects 1..4, although the byte that comes back at 5 was deleted, too.
   */
  method UndoSelectsTooLittle() returns (t: TextData, deleted: seq<byte>, mark: Option<int>, length: nat)
    ensures t.Valid() && deleted == [10, 14] && t.buffer == [10, 11, 12, 13, 14, 15]
    ensures mark == Some(1) && length == 3 && !Covers(deleted, t.buffer, Range(mark, 1 + length))
  {
    hide Replay, Stored, Consistent, Records;
    t := new TextData([10, 11, 12, 13, 14, 15]);
    t.RemoveAtMark(1, 3);
    assert t.buffer == [10, 14, 15] && t.history.actions == [Action(Delete, 1, 3, false, false)];
    t.RemoveAtMark(2, 1);
    assert t.buffer == [10, 14];
    deleted := t.buffer;
    ghost var actions := [Action(Delete, 1, 3, false, false), Action(Delete, 2, 1, false, false)];
    assert t.history.actions == actions;
    assert PrevBoundary(actions, 1) == 0 && PrevBoundary(actions, 2) == 0;
    assert RangeBack(actions, 2, 2) == NOTHING && RangeBack(actions, 2, 1) == Range(Some(2), 3);
    mark, length := t.Undo();
    NothingReplayed(t.history.start);
  }
}
