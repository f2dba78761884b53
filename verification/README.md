# LucED: a verified model of its editing core

LucED is a text editor for X11. This project models the parts of it whose correctness depends on state that
several operations have to keep consistent, and proves what they keep.

- **Highlighting breaks** (`BreakList.dfy`, `HilitingBase.dfy`). The highlighter stores its breaks as distances to the
  next break, beside one byte buffer that holds all pattern stacks, and any number of cursors cache positions in both.
  `BreakList` relates this encoding to a plain list of (start, length, type, stack). `HilitingBase` is the class whose
  methods edit the arrays in place: every method is proved against an operation on the plain list, and every cursor
  in use stays coherent over any run of operations.
- **Undo and redo** (`EditingHistory.dfy`, `TextData.dfy`, `SelectedRange.dfy`). The list of actions with merging, the
  byte buffer that is split at an index, the document that is edited through them, and the range that is selected
  afterwards. A ghost list of steps gives each action its text.
- **Transcoding** (`Bytes.dfy`, `Utf8.dfy`, `EncodingConverter.dfy`, `Latin1RoundTrip.dfy`, `Latin1Text.dfy`). The
  converter for UTF-8 and Latin-1, the conversion in place through a moving gap, the conversion to a file and the string
  helpers, all against one one-shot conversion, and that in turn against ranges of bytes. The decoder is compared with
  the syntax of section 4 of RFC 3629.
- **Layout** (`GuiLayouter.dfy`). The distribution of an extent over elements, with its rounding errors.
- **Reference counting** (`HeapObject.dfy`). The counter operations, and a step system for one object and all the
  references to it, including those that come and go while the destructor runs.
- **Key bindings** (`ActionKeyConfig.dfy`, `ActionKeySequenceHandler.dfy`). The trie of key sequences with its two-way
  index, and the handler that key presses drive through it.
- **Event loop** (`KeyReleaseCompaction.dfy`, `ProcessScheduler.dfy`). Dropping autorepeated key events that wait in the
  queue, and the turns of the background processes.
- **Command lines** (`Commandline.dfy`, `CommandlineInterpreter.dfy`, `CommandlineOptions.dfy`). Printing and reading
  back quoted arguments, what options mean, and the client and the server that interpret the same command line.

Where the program calls what is not modelled, the answers are parameters: the attempts to run an action, which process
is enabled and needs processing, the absolute name of a file, the number a string stands for.

What was found where the program does not do what one would expect, each with an input and the exact condition:

- A handle to a cursor that is copied and then dropped frees the slot of the copy that lives on
  (`SharedHandleLosesItsSlot`; `ReleaseIterator` and `CreateNewIterator` say exactly when). If such a copy is the
  restart cursor of a text update, deleted text keeps its breaks (`SharedHandleMissesUpdate`): in a list whose breaks do
  not overlap the update is done exactly unless that cursor has the slot at the free index and there are breaks behind
  the change (`TreatTextDataUpdate`). Every cursor stays coherent all the same, whatever is copied, assigned and updated
  (`PerformAll`).
- The mark of the saved state can name another document after undo, an edit and redo (`SavedMarkGoesStale`), or after
  the history was cleared (`ClearedHistoryCountsAsSaved`). An edit spoils the mark exactly if it changes or cuts off the
  saved place and does not lead to the saved document again, and clearing exactly if the document is not the saved one
  (`InsertAtMark`, `RemoveAtMark`, `ClearHistory`, `Execute`).
- Undo and redo can select less than they changed (`UndoSelectsTooLittle`). One more restored text is covered exactly if
  it does not begin in front of the end of the range and reach behind it (`InsertedIsCoveredIff`); if that never
  happens, nothing outside the selection differs (`UndoneIsCovered`, `RedoneIsCovered`).
- The converter to Latin-1 reports success for text that is not well-formed and does not come back
  (`StrayFollowersPass`); a success can be undone exactly if the text was well-formed
  (`SuccessIsReversibleIffWellFormed`). Which texts succeed is stated in ranges of bytes (`ConvertedByRanges`).
- The layouter can leave much of the extent unused, by rounding (`SkippingStarves`) or by a raster
  (`RasteringStarves`). Elements are turned away exactly if the rounded shares exceed what the pot holds
  (`NoneTurnedAwayIff`, `TailIsServedIff`, `PotIsUsedUp`); what stays unused is less than the share of each of them
  (`UnusedIsLessThanShare`).
- The layouter can give an element more than its maximum (`RasteringExceedsMaximum`), exactly if the element is rastered
  and its slack is no whole number of steps (`RasterExceedsIff`, `SomeRowExceedsIff`).
- Empty command-line arguments are lost, but for one case (`RoundTrip`), which can turn a file name into an instance
  name (`EmptyInstanceNameIsLost`). The server gets what the client got exactly if the rewritten arguments survive
  (`ServerAgrees`). The "only if" half rests on the arguments being part of what is compared; flags, instance name and
  files alone can agree although arguments were lost (`LossCanGoUnnoticed`).
- The counting survives the end of a destructor exactly if that left no owning reference behind
  (`LeftoverOwnersBreakIt`, `LeftoverOwner`).

Every lemma carries `{:induction false}`, so that no proof depends on induction hypotheses which the verifier adds by
itself.

## Model

| member | source | states |
|---|---|---|
| BreakList.InitialList | editor/HilitingBase.cpp:27-39 | the initial arrays stand for the list that holds only the sentinel with stack byte 0, ending at position 0 |
| BreakList.StackPosIncreases | editor/HilitingBase.cpp:164-168 | because no stack is empty, later breaks have strictly later stack positions, so a stack position tells on which side of a range a cursor stands |
| BreakList.SpliceRefines | editor/HilitingBase.cpp:137-179 | replacing breaks and stack bytes in the delta-encoded arrays is replacing them in the plain list: no other break changes its start, length, type or stack |
| BreakList.SpliceStaysOrdered | editor/HilitingBase.cpp:263-306 | a splice whose parts do not overlap leaves breaks that do not overlap |
| BreakList.ShiftRefines | editor/HilitingBase.cpp:212-217 | changing one distance shifts the starts of all later breaks by the same amount and nothing else |
| BreakList.RunIsFilling | editor/HilitingBase.cpp:282-306 | the run of equal stored breaks with copied stacks stands for the filling: breaks at equal distances, each with its own copy of the stack |
| HilitingBase.HilitingBase.constructor | editor/HilitingBase.cpp:27-39 | a valid list with only the sentinel, one free slot |
| HilitingBase.HilitingBase.Clear | editor/HilitingBase.cpp:41-63 | back to the sentinel; every cursor in use stands at it, and no slot changes owner |
| HilitingBase.HilitingBase.CreateNewIterator | editor/HilitingBase.cpp:65-87 | the new cursor stands at the sentinel, all others are untouched; its slot is the one at the free index, or else the first that is not in use, or else a new one; a live slot is handed out again exactly if the slot at the free index is live |
| HilitingBase.HilitingBase.ShareIterator | editor/HilitingBase.hpp:55-59 | copying a handle counts one more use of the same slot |
| HilitingBase.HilitingBase.ReleaseIterator | editor/HilitingBase.hpp:49-54 | dropping a handle; the rule that free slots follow the free index survives exactly if the handle was the last one or another slot is below the index |
| HilitingBase.HilitingBase.AssignIterator | editor/HilitingBase.hpp:60-66 | assigning a handle: its old slot loses a user and the new one gains one; the free index stays, even if the slot below it gets free |
| HilitingBase.SharedHandleLosesItsSlot | editor/HilitingBase.hpp:49-54 | counterexample: a slot that is in use by a live, once shared handle is handed out again, so that two cursors count on it |
| HilitingBase.SharedHandleMissesUpdate | editor/HilitingBase.cpp:193-201 | counterexample: with such a handle as restart cursor a break inside deleted text stays in the list |
| HilitingBase.HilitingBase.CopyToIteratorFromIterator | editor/HilitingBase.hpp:124-130 | the destination stands where the source stands, and stays in use as before |
| HilitingBase.HilitingBase.IncIterator | editor/HilitingBase.hpp:224-231 | one break further, still coherent |
| HilitingBase.HilitingBase.DecIterator | editor/HilitingBase.hpp:235-244 | one break back, still coherent |
| HilitingBase.HilitingBase.MoveIteratorToNearest | editor/HilitingBase.cpp:92-109 | whichever start is chosen, the cursor is coherent, stands where it, the sentinel or another live cursor stood, and no other cursor moves |
| HilitingBase.HilitingBase.RetreatIterator | editor/HilitingBase.cpp:126-133 | the backward scan ends, at the last break that ends at or before the position |
| HilitingBase.HilitingBase.AdvanceIterator | editor/HilitingBase.cpp:118-125 | the forward scan ends, at the last break that ends at or before the position |
| HilitingBase.HilitingBase.MoveIteratorToNextBefore | editor/HilitingBase.cpp:90-135 | the result is a real break that ends at or before the position; its successor ends at or after it, strictly after unless the break ends exactly there; no other cursor moves |
| HilitingBase.HilitingBase.RepairAfterDelete | editor/HilitingBase.cpp:160-177 | the repair by stack position and index makes every cursor in use coherent with the shortened list |
| HilitingBase.HilitingBase.DeleteBreaks | editor/HilitingBase.cpp:137-179 | exactly the slice between the two cursors is cut out of the plain list, the end marker stays, every cursor stands at the break it stood at or behind the cut; nothing happens for an empty range |
| HilitingBase.HilitingBase.MoveCursorsAtEnd | editor/HilitingBase.cpp:312-321 | only cursors at the old end get the new end position |
| HilitingBase.HilitingBase.ShiftCursors | editor/HilitingBase.cpp:323-337 | every other cursor at or behind the insertion moves by the inserted breaks and bytes, the others stay |
| HilitingBase.HilitingBase.RepairAfterInsert | editor/HilitingBase.cpp:308-337 | after the repair every cursor in use is coherent with the longer list |
| HilitingBase.HilitingBase.InsertBreaks | editor/HilitingBase.cpp:263-339 | the plain list gets the filling at the cursor and nothing else changes; only the end marker may move, and only for an insertion at the end; the cursor stands at the first new break, all others at their old break |
| HilitingBase.CopyRepeatedly | editor/HilitingBase.cpp:282-285 | the stack is copied as often as there are breaks |
| HilitingBase.FillRun | editor/HilitingBase.cpp:290-306 | the loop stores equal breaks, the last one with its own distance |
| HilitingBase.HilitingBase.ShiftTextPositions | editor/HilitingBase.cpp:219-231 | cursors behind the changed break are shifted and coherent again |
| HilitingBase.HilitingBase.SetTextPositions | editor/HilitingBase.cpp:242-256 | cursors at the end get the new end position and are coherent again |
| HilitingBase.HilitingBase.PullFollowingBreaks | editor/HilitingBase.cpp:212-232 | all breaks behind the given one are shifted, with their cursors |
| HilitingBase.HilitingBase.DropEndMarkerOntoBreak | editor/HilitingBase.cpp:233-257 | the end marker drops to the start of the last break, with the cursors at the end |
| HilitingBase.HilitingBase.CloseGap | editor/HilitingBase.cpp:207-257 | the breaks behind the cursor are shifted by the changed amount, or the end marker drops if the text behind it is gone; breaks that did not overlap still do not, exactly if the changed distance still fits, which it does if the break in front ends at or before the change |
| HilitingBase.HilitingBase.SkipBreaksBefore | editor/HilitingBase.cpp:196-198 | the loop stops at the first later break that starts at or behind the old end |
| HilitingBase.HilitingBase.CreateIteratorBehind | editor/HilitingBase.cpp:194-198 | the temporary cursor stands at the first break to keep; its slot is in use already exactly if the slot at the free index is, and is that of the restart cursor exactly if that one is at the free index |
| HilitingBase.HilitingBase.CutInvalidBreaks | editor/HilitingBase.cpp:193-201 | exactly the breaks from the restart cursor up to the first one that starts at or behind the old end are cut out, with all cursors repaired; nothing is cut if both cursors have the same slot |
| HilitingBase.HilitingBase.DeleteInvalidBreaks | editor/HilitingBase.cpp:189-258 | cuts out what did not survive the change, closes the gap and gives the temporary slot back; the resulting list, end marker and cursors also for a slot shared with the restart cursor |
| HilitingBase.HilitingBase.TreatTextDataUpdate | editor/HilitingBase.cpp:181-260 | the update is done exactly unless the restart cursor has the slot at the free index and there are breaks behind the change; then the survivors are a prefix that ends at or before the change, unmoved, and a suffix that started at or behind its old end, shifted by the changed amount, breaks do not overlap, and every cursor stands at its break or behind the cut, except one whose slot was taken for the temporary cursor; otherwise no break is deleted, and which ones are shifted is stated; every cursor in use is coherent in both cases |
| HilitingBase.DeleteRefines | editor/HilitingBase.cpp:146-158 | what deleting does to arrays, list, end marker and order |
| HilitingBase.InsertRefines | editor/HilitingBase.cpp:280-306 | what inserting does to arrays, list, end marker and order |
| HilitingBase.ClosingRefines | editor/HilitingBase.cpp:212-246 | closing the gap shifts exactly the following breaks; it keeps them from overlapping exactly if the changed distance still fits |
| HilitingBase.UpdateNotDone | editor/HilitingBase.cpp:196-201 | an update always deletes the break right behind the change, so that a list of the same length was not updated |
| HilitingBase.CursorAcrossDelete | editor/HilitingBase.cpp:160-177 | the comparison of stack positions decides the same as the comparison of indexes, and the repaired positions are the sums over the new list |
| HilitingBase.CursorAcrossInsert | editor/HilitingBase.cpp:308-337 | the same for an insertion |
| HilitingBase.CursorsKeepTheirBreaks | editor/HilitingBase.cpp:160-177 | by the new index a cursor finds the same break again, or the first one behind the cut |
| HilitingBase.Perform | editor/HilitingBase.cpp:41-339 | every allowed operation keeps the list valid; if handles are not shared and lengths and distances are not negative, breaks do not overlap, and no slot in use is at or behind the free index or used twice |
| HilitingBase.PerformAll | editor/HilitingBase.cpp:27-339 | after any run of operations, with handles copied and assigned in any way and updates from any live cursor, each cursor in use caches exactly the sums over the breaks before its index, and the stack buffer is as long as all stacks together; in a run without sharing and negative lengths breaks do not overlap |
| EditingHistory.OneStep | editor/EditingHistory.hpp:289-361 | replaying one more action applies its step |
| EditingHistory.MergedInsertIsBoth | editor/EditingHistory.hpp:89-98 | the merged insert has the effect of both inserts, one after the other, when the second touches an end of the first |
| EditingHistory.MergedDeleteIsBoth | editor/EditingHistory.hpp:115-150 | the merged delete has the effect of both deletes when the second range covers the place of the first |
| EditingHistory.StoredAfterRecording | editor/EditingHistory.hpp:151-167 | cutting the redo tail and appending an action keeps the buffer the texts of past deletes |
| EditingHistory.StoredAfterMergingInsert | editor/EditingHistory.hpp:94-97 | merging an insert keeps replay, texts and consistency |
| EditingHistory.StoredAfterMergingDelete | editor/EditingHistory.hpp:120-149 | putting the new text around the last delete's text keeps replay, texts and consistency |
| EditingHistory.StoredAfterUndoingInsert | editor/EditingHistory.hpp:289-299 | the buffer is past deletes, then undone inserts, after undoing an insert |
| EditingHistory.StoredAfterUndoingDelete | editor/EditingHistory.hpp:328-336 | the same after undoing a delete, whose text is in range in front of the split |
| EditingHistory.StoredAfterRedoingInsert | editor/EditingHistory.hpp:301-317 | the same after redoing an insert, whose text is in range behind the split |
| EditingHistory.StoredAfterRedoingDelete | editor/EditingHistory.hpp:338-349 | the same after redoing a delete |
| EditingHistory.SurroundLast | editor/EditingHistory.hpp:123-149 | the two insertions put the new text before and after the last text |
| EditingHistory.UndoAndRedoMeet | editor/TextData.cpp:510-568 | redo leads back to where undo started exactly if that was a section boundary, and the other way round |
| EditingHistory.EditingHistory.constructor | editor/EditingHistory.hpp:381-385 | an empty history of the given document |
| EditingHistory.EditingHistory.Clear | editor/EditingHistory.hpp:363-370 | an empty history of the given document, nothing saved |
| EditingHistory.EditingHistory.RememberInsertAction | editor/EditingHistory.hpp:87-111 | records the insert: merged into the last action exactly if that is an insert without a merge stop that the text touches at either end, otherwise as a new action; the recorded steps lead to the document with the text inserted, and the redo tail is gone |
| EditingHistory.EditingHistory.RememberDeleteAction | editor/EditingHistory.hpp:113-168 | records the delete: merged into the last action exactly if that is a delete without a merge stop whose place the range covers, otherwise as a new action; the recorded steps lead to the document without the text, and the redo tail is gone |
| EditingHistory.EditingHistory.RememberSelectAction | editor/EditingHistory.hpp:170-181 | records a selection of any length, also a negative one, that changes no text |
| EditingHistory.EditingHistory.SetSectionMarkOnHistoryTop | editor/EditingHistory.hpp:183-187 | marks the last action, unless a section is being held |
| EditingHistory.EditingHistory.SetSectionMarkOnPreviousAction | editor/EditingHistory.hpp:189-193 | marks the action before the current place, unless a section is being held |
| EditingHistory.EditingHistory.SetMergeStopMarkOnPreviousAction | editor/EditingHistory.hpp:195-203 | sets or clears the merge stop, unless a section is being held |
| EditingHistory.EditingHistory.SetPreviousActionToSavedState | editor/EditingHistory.hpp:230-232 | names the current place as the saved one |
| EditingHistory.EditingHistory.UndoInsertAction | editor/EditingHistory.hpp:289-299 | one action back, its text kept for redo |
| EditingHistory.EditingHistory.GetContentForRedoInsertAction | editor/EditingHistory.hpp:301-308 | the range is in bounds and holds the text of the insert |
| EditingHistory.EditingHistory.RedoInsertAction | editor/EditingHistory.hpp:310-317 | one action on, its text released |
| EditingHistory.EditingHistory.GetContentForUndoDeleteAction | editor/EditingHistory.hpp:319-326 | the range is in bounds and holds the deleted text |
| EditingHistory.EditingHistory.UndoDeleteAction | editor/EditingHistory.hpp:328-336 | one action back, its text released |
| EditingHistory.EditingHistory.RedoDeleteAction | editor/EditingHistory.hpp:338-349 | one action on, its text kept for undo |
| EditingHistory.EditingHistory.UndoSelectAction | editor/EditingHistory.hpp:351-355 | one action back |
| EditingHistory.EditingHistory.RedoSelectAction | editor/EditingHistory.hpp:357-361 | one action on |
| TextData.TextData.InsertAtMark | editor/TextData.cpp:669-692 | the filtered text is inserted and recorded, as an action of its own or merged, or nothing changes for a read-only document or an empty text; a saved mark that held holds afterwards exactly if the edit left the saved place or happens to lead to the saved document again |
| TextData.TextData.RemoveAtMark | editor/TextData.cpp:737-755 | the range is removed and recorded, as an action of its own or merged, or nothing changes; the saved mark as above, exactly |
| TextData.TextData.RememberChangeAreaInHistory | editor/TextData.hpp:506-510 | one more action with the place and the length of the area, whichever way round it is, and the same document; the saved mark as above, exactly |
| TextData.TextData.SetInsertFilterCallback | editor/TextData.cpp:441-444 | sets the filter |
| TextData.TextData.SetHistorySeparator | editor/TextData.cpp:1021-1027 | the last action done gets its section mark and its merge stop, unless a section is held, and nothing else changes |
| TextData.TextData.SetMergableHistorySeparator | editor/TextData.cpp:1029-1034 | the last action done gets its section mark, unless a section is held, and nothing else changes |
| TextData.TextData.ClearHistory | editor/TextData.cpp:764-769 | undo ends at the present document from now on, and the saved mark names it; the mark holds exactly if it is the saved document |
| TextData.TextData.CheckFileInfo | editor/TextData.cpp:266-269 | the document is read-only exactly if its file exists and cannot be written; otherwise it stays as it was |
| TextData.TextData.FlushPendingUpdates | editor/TextData.cpp:971-977 | the last recorded action gets its section mark, unless a section is held, and nothing else changes |
| TextData.TextData.SetToSavedState | editor/TextData.cpp:299-305 | the saved mark names the present document, the document counts as unmodified, and the marks are those of a separator |
| TextData.TextData.UndoInsert | editor/TextData.cpp:516-521 | the inserted text is taken out again and kept for redo |
| TextData.TextData.UndoDelete | editor/TextData.cpp:532-537 | the deleted text is put back from the history |
| TextData.TextData.UndoOneAction | editor/TextData.cpp:514-567 | one action of any kind undone: the document is the replay of one action less, and the selected range follows the action |
| TextData.TextData.RedoInsert | editor/TextData.cpp:599-604 | the undone text is put back from the history |
| TextData.TextData.RedoDelete | editor/TextData.cpp:616-621 | the text is taken out again and kept for undo |
| TextData.TextData.RedoOneAction | editor/TextData.cpp:597-651 | one action of any kind redone: the document is the replay of one action more, and the selected range follows the action |
| TextData.TextData.Undo | editor/TextData.cpp:501-584 | back to the previous section boundary; the document is the replay up to there; unmodified exactly at the saved index, and then, if the saved mark holds, the saved document; the mark and the length that are selected, outside of which nothing changed if every text put back is covered |
| TextData.TextData.Redo | editor/TextData.cpp:586-667 | on to the next section boundary; the document is the replay up to there; the modified flag and the selection as above |
| TextData.TextData.SavedPlaceAfterEdit | editor/EditingHistory.hpp:226-232 | what recording does to the saved mark: it survives exactly if the saved place was left, or was cut off and found again |
| TextData.SavedMarkGoesStale | editor/EditingHistory.hpp:226-232 | counterexample: a document that differs from the saved one counts as unmodified |
| TextData.ClearedHistoryCountsAsSaved | editor/EditingHistory.hpp:363-370 | counterexample: a text that was never saved counts as unmodified after the history was cleared and an edit was undone |
| TextData.UndoSelectsTooLittle | editor/TextData.cpp:545-549 | counterexample: of two deletions in one section, undone together, a byte of the second one is restored outside the selection |
| TextData.UndoThenRedo | editor/TextData.cpp:501-667 | undo and redo restore document, history buffer and indexes |
| TextData.RedoThenUndo | editor/TextData.cpp:501-667 | redo and undo restore document, history buffer and indexes |
| TextData.Execute | editor/TextData.cpp:501-755 | one command: the stated edit, where undo ends, whether the document is read-only, and whether the saved state is still known afterwards, exactly |
| TextData.ExecuteAll | editor/TextData.cpp:501-755 | after any run of commands, also with clearings of the history and changes of the read-only state, the document is the replay of the actions before the current place from the document of the last clearing, and the buffer holds past deletes, then undone inserts; the documents in between are those the commands lead to |
| TextData.ExecuteWhileSavedPlaceStays | editor/TextData.cpp:501-755 | while every edit of a run leaves the saved place the saved mark holds, and a document that counts as unmodified is the saved one |
| TextData.ExecuteAndUndoEverything | editor/TextData.cpp:501-755 | after any run of commands undoing everything restores the document that was there when the history was last cleared; the starting document if it never was |
| TextData.Walk | editor/TextData.cpp:514-651 | any list of single undo and redo steps changes nothing recorded; document, buffer and split index are determined by the place reached |
| TextData.TwoWalks | editor/TextData.cpp:514-651 | two such walks that end at the same place end with the same document, buffer and split index |
| TextData.UndoEverything | editor/TextData.cpp:501-584 | undo ends, at the starting document byte for byte |
| TextData.Record | editor/EditingHistory.hpp:87-181 | an edit is an action of its own exactly if it does not continue the last one, told by kind, merge stop and place; nothing in front of it changes, and it ends no section |
| TextData.UndoBackTo | editor/TextData.cpp:501-584 | one undo goes back to the last marked place, and to the document that was there |
| TextData.EditBehindSeparator | editor/TextData.cpp:1021-1027 | behind a separator every edit is an action of its own, and one undo takes back that edit and no more |
| TextData.EditBehindFlush | editor/TextData.cpp:971-977 | so does one undo of an edit behind a flush that does not continue the last action |
| TextData.SectionBehindSeparator | editor/TextData.cpp:501-584 | one undo takes back all edits behind a separator, however many there are and however they are merged |
| SelectedRange.RemovedIsCovered | editor/TextData.cpp:522-529 | after a text was taken out of a covered document the range covers it still |
| SelectedRange.InsertedIsCovered | editor/TextData.cpp:538-546 | so it does after a text was put in, unless that begins in front of the end of the range and reaches behind it |
| SelectedRange.InsertedIsCoveredIff | editor/TextData.cpp:538-546 | that condition is exact: the range covers every document with the text put in exactly if the text does not straddle its end |
| SelectedRange.SelectedIsCovered | editor/TextData.cpp:558-563 | a selection only widens the range |
| SelectedRange.UndoneIsCovered | editor/TextData.cpp:501-584 | undoing any number of actions leaves the document as it was in front of the selected range and behind it, if no restored text straddles the end of the range |
| SelectedRange.RedoneIsCovered | editor/TextData.cpp:586-667 | the same for redoing |
| SelectedRange.RangeIsInside | editor/TextData.cpp:575-578 | the selected range lies in the document, if recorded selections did |
| SelectedRange.StartsAtFirst | editor/TextData.cpp:522-524 | the range starts at the first place where one of the actions did something, for undo and redo alike |
| SelectedRange.OneActionSelects | editor/TextData.cpp:514-567 | after one action exactly the text that came back is selected |
| Bytes.BitMasksAreArithmetic | editor/EncodingConverter.hpp:105-107 | the masks and shifts that write two bytes, as arithmetic, for all bytes |
| Bytes.BitTestsAreComparisons | editor/CharUtil.hpp:44-49 | the bit tests for ASCII and follower bytes are ranges |
| Bytes.LowBitsAreRemainders | editor/Utf8Parser.hpp:78-94 | the masks of the decoder are remainders |
| Bytes.FourOrThreeBitsAreRemainders | editor/Utf8Parser.hpp:78-94 | the same for longer sequences |
| Bytes.TwoBitsOrOneAreRemainders | editor/Utf8Parser.hpp:78-94 | the same for the longest sequences |
| Utf8.IsAscii | editor/CharUtil.hpp:44-46 | the bit test tells the bytes below 128 |
| Utf8.IsFollower | editor/CharUtil.hpp:47-49 | the bit test tells the bytes from 128 to 191 |
| Utf8.StrictFollowers | editor/CharUtil.hpp:51-54 | the announced number of followers is looked up by the low six bits |
| Utf8.FirstByteBits | editor/Utf8Parser.hpp:78-83 | the mask keeps the low bits of the first byte |
| Utf8.GetWCharAndIncrementPos | editor/Utf8Parser.hpp:62-106 | the loop takes the first byte and all followers, and its value is -1 unless their number is the announced one (by ranges of bytes: Latin1Text.RefusedIffWrongCount) |
| Utf8.DecodesWellFormed | editor/Utf8Parser.hpp:62-106 | on a well-formed sequence of RFC 3629 the decoder takes its length and gives its value |
| Utf8.StandardValueRange | editor/Utf8Parser.hpp:62-106 | well-formed values are Unicode values, and below 256 only for one byte or a first byte of 0xC2 or 0xC3 |
| EncodingConverter.PartsAddUp | editor/EncodingConverter.cpp:424-470 | converting whole units first and the rest later is converting at once, with the same report |
| EncodingConverter.OneMoreUnit | editor/EncodingConverter.cpp:163-195 | one unit more consumed is its output more |
| EncodingConverter.CopyAscii | editor/EncodingConverter.cpp:147-161 | the inner loop copies as many ASCII bytes as there are and fit |
| EncodingConverter.FirstWChar | editor/EncodingConverter.cpp:172-174 | the first character of what is left of the input, with its length |
| EncodingConverter.ConvertUtf8ToLatin1 | editor/EncodingConverter.cpp:143-198 | for any input and output space: whole units are consumed, their conversion is written, it stops only where the next unit does not fit, and the report is exact |
| EncodingConverter.ConvertLatin1ToUtf8 | editor/EncodingConverter.cpp:199-236 | the same for the other direction, which is never lossy |
| EncodingConverter.CopyBytes | editor/EncodingConverter.cpp:237-247 | the same without a conversion |
| EncodingConverter.Convert | editor/EncodingConverter.cpp:133-256 | the chunk promise for every direction |
| EncodingConverter.AfterChunk | editor/EncodingConverter.cpp:424-477 | each round consumes input or makes the output space larger by what the next unit misses, and reports add up |
| EncodingConverter.ConvertChunkInBuffer | editor/EncodingConverter.cpp:413-477 | opening the gap, converting into it and closing it replaces the consumed bytes by their conversion and touches nothing else |
| EncodingConverter.ConvertInPlaceBy | editor/EncodingConverter.cpp:400-490 | for every initial chunk size of at least 1 the loop ends, with the one-shot conversion and its report |
| EncodingConverter.ConvertInPlace | editor/EncodingConverter.cpp:383-491 | the buffer becomes the one-shot conversion; errors are reported exactly if a unit could not be converted |
| EncodingConverter.ConvertToFile | editor/EncodingConverter.cpp:494-593 | the bytes written are the one-shot conversion, with the same report |
| Latin1RoundTrip.ConvertUtf8ToLatin1String | editor/EncodingConverter.hpp:47-76 | the string helper gives the one-shot conversion with `?` for what Latin-1 cannot express |
| Latin1RoundTrip.ConvertLatin1ToUtf8String | editor/EncodingConverter.hpp:87-112 | the string helper gives the one-shot conversion |
| Latin1RoundTrip.DecodeRun | editor/EncodingConverter.hpp:65-73 | the inner decoding loop, against the specification |
| Latin1RoundTrip.EncodeRun | editor/EncodingConverter.hpp:103-109 | the inner encoding loop, against the specification |
| Latin1RoundTrip.Latin1BecomesUtf8 | editor/EncodingConverter.hpp:87-112 | the result holds ASCII bytes and two-byte sequences that start with 0xC2 or 0xC3 only |
| Latin1RoundTrip.Latin1RoundTrips | editor/EncodingConverter.cpp:143-236 | every byte string goes to UTF-8 and back unchanged, by converter and by string helper, without a report, through well-formed text |
| Latin1RoundTrip.Utf8OfLatin1GoesBack | editor/EncodingConverter.cpp:143-236 | such text goes to Latin-1 and back unchanged |
| Latin1RoundTrip.WellFormedAndLossless | editor/EncodingConverter.cpp:163-195 | such text is exactly the well-formed text that converts without a report |
| Latin1RoundTrip.SuccessIsReversibleIffWellFormed | editor/EncodingConverter.cpp:163-195 | a conversion without a report can be undone exactly if the text was well-formed |
| Latin1RoundTrip.StrayFollowersPass | editor/EncodingConverter.cpp:163-195 | counterexample: two stray followers become one character without a report |
| Latin1Text.FirstCharacter | editor/Utf8Parser.hpp:62-106 | in ranges of bytes: exactly when the decoder finds a character up to 255, which one, and how many bytes it takes |
| Latin1Text.RefusedIffWrongCount | editor/Utf8Parser.hpp:101-103 | the decoder answers -1 exactly if the number of followers is not the one of the range of the first byte |
| Latin1Text.ConvertedByRanges | editor/EncodingConverter.cpp:163-195 | for any text, what the converter and the string helper make of it and exactly which texts are reported, all in ranges of bytes |
| Latin1Text.SplitsAtFirstByte | editor/EncodingConverter.cpp:163-195 | what stands in front of a byte that is no follower and what begins with it are converted independently |
| Latin1Text.WrongCountIsKept | editor/EncodingConverter.cpp:172-193 | wherever a first byte has not as many followers as it asks for, the text is reported, and these bytes come through unchanged |
| Latin1Text.UmlautBeforeAscii | editor/EncodingConverter.cpp:172-193 | for example 0xE4 in front of a letter |
| GuiLayouter.RoundedDivError | editor/util.hpp:27 | rounded division is off by at most half the divisor |
| GuiLayouter.RoundedUpDivIsCeiling | editor/util.hpp:29 | the other division is the ceiling |
| GuiLayouter.ServeStep | editor/GuiLayouter.hpp:276-311 | serving one element takes from the pot what the element grows; its total falls by exactly what a raster adds to the rounded share, and by nothing else; the element stays in its range, but for a rastered one whose slack is no whole number of steps, which can exceed its maximum by less than one step |
| GuiLayouter.RightSizeServed | editor/GuiLayouter.hpp:278-309 | the size of an element in terms of total and remaining units: nothing, its rounded share, or the next whole number of steps, each exactly when it fits |
| GuiLayouter.PotOfSizes | editor/GuiLayouter.hpp:276-311 | the pot an element finds, in terms of the sizes before it: the total is less by all that rasters added, what remains by all growth |
| GuiLayouter.GrownSizesAreRight | editor/GuiLayouter.hpp:276-311 | so the grown sizes of a whole row are right one after the other, without reference to the loop |
| GuiLayouter.RasterLowersTheTotal | editor/GuiLayouter.hpp:303 | example: of 100 in steps of 30, 50 and 100, at 125 units, the sizes are 60, 23 and 0 |
| GuiLayouter.RasterExceedsIff | editor/GuiLayouter.hpp:294-307 | a rastered element can be made larger than its maximum by some pot exactly if its slack is no whole number of steps |
| GuiLayouter.SomeRowExceedsIff | editor/GuiLayouter.hpp:192-312 | an element is made larger than its maximum in some row and for some extent exactly if it is rastered and its slack is no whole number of steps |
| GuiLayouter.RasteringExceedsMaximum | editor/GuiLayouter.hpp:294-307 | counterexample: an element that may grow by 10 gets 30, and another one that may grow by 100 gets nothing |
| GuiLayouter.GrowthIsAccountedFor | editor/GuiLayouter.hpp:276-311 | all growth is what left the pot plus the flexible shares, although rastering shrinks the pot on the way |
| GuiLayouter.NoneTurnedAwayIff | editor/GuiLayouter.hpp:285-292 | from any pot unrastered elements are all served exactly if their shares of its total add up to at most what remains, and then exactly these shares leave it |
| GuiLayouter.HeadThenTail | editor/GuiLayouter.hpp:276-311 | serving a list is serving its head and then, with what that leaves, its tail |
| GuiLayouter.TailIsServedIff | editor/GuiLayouter.hpp:276-311 | the same condition, exact, for unrastered elements behind any others, in terms of the pot that those leave |
| GuiLayouter.ShareSumIsClose | editor/GuiLayouter.hpp:285-287 | the shares add up to the pot up to half a unit per element, whether they are all served or not |
| GuiLayouter.PotIsUsedUp | editor/GuiLayouter.hpp:285-292 | without rasters: no element is turned away exactly if the rounded shares do not exceed the pot, which they do by at most half a unit per element; then what stays unused is the difference, at most half a unit per element |
| GuiLayouter.UnusedIsLessThanShare | editor/GuiLayouter.hpp:287-289 | what stays unused in the end is less than the share, and so the slack, of every element that is turned away, rastered or not |
| GuiLayouter.UnusedIsSmallOrLessThanAShare | editor/GuiLayouter.hpp:285-292 | so without rasters it is at most half a unit per element, or less than the share of some element |
| GuiLayouter.SkippingStarves | editor/GuiLayouter.hpp:287-289 | counterexamples for every k: an element whose share is one too much gets nothing, and k - 1 of k units stay unused |
| GuiLayouter.RasteringStarves | editor/GuiLayouter.hpp:294-307 | counterexample: behind a rastered element one with the same slack gets nothing, and 40 of 100 units stay unused |
| GuiLayouter.FlexShareError | editor/GuiLayouter.hpp:254-274 | the shares of all flexible elements miss their part by at most half a unit each |
| GuiLayouter.GrowingKeepsTheTarget | editor/GuiLayouter.hpp:222-312 | at or above the best sizes: growth stays within the budget, and sizes plus unused budget miss the target by at most half a unit per flexible element |
| GuiLayouter.GrownSizesInRange | editor/GuiLayouter.hpp:276-311 | no element gets less than its best size; none gets more than its maximum, but for a rastered one whose slack is no whole number of steps, by less than a step |
| GuiLayouter.AdjustedSizesAreRight | editor/GuiLayouter.hpp:222-312 | the same for the sizes that adjusting gives at or above the best ones |
| GuiLayouter.FlexibleComeLast | editor/GuiLayouter.hpp:254-274 | what there is beyond the best sizes goes to elements with a maximum up to their slack, and only the rest to flexible ones, in equal rounded parts |
| GuiLayouter.RoomForAllMaxima | editor/GuiLayouter.hpp:254-312 | with room for all maxima and no raster each element with a maximum gets exactly that |
| GuiLayouter.ShrunkSizeInRange | editor/GuiLayouter.hpp:321-333 | below the best sizes each size is between minimum and best |
| GuiLayouter.ShrunkShareIsFair | editor/GuiLayouter.hpp:321-333 | each element gets its proportional part above its minimum, up to half a unit |
| GuiLayouter.ShrunkSumIsClose | editor/GuiLayouter.hpp:317-333 | the rounded shares add up to the target within half a unit per element |
| GuiLayouter.ShrinkingKeepsTheTarget | editor/GuiLayouter.hpp:313-334 | all sizes are between minimum and best, and their sum misses the target by at most half the number of elements |
| GuiLayouter.Totals | editor/GuiLayouter.hpp:194-217 | the sums of minimum, best and maximum sizes, with and without flexible elements |
| GuiLayouter.ServeElement | editor/GuiLayouter.hpp:278-309 | the branches of the loop body serve the element as specified |
| GuiLayouter.Grow | editor/GuiLayouter.hpp:276-311 | the loop writes the grown size of every element in place |
| GuiLayouter.Shrink | editor/GuiLayouter.hpp:317-333 | the loop writes the shrunk size of every element in place |
| GuiLayouter.Adjust | editor/GuiLayouter.hpp:192-334 | every element gets its adjusted size and keeps its other measures; the new sum exceeds the target by at most half a unit per flexible element, or misses it by at most half a unit per element |
| GuiLayouter.AdjustThree | editor/GuiLayouter.hpp:192-334 | the example above, by adjusting the three elements |
| GuiLayouter.SumUp | editor/GuiLayouter.hpp:103-149 | visible elements count for best and maximum, all for the minimum; the raster is that of the first rastered one |
| GuiLayouter.WishesAddUp | editor/GuiLayouter.hpp:115-149 | the sums are those of the visible elements for best and maximum, and those of all elements for the minimum |
| GuiLayouter.OnlyRasterCounts | editor/GuiLayouter.hpp:139-144 | wherever the only visible rastered element stands, its step is the one that is found |
| GuiLayouter.SumUpAcross | editor/GuiLayouter.hpp:103-149 | the most demanding wishes across the layout, hidden elements counting for the minimum only |
| GuiLayouter.MostDemandingCounts | editor/GuiLayouter.hpp:130-147 | they are the largest of the wishes, and wishes of some element |
| GuiLayouter.SmallestMaximumCounts | editor/GuiLayouter.hpp:130 | the maximum across is the smallest maximum of the visible elements |
| GuiLayouter.LargestStepCounts | editor/GuiLayouter.hpp:137 | the step across is the largest step of the visible elements |
| GuiLayouter.Combine | editor/GuiLayouter.hpp:159-172 | a wish put together is ordered, and its range is a whole number of steps |
| GuiLayouter.GetDesiredMeasures | editor/GuiLayouter.hpp:101-189 | the combined wishes in both directions are ordered, their ranges are a whole number of steps, and the minima are rounded up to a step; the step of the only visible rastered element counts, and none if there are more |
| HeapObject.HeapObjectCounters.constructor | editor/HeapObject.hpp:72-78 | a new object counts one strong reference that nobody owns yet |
| HeapObject.HeapObjectCounters.ObtainInitialOwnership | editor/HeapObject.hpp:209-224 | the first owner takes over that count |
| HeapObject.HeapObjectCounters.IncRefCounter | editor/HeapObject.hpp:240-244 | one more owner |
| HeapObject.HeapObjectCounters.DecRefCounter | editor/HeapObject.hpp:251-274 | tells exactly when the destructor runs, which keeps the count at 1 |
| HeapObject.HeapObjectCounters.AfterDestructor | editor/HeapObject.hpp:255-270 | storage is released, or left to the weak references |
| HeapObject.HeapObjectCounters.IncWeakCounter | editor/HeapObject.hpp:282-286 | one more weak reference |
| HeapObject.HeapObjectCounters.DecWeakCounter | editor/HeapObject.hpp:293-305 | the last weak reference releases the storage of a destructed object |
| HeapObject.HeapObjectCounters.OperatorDelete | editor/HeapObject.hpp:157-185 | a failed construction leaves the storage to weak references, or releases it |
| HeapObject.WhenReleased | editor/HeapObject.hpp:157-305 | for any counters, exactly when an operation releases the storage |
| HeapObject.StepKeepsInv | editor/HeapObject.hpp:157-305 | every step keeps the counters equal to the references that exist, and none touches released storage |
| HeapObject.RunsKeepInv | editor/HeapObject.hpp:157-305 | so does every run |
| HeapObject.EndedAndReleasedOnce | editor/HeapObject.hpp:251-305 | over all runs: an adopted object that has ended was destructed exactly once, one whose construction failed never; ended and released at most once, and released exactly when the object has ended and no reference of either kind is left |
| HeapObject.CanAlwaysBeReleased | editor/HeapObject.hpp:251-305 | from every reachable state dropping what is held releases the storage |
| HeapObject.LeftoverOwnersBreakIt | editor/HeapObject.hpp:255-270 | the invariant survives the end of a destructor exactly if it left no owner behind |
| HeapObject.DestructingIsReached | editor/HeapObject.hpp:255-270 | every state it speaks of is reached: a run leads to any number of owners and weak references while the destructor runs |
| HeapObject.LeftoverOwner | editor/HeapObject.hpp:255-270 | counterexample: an object that is adopted and dropped, and whose destructor takes an owner that it keeps, is released with that owner left |
| HeapObject.Perform | editor/HeapObject.hpp:157-305 | each step taken on the counters keeps them equal to the references that exist, and the outcome of the operations tells what happened |
| HeapObject.PerformAll | editor/HeapObject.hpp:157-305 | so does any run on one object: the counters are those of a run of the step system |
| ActionKeyConfig.ActionKeyConfig.constructor | editor/ActionKeyConfig.hpp:138-139 | an empty configuration |
| ActionKeyConfig.ActionKeyConfig.IndexEntry | editor/ActionKeyConfig.cpp:34-58 | both maps list one more entry of the same log |
| ActionKeyConfig.ActionKeyConfig.AppendBelow | editor/ActionKeyConfig.cpp:67-84 | the rest of the keys is appended to the configuration behind the first key, which is made if it was missing; no other one changes |
| ActionKeyConfig.ActionKeyConfig.AppendHere | editor/ActionKeyConfig.cpp:86-93 | the action is appended to those of the last key |
| ActionKeyConfig.ActionKeyConfig.Append | editor/ActionKeyConfig.cpp:27-94 | the trie and both maps represent the log with one more entry, at every level; an empty combination is refused and changes nothing |
| ActionKeyConfig.AppendAll | editor/ActionKeyConfig.cpp:27-94 | any list of appends gives a configuration that represents exactly this list |
| ActionKeyConfig.OneMoreEntry | editor/ActionKeyConfig.cpp:27-94 | what the log means grows at its end: a later action for the same keys comes behind the earlier ones, in both indexes |
| ActionKeyConfig.TailKeepsActions | editor/ActionKeyConfig.cpp:60-84 | what a configuration below knows about the rest of a path is what was appended for the whole path |
| ActionKeyConfig.TailKeepsLonger | editor/ActionKeyConfig.cpp:67-84 | and it knows of longer paths exactly if there are longer combinations |
| ActionKeyConfig.PlacesInTree | editor/ActionKeyConfig.hpp:98-111 | a path leads to a configuration exactly if a longer combination was appended; below the root this is never the root |
| ActionKeyConfig.WalkOn | editor/ActionKeyConfig.hpp:98-111 | one more key leads one level down, to the actions appended for the longer path |
| ActionKeyConfig.TypedKeysFindTheirActions | editor/ActionKeyConfig.hpp:98-111 | walking along any path finds exactly the actions appended for it, in order |
| ActionKeyConfig.IndexesAreInverse | editor/ActionKeyConfig.hpp:117-135 | an action is listed for a combination as often as the combination for the action, which is as often as the pair was appended |
| ActionKeySequenceHandler.OnlyTheLastSucceeds | editor/ActionKeySequenceHandler.cpp:52-61 | of the calls made for a key at most the last one succeeds, and only bound actions are called |
| ActionKeySequenceHandler.TheFirstTakerRuns | editor/ActionKeySequenceHandler.cpp:52-61 | the first action that is accepted by the focused element or the own container is the one that runs; without one, none |
| ActionKeySequenceHandler.AttemptsAreCalls | editor/ActionKeySequenceHandler.cpp:52-61 | call by call: who is asked for which action, the focused element before the own container, up to the first that accepts |
| ActionKeySequenceHandler.FocusComesFirst | editor/ActionKeySequenceHandler.cpp:54-55 | the own container is asked only for an action the focused element has just refused; if that takes the first action nothing else is asked |
| ActionKeySequenceHandler.ActionKeySequenceHandler.constructor | editor/ActionKeySequenceHandler.hpp:42-49 | at the root, nothing typed |
| ActionKeySequenceHandler.ActionKeySequenceHandler.WithinSequenceMeansTyped | editor/ActionKeySequenceHandler.hpp:60-62 | one is within a sequence exactly if keys were typed since the last reset, and then a longer combination exists |
| ActionKeySequenceHandler.ActionKeySequenceHandler.Reset | editor/ActionKeySequenceHandler.hpp:52-58 | back to the root of the configuration in force, telling whether a sequence was left |
| ActionKeySequenceHandler.ActionKeySequenceHandler.InvokeOne | editor/ActionKeySequenceHandler.cpp:54-55 | the focused element is asked first |
| ActionKeySequenceHandler.ActionKeySequenceHandler.Invoke | editor/ActionKeySequenceHandler.cpp:52-61 | the loop makes exactly the specified calls |
| ActionKeySequenceHandler.ActionKeySequenceHandler.HandleKeyPress | editor/ActionKeySequenceHandler.cpp:27-86 | in terms of the appended combinations alone: which calls are made, one by one, the focused element first, where the key leads, what is processed and which flags are set |
| ActionKeySequenceHandler.ActionKeySequenceHandler.GoOn | editor/ActionKeySequenceHandler.cpp:63-77 | one key further under the modifier of the first key |
| ActionKeySequenceHandler.ActionKeySequenceHandler.ProcessKeyboardEvent | editor/DialogWin.cpp:149-165 | with the caller's reset: a longer combination leads one key further, an accepted action or a useless key back to the root with the configuration taken anew; a key within a sequence is always processed |
| ActionKeySequenceHandler.ProcessOne | editor/DialogWin.cpp:149-165 | the same as one step from place to place |
| ActionKeySequenceHandler.ProcessAll | editor/DialogWin.cpp:149-165 | the same for any run of key presses, whenever the configuration in force changes |
| ActionKeySequenceHandler.SameConfigThroughout | editor/DialogWin.cpp:149-165 | without a change what is typed depends on the appended combinations only |
| ActionKeySequenceHandler.PrefixIsReached | editor/ActionKeySequenceHandler.cpp:63-77 | typing a bound combination undisturbed leads along its keys |
| ActionKeySequenceHandler.BoundCombinationIsTyped | editor/ActionKeySequenceHandler.cpp:27-86 | and its last key tries exactly the actions appended for it |
| KeyReleaseCompaction.EventQueue.Peek | editor/EventDispatcher.cpp:286-305 | takes the waiting events up to the first key event of another key, which is put back |
| KeyReleaseCompaction.EventQueue.FindEvents | editor/EventDispatcher.cpp:306-334 | the scan finds the first key event behind complete pairs that no complete pair follows, and its partner |
| KeyReleaseCompaction.FoundIsUnique | editor/EventDispatcher.cpp:306-334 | there is only one such place |
| KeyReleaseCompaction.EventQueue.GiveBack | editor/EventDispatcher.cpp:335-357 | the events put back, in order: the partner, the other events before the delivered one, what follows |
| KeyReleaseCompaction.EventQueue.Compact | editor/EventDispatcher.cpp:275-360 | the delivered event and the new queue for any queue |
| KeyReleaseCompaction.CompactionKeeps | editor/EventDispatcher.cpp:275-360 | other events keep their order, exactly complete adjacent pairs are discarded, what follows the kept pair is untouched, presses minus releases of every key stay the same |
| KeyReleaseCompaction.CompactionIsComplete | editor/EventDispatcher.cpp:306-334 | compacting the delivered event again changes nothing |
| KeyReleaseCompaction.PairsBalance | editor/EventDispatcher.cpp:323-325 | complete pairs press and release equally often |
| KeyReleaseCompaction.OnlyPairsIff | editor/EventDispatcher.cpp:321-325 | complete pairs in terms of neighbours: each release is directly in front of a press at most 2 away, and each press behind such a release |
| KeyReleaseCompaction.CompactedIs | editor/EventDispatcher.cpp:275-360 | which event is delivered and what the queue is afterwards, in terms of the events that wait |
| KeyReleaseCompaction.LatePressIsKept | editor/EventDispatcher.cpp:321-325 | only a press of the same key directly behind a release and at most 2 away from it can be discarded |
| KeyReleaseCompaction.EventQueue.DispatchOne | editor/EventDispatcher.cpp:239-362 | which event is delivered, which key events are discarded and what is left in which order, in terms of the waiting events; other events keep their order and every key is balanced |
| KeyReleaseCompaction.EventQueue.Dispatch | editor/EventDispatcher.cpp:239-362 | so does any number of events |
| ProcessScheduler.EventDispatcher.RegisterProcess | editor/EventDispatcher.cpp:650-656 | a new process comes last, and runs at once if it needs processing |
| ProcessScheduler.EventDispatcher.RegisterAll | editor/EventDispatcher.cpp:650-656 | so do several |
| ProcessScheduler.RunAtOnceIsExact | editor/EventDispatcher.cpp:650-656 | exactly those that need processing run at once |
| ProcessScheduler.RunAtOnceInOrder | editor/EventDispatcher.cpp:650-656 | in the order in which they are registered |
| ProcessScheduler.EventDispatcher.FindWaiting | editor/EventDispatcher.cpp:458-470 | stops at the first process that is enabled and needs processing; exactly the disabled ones before it are removed |
| ProcessScheduler.EventDispatcher.MoveToEnd | editor/EventDispatcher.cpp:519-521 | the process to run goes to the end, the others keep their order |
| ProcessScheduler.EventDispatcher.RunRound | editor/EventDispatcher.cpp:458-523 | who runs in a round and what the list is afterwards, whether or not a timer is due |
| ProcessScheduler.RoundInDetail | editor/EventDispatcher.cpp:458-523 | the first process that is enabled and needs processing runs and goes to the end unless a timer is due; disabled ones in front of it are dropped; new ones come last |
| ProcessScheduler.RoundWithoutWaiting | editor/EventDispatcher.cpp:458-470 | if none waits, none runs and all disabled ones are dropped |
| ProcessScheduler.EnabledIsExact | editor/EventDispatcher.cpp:458-470 | exactly the enabled ones of those passed are kept, as often as they occur |
| ProcessScheduler.EnabledInOrder | editor/EventDispatcher.cpp:458-470 | and in their order |
| ProcessScheduler.WaitingComesCloser | editor/EventDispatcher.cpp:458-523 | a waiting process runs or does not fall back, and comes closer if another one runs |
| ProcessScheduler.Fairness | editor/EventDispatcher.cpp:458-523 | a process at index k that keeps waiting runs within k + 1 picking rounds, whatever the others do |
| ProcessScheduler.TurnsAreTaken | editor/EventDispatcher.cpp:458-523 | the bound is exact: while all wait, process k runs in round k |
| Commandline.Commandline.CreateFromQuotedString | editor/Commandline.cpp:26-79 | the loops read exactly the arguments of the recursive definition |
| Commandline.Commandline.ReadNext | editor/Commandline.cpp:36-76 | one round reads one argument, quoted or not |
| Commandline.Commandline.ReadFrom | editor/Commandline.cpp:44-55 | up to the stop character, a backslash taking the next one literally |
| Commandline.Commandline.ToQuotedString | editor/Commandline.cpp:82-123 | the loops print exactly the recursive definition |
| Commandline.Commandline.Escape | editor/Commandline.cpp:99-115 | quotes and backslashes are escaped, all else is copied |
| Commandline.ReadsEscaped | editor/Commandline.cpp:44-55 | reading an escaped argument up to the closing quote gives the argument |
| Commandline.ReadsWritten | editor/Commandline.cpp:44-76 | however an argument is written, with backslashes in front of any characters, it is read up to the first stop character without one, or to the end |
| Commandline.ReadsLastBackslash | editor/Commandline.cpp:46-51 | a backslash at the very end stands for itself |
| Commandline.ParsedInQuotes | editor/Commandline.cpp:36-59 | any quoted argument behind any number of spaces; the next one begins right behind the closing quote |
| Commandline.ParsedPlain | editor/Commandline.cpp:36-76 | any argument without quotes; the space behind it is dropped |
| Commandline.PrintedForm | editor/Commandline.cpp:92-119 | an argument is put between quotes exactly if it holds a quote, a backslash or a space, with one backslash more for each of the first two |
| Commandline.ReadsQuoted | editor/Commandline.cpp:36-76 | reading back one printed argument gives the argument and leaves what follows |
| Commandline.ParsePrinted | editor/Commandline.cpp:26-123 | what becomes of any list that is printed and read back |
| Commandline.RoundTrip | editor/Commandline.cpp:26-123 | it is the same list exactly if no argument is empty, but for an empty last one behind a quoted one |
| CommandlineInterpreter.CommandlineInterpreter.DoOption | editor/CommandlineInterpreter.hpp:61-122 | one option, all branches and errors |
| CommandlineInterpreter.CommandlineInterpreter.DoOptions | editor/CommandlineInterpreter.hpp:58-123 | the inner loop finds the options that apply to the next file |
| CommandlineInterpreter.CommandlineInterpreter.TakeFile | editor/CommandlineInterpreter.hpp:125-134 | the file name is replaced by the absolute one and recorded with its options |
| CommandlineInterpreter.CommandlineInterpreter.DoCommandline | editor/CommandlineInterpreter.hpp:48-141 | flags, instance name, files, rewritten arguments and error are those of the recursive definition |
| CommandlineOptions.FirstStep | editor/CommandlineInterpreter.hpp:58-134 | what each option does and how many arguments it takes, by its spelling |
| CommandlineOptions.FirstRefused | editor/CommandlineInterpreter.hpp:66-121 | which error an option leads to, by its spelling and by what is missing |
| CommandlineOptions.RoleOfNext | editor/CommandlineInterpreter.hpp:96-105 | what follows -f is a file whatever it looks like, and what follows an option with a value is no option |
| CommandlineOptions.FlagsAreGiven | editor/CommandlineInterpreter.hpp:106-117 | in an accepted line each flag is set exactly if one of its two spellings is given as an option |
| CommandlineOptions.InstanceNameIsLast | editor/CommandlineInterpreter.hpp:61-71 | the instance name is the value of the option that gives it last |
| CommandlineOptions.FilesCarryOptions | editor/CommandlineInterpreter.hpp:54-134 | the files in their order, each with the number of windows and the encoding given last since the file before, or none |
| CommandlineOptions.FileNamesAreRewritten | editor/CommandlineInterpreter.hpp:125-134 | exactly the file names become absolute |
| CommandlineOptions.AcceptedIff | editor/CommandlineInterpreter.hpp:58-141 | a line is accepted exactly if its options are known and have what they take, numbers of windows are positive, and none of them waits for a file at the end |
| CommandlineOptions.Interpret | editor/CommandlineInterpreter.hpp:48-141 | all of this for the interpreter itself |
| CommandlineOptions.QuitServer | editor/CommandlineInterpreter.hpp:110-113 | example: -qs alone asks for the server to quit and for nothing else |
| CommandlineInterpreter.RewrittenMeansTheSame | editor/CommandlineInterpreter.hpp:125-134 | an accepted command line, once rewritten, is accepted again with the same result and not rewritten further |
| CommandlineInterpreter.NoneGetsEmpty | editor/CommandlineInterpreter.hpp:125-134 | rewriting makes no argument empty |
| CommandlineInterpreter.RewritingKeepsLength | editor/CommandlineInterpreter.hpp:125-134 | rewriting keeps the number of arguments, also in the case of an error |
| CommandlineInterpreter.ServerAgrees | editor/EditorServer.cpp:103-151 | the server finds in the sent text the same flags, instance name, files and arguments as the client exactly if the rewritten arguments survive printing, the arguments themselves being compared; they do if none was empty |
| CommandlineInterpreter.SendToServer | editor/EditorClient.cpp:97-134 | the same for the two programs, one after the other |
| CommandlineInterpreter.EmptyInstanceNameIsLost | editor/Commandline.cpp:95-120 | counterexample: with an empty instance name the server takes the file name for it |
| CommandlineInterpreter.LossCanGoUnnoticed | editor/EditorServer.cpp:103-151 | an accepted command line whose arguments do not survive although the server finds the same |

## Left out

- Debug checks of the break list (`ASSERTvalid`), and reading the parent pattern out of a stack,
  which depends on the highlighter's pattern numbers.
- `fillInterBreaks`: it passes break length 1, so it meets the asserted preconditions of `insertBreaks`, which are
  required as they stand, with a fill count of 1 only.
- HilitingBase.HilitingBase.TreatTextDataUpdate: the assertions inside the routine are not modelled as stops. With them
  a debug build can stop where the update is not done.
- EditingHistory: the texts of inserts are kept in ghost steps, since the program reads them back from the document.
- TextData: text marks, but for the one that undo and redo set when they select something; line counting, listeners,
  documents without a history, and loading, reloading and resetting the document as a whole. The insert filter is a
  function of the text.
- EncodingConverter: the iconv branch and the names of codesets; conversions by iconv are calls to foreign code.
- EncodingConverter.ConvertToFile: the file is the sequence of bytes written; errors of the file system are not
  modelled.
- GuiLayouter: sums that overflow 32 bits; the largest integer is modelled as a maximum size of its own.
- HeapObject: `resetInitialOwnership`, and the debug counters.
- ActionKeyConfig: nodes are values inside the map of their configuration, so that two places never share one; the
  exception for an empty combination is the result `false`; reading key combinations from strings.
- ActionKeySequenceHandler: the typed keys are a list instead of the text that is shown; what an action does besides
  accepting or refusing, except that the configuration may be another one afterwards.
- KeyReleaseCompaction: all other kinds of events are one kind; time stamps do not wrap around.
- ProcessScheduler: waiting for files and timers; whether a timer is due is part of a round. A process does not change
  who is enabled while the round looks for it.
- CommandlineInterpreter: which of the two sides acts on which flag, and the instance name from the environment.
- X11, widgets, drawing, focus, dialogs, Lua, regular expressions, processes, pipes and files.
