/**
 * `PasteNextInPlaceCommand`: the registered paste-next command.  It advances
 * the shared cycle index over the current history, picks that entry's text
 * and replaces either the range it inserted last time or the live selection.
 * The editor's asynchronous edit is split in two: `Execute` issues it and
 * `Settle` applies the callback once the host reports success or failure.
 */
module PasteNextInPlace {
  import opened Host
  import opened ClipHistory
  import opened ClipboardState
  import opened Cycling
  import opened Manager

  /**
   * How `execute` ends: the "history is empty" notice, the `TypeError` of
   * reading `clips[index]` outside the list, no active editor, or an edit
   * handed to the editor.
   */
  datatype PasteOutcome = EmptyHistory | IndexOutOfRange(index: int) | NoEditor | EditIssued(edit: PendingEdit)

  /** The end `execute` records for an insert: `insertPos.translate(0, text.length)`, whatever the text. */
  function SingleLineEnd(insertPos: Position, text: string): (end: Position)
    ensures end.line == insertPos.line && end.character == insertPos.character + |text|
  {
    insertPos.TranslateCharacters(|text|)
  }

  /**
   * The recorded end agrees with the true end of the insert (as
   * `calculateEndPosition` computes it) exactly when the text has no line
   * break; for multi-line text the recorded range stays on the first line.
   */
  lemma SingleLineEndMatchesOnlyWithoutBreaks(insertPos: Position, text: string)
    ensures SingleLineEnd(insertPos, text) == CalculateEndPosition(insertPos, text) <==> '\n' !in text
    ensures '\n' in text ==> SingleLineEnd(insertPos, text).line < CalculateEndPosition(insertPos, text).line
  {
    if '\n' in text {
      EndPositionMultiLine(insertPos, text);
      SplitLinesShape(text);
    } else {
      EndPositionSingleLine(insertPos, text);
    }
  }

  /** From an index at or above the unset value, the picked index is always inside a non-empty list. */
  lemma PickedIndexInRange(current: int, length: int)
    requires length > 0 && current >= Unset
    ensures 0 <= Incremented(current, length) < length
  {
  }

  class PasteNextInPlaceCommand {
    /** The range the last successful paste inserted; never cleared once set. */
    var lastInsertRange: Option<Range>
    const manager: ClipboardManager
    /** The shared `currentClipboardIndex`. */
    const index: CycleIndex

    constructor (manager: ClipboardManager, index: CycleIndex)
      ensures lastInsertRange == None && this.manager == manager && this.index == index
    {
      this.manager := manager;
      this.index := index;
      lastInsertRange := None;
    }

    /**
     * `execute` up to the call of `editor.edit`: with an empty history only the
     * notice; otherwise the index advances first (even when there turns out to
     * be no editor), and the picked entry's text replaces the remembered
     * range or, when none is remembered, the editor's selection.
     */
    method Execute(active: Option<Editor>) returns (outcome: PasteOutcome)
      modifies index
      ensures lastInsertRange == old(lastInsertRange)
      ensures |manager.clips| == 0 ==> outcome == EmptyHistory && index.current == old(index.current)
      ensures |manager.clips| > 0 ==> index.current == Incremented(old(index.current), |manager.clips|)
      ensures |manager.clips| > 0 && !(0 <= index.current < |manager.clips|) ==> outcome == IndexOutOfRange(index.current)
      ensures |manager.clips| > 0 && 0 <= index.current < |manager.clips| && active.None? ==> outcome == NoEditor
      ensures |manager.clips| > 0 && 0 <= index.current < |manager.clips| && active.Some? ==>
        var target := if lastInsertRange.Some? then lastInsertRange.value else active.value.selection;
        outcome == EditIssued(PendingEdit(active.value.id, target, target.start, manager.clips[index.current].value))
    {
      var clips := manager.clips;
      if |clips| == 0 {
        return EmptyHistory;
      }
      var picked := index.Increment(|clips|);
      if !(0 <= picked < |clips|) {
        return IndexOutOfRange(picked);
      }
      var text := clips[picked].value;
      if active.None? {
        return NoEditor;
      }
      var editor := active.value;
      var selection := if lastInsertRange.Some? then lastInsertRange.value else editor.selection;
      var insertPos := selection.start;
      outcome := EditIssued(PendingEdit(editor.id, selection, insertPos, text));
    }

    /**
     * The edit's callback: on success the inserted range is remembered with
     * single-line arithmetic and becomes the editor's selection (returned);
     * on failure nothing changes.
     */
    method Settle(edit: PendingEdit, success: bool) returns (newSelection: Option<Range>)
      modifies this`lastInsertRange
      ensures !success ==> lastInsertRange == old(lastInsertRange) && newSelection == None
      ensures success ==>
        && lastInsertRange == Some(Range(edit.insertPos, SingleLineEnd(edit.insertPos, edit.text)))
        && newSelection == lastInsertRange
      ensures old(lastInsertRange).Some? ==> lastInsertRange.Some?
    {
      if !success {
        return None;
      }
      var newEnd := edit.insertPos.TranslateCharacters(|edit.text|);
      lastInsertRange := Some(Range(edit.insertPos, newEnd));
      newSelection := Some(Range(edit.insertPos, newEnd));
    }
  }
}
