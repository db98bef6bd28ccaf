/**
 * `CyclingState`: the session tracker of the cycling paste.  It remembers the
 * range its last paste inserted and the editor it went to, ignores selection
 * changes while its own edit is in flight, and ends the session (resetting
 * the shared cycle index) on any other selection change that is not the
 * inserted range itself or an empty selection inside it.
 */
module Cycling {
  import opened Host
  import opened ClipboardState

  // ---------------------------------------------------------------------------
  // End position of an insert (`calculateEndPosition`).

  /** `text.split(/\r?\n/)`: the lines of `text`, a `\r` directly before `\n` belonging to the break. */
  function SplitLines(text: string): (lines: seq<string>)
    ensures |lines| >= 1
    decreases |text|
  {
    if text == [] then [""]
    else if text[0] == '\n' then [""] + SplitLines(text[1..])
    else if text[0] == '\r' && |text| >= 2 && text[1] == '\n' then [""] + SplitLines(text[2..])
    else
      var rest := SplitLines(text[1..]);
      [[text[0]] + rest[0]] + rest[1..]
  }

  function CountNewlines(text: string): nat
    decreases |text|
  {
    if text == [] then 0 else (if text[0] == '\n' then 1 else 0) + CountNewlines(text[1..])
  }

  function Last<T>(s: seq<T>): T
    requires |s| > 0
  {
    s[|s| - 1]
  }

  /** `\n` splits the text after its first character exactly when that character is no `\n`. */
  lemma NewlineInTail(text: string)
    requires text != []
    ensures '\n' in text <==> text[0] == '\n' || '\n' in text[1..]
  {
    assert text == [text[0]] + text[1..];
  }

  /** There is one line more than there are `\n` characters. */
  lemma {:induction false} SplitLinesCount(text: string)
    ensures |SplitLines(text)| == 1 + CountNewlines(text)
    ensures CountNewlines(text) == 0 <==> '\n' !in text
    decreases |text|
  {
    if text != [] {
      NewlineInTail(text);
      if text[0] == '\n' {
        SplitLinesCount(text[1..]);
      } else if text[0] == '\r' && |text| >= 2 && text[1] == '\n' {
        SplitLinesCount(text[2..]);
        assert text[1..][1..] == text[2..];
        NewlineInTail(text[1..]);
      } else {
        SplitLinesCount(text[1..]);
      }
    }
  }

  /** A text that splits into a single line is that line. */
  lemma {:induction false} SplitLinesSingle(text: string)
    ensures |SplitLines(text)| == 1 ==> SplitLines(text)[0] == text
    decreases |text|
  {
    if text != [] && text[0] != '\n' && !(text[0] == '\r' && |text| >= 2 && text[1] == '\n') {
      SplitLinesSingle(text[1..]);
      assert text == [text[0]] + text[1..];
    }
  }

  /** The last line is a suffix of the text. */
  lemma {:induction false} SplitLinesLastIsSuffix(text: string)
    ensures var last := Last(SplitLines(text));
      |last| <= |text| && last == text[|text| - |last|..]
    decreases |text|
  {
    if text == [] {
      return;
    }
    var last := Last(SplitLines(text));
    if text[0] == '\n' || (text[0] == '\r' && |text| >= 2 && text[1] == '\n') {
      var k := if text[0] == '\n' then 1 else 2;
      SplitLinesLastIsSuffix(text[k..]);
      assert last == Last(SplitLines(text[k..]));
      SuffixOfTail(text, k, last);
    } else {
      var rest := SplitLines(text[1..]);
      if |rest| > 1 {
        SplitLinesLastIsSuffix(text[1..]);
        assert last == Last(rest);
        SuffixOfTail(text, 1, last);
      } else {
        SplitLinesSingle(text[1..]);
        assert last == [text[0]] + text[1..];
        assert text == [text[0]] + text[1..];
      }
    }
  }

  /** With more than one line, the last line is directly preceded by a `\n`. */
  lemma {:induction false} SplitLinesLastAfterBreak(text: string)
    ensures var lines := SplitLines(text); var last := Last(lines);
      |lines| > 1 ==> |last| < |text| && text[|text| - |last| - 1] == '\n'
    decreases |text|
  {
    if text == [] {
      return;
    }
    var last := Last(SplitLines(text));
    if text[0] == '\n' || (text[0] == '\r' && |text| >= 2 && text[1] == '\n') {
      var k := if text[0] == '\n' then 1 else 2;
      assert last == Last(SplitLines(text[k..]));
      if |SplitLines(text[k..])| > 1 {
        SplitLinesLastAfterBreak(text[k..]);
      }
      LastAfterLeadingBreak(text, k, last);
    } else {
      var rest := SplitLines(text[1..]);
      if |rest| > 1 {
        assert last == Last(rest);
        SplitLinesLastIsSuffix(text[1..]);
        SplitLinesLastAfterBreak(text[1..]);
        SuffixOfTail(text, 1, last);
      }
    }
  }

  /** The step of `SplitLinesLastAfterBreak` for a text that starts with a line break of `k` characters. */
  lemma LastAfterLeadingBreak(text: string, k: nat, last: string)
    requires 1 <= k <= |text| && text[k - 1] == '\n'
    requires last == Last(SplitLines(text[k..]))
    requires var lines := SplitLines(text[k..]);
      |lines| > 1 ==> |last| < |text| - k && text[k..][|text| - k - |last| - 1] == '\n'
    ensures |last| < |text| && text[|text| - |last| - 1] == '\n'
  {
    var tail := text[k..];
    SplitLinesLastIsSuffix(tail);
    if |SplitLines(tail)| == 1 {
      SplitLinesSingle(tail);
      assert |last| == |text| - k;
    } else {
      SuffixOfTail(text, k, last);
    }
  }

  /** A suffix of `text[k..]` is a suffix of `text`, and the character before it is the same. */
  lemma SuffixOfTail(text: string, k: nat, last: string)
    requires k <= |text| && |last| <= |text| - k
    requires last == text[k..][|text| - k - |last|..]
    ensures last == text[|text| - |last|..]
    ensures |last| < |text| - k ==> text[|text| - |last| - 1] == text[k..][|text| - k - |last| - 1]
  {
  }

  /** No line contains a `\n`; in particular the last one does not. */
  lemma {:induction false} SplitLinesLastHasNoBreak(text: string)
    ensures '\n' !in Last(SplitLines(text))
    decreases |text|
  {
    if text != [] {
      if text[0] == '\n' {
        SplitLinesLastHasNoBreak(text[1..]);
      } else if text[0] == '\r' && |text| >= 2 && text[1] == '\n' {
        SplitLinesLastHasNoBreak(text[2..]);
      } else {
        SplitLinesLastHasNoBreak(text[1..]);
        var rest := SplitLines(text[1..]);
        if |rest| == 1 {
          assert Last(SplitLines(text)) == [text[0]] + rest[0];
        }
      }
    }
  }

  /**
   * The shape of `split`: one line more than there are `\n` characters, and
   * the last line is the part after the last `\n` (the whole text when there
   * is none).
   */
  lemma SplitLinesShape(text: string)
    ensures |SplitLines(text)| == 1 + CountNewlines(text)
    ensures CountNewlines(text) == 0 <==> '\n' !in text
    ensures var last := Last(SplitLines(text));
      && |last| <= |text| && last == text[|text| - |last|..]
      && '\n' !in last
      && (CountNewlines(text) == 0 ==> last == text)
      && (CountNewlines(text) > 0 ==> |last| < |text| && text[|text| - |last| - 1] == '\n')
  {
    SplitLinesCount(text);
    SplitLinesSingle(text);
    SplitLinesLastIsSuffix(text);
    SplitLinesLastAfterBreak(text);
    SplitLinesLastHasNoBreak(text);
  }

  /** `calculateEndPosition`: where an insert of `text` at `start` ends. */
  function CalculateEndPosition(start: Position, text: string): (end: Position)
    ensures end.line == start.line + CountNewlines(text)
    ensures '\n' !in text ==> end.character == start.character + |text|
  {
    SplitLinesCount(text);
    var lines := SplitLines(text);
    if |lines| == 1 then start.TranslateCharacters(|text|)
    else Position(start.line + |lines| - 1, |lines[|lines| - 1]|)
  }

  /** Text without `\n` ends on the start line, `|text|` characters further. */
  lemma EndPositionSingleLine(start: Position, text: string)
    requires '\n' !in text
    ensures CalculateEndPosition(start, text) == Position(start.line, start.character + |text|)
  {
    SplitLinesShape(text);
  }

  /**
   * Text with `n >= 1` line breaks ends `n` lines below the start, at the
   * length of the part after its last `\n`.
   */
  lemma EndPositionMultiLine(start: Position, text: string)
    requires '\n' in text
    ensures var end := CalculateEndPosition(start, text);
      && end.line == start.line + CountNewlines(text)
      && end.character < |text|
      && text[|text| - end.character - 1] == '\n'
      && forall j :: |text| - end.character <= j < |text| ==> text[j] != '\n'
  {
    var lines := SplitLines(text);
    LastLineAfterBreak(text);
    assert CalculateEndPosition(start, text) == Position(start.line + |lines| - 1, |lines[|lines| - 1]|);
  }

  /** With a `\n` in the text, the last line follows a `\n` and holds none. */
  lemma LastLineAfterBreak(text: string)
    requires '\n' in text
    ensures var lines := SplitLines(text); var n := |lines[|lines| - 1]|;
      && |lines| == 1 + CountNewlines(text) > 1
      && n < |text| && text[|text| - n - 1] == '\n'
      && forall j :: |text| - n <= j < |text| ==> text[j] != '\n'
  {
    SplitLinesShape(text);
    BreakFreeSuffix(text, Last(SplitLines(text)));
  }

  /** A suffix without `\n` puts no `\n` in the text's positions it covers. */
  lemma BreakFreeSuffix(text: string, suffix: string)
    requires |suffix| <= |text| && suffix == text[|text| - |suffix|..] && '\n' !in suffix
    ensures forall j :: |text| - |suffix| <= j < |text| ==> text[j] != '\n'
  {
    forall j | |text| - |suffix| <= j < |text| ensures text[j] != '\n' {
      assert text[j] == suffix[j - (|text| - |suffix|)];
    }
  }

  /** The end never lies before the start, so the recorded range is well formed. */
  lemma EndNotBeforeStart(start: Position, text: string)
    ensures Range(start, CalculateEndPosition(start, text)).Valid()
  {
    SplitLinesShape(text);
  }

  // ---------------------------------------------------------------------------
  // The selection-change rule.

  /**
   * The selection event keeps the session: an insert is recorded, the event
   * comes from the recorded editor, and its first selection lies inside the
   * recorded range and is either empty or that very range.
   */
  predicate KeepsSession(lastRange: Option<Range>, lastEditor: Option<EditorId>, editor: EditorId, selection: Option<Range>): (keeps: bool)
    ensures keeps ==> lastRange.Some? && lastEditor == Some(editor) && selection.Some?
    ensures keeps ==> lastRange.value.ContainsPosition(selection.value.start)
    ensures keeps && !selection.value.IsEmpty() ==> selection.value == lastRange.value
  {
    && lastRange.Some? && lastEditor == Some(editor) && selection.Some?
    && lastRange.value.ContainsRange(selection.value)
    && (selection.value.IsEmpty() || selection.value == lastRange.value)
  }

  /**
   * For a well-formed recorded range the session survives exactly in two
   * cases: a caret (empty selection) inside the range, endpoints included, or
   * a selection equal to the range; an idle tracker never keeps anything.
   */
  lemma KeepsSessionCases(lastRange: Option<Range>, lastEditor: Option<EditorId>, editor: EditorId, selection: Option<Range>)
    requires lastRange.Some? ==> lastRange.value.Valid()
    ensures KeepsSession(lastRange, lastEditor, editor, selection) <==>
      && lastRange.Some? && lastEditor == Some(editor) && selection.Some?
      && ((selection.value.IsEmpty() && lastRange.value.ContainsPosition(selection.value.start))
          || selection.value == lastRange.value)
    ensures lastRange.None? ==> !KeepsSession(lastRange, lastEditor, editor, selection)
  {
    if lastRange.Some? && selection.Some? && selection.value == lastRange.value {
      ValidRangeContainsItself(lastRange.value);
    }
  }

  /** The selection a successful paste sets passes the rule when it is reported back. */
  lemma PastedSelectionKeepsSession(editor: EditorId, insertPos: Position, text: string)
    ensures var inserted := Range(insertPos, CalculateEndPosition(insertPos, text));
      KeepsSession(Some(inserted), Some(editor), editor, Some(inserted))
  {
    EndNotBeforeStart(insertPos, text);
    ValidRangeContainsItself(Range(insertPos, CalculateEndPosition(insertPos, text)));
  }

  // ---------------------------------------------------------------------------
  // The tracker.

  class CyclingState {
    var lastInsertRange: Option<Range>
    var lastEditor: Option<EditorId>
    var commandInProgress: bool
    /** The shared `currentClipboardIndex` that `reset` clears. */
    const index: CycleIndex

    /** A recorded range always comes with its editor, and is well formed. */
    ghost predicate Valid()
      reads this
    {
      && (lastInsertRange.Some? <==> lastEditor.Some?)
      && (lastInsertRange.Some? ==> lastInsertRange.value.Valid())
    }

    constructor (index: CycleIndex)
      ensures Valid()
      ensures this.index == index
      ensures lastInsertRange == None && lastEditor == None && !commandInProgress
    {
      this.index := index;
      lastInsertRange := None;
      lastEditor := None;
      commandInProgress := false;
    }

    /** `reset`: the shared index goes back to unset and the session is forgotten; the guard is untouched. */
    method Reset()
      modifies this, index
      ensures Valid()
      ensures index.current == Unset
      ensures lastInsertRange == None && lastEditor == None
      ensures commandInProgress == old(commandInProgress)
    {
      index.Reset();
      lastInsertRange := None;
      lastEditor := None;
    }

    /** `onSelectionChanged` for an event from `editor` whose first selection is `selection`. */
    method OnSelectionChanged(editor: EditorId, selection: Option<Range>)
      requires Valid()
      modifies this, index
      ensures Valid()
      ensures commandInProgress == old(commandInProgress)
      ensures old(commandInProgress) || KeepsSession(old(lastInsertRange), old(lastEditor), editor, selection) ==>
        lastInsertRange == old(lastInsertRange) && lastEditor == old(lastEditor) && index.current == old(index.current)
      ensures !old(commandInProgress) && !KeepsSession(old(lastInsertRange), old(lastEditor), editor, selection) ==>
        lastInsertRange == None && lastEditor == None && index.current == Unset
      ensures !old(commandInProgress) && old(lastInsertRange).Some? && old(lastEditor) == Some(editor) && selection.Some? ==>
        ((selection.value.IsEmpty() && old(lastInsertRange).value.ContainsPosition(selection.value.start))
         || selection.value == old(lastInsertRange).value
         <==> lastInsertRange == old(lastInsertRange) && index.current == old(index.current))
    {
      if commandInProgress {
        return;
      }
      KeepsSessionCases(lastInsertRange, lastEditor, editor, selection);
      if lastInsertRange.None? || lastEditor.None? || lastEditor != Some(editor) {
        Reset();
        return;
      }
      var range := lastInsertRange.value;
      if selection.None? || !range.ContainsRange(selection.value)
         || (!selection.value.IsEmpty() && selection.value != range) {
        Reset();
      }
    }

    /**
     * The first phase of `executePaste`: raise the guard and issue the edit
     * that replaces the recorded range, or the editor's selection when none
     * is recorded, inserting at the start of that target.
     */
    method ExecutePaste(editor: Editor, text: string) returns (edit: PendingEdit)
      requires Valid()
      modifies this
      ensures Valid()
      ensures commandInProgress
      ensures lastInsertRange == old(lastInsertRange) && lastEditor == old(lastEditor)
      ensures edit.editor == editor.id && edit.text == text
      ensures edit.target == (if old(lastInsertRange).Some? then old(lastInsertRange).value else editor.selection)
      ensures edit.insertPos == edit.target.start
    {
      commandInProgress := true;
      var selection := if lastInsertRange.Some? then Range(lastInsertRange.value.start, lastInsertRange.value.end) else editor.selection;
      var insertPos := selection.start;
      edit := PendingEdit(editor.id, selection, insertPos, text);
    }

    /**
     * The second phase, when the edit settles: the guard drops either way; on
     * success the inserted range and its editor are recorded and the editor's
     * new selection (returned) is that range; on failure nothing else changes.
     */
    method SettlePaste(edit: PendingEdit, success: bool) returns (newSelection: Option<Range>)
      requires Valid()
      modifies this
      ensures Valid()
      ensures !commandInProgress
      ensures !success ==> lastInsertRange == old(lastInsertRange) && lastEditor == old(lastEditor) && newSelection == None
      ensures success ==>
        && lastInsertRange == Some(Range(edit.insertPos, CalculateEndPosition(edit.insertPos, edit.text)))
        && lastEditor == Some(edit.editor)
        && newSelection == lastInsertRange
    {
      commandInProgress := false;
      if !success {
        return None;
      }
      var newEnd := CalculateEndPosition(edit.insertPos, edit.text);
      EndNotBeforeStart(edit.insertPos, edit.text);
      lastInsertRange := Some(Range(edit.insertPos, newEnd));
      lastEditor := Some(edit.editor);
      newSelection := Some(Range(edit.insertPos, newEnd));
    }

    /** The `lastInsertRange` getter. */
    method LastInsertRange() returns (r: Option<Range>)
      ensures r == lastInsertRange
    {
      r := lastInsertRange;
    }
  }
}
