/**
 * How activation wires the pieces together: one `ClipboardManager`, the
 * paste-next command reading its history, and the shared `CyclingState`
 * listening to every selection change, both working on the one shared cycle
 * index.  Nothing ever calls the tracker's `executePaste`, so it stays idle:
 * no range recorded, guard down.  The host reports the selection the
 * paste-next command sets after its edit like any other selection change,
 * and the idle tracker answers it by resetting the shared index.  The last
 * two methods give the corrected wiring, where the edit goes through the
 * tracker.
 *
 * This assumes activation reaches the registration of the command.  As
 * written it does not: it first calls `initializeCyclingState`, which is
 * imported but not defined anywhere, so activation fails (or does not build)
 * before the command exists.  The methods here describe the wiring once that
 * call is removed or supplied.
 */
module Extension {
  import opened Host
  import opened ClipboardState
  import opened Cycling
  import opened Manager
  import opened PasteNextInPlace

  /** The idle tracker: nothing recorded and no command in flight. */
  ghost predicate Idle(tracker: CyclingState)
    reads tracker
  {
    tracker.Valid() && tracker.lastInsertRange.None? && !tracker.commandInProgress
  }

  /**
   * One paste-next whose edit succeeds, followed by the selection event for
   * the selection the command sets: the entry after the current index is
   * pasted, the command remembers the inserted range, and the tracker puts
   * the shared index back to unset.
   */
  method PasteNextWithEcho(command: PasteNextInPlaceCommand, tracker: CyclingState, editor: Editor)
    returns (pasted: string)
    requires tracker.index == command.index && Idle(tracker)
    requires |command.manager.clips| > 0 && command.index.current >= Unset
    modifies command, command.index, tracker
    ensures pasted == command.manager.clips[Incremented(old(command.index.current), |command.manager.clips|)].value
    ensures command.lastInsertRange.Some?
    ensures command.index.current == Unset && Idle(tracker)
  {
    PickedIndexInRange(command.index.current, |command.manager.clips|);
    var outcome := command.Execute(Some(editor));
    assert outcome.EditIssued?;
    var edit := outcome.edit;
    pasted := edit.text;
    var newSelection := command.Settle(edit, true);
    tracker.OnSelectionChanged(editor.id, newSelection);
  }

  /**
   * Two paste-next commands in a row: whatever the index was, the second one
   * pastes the most recent entry again, and when the index starts unset both
   * paste it, so the command never moves past the first entry of the history.
   */
  method PasteNextTwice(command: PasteNextInPlaceCommand, tracker: CyclingState, editor: Editor)
    returns (first: string, second: string)
    requires tracker.index == command.index && Idle(tracker)
    requires |command.manager.clips| > 0 && command.index.current >= Unset
    modifies command, command.index, tracker
    ensures second == command.manager.clips[0].value
    ensures old(command.index.current) == Unset ==> first == second
    ensures command.index.current == Unset && Idle(tracker)
  {
    first := PasteNextWithEcho(command, tracker, editor);
    second := PasteNextWithEcho(command, tracker, editor);
  }

  /**
   * Paste-next with its edit handed to the shared tracker's `executePaste`,
   * the use the tracker is evidently written for.  `inFlight` is a selection
   * event the host may deliver while the edit is pending; the guard makes the
   * tracker ignore it.  The selection set after the edit is the recorded
   * range, which keeps the session, so the advanced index survives.
   */
  method CycleNextWithEcho(manager: ClipboardManager, tracker: CyclingState, editor: Editor, inFlight: Option<Range>)
    returns (pasted: string)
    requires tracker.Valid() && !tracker.commandInProgress
    requires |manager.clips| > 0 && tracker.index.current >= Unset
    modifies tracker, tracker.index
    ensures var picked := Incremented(old(tracker.index.current), |manager.clips|);
      pasted == manager.clips[picked].value && tracker.index.current == picked
    ensures tracker.Valid() && !tracker.commandInProgress
    ensures tracker.lastInsertRange.Some? && tracker.lastEditor == Some(editor.id)
  {
    PickedIndexInRange(tracker.index.current, |manager.clips|);
    var picked := tracker.index.Increment(|manager.clips|);
    pasted := manager.clips[picked].value;
    var edit := tracker.ExecutePaste(editor, pasted);
    tracker.OnSelectionChanged(editor.id, inFlight);
    var newSelection := tracker.SettlePaste(edit, true);
    PastedSelectionKeepsSession(edit.editor, edit.insertPos, edit.text);
    tracker.OnSelectionChanged(editor.id, newSelection);
  }

  /**
   * Two corrected paste-next commands from the unset index paste the first
   * and then the second entry of the history.
   */
  method CycleNextTwice(manager: ClipboardManager, tracker: CyclingState, editor: Editor)
    returns (first: string, second: string)
    requires tracker.Valid() && !tracker.commandInProgress
    requires |manager.clips| >= 2 && tracker.index.current == Unset
    modifies tracker, tracker.index
    ensures first == manager.clips[0].value && second == manager.clips[1].value
    ensures tracker.index.current == 1
  {
    first := CycleNextWithEcho(manager, tracker, editor, None);
    second := CycleNextWithEcho(manager, tracker, editor, None);
  }
}
