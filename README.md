# Clipboard manager with cycling paste: a Dafny model

This project models the core of a clipboard-history extension for a text
editor. Each of the two parts below is modelled as a whole, together with
their combination. The model follows the TypeScript sources.

- **The history.** `ClipboardManager` keeps the list of copied texts, newest
  first:
  - it merges duplicates, counts copies and uses, moves a used entry to the
    front and caps the list length;
  - it persists the list to one JSON file shared by every workspace, and
    reloads it when another window wrote the file later.
- **The cycling paste.** Paste-next advances a process-wide cycle index over
  the history and replaces the text it inserted last time with the next
  entry. A `CyclingState` tracker watches selection changes and resets that
  index when the user moves away from the inserted text.

Modules:

| module | file | role |
|---|---|---|
| `Host` | `host.dfy` | the editor values the code reads: positions, ranges, locations, editors, pending edits |
| `ClipboardState` | `clipboard_state.dfy` | the shared cycle index: a `CycleIndex` class, with the index arithmetic as functions using JavaScript's truncating `%` |
| `ClipHistory` | `clip_history.dfy` | the `Clip` record and the pure list transformations of `manager.ts` (find, filter, record a copy, record a use), with their lemmas |
| `ClipStore` | `clip_store.dfy` | the stored document: version-1 upgrade, load mapping, saved document, and the choice of store file |
| `Manager` | `manager.dfy` | the `ClipboardManager` class; its methods update the list in the source's steps, and each is proved equal to the matching `ClipHistory`/`ClipStore` function |
| `Cycling` | `cycling_state.dfy` | the `CyclingState` tracker: selection rule, guard, two-phase paste, end position of an insert |
| `PasteNextInPlace` | `paste_next_in_place.dfy` | the paste-next command class |
| `Extension` | `extension_wiring.dfy` | how activation combines the command, the tracker and the shared index, and the corrected combination |

Each editor edit is asynchronous and is split in two steps:

1. issuing the edit returns a `PendingEdit`;
2. a settle step takes that edit and whether the host applied it.

Where the documented design of the extension and its code disagree, the
model follows the code:

- **No session ending.** The code has no working accept: the accept
  command calls a tracker method that does not exist. There is no undo
  group and no safety timeout either. Only a selection change resets the
  tracker.
- **Tracker never used.** The registered paste-next command never calls the
  tracker's `executePaste`, so the tracker is always idle. (This reads the
  wiring as if activation got as far as registering the command; see
  "Missing functions" below.) Its selection
  listener then resets the shared index on every selection change,
  including the one the command causes itself. The first row of
  `## Findings` covers this.
- **Use count after loading.** Loading sets each entry's `useCount` from its
  `copyCount`. So a version-1 file loads with use count 1, not 0, and the
  save/load round trip loses use counts. The second row of `## Findings`
  covers this.
- **`lastUse` never set.** The `lastUse` field is declared but no operation
  ever sets it. `NoLastUse` is proved to be kept by recording a copy, recording a use, filtering and loading.
- **Single-line range.** Paste-next records its inserted range with
  single-line arithmetic (`translate(0, text.length)`). The tracker's
  `calculateEndPosition` handles line breaks.
- **Missing functions.** Two functions are called but not defined in the
  sources:
  - `initializeCyclingState`, called during activation (extension.ts:55),
    before the paste-next command is registered (extension.ts:68). As
    written, activation therefore stops, or does not build, before the
    command exists;
  - the tracker's `acceptCurrentSelection`, called by the accept command.

## Model

| member | source | states |
|---|---|---|
| `ClipboardState.JsRem` | vscode.clipboard-manager/src/clipboardState.ts:16 | JavaScript `%`: the remainder has the dividend's sign, its size is below the divisor's, and it satisfies the truncated-division identity |
| `ClipboardState.Incremented` | vscode.clipboard-manager/src/clipboardState.ts:15-18 | from any index at or above -1 the result lies in `[0, max)`; it is the next index, and it wraps to 0 after `max - 1` |
| `ClipboardState.Decremented` | vscode.clipboard-manager/src/clipboardState.ts:20-23 | from any index at or above `1 - max` the result lies in `[0, max)`; it is the previous index, and it wraps from 0 to `max - 1` |
| `ClipboardState.CycleIndex.constructor` | vscode.clipboard-manager/src/clipboardState.ts:1 | the index starts unset (-1) |
| `ClipboardState.CycleIndex.Reset` | vscode.clipboard-manager/src/clipboardState.ts:3-5 | the index becomes unset |
| `ClipboardState.CycleIndex.Get` | vscode.clipboard-manager/src/clipboardState.ts:7-9 | returns the stored index and changes nothing |
| `ClipboardState.CycleIndex.Set` | vscode.clipboard-manager/src/clipboardState.ts:11-13 | stores the given value |
| `ClipboardState.CycleIndex.Increment` | vscode.clipboard-manager/src/clipboardState.ts:15-18 | stores and returns `Incremented` of the old index |
| `ClipboardState.CycleIndex.Decrement` | vscode.clipboard-manager/src/clipboardState.ts:20-23 | stores and returns `Decremented` of the old index |
| `ClipboardState.DecrementFromUnset` | vscode.clipboard-manager/src/clipboardState.ts:20-23 | a decrement right after a reset lands on `max - 2`, not on the last entry (0 when `max` is 1) |
| `ClipboardState.IncrementDecrementInverse` | vscode.clipboard-manager/src/clipboardState.ts:15-23 | inside `[0, max)` an increment and a decrement undo each other, in both orders |
| `ClipboardState.ReachableIndexNotBelowUnset` | vscode.clipboard-manager/src/clipboardState.ts:1-23 | reset, increment and decrement never take the index below -1 |
| `ClipboardState.IncrementRunCounts` | vscode.clipboard-manager/src/clipboardState.ts:15-18 | from index `k - 1`, successive increments return `k, k+1, …, max-1` |
| `ClipboardState.IncrementWrapsAround` | vscode.clipboard-manager/src/clipboardState.ts:1-18 | from unset, `max` increments visit `0 … max-1` in order, then wrap to 0 |
| `ClipHistory.NewClip` | vscode.clipboard-manager/src/manager.ts:74-81 | a fresh entry has the change's text, timestamp, language and location, copy count 1, use count 0 and no `lastUse` |
| `ClipHistory.FindIndex` | vscode.clipboard-manager/src/manager.ts:84 | -1 exactly when no entry has the text; otherwise the index of the first entry that has it |
| `ClipHistory.Without` | vscode.clipboard-manager/src/manager.ts:145 | no entry of the text is left; the length is unchanged iff the text was absent |
| `ClipHistory.WithoutMembers` | vscode.clipboard-manager/src/manager.ts:145 | an entry survives filtering iff it was in the list and holds a different text |
| `ClipHistory.CountValue` | vscode.clipboard-manager/src/manager.ts:145 | the number of entries holding a text is at most the list's length, and zero iff no entry holds it |
| `ClipHistory.WithoutLength` | vscode.clipboard-manager/src/manager.ts:145 | filtering removes exactly the entries holding the text: the result is shorter by their count; with `WithoutIsSubsequence` this fixes the result |
| `ClipHistory.Truncate` | vscode.clipboard-manager/src/manager.ts:98-100 | the result is a prefix of the list: exactly `maxClips` entries when a positive `maxClips` is smaller than the list, the whole list otherwise |
| `ClipHistory.RecordCopy` | vscode.clipboard-manager/src/manager.ts:74-100 | the copied text is in front, and the list never exceeds a positive `maxClips` |
| `ClipHistory.RecordUse` | vscode.clipboard-manager/src/manager.ts:117-130 | the list length is kept |
| `ClipHistory.WithoutIsSubsequence` | vscode.clipboard-manager/src/manager.ts:90 | filtering keeps the survivors in their relative order |
| `ClipHistory.WithoutKeepsNoDuplicates` | vscode.clipboard-manager/src/manager.ts:90 | filtering keeps a duplicate-free list duplicate-free |
| `ClipHistory.RecordCopyKeepsOrder` | vscode.clipboard-manager/src/manager.ts:83-100 | the entries behind the front one are older entries, in their previous relative order |
| `ClipHistory.RecordCopyCapacity` | vscode.clipboard-manager/src/manager.ts:94-100 | without a merge the list grows by one, or is cut to exactly `maxClips`, dropping the tail |
| `ClipHistory.RecordCopyMergesDuplicate` | vscode.clipboard-manager/src/manager.ts:83-92 | with dedup, the first entry of the text moves to the front with its copy count raised by one (creation time and location kept), and no other entry of that text is left |
| `ClipHistory.RecordCopyMergeCutsTail` | vscode.clipboard-manager/src/manager.ts:83-100 | in the same merge, behind the front entry come the filtered older entries in their order, cut only at the tail: all of them unless a positive `maxClips` is too small, and then exactly `maxClips` entries |
| `ClipHistory.RecordCopyAddsFreshEntry` | vscode.clipboard-manager/src/manager.ts:74-81 | a new entry is copied once, never used, created at the change's time, with its language and location |
| `ClipHistory.RecordCopyKeepsNoDuplicates` | vscode.clipboard-manager/src/manager.ts:83-95 | with dedup, a duplicate-free list stays duplicate-free |
| `ClipHistory.RepeatedCopiesAccumulate` | vscode.clipboard-manager/src/manager.ts:74-95 | without dedup, copying a text twice leaves two equal entries in front |
| `ClipHistory.RecordCopyCountStep` | vscode.clipboard-manager/src/manager.ts:83-92 | with no cap, one copy raises the copied text's copy count by one and leaves every other text's count alone |
| `ClipHistory.RecordCopyCountCapped` | vscode.clipboard-manager/src/manager.ts:83-100 | under any cap, one copy raises the copied text's count by one; any other text keeps its count while it stays in the list and drops to 0 once cut off the tail |
| `ClipHistory.FirstMatchPrefix` | vscode.clipboard-manager/src/manager.ts:98-100 | cutting the list keeps a text's first entry if the kept prefix still holds the text, and leaves none otherwise |
| `ClipHistory.CopyCountTracksCopies` | vscode.clipboard-manager/src/manager.ts:74-100 | over any sequence of copies (dedup on, no cap), each text's copy count grows by exactly the number of times it was copied |
| `ClipHistory.RecordCopiesKeepNoDuplicates` | vscode.clipboard-manager/src/manager.ts:83-100 | any sequence of deduplicated copies keeps the list duplicate-free |
| `ClipHistory.RecordUseAbsent` | vscode.clipboard-manager/src/manager.ts:117-119 | using a text not in the history changes nothing |
| `ClipHistory.RecordUseMovesFirstMatch` | vscode.clipboard-manager/src/manager.ts:117-124 | with `moveToTop`, the first entry of the text, its use count +1 and nothing else changed, goes to the front; the entries before it shift back by one and those after it keep their place |
| `ClipHistory.RecordUseBumpsFirstMatch` | vscode.clipboard-manager/src/manager.ts:117-120 | without `moveToTop`, only the first entry of the text changes, in place, its use count +1 and nothing else of it changed |
| `ClipHistory.RecordUseFront` | vscode.clipboard-manager/src/manager.ts:122-124 | the used text is in front afterwards iff `moveToTop` is on or it was already in front |
| `ClipHistory.RecordUseKeepsNoDuplicates` | vscode.clipboard-manager/src/manager.ts:117-130 | a use keeps a duplicate-free list duplicate-free: entries are moved or bumped, never copied |
| `ClipHistory.RecordUseKeepsCopyCounts` | vscode.clipboard-manager/src/manager.ts:117-130 | a use never changes any text's copy count |
| `ClipHistory.RecordCopyKeepsNoLastUse` | vscode.clipboard-manager/src/manager.ts:74-100 | recording a copy never sets `lastUse` |
| `ClipHistory.RecordUseKeepsNoLastUse` | vscode.clipboard-manager/src/manager.ts:117-130 | recording a use never sets `lastUse` |
| `ClipHistory.WithoutKeepsNoLastUse` | vscode.clipboard-manager/src/manager.ts:145 | filtering never introduces a `lastUse` |
| `ClipStore.LoadedRecords` | vscode.clipboard-manager/src/manager.ts:312-327 | nothing is loaded iff the input is not a document, its `version` is falsy or it has no `clips`; otherwise one record per stored element |
| `ClipStore.MigrateLegacy` | vscode.clipboard-manager/src/manager.ts:319-325 | the version-1 upgrade: created at the record's `timestamp` and located at its `location`, copy count 1, use count 0, text and language kept |
| `ClipStore.LoadedClipAsWritten` | vscode.clipboard-manager/src/manager.ts:329-336 | an entry loads with its use count equal to the record's copy count, no `lastUse`, and the record's text, creation time, language and created location |
| `ClipStore.LoadedClipsAsWritten` | vscode.clipboard-manager/src/manager.ts:312-350 | the loader as written: loads exactly when `LoadedRecords` does, one entry per record |
| `ClipStore.LoadedClips` | vscode.clipboard-manager/src/manager.ts:312-350 | the corrected loader: loads nothing in the same three cases, otherwise one entry per stored element |
| `ClipStore.SavedDocument` | vscode.clipboard-manager/src/manager.ts:219-228 | the saved document is version 2 with one record per entry |
| `ClipStore.LoadLegacyDocument` | vscode.clipboard-manager/src/manager.ts:318-336 | a version-1 document loads with copy count 1 and use count 0, created at the old `timestamp`, located at the old `location`, with text and language kept |
| `ClipStore.LegacyUseCountAsWritten` | vscode.clipboard-manager/src/manager.ts:318-336 | as written, a version-1 document gets the same upgrade as `LoadLegacyDocument` (text, creation time from `timestamp`, copy count 1, language, location) but every entry loads with use count 1 |
| `ClipStore.LoadCurrentDocumentAsWritten` | vscode.clipboard-manager/src/manager.ts:329-337 | as written, any other truthy version keeps text, creation time, copy count, language and location, and each use count comes back equal to the copy count |
| `ClipStore.LoadCurrentDocument` | vscode.clipboard-manager/src/manager.ts:329-350 | any other truthy version loads text, creation time, both counts, language and location unchanged |
| `ClipStore.LoadedClipsHaveNoLastUse` | vscode.clipboard-manager/src/manager.ts:329-336 | no loaded entry has a `lastUse` |
| `ClipStore.LoadedUseCountIsCopyCountAsWritten` | vscode.clipboard-manager/src/manager.ts:329-336 | as written, every loaded entry's use count equals its copy count |
| `ClipStore.SaveLoadRoundTrip` | vscode.clipboard-manager/src/manager.ts:219-336 | save then load returns every entry unchanged except `lastUse`; it is the identity iff no entry has a `lastUse` |
| `ClipStore.SaveLoadRoundTripAsWritten` | vscode.clipboard-manager/src/manager.ts:219-336 | as written, the round trip replaces each use count by the copy count; it is the identity only where they already agree |
| `ClipStore.StorageRoot` | vscode.clipboard-manager/src/manager.ts:174-179 | the part of the storage path before its first `workspaceStorage` segment (either separator), or the whole path when there is none |
| `ClipStore.GetStoreFile` | vscode.clipboard-manager/src/manager.ts:171-195 | no store file iff `saveTo` is `false`; a string setting is the file as it is; otherwise the default file in the storage root (or the temporary directory) |
| `ClipStore.StoreFileFollowsSetting` | vscode.clipboard-manager/src/manager.ts:171-195 | the history persists unless `saveTo` is `false` or `""`; a string setting is used verbatim; without a storage path the file is in the temporary directory |
| `ClipStore.DefaultStoreFileName` | vscode.clipboard-manager/src/manager.ts:181 | the default path ends in `clipboard.history.json` |
| `ClipStore.StoreFileSharedAcrossWorkspaces` | vscode.clipboard-manager/src/manager.ts:171-181 | two workspaces of one installation get the same history file |
| `Manager.ClipboardManager.constructor` | vscode.clipboard-manager/src/manager.ts:21-26 | empty list, `lastUpdate` 0 |
| `Manager.ClipboardManager.UpdateClipList` | vscode.clipboard-manager/src/manager.ts:74-100 | the in-place steps leave exactly `RecordCopy` of the old list |
| `Manager.ClipboardManager.UpdateClipUsage` | vscode.clipboard-manager/src/manager.ts:117-130 | the bump-splice-unshift steps leave exactly `RecordUse` of the old list |
| `Manager.ClipboardManager.SetClipboardValue` | vscode.clipboard-manager/src/manager.ts:133-136 | the history effect is that of `updateClipUsage` |
| `Manager.ClipboardManager.RemoveClipboardValue` | vscode.clipboard-manager/src/manager.ts:143-151 | every entry of the text is removed; the result is true iff one was there |
| `Manager.ClipboardManager.ClearAll` | vscode.clipboard-manager/src/manager.ts:154-166 | the list becomes empty and the result is true |
| `Manager.ClipboardManager.LoadClips` | vscode.clipboard-manager/src/manager.ts:286-350 | `lastUpdate` takes the read's mtime when there is one; the list is replaced by the one the code loads (`LoadedClipsAsWritten`, use count taken from the copy count), or kept when loading returns early |
| `Manager.ClipboardManager.SaveClips` | vscode.clipboard-manager/src/manager.ts:213-237 | a version-2 document of the current list is written iff the file persists; then `lastUpdate` takes the write's mtime |
| `Manager.ClipboardManager.CheckClipsUpdate` | vscode.clipboard-manager/src/manager.ts:259-279 | reloads iff the file persists, exists and is newer than `lastUpdate` (the condition `ShouldReload`), installing the list the code loads (`LoadedClipsAsWritten`); `lastUpdate` never decreases |
| `Manager.ReloadSettles` | vscode.clipboard-manager/src/manager.ts:266-275 | after a reload, a check that sees the same mtime does not reload again |
| `Manager.WithoutIgnoresMatchUpdate` | vscode.clipboard-manager/src/manager.ts:88-90 | bumping the matched entry before filtering its text out does not change the filtered list |
| `Cycling.SplitLines` | vscode.clipboard-manager/src/cyclingState.ts:75 | splitting always yields at least one line |
| `Cycling.SplitLinesCount` | vscode.clipboard-manager/src/cyclingState.ts:75 | there is one line more than there are `\n` characters |
| `Cycling.SplitLinesLastIsSuffix` | vscode.clipboard-manager/src/cyclingState.ts:75 | the last line is a suffix of the text |
| `Cycling.SplitLinesLastAfterBreak` | vscode.clipboard-manager/src/cyclingState.ts:75 | with more than one line, the last line directly follows a `\n` |
| `Cycling.SplitLinesLastHasNoBreak` | vscode.clipboard-manager/src/cyclingState.ts:75 | the last line holds no `\n` |
| `Cycling.SplitLinesShape` | vscode.clipboard-manager/src/cyclingState.ts:75 | one more line than `\n` characters; the last line is the text after the last `\n` (the whole text when there is none) |
| `Cycling.EndPositionSingleLine` | vscode.clipboard-manager/src/cyclingState.ts:74-78 | text without a line break ends on the start line, `|text|` characters further |
| `Cycling.EndPositionMultiLine` | vscode.clipboard-manager/src/cyclingState.ts:78-81 | text with n line breaks ends n lines lower, at the length of the part after its last break |
| `Cycling.CalculateEndPosition` | vscode.clipboard-manager/src/cyclingState.ts:74-82 | the end lies one line below the start per `\n` in the text; without one it is `|text|` characters further on the start line |
| `Cycling.EndNotBeforeStart` | vscode.clipboard-manager/src/cyclingState.ts:74-82 | the inserted range is well formed |
| `Cycling.KeepsSession` | vscode.clipboard-manager/src/cyclingState.ts:24-32 | a kept session needs a recorded range from the same editor and a selection whose start lies in that range; a non-empty kept selection is the range itself |
| `Cycling.KeepsSessionCases` | vscode.clipboard-manager/src/cyclingState.ts:24-32 | a session survives a selection event iff a range is recorded for that editor and the selection is a caret inside it or the range itself |
| `Cycling.PastedSelectionKeepsSession` | vscode.clipboard-manager/src/cyclingState.ts:57-66 | the selection the tracker's own paste sets keeps the session |
| `Cycling.CyclingState.constructor` | vscode.clipboard-manager/src/cyclingState.ts:6-14 | idle: nothing recorded, guard down |
| `Cycling.CyclingState.Reset` | vscode.clipboard-manager/src/cyclingState.ts:35-39 | the shared index becomes unset and the session is forgotten |
| `Cycling.CyclingState.OnSelectionChanged` | vscode.clipboard-manager/src/cyclingState.ts:16-33 | with the guard up, or when the session is kept, nothing changes; otherwise a reset; with the guard down and a range recorded for the event's editor, the session and index survive iff the selection is a caret inside the range or the range itself |
| `Cycling.CyclingState.ExecutePaste` | vscode.clipboard-manager/src/cyclingState.ts:41-56 | raises the guard; the edit replaces the recorded range (or the selection) and inserts at its start |
| `Cycling.CyclingState.SettlePaste` | vscode.clipboard-manager/src/cyclingState.ts:57-66 | the guard drops; on success the inserted range and editor are recorded and become the selection; on failure nothing else changes |
| `Cycling.CyclingState.LastInsertRange` | vscode.clipboard-manager/src/cyclingState.ts:84-86 | returns the recorded range |
| `PasteNextInPlace.SingleLineEnd` | vscode.clipboard-manager/src/commands/pasteNextInPlace.ts:41 | the recorded end is on the insert line, `|text|` characters on, whatever the text holds |
| `PasteNextInPlace.SingleLineEndMatchesOnlyWithoutBreaks` | vscode.clipboard-manager/src/commands/pasteNextInPlace.ts:41-42 | the recorded end equals the true end of the insert iff the text has no line break; otherwise it lies on an earlier line |
| `PasteNextInPlace.PickedIndexInRange` | vscode.clipboard-manager/src/commands/pasteNextInPlace.ts:27-28 | from an index at or above -1 the picked index is inside the history |
| `PasteNextInPlace.PasteNextInPlaceCommand.constructor` | vscode.clipboard-manager/src/commands/pasteNextInPlace.ts:8-18 | nothing recorded |
| `PasteNextInPlace.PasteNextInPlaceCommand.Execute` | vscode.clipboard-manager/src/commands/pasteNextInPlace.ts:20-38 | empty history: notice only; otherwise the index advances before the editor check; an out-of-range index fails; the edit replaces the remembered range (or the selection) with the picked text |
| `PasteNextInPlace.PasteNextInPlaceCommand.Settle` | vscode.clipboard-manager/src/commands/pasteNextInPlace.ts:38-43 | on success the single-line range is remembered and selected; on failure nothing changes; a remembered range is never cleared |
| `Extension.PasteNextWithEcho` | vscode.clipboard-manager/src/commands/pasteNextInPlace.ts:20-45 | a successful paste-next followed by its selection event pastes the next entry and leaves the shared index unset again |
| `Extension.PasteNextTwice` | vscode.clipboard-manager/src/cyclingState.ts:16-39 | the second of two paste-nexts always pastes the newest entry; from unset both paste it |
| `Extension.CycleNextWithEcho` | vscode.clipboard-manager/src/cyclingState.ts:41-72 | through the tracker, the advanced index survives both the event during the edit and the selection event after it |
| `Extension.CycleNextTwice` | vscode.clipboard-manager/src/cyclingState.ts:16-72 | through the tracker, two paste-nexts from unset paste the first and then the second entry |

## Findings

| source | as written | input that shows it | evidently intended | confidence | as-written member | corrected member |
|---|---|---|---|---|---|---|
| vscode.clipboard-manager/src/commands/pasteNextInPlace.ts:27-43 | paste-next edits the document itself and never goes through the shared tracker; the idle tracker resets the shared index on the selection the command sets (cyclingState.ts:24-26) | history `["a", "b"]`, index unset, two paste-next commands, with the host reporting each selection the command sets: both paste `"a"` | the paste goes through the tracker's `executePaste`, so its own selection keeps the session and the second paste gives `"b"` | medium (relies on the host reporting programmatic selection changes, and on activation reaching the command's registration, which as written it does not: extension.ts:55 calls the undefined `initializeCyclingState` first), not executed | `Extension.PasteNextTwice` | `Extension.CycleNextTwice` |
| vscode.clipboard-manager/src/manager.ts:334 | `useCount: c.copyCount` | a saved entry with copy count 1 and use count 3 reloads with use count 1; a version-1 record reloads with use count 1, although the upgrade at line 322 set 0 | `useCount: c.useCount`, so the save/load round trip keeps every count | high, not executed | `ClipStore.SaveLoadRoundTripAsWritten` | `ClipStore.SaveLoadRoundTrip` |

`Manager.ClipboardManager.LoadClips` and `CheckClipsUpdate` install the
list the code loads, `LoadedClipsAsWritten`. The corrected loader is
`ClipStore.LoadedClips`; its round trip and version-1 upgrade are proved
beside it.

## Left out

- File and global-state I/O, JSON parsing and serialisation (including `jsonReplacer`'s location format), and user messages:
  - the file's existence, its modification times and the parsed document are method parameters;
  - a read or write failure is an absent modification time.
- Malformed documents: a parsed `null` or non-object counts as `Unparsable`. Every stored numeric key is a number; missing or non-numeric fields and the `undefined` values they would produce are not modelled. A `version` of `"1"` (a string) is not modelled either.
- Change events (`onDidChangeClipList`) and the clipboard monitor; `setClipboardValue`'s clipboard write.
- Concurrency:
  - the fire-and-forget `checkClipsUpdate` and `saveClips` calls that race the list updates;
  - the asynchronous load in the constructor;
  - a promise rejection that would leave the tracker's guard raised.
  Each operation is modelled as completing alone.
- Aliasing of clip objects: entries are values, so `copyCount++` and `useCount++` on an object that another list also holds is not modelled.
- ClipboardState.Incremented: a history length of 0 (which makes JavaScript's `%` return NaN) is excluded by `requires`; every caller checks for an empty history first.
- ClipboardState.Decremented: the same length-0 case is excluded by `requires`, for the same reason.
- Modification times are integers; fractional millisecond times are not modelled.
- ClipStore.JoinPath: models POSIX `path.join` only: it does no normalisation of `.`/`..` or repeated separators, and does not model the Windows separator.
- Text lengths are counted in characters; the UTF-16 code-unit lengths of the host are not modelled.
- A selection's direction (anchor/active) and all selections but the first are not modelled.
- The `onSuccess` callback of `executePaste` is not modelled: no caller passes one.
- `pastePrevInPlace.ts` is not part of this model. Its `register` is never called, so its command never exists, and it reads `manager.items`, which the manager does not have. `CycleIndex.Decrement` models the index step it would use.
- Activation as written: the call to the undefined `initializeCyclingState` (extension.ts:55) stops activation before the paste-next command is registered (extension.ts:68). `Extension` models the wiring as if that call were removed or supplied; the failed activation itself is not modelled.
- `acceptCyclingSelection.ts` is not part of this model: the tracker method it calls does not exist. `initializeCyclingState` is not part of this model either: it is imported but not defined.
- `extension.ts` activation beyond the wiring in `Extension`, `tree/history.ts`, `completion.ts`, `copyToHistory.ts`, `common.ts` and the monitor are not part of this model.
