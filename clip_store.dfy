/**
 * The persisted form of the history and the choice of the file that holds it:
 * how `loadClips` turns a parsed document (version 1 or 2) into entries,
 * the document `saveClips` writes, and the path `getStoreFile` picks.
 */
module ClipStore {
  import opened Host
  import opened ClipHistory

  /**
   * One element of the stored `clips` array.  A version-1 file keeps the copy
   * time in `timestamp` and the source in `location`; a version-2 file keeps
   * `createdAt`, `copyCount`, `useCount` and `createdLocation`.  A record carries
   * a number for every numeric key either schema names; the keys a document's
   * schema does not read are ignored by the loader.
   */
  datatype StoredRecord = StoredRecord(
    value: string,
    timestamp: int,
    location: Option<Location>,
    createdAt: int,
    copyCount: int,
    useCount: int,
    lastUse: Option<int>,
    language: Option<string>,
    createdLocation: Option<Location>)

  /** The parsed top-level object: `version` and `clips`, each possibly missing. */
  datatype StoredDocument = StoredDocument(version: Option<int>, clips: Option<seq<StoredRecord>>)

  /**
   * What `loadClips` obtained before mapping: no text at all (no file and
   * nothing in the old global storage, or the read failed), text that is not
   * a JSON object, or a parsed object.
   */
  datatype LoadInput = NoData | Unparsable | Parsed(doc: StoredDocument)

  /** JavaScript truthiness of the `version` key: missing and `0` are falsy. */
  predicate VersionTruthy(version: Option<int>) {
    version.Some? && version.value != 0
  }

  /** The version-1 upgrade `loadClips` applies to each record. */
  function MigrateLegacy(rec: StoredRecord): (r: StoredRecord)
    ensures r.createdAt == rec.timestamp && r.createdLocation == rec.location
    ensures r.copyCount == 1 && r.useCount == 0
    ensures r.value == rec.value && r.language == rec.language
  {
    rec.(createdAt := rec.timestamp, copyCount := 1, useCount := 0, createdLocation := rec.location)
  }

  /**
   * The records `loadClips` maps, after the version-1 upgrade, or `None`
   * when it returns early and leaves the current list alone.
   */
  function LoadedRecords(input: LoadInput): (r: Option<seq<StoredRecord>>)
    ensures r.None? <==> !input.Parsed? || !VersionTruthy(input.doc.version) || input.doc.clips.None?
    ensures r.Some? ==> |r.value| == |input.doc.clips.value|
  {
    match input
    case NoData => None
    case Unparsable => None
    case Parsed(doc) =>
      if !VersionTruthy(doc.version) || doc.clips.None? then None
      else
        var stored := doc.clips.value;
        if doc.version == Some(1) then Some(seq(|stored|, k requires 0 <= k < |stored| => MigrateLegacy(stored[k])))
        else Some(stored)
  }

  /**
   * The entry `loadClips` builds from a record, as written: its `useCount`
   * is read from the record's `copyCount`, and `lastUse` is dropped.
   */
  function LoadedClipAsWritten(rec: StoredRecord): (c: Clip)
    ensures c.useCount == c.copyCount == rec.copyCount
    ensures c.value == rec.value && c.createdAt == rec.createdAt && c.lastUse.None?
    ensures c.language == rec.language && c.location == rec.createdLocation
  {
    Clip(rec.value, rec.createdAt, None, rec.copyCount, rec.copyCount, rec.language, rec.createdLocation)
  }

  /** The list `loadClips` as written installs, or `None` when it leaves the current list alone. */
  function LoadedClipsAsWritten(input: LoadInput): (r: Option<seq<Clip>>)
    ensures r.None? <==> LoadedRecords(input).None?
    ensures r.Some? ==> |r.value| == |LoadedRecords(input).value|
  {
    match LoadedRecords(input)
    case None => None
    case Some(records) => Some(seq(|records|, k requires 0 <= k < |records| => LoadedClipAsWritten(records[k])))
  }

  /** The entry `loadClips` is evidently meant to build: `useCount` read from the record's own `useCount`. */
  function LoadedClip(rec: StoredRecord): Clip {
    Clip(rec.value, rec.createdAt, None, rec.copyCount, rec.useCount, rec.language, rec.createdLocation)
  }

  /** The list the corrected `loadClips` installs, or `None` when it leaves the current list alone. */
  function LoadedClips(input: LoadInput): (r: Option<seq<Clip>>)
    ensures r.None? <==> !input.Parsed? || !VersionTruthy(input.doc.version) || input.doc.clips.None?
    ensures r.Some? ==> |r.value| == |input.doc.clips.value|
  {
    match LoadedRecords(input)
    case None => None
    case Some(records) => Some(seq(|records|, k requires 0 <= k < |records| => LoadedClip(records[k])))
  }

  /** The record `saveClips` writes for an entry (through `jsonReplacer`). */
  function SavedRecord(c: Clip): StoredRecord {
    // A version-2 file has no `timestamp` or `location` key; a version-2 load never reads them.
    StoredRecord(c.value, c.createdAt, None, c.createdAt, c.copyCount, c.useCount, c.lastUse, c.language, c.location)
  }

  /** The document `saveClips` writes: version 2 and every entry in order. */
  function SavedDocument(clips: seq<Clip>): (doc: StoredDocument)
    ensures doc.version == Some(2) && doc.clips.Some? && |doc.clips.value| == |clips|
  {
    StoredDocument(Some(2), Some(seq(|clips|, k requires 0 <= k < |clips| => SavedRecord(clips[k]))))
  }

  // ---------------------------------------------------------------------------
  // Loading.

  /**
   * A version-1 document: each entry keeps its text and language, is created
   * at the record's `timestamp`, copied once, never used, and located at the
   * record's `location`.
   */
  lemma LoadLegacyDocument(stored: seq<StoredRecord>)
    ensures var r := LoadedClips(Parsed(StoredDocument(Some(1), Some(stored))));
      && r.Some? && |r.value| == |stored|
      && forall k :: 0 <= k < |stored| ==>
           && r.value[k].value == stored[k].value
           && r.value[k].createdAt == stored[k].timestamp
           && r.value[k].copyCount == 1
           && r.value[k].useCount == 0
           && r.value[k].language == stored[k].language
           && r.value[k].location == stored[k].location
  {
    var r := LoadedClips(Parsed(StoredDocument(Some(1), Some(stored))));
    var records := LoadedRecords(Parsed(StoredDocument(Some(1), Some(stored)))).value;
    assert records == seq(|stored|, k requires 0 <= k < |stored| => MigrateLegacy(stored[k]));
    assert r.value == seq(|records|, k requires 0 <= k < |records| => LoadedClip(records[k]));
    forall k | 0 <= k < |stored| ensures r.value[k] == LoadedClip(MigrateLegacy(stored[k])) {
      assert records[k] == MigrateLegacy(stored[k]);
    }
  }

  /**
   * As written, the same version-1 document gets the same upgrade (text,
   * creation time, copy count 1, language, location) but comes back with
   * every entry used once: the upgrade's `useCount = 0` is overwritten by the
   * copy count.
   */
  lemma LegacyUseCountAsWritten(stored: seq<StoredRecord>)
    ensures var r := LoadedClipsAsWritten(Parsed(StoredDocument(Some(1), Some(stored))));
      && r.Some? && |r.value| == |stored|
      && forall k :: 0 <= k < |stored| ==>
           && r.value[k].value == stored[k].value
           && r.value[k].createdAt == stored[k].timestamp
           && r.value[k].copyCount == 1
           && r.value[k].useCount == 1
           && r.value[k].language == stored[k].language
           && r.value[k].location == stored[k].location
  {
    var r := LoadedClipsAsWritten(Parsed(StoredDocument(Some(1), Some(stored))));
    var records := LoadedRecords(Parsed(StoredDocument(Some(1), Some(stored)))).value;
    assert records == seq(|stored|, k requires 0 <= k < |stored| => MigrateLegacy(stored[k]));
    assert r.value == seq(|records|, k requires 0 <= k < |records| => LoadedClipAsWritten(records[k]));
    forall k | 0 <= k < |stored| ensures r.value[k] == LoadedClipAsWritten(MigrateLegacy(stored[k])) {
      assert records[k] == MigrateLegacy(stored[k]);
    }
  }

  /** A document of any other truthy version: text, creation time, both counts, language and location are kept. */
  lemma LoadCurrentDocument(version: int, stored: seq<StoredRecord>)
    requires version != 0 && version != 1
    ensures var r := LoadedClips(Parsed(StoredDocument(Some(version), Some(stored))));
      && r.Some? && |r.value| == |stored|
      && forall k :: 0 <= k < |stored| ==>
           && r.value[k].value == stored[k].value
           && r.value[k].createdAt == stored[k].createdAt
           && r.value[k].copyCount == stored[k].copyCount
           && r.value[k].useCount == stored[k].useCount
           && r.value[k].language == stored[k].language
           && r.value[k].location == stored[k].createdLocation
  {
    var r := LoadedClips(Parsed(StoredDocument(Some(version), Some(stored))));
    assert r.value == seq(|stored|, k requires 0 <= k < |stored| => LoadedClip(stored[k]));
  }

  /**
   * As written, a document of any other truthy version keeps text, creation
   * time, copy count, language and location, but each use count comes back
   * equal to the copy count.
   */
  lemma LoadCurrentDocumentAsWritten(version: int, stored: seq<StoredRecord>)
    requires version != 0 && version != 1
    ensures var r := LoadedClipsAsWritten(Parsed(StoredDocument(Some(version), Some(stored))));
      && r.Some? && |r.value| == |stored|
      && forall k :: 0 <= k < |stored| ==>
           && r.value[k].value == stored[k].value
           && r.value[k].createdAt == stored[k].createdAt
           && r.value[k].copyCount == stored[k].copyCount
           && r.value[k].useCount == stored[k].copyCount
           && r.value[k].language == stored[k].language
           && r.value[k].location == stored[k].createdLocation
  {
    var r := LoadedClipsAsWritten(Parsed(StoredDocument(Some(version), Some(stored))));
    assert r.value == seq(|stored|, k requires 0 <= k < |stored| => LoadedClipAsWritten(stored[k]));
  }

  /** No loaded entry carries a `lastUse`: the loader never reads that key. */
  lemma LoadedClipsHaveNoLastUse(input: LoadInput)
    ensures var r := LoadedClips(input);
      r.Some? ==> NoLastUse(r.value)
  {
    var r := LoadedClips(input);
    if r.Some? {
      var records := LoadedRecords(input).value;
      assert r.value == seq(|records|, k requires 0 <= k < |records| => LoadedClip(records[k]));
    }
  }

  /** As written, every loaded entry has `useCount` equal to its `copyCount`, whatever the record said. */
  lemma LoadedUseCountIsCopyCountAsWritten(input: LoadInput)
    ensures var r := LoadedClipsAsWritten(input);
      r.Some? ==> forall k :: 0 <= k < |r.value| ==>
        r.value[k].useCount == r.value[k].copyCount && r.value[k].lastUse == None
  {
    var r := LoadedClipsAsWritten(input);
    if r.Some? {
      var records := LoadedRecords(input).value;
      assert r.value == seq(|records|, k requires 0 <= k < |records| => LoadedClipAsWritten(records[k]));
    }
  }

  /**
   * Saving and loading again keeps every entry's text, creation time, both
   * counts, language and location, in order; only `lastUse` is lost, so the
   * round trip is the identity exactly on lists without a `lastUse`, which is
   * every list the manager builds.
   */
  lemma SaveLoadRoundTrip(clips: seq<Clip>)
    ensures var r := LoadedClips(Parsed(SavedDocument(clips)));
      && r.Some? && |r.value| == |clips|
      && (forall k :: 0 <= k < |clips| ==> r.value[k] == clips[k].(lastUse := None))
      && (r.value == clips <==> NoLastUse(clips))
  {
    var r := LoadedClips(Parsed(SavedDocument(clips)));
    var stored := SavedDocument(clips).clips.value;
    assert r.value == seq(|stored|, k requires 0 <= k < |stored| => LoadedClip(stored[k]));
    forall k | 0 <= k < |clips| ensures r.value[k] == clips[k].(lastUse := None) {
      assert stored[k] == SavedRecord(clips[k]);
    }
    if NoLastUse(clips) {
      assert r.value == clips;
    }
  }

  /**
   * The same round trip as written: the use count comes back equal to the
   * copy count, so it is the identity only on lists whose entries already
   * have `useCount == copyCount` and no `lastUse`.
   */
  lemma SaveLoadRoundTripAsWritten(clips: seq<Clip>)
    ensures var r := LoadedClipsAsWritten(Parsed(SavedDocument(clips)));
      && r.Some? && |r.value| == |clips|
      && (forall k :: 0 <= k < |clips| ==>
            r.value[k] == clips[k].(useCount := clips[k].copyCount, lastUse := None))
      && (r.value == clips <==> forall k :: 0 <= k < |clips| ==> clips[k].useCount == clips[k].copyCount && clips[k].lastUse == None)
  {
    var r := LoadedClipsAsWritten(Parsed(SavedDocument(clips)));
    var stored := SavedDocument(clips).clips.value;
    assert r.value == seq(|stored|, k requires 0 <= k < |stored| => LoadedClipAsWritten(stored[k]));
    forall k | 0 <= k < |clips|
      ensures r.value[k] == clips[k].(useCount := clips[k].copyCount, lastUse := None)
    {
      assert stored[k] == SavedRecord(clips[k]);
    }
    if forall k :: 0 <= k < |clips| ==> clips[k].useCount == clips[k].copyCount && clips[k].lastUse == None {
      assert r.value == clips;
    }
  }

  // ---------------------------------------------------------------------------
  // Choosing the store file (`getStoreFile`).

  /** The `saveTo` setting: a path, `false`, or anything else (unset, `null`, `true`). */
  datatype SaveTo = SaveToPath(path: string) | SaveToNowhere | SaveToDefault

  /** A path to persist to, or `false`: no persistence. */
  datatype StoreFile = StoreAt(path: string) | NoStore

  /** `saveClips` and `checkClipsUpdate` test the chosen path for truthiness: `""` does not persist. */
  predicate Persists(file: StoreFile) {
    file.StoreAt? && file.path != ""
  }

  const HistoryFileName: string := "clipboard.history.json"
  const WorkspaceStorage: string := "workspaceStorage"

  predicate IsSeparator(c: char) {
    c == '/' || c == '\\'
  }

  /** `s` has a separator, `workspaceStorage` and a separator starting at index `i`. */
  predicate SegmentAt(s: string, i: nat) {
    i + 18 <= |s| && IsSeparator(s[i]) && s[i + 1..i + 17] == WorkspaceStorage && IsSeparator(s[i + 17])
  }

  /** The first index at or after `from` where a segment starts. */
  function FirstSegment(s: string, from: nat): (r: Option<nat>)
    requires from <= |s|
    ensures r.Some? ==> from <= r.value && SegmentAt(s, r.value)
    ensures forall j :: from <= j && (r.None? || j < r.value) ==> !SegmentAt(s, j)
    decreases |s| - from
  {
    if |s| < from + 18 then None
    else if SegmentAt(s, from) then Some(from)
    else FirstSegment(s, from + 1)
  }

  /**
   * `storagePath.split(/[\\/]workspaceStorage[\\/]/)[0]`: the part of the
   * storage path before its first segment, the whole path when it has none.
   */
  function StorageRoot(storagePath: string): (root: string)
    ensures |root| <= |storagePath|
    ensures root == storagePath[..|root|]
    ensures |root| < |storagePath| ==> SegmentAt(storagePath, |root|)
    ensures forall j :: 0 <= j < |root| ==> !SegmentAt(storagePath, j)
    ensures |root| == |storagePath| ==> forall j: nat :: !SegmentAt(storagePath, j)
  {
    match FirstSegment(storagePath, 0)
    case Some(i) => storagePath[..i]
    case None => storagePath
  }

  /**
   * `path.join(folder, name)` for a POSIX path: an empty folder adds nothing
   * and a separator is added unless the folder already ends with one.
   */
  function JoinPath(folder: string, name: string): string {
    if folder == "" then name
    else if folder[|folder| - 1] == '/' then folder + name
    else folder + "/" + name
  }

  /** `getStoreFile`; a missing or empty storage path falls back to the temporary directory. */
  function GetStoreFile(storagePath: Option<string>, tmpdir: string, saveTo: SaveTo): (file: StoreFile)
    ensures file.NoStore? <==> saveTo.SaveToNowhere?
    ensures saveTo.SaveToPath? ==> file == StoreAt(saveTo.path)
    ensures saveTo.SaveToDefault? && storagePath.Some? && storagePath.value != "" ==>
      file == StoreAt(JoinPath(StorageRoot(storagePath.value), HistoryFileName))
  {
    var folder := if storagePath.Some? && storagePath.value != "" then StorageRoot(storagePath.value) else tmpdir;
    match saveTo
    case SaveToPath(p) => StoreAt(p)
    case SaveToNowhere => NoStore
    case SaveToDefault => StoreAt(JoinPath(folder, HistoryFileName))
  }

  /**
   * The history persists unless `saveTo` is `false` or the empty string; a
   * string setting is used as it is, and without a (non-empty) storage path
   * the default file lies in the temporary directory.
   */
  lemma StoreFileFollowsSetting(storagePath: Option<string>, tmpdir: string, saveTo: SaveTo)
    ensures Persists(GetStoreFile(storagePath, tmpdir, saveTo)) <==>
      saveTo.SaveToDefault? || (saveTo.SaveToPath? && saveTo.path != "")
    ensures saveTo.SaveToPath? ==> GetStoreFile(storagePath, tmpdir, saveTo) == StoreAt(saveTo.path)
    ensures (storagePath.None? || storagePath == Some("")) ==>
      GetStoreFile(storagePath, tmpdir, SaveToDefault) == StoreAt(JoinPath(tmpdir, HistoryFileName))
  {
    DefaultStoreFileName(storagePath, tmpdir);
  }

  /** The default file name always ends the default path. */
  lemma DefaultStoreFileName(storagePath: Option<string>, tmpdir: string)
    ensures var f := GetStoreFile(storagePath, tmpdir, SaveToDefault);
      f.StoreAt? && |f.path| >= |HistoryFileName| && f.path[|f.path| - |HistoryFileName|..] == HistoryFileName
  {
  }

  /**
   * Storage paths of two workspaces that agree up to their first
   * `workspaceStorage` segment give the same history file: the history is
   * shared by every workspace of one editor installation.
   */
  lemma StoreFileSharedAcrossWorkspaces(root: string, a: string, b: string, tmpdir: string)
    requires SegmentAt(root + a, |root|) && SegmentAt(root + b, |root|)
    requires forall j :: 0 <= j < |root| ==> !SegmentAt(root + a, j) && !SegmentAt(root + b, j)
    ensures GetStoreFile(Some(root + a), tmpdir, SaveToDefault) == GetStoreFile(Some(root + b), tmpdir, SaveToDefault)
    ensures GetStoreFile(Some(root + a), tmpdir, SaveToDefault) == StoreAt(JoinPath(root, HistoryFileName))
  {
    RootAtFirstSegment(root + a, |root|);
    RootAtFirstSegment(root + b, |root|);
    assert (root + a)[..|root|] == root;
    assert (root + b)[..|root|] == root;
  }

  /** When the first segment starts at `i`, the root is everything before `i`. */
  lemma RootAtFirstSegment(s: string, i: nat)
    requires SegmentAt(s, i)
    requires forall j :: 0 <= j < i ==> !SegmentAt(s, j)
    ensures StorageRoot(s) == s[..i]
  {
    var first := FirstSegment(s, 0);
    assert first.Some? && first.value == i;
  }
}
