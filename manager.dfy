/**
 * `ClipboardManager`: the object that owns the history list and the
 * modification time of the store file it last saw.  Its mutators change the
 * list in place in the same steps as the source; their contracts tie the new
 * list to the pure functions of `ClipHistory` and `ClipStore`, about which
 * the properties are proved.  Configuration values, the store file's
 * existence and modification time, and the text read from it are parameters.
 */
module Manager {
  import opened Host
  import opened ClipHistory
  import opened ClipStore

  class ClipboardManager {
    /** `_clips`: most recent first. */
    var clips: seq<Clip>
    /** `lastUpdate`: the store file's modification time as last observed. */
    var lastUpdate: int

    constructor ()
      ensures clips == [] && lastUpdate == 0
    {
      clips := [];
      lastUpdate := 0;
    }

    /** Record a clipboard change (`updateClipList`). */
    method UpdateClipList(change: ClipChange, maxClips: int, avoidDuplicates: bool)
      modifies this
      ensures clips == RecordCopy(old(clips), change, maxClips, avoidDuplicates)
      ensures lastUpdate == old(lastUpdate)
    {
      var item := NewClip(change);
      if avoidDuplicates {
        var index := FindIndex(clips, change.value);
        if index >= 0 {
          ghost var before := clips;
          clips := clips[index := clips[index].(copyCount := clips[index].copyCount + 1)];
          item := clips[index];
          WithoutIgnoresMatchUpdate(before, index, item);
          clips := Without(clips, change.value);
        }
      }
      clips := [item] + clips;
      if maxClips > 0 && maxClips < |clips| {
        clips := clips[..maxClips];
      }
    }

    /** Record that a value was pasted or picked (`updateClipUsage`). */
    method UpdateClipUsage(value: string, moveToTop: bool)
      modifies this
      ensures clips == RecordUse(old(clips), value, moveToTop)
      ensures lastUpdate == old(lastUpdate)
    {
      var index := FindIndex(clips, value);
      if index >= 0 {
        clips := clips[index := clips[index].(useCount := clips[index].useCount + 1)];
        if moveToTop {
          var moved := clips[index];
          clips := clips[..index] + clips[index + 1..];
          clips := [moved] + clips;
        }
      }
    }

    /** `setClipboardValue`: only its effect on the history; the clipboard write is outside the model. */
    method SetClipboardValue(value: string, moveToTop: bool)
      modifies this
      ensures clips == RecordUse(old(clips), value, moveToTop)
      ensures lastUpdate == old(lastUpdate)
    {
      UpdateClipUsage(value, moveToTop);
    }

    /** Remove every entry holding `value` (`removeClipboardValue`). */
    method RemoveClipboardValue(value: string) returns (removed: bool)
      modifies this
      ensures clips == Without(old(clips), value)
      ensures removed <==> HasValue(old(clips), value)
      ensures lastUpdate == old(lastUpdate)
    {
      var prevLength := |clips|;
      clips := Without(clips, value);
      removed := prevLength != |clips|;
    }

    /** Empty the history (`clearAll`). */
    method ClearAll() returns (cleared: bool)
      modifies this
      ensures clips == [] && cleared
      ensures lastUpdate == old(lastUpdate)
    {
      clips := [];
      cleared := true;
    }

    /**
     * `loadClips` after the read: `readMtime` is the file's modification time
     * when both the read and the following stat succeeded.  The list is
     * replaced only when the input is a document with a truthy `version` and
     * a `clips` array.  Entries are built as the code builds them, with each
     * record's copy count also taken as its use count (`LoadedClipAsWritten`;
     * `LoadedClips` is the loader that keeps the stored use count).
     */
    method LoadClips(input: LoadInput, readMtime: Option<int>)
      modifies this
      ensures clips == LoadedClipsAsWritten(input).GetOr(old(clips))
      ensures lastUpdate == readMtime.GetOr(old(lastUpdate))
    {
      if readMtime.Some? {
        lastUpdate := readMtime.value;
      }
      var loaded := LoadedClipsAsWritten(input);
      if loaded.Some? {
        clips := loaded.value;
      }
    }

    /**
     * `saveClips`: the document written to a persisting store file, if any;
     * `writeMtime` is the file's modification time when the write and the
     * following stat succeeded.
     */
    method SaveClips(file: StoreFile, writeMtime: Option<int>) returns (written: Option<StoredDocument>)
      modifies this
      ensures clips == old(clips)
      ensures written == if Persists(file) then Some(SavedDocument(clips)) else None
      ensures lastUpdate == if Persists(file) then writeMtime.GetOr(old(lastUpdate)) else old(lastUpdate)
    {
      if !Persists(file) {
        return None;
      }
      written := Some(SavedDocument(clips));
      if writeMtime.Some? {
        lastUpdate := writeMtime.value;
      }
    }

    /**
     * `checkClipsUpdate`: reload when the store file persists, exists, can be
     * stat'ed and is newer than `lastUpdate`; `reread` is what reading it gives.
     */
    method CheckClipsUpdate(file: StoreFile, fileExists: bool, mtime: Option<int>, reread: LoadInput)
      returns (reloaded: bool)
      modifies this
      ensures reloaded <==> ShouldReload(old(lastUpdate), file, fileExists, mtime)
      ensures reloaded ==> lastUpdate == mtime.value && clips == LoadedClipsAsWritten(reread).GetOr(old(clips))
      ensures !reloaded ==> lastUpdate == old(lastUpdate) && clips == old(clips)
      ensures lastUpdate >= old(lastUpdate)
    {
      reloaded := false;
      if !Persists(file) || !fileExists || mtime.None? {
        return;
      }
      if lastUpdate < mtime.value {
        reloaded := true;
        lastUpdate := mtime.value;
        LoadClips(reread, mtime);
      }
    }
  }

  /** The reload decision of `checkClipsUpdate`. */
  predicate ShouldReload(lastUpdate: int, file: StoreFile, fileExists: bool, mtime: Option<int>) {
    Persists(file) && fileExists && mtime.Some? && lastUpdate < mtime.value
  }

  /** After a reload at modification time `m`, a check that sees the same `m` does not reload again. */
  lemma ReloadSettles(lastUpdate: int, file: StoreFile, fileExists: bool, mtime: Option<int>)
    requires ShouldReload(lastUpdate, file, fileExists, mtime)
    ensures !ShouldReload(mtime.value, file, fileExists, mtime)
  {
  }

  /** Bumping the first entry of a text in place does not change what filtering that text out leaves. */
  lemma {:induction false} WithoutIgnoresMatchUpdate(clips: seq<Clip>, i: nat, c: Clip)
    requires i < |clips| && c.value == clips[i].value
    ensures Without(clips[i := c], c.value) == Without(clips, c.value)
    decreases |clips|
  {
    if i > 0 {
      WithoutIgnoresMatchUpdate(clips[1..], i - 1, c);
      assert clips[i := c][1..] == clips[1..][i - 1 := c];
    } else {
      assert clips[i := c][1..] == clips[1..];
    }
  }
}
