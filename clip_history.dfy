/**
 * The clip history list: the record kept for every copied text and the pure
 * list transformations `ClipboardManager` applies to its `_clips` array when
 * a copy is recorded, a clip is used, or values are removed.
 */
module ClipHistory {
  import opened Host

  /** One history entry (`IClipboardItem`). */
  datatype Clip = Clip(
    value: string,
    createdAt: int,
    lastUse: Option<int>,
    copyCount: int,
    useCount: int,
    language: Option<string>,
    location: Option<Location>)

  /** A clipboard change reported by the monitor: the copied text and its metadata. */
  datatype ClipChange = ClipChange(
    value: string,
    timestamp: int,
    language: Option<string>,
    location: Option<Location>)

  /** The entry `updateClipList` builds for a change before it looks for duplicates. */
  function NewClip(change: ClipChange): (c: Clip)
    ensures c.value == change.value && c.createdAt == change.timestamp
    ensures c.copyCount == 1 && c.useCount == 0 && c.lastUse.None?
    ensures c.language == change.language && c.location == change.location
  {
    Clip(change.value, change.timestamp, None, 1, 0, change.language, change.location)
  }

  predicate HasValue(clips: seq<Clip>, value: string) {
    exists j :: 0 <= j < |clips| && clips[j].value == value
  }

  /** No two entries carry the same text. */
  predicate NoDuplicateValues(clips: seq<Clip>) {
    forall i, j :: 0 <= i < j < |clips| ==> clips[i].value != clips[j].value
  }

  /** No entry records a last use (no code path ever sets `lastUse`). */
  predicate NoLastUse(clips: seq<Clip>) {
    forall k :: 0 <= k < |clips| ==> clips[k].lastUse.None?
  }

  /** `clips.findIndex(c => c.value === value)`: the first entry with that text, or -1. */
  function FindIndex(clips: seq<Clip>, value: string): (r: int)
    ensures -1 <= r < |clips|
    ensures 0 <= r ==> clips[r].value == value
    ensures forall j :: 0 <= j < |clips| && (r < 0 || j < r) ==> clips[j].value != value
    ensures r < 0 <==> !HasValue(clips, value)
    decreases |clips|
  {
    if clips == [] then -1
    else if clips[0].value == value then 0
    else
      var k := FindIndex(clips[1..], value);
      if k < 0 then -1 else k + 1
  }

  /** `clips.filter(c => c.value !== value)`. */
  function Without(clips: seq<Clip>, value: string): (r: seq<Clip>)
    ensures forall j :: 0 <= j < |r| ==> r[j].value != value
    ensures |r| <= |clips|
    ensures |r| == |clips| <==> !HasValue(clips, value)
    decreases |clips|
  {
    if clips == [] then []
    else
      var rest := Without(clips[1..], value);
      assert HasValue(clips, value) <==> clips[0].value == value || HasValue(clips[1..], value) by {
        if HasValue(clips[1..], value) {
          var j :| 0 <= j < |clips[1..]| && clips[1..][j].value == value;
          assert clips[j + 1].value == value;
        }
        if HasValue(clips, value) && clips[0].value != value {
          var j :| 0 <= j < |clips| && clips[j].value == value;
          assert clips[1..][j - 1].value == value;
        }
      }
      if clips[0].value == value then rest else [clips[0]] + rest
  }

  /** Filtering keeps exactly the entries whose text differs. */
  lemma {:induction false} WithoutMembers(clips: seq<Clip>, value: string)
    ensures forall c :: c in Without(clips, value) <==> c in clips && c.value != value
    decreases |clips|
  {
    if clips != [] {
      WithoutMembers(clips[1..], value);
      assert clips == [clips[0]] + clips[1..];
    }
  }

  /** How many entries hold `value`. */
  function CountValue(clips: seq<Clip>, value: string): (n: nat)
    ensures n <= |clips|
    ensures n == 0 <==> !HasValue(clips, value)
    decreases |clips|
  {
    if clips == [] then 0
    else
      var rest := CountValue(clips[1..], value);
      HasValueSplit(clips, value);
      if clips[0].value == value then rest + 1 else rest
  }

  /** Some entry holds `value` iff the head does or some entry of the tail does. */
  lemma HasValueSplit(clips: seq<Clip>, value: string)
    requires clips != []
    ensures HasValue(clips, value) <==> clips[0].value == value || HasValue(clips[1..], value)
  {
    if HasValue(clips[1..], value) {
      var j :| 0 <= j < |clips[1..]| && clips[1..][j].value == value;
      assert clips[j + 1].value == value;
    }
    if HasValue(clips, value) && clips[0].value != value {
      var j :| 0 <= j < |clips| && clips[j].value == value;
      assert clips[1..][j - 1].value == value;
    }
  }

  /** Filtering drops exactly the entries holding `value` and no other. */
  lemma {:induction false} WithoutLength(clips: seq<Clip>, value: string)
    ensures |Without(clips, value)| == |clips| - CountValue(clips, value)
    decreases |clips|
  {
    if clips != [] {
      WithoutLength(clips[1..], value);
    }
  }

  /** `a` is `b` with some entries deleted: the entries of `a` appear in `b` in the same order. */
  ghost predicate Subsequence<T>(a: seq<T>, b: seq<T>)
    decreases |b|
  {
    a == [] || (b != [] && ((a[0] == b[0] && Subsequence(a[1..], b[1..])) || Subsequence(a, b[1..])))
  }

  /** `slice(0, maxClips)` when `maxClips > 0`; no bound otherwise. */
  function Truncate(clips: seq<Clip>, maxClips: int): (r: seq<Clip>)
    ensures |r| <= |clips| && r == clips[..|r|]
    ensures maxClips > 0 ==> |r| == if maxClips < |clips| then maxClips else |clips|
    ensures maxClips <= 0 ==> r == clips
  {
    if 0 < maxClips < |clips| then clips[..maxClips] else clips
  }

  /**
   * The list `updateClipList` leaves behind: with `avoidDuplicates` and an
   * entry of the same text, the first such entry (its `copyCount` bumped)
   * replaces every entry of that text; otherwise a fresh entry is used.  The
   * entry goes to the front and the list is cut to `maxClips`.
   */
  function RecordCopy(clips: seq<Clip>, change: ClipChange, maxClips: int, avoidDuplicates: bool): (r: seq<Clip>)
    ensures |r| >= 1 && r[0].value == change.value
    ensures maxClips > 0 ==> |r| <= maxClips
  {
    var i := if avoidDuplicates then FindIndex(clips, change.value) else -1;
    var front := if i >= 0 then clips[i].(copyCount := clips[i].copyCount + 1) else NewClip(change);
    var rest := if i >= 0 then Without(clips, change.value) else clips;
    Truncate([front] + rest, maxClips)
  }

  /**
   * The list `updateClipUsage` leaves behind: the first entry with the text
   * gets its `useCount` bumped and, with `moveToTop`, moves to the front.
   */
  function RecordUse(clips: seq<Clip>, value: string, moveToTop: bool): (r: seq<Clip>)
    ensures |r| == |clips|
  {
    var i := FindIndex(clips, value);
    if i < 0 then clips
    else
      var used := clips[i].(useCount := clips[i].useCount + 1);
      if moveToTop then [used] + clips[..i] + clips[i + 1..] else clips[i := used]
  }

  // ---------------------------------------------------------------------------
  // Order: filtering and cutting the tail keep the relative order of entries.

  lemma {:induction false} WithoutIsSubsequence(clips: seq<Clip>, value: string)
    ensures Subsequence(Without(clips, value), clips)
    decreases |clips|
  {
    if clips != [] {
      WithoutIsSubsequence(clips[1..], value);
      var rest := Without(clips[1..], value);
      if clips[0].value != value {
        assert ([clips[0]] + rest)[1..] == rest;
      }
    }
  }

  lemma {:induction false} SubsequencePrefix<T>(a: seq<T>, b: seq<T>, n: nat)
    requires Subsequence(a, b) && n <= |a|
    ensures Subsequence(a[..n], b)
    decreases |b|
  {
    if n > 0 {
      if a[0] == b[0] && Subsequence(a[1..], b[1..]) {
        SubsequencePrefix(a[1..], b[1..], n - 1);
        assert a[..n][1..] == a[1..][..n - 1];
      } else {
        SubsequencePrefix(a, b[1..], n);
      }
    }
  }

  lemma {:induction false} SubsequenceReflexive<T>(a: seq<T>)
    ensures Subsequence(a, a)
    decreases |a|
  {
    if a != [] {
      SubsequenceReflexive(a[1..]);
    }
  }

  /** Filtering keeps a list free of duplicate texts. */
  lemma {:induction false} WithoutKeepsNoDuplicates(clips: seq<Clip>, value: string)
    requires NoDuplicateValues(clips)
    ensures NoDuplicateValues(Without(clips, value))
    decreases |clips|
  {
    if clips != [] {
      var tail := clips[1..];
      assert NoDuplicateValues(tail) by {
        forall i, j | 0 <= i < j < |tail| ensures tail[i].value != tail[j].value {
          assert tail[i] == clips[i + 1] && tail[j] == clips[j + 1];
        }
      }
      WithoutKeepsNoDuplicates(tail, value);
      WithoutMembers(tail, value);
      var rest := Without(tail, value);
      if clips[0].value != value {
        forall k | 0 <= k < |rest| ensures rest[k].value != clips[0].value {
          assert rest[k] in tail;
          var m :| 0 <= m < |tail| && tail[m] == rest[k];
          assert clips[m + 1] == rest[k];
        }
        var r := [clips[0]] + rest;
        forall i, j | 0 <= i < j < |r| ensures r[i].value != r[j].value {
          if i > 0 {
            assert r[i] == rest[i - 1] && r[j] == rest[j - 1];
          } else {
            assert r[j] == rest[j - 1];
          }
        }
      }
    }
  }

  // ---------------------------------------------------------------------------
  // Recording a copy (manager.ts `updateClipList`).

  /** The older entries that survive a copy appear in their previous relative order. */
  lemma RecordCopyKeepsOrder(clips: seq<Clip>, change: ClipChange, maxClips: int, avoidDuplicates: bool)
    ensures Subsequence(RecordCopy(clips, change, maxClips, avoidDuplicates)[1..], clips)
  {
    var r := RecordCopy(clips, change, maxClips, avoidDuplicates);
    var i := if avoidDuplicates then FindIndex(clips, change.value) else -1;
    var front := if i >= 0 then clips[i].(copyCount := clips[i].copyCount + 1) else NewClip(change);
    var rest := if i >= 0 then Without(clips, change.value) else clips;
    assert r[1..] == rest[..|r| - 1];
    if i >= 0 {
      WithoutIsSubsequence(clips, change.value);
    } else {
      SubsequenceReflexive(clips);
    }
    SubsequencePrefix(rest, clips, |r| - 1);
  }

  /**
   * Without a duplicate to merge the list grows by one when `maxClips <= 0`,
   * and is cut to exactly `maxClips` when it would exceed it; what is cut
   * is the tail: the older entries keep their positions, shifted by one.
   */
  lemma RecordCopyCapacity(clips: seq<Clip>, change: ClipChange, maxClips: int, avoidDuplicates: bool)
    requires !avoidDuplicates || !HasValue(clips, change.value)
    ensures var r := RecordCopy(clips, change, maxClips, avoidDuplicates);
      && (maxClips <= 0 || |clips| < maxClips ==> |r| == |clips| + 1)
      && (0 < maxClips <= |clips| ==> |r| == maxClips)
      && r[1..] == clips[..|r| - 1]
  {
  }

  /**
   * Copying a text that is already present, with `avoidDuplicates` on: the
   * front entry is the first earlier entry of that text with `copyCount`
   * raised by one (its creation time, language and location are kept and the
   * change's own timestamp is dropped), and no other entry of the text remains.
   */
  lemma RecordCopyMergesDuplicate(clips: seq<Clip>, change: ClipChange, maxClips: int)
    requires HasValue(clips, change.value)
    ensures var r := RecordCopy(clips, change, maxClips, true);
      var i := FindIndex(clips, change.value);
      && r[0] == clips[i].(copyCount := clips[i].copyCount + 1)
      && r[0].createdAt == clips[i].createdAt
      && r[0].language == clips[i].language && r[0].location == clips[i].location
      && (forall j :: 1 <= j < |r| ==> r[j].value != change.value)
  {
    var r := RecordCopy(clips, change, maxClips, true);
    var rest := Without(clips, change.value);
    RecordCopyMergeCutsTail(clips, change, maxClips);
    forall j | 1 <= j < |r| ensures r[j].value != change.value {
      assert r[j] == r[1..][j - 1] == rest[j - 1];
    }
  }

  /**
   * In the same merge, behind the front entry come the other entries of the
   * list in their old order, cut at the tail only: all of them unless
   * `maxClips` is positive and too small.
   */
  lemma RecordCopyMergeCutsTail(clips: seq<Clip>, change: ClipChange, maxClips: int)
    requires HasValue(clips, change.value)
    ensures var r := RecordCopy(clips, change, maxClips, true);
      var rest := Without(clips, change.value);
      && r[1..] == rest[..|r| - 1]
      && (maxClips <= 0 || |rest| < maxClips ==> |r| == |rest| + 1)
      && (0 < maxClips <= |rest| ==> |r| == maxClips)
  {
    var r := RecordCopy(clips, change, maxClips, true);
    var i := FindIndex(clips, change.value);
    var front := clips[i].(copyCount := clips[i].copyCount + 1);
    var rest := Without(clips, change.value);
    assert r[1..] == rest[..|r| - 1];
  }

  /**
   * Copying a text that is absent, or any text with `avoidDuplicates` off,
   * puts a fresh entry in front: copied once, never used, created at the
   * change's timestamp, carrying the change's language and location.
   */
  lemma RecordCopyAddsFreshEntry(clips: seq<Clip>, change: ClipChange, maxClips: int, avoidDuplicates: bool)
    requires !avoidDuplicates || !HasValue(clips, change.value)
    ensures var r := RecordCopy(clips, change, maxClips, avoidDuplicates);
      && r[0].copyCount == 1 && r[0].useCount == 0 && r[0].lastUse == None
      && r[0].createdAt == change.timestamp
      && r[0].language == change.language && r[0].location == change.location
  {
  }

  /** With `avoidDuplicates` on, a list without duplicate texts stays without them. */
  lemma RecordCopyKeepsNoDuplicates(clips: seq<Clip>, change: ClipChange, maxClips: int)
    requires NoDuplicateValues(clips)
    ensures NoDuplicateValues(RecordCopy(clips, change, maxClips, true))
  {
    var i := FindIndex(clips, change.value);
    var front := if i >= 0 then clips[i].(copyCount := clips[i].copyCount + 1) else NewClip(change);
    var rest := if i >= 0 then Without(clips, change.value) else clips;
    if i >= 0 {
      WithoutKeepsNoDuplicates(clips, change.value);
    }
    var full := [front] + rest;
    assert NoDuplicateValues(full) by {
      forall a, b | 0 <= a < b < |full| ensures full[a].value != full[b].value {
        assert full[b] == rest[b - 1];
        if a > 0 {
          assert full[a] == rest[a - 1];
        }
      }
    }
  }

  /** With `avoidDuplicates` off, copying the same text twice leaves two entries of it in front. */
  lemma RepeatedCopiesAccumulate(clips: seq<Clip>, change: ClipChange, maxClips: int)
    requires maxClips <= 0 || maxClips >= 2
    ensures var r := RecordCopy(RecordCopy(clips, change, maxClips, false), change, maxClips, false);
      |r| >= 2 && r[0].value == change.value && r[1].value == change.value && r[0] == r[1]
  {
  }

  // ---------------------------------------------------------------------------
  // Copy counts over a whole sequence of copies (dedup on, no capacity bound).

  /** The entry `findIndex` would pick for the text, if any. */
  function FirstMatch(clips: seq<Clip>, value: string): Option<Clip> {
    var i := FindIndex(clips, value);
    if i < 0 then None else Some(clips[i])
  }

  /** The copy count of the entry holding the text, 0 when there is none. */
  function CopyCountOf(clips: seq<Clip>, value: string): int {
    match FirstMatch(clips, value)
    case Some(c) => c.copyCount
    case None => 0
  }

  /** The list after recording each change in order. */
  function RecordCopies(clips: seq<Clip>, changes: seq<ClipChange>, maxClips: int, avoidDuplicates: bool): seq<Clip>
    decreases |changes|
  {
    if changes == [] then clips
    else RecordCopies(RecordCopy(clips, changes[0], maxClips, avoidDuplicates), changes[1..], maxClips, avoidDuplicates)
  }

  function CountCopies(changes: seq<ClipChange>, value: string): nat
    decreases |changes|
  {
    if changes == [] then 0
    else (if changes[0].value == value then 1 else 0) + CountCopies(changes[1..], value)
  }

  lemma {:induction false} FirstMatchWithout(clips: seq<Clip>, removed: string, value: string)
    requires removed != value
    ensures FirstMatch(Without(clips, removed), value) == FirstMatch(clips, value)
    decreases |clips|
  {
    if clips != [] {
      FirstMatchWithout(clips[1..], removed, value);
      var rest := Without(clips[1..], removed);
      if clips[0].value == value {
        assert Without(clips, removed) == [clips[0]] + rest;
        assert FindIndex(Without(clips, removed), value) == 0;
      } else if clips[0].value != removed {
        assert Without(clips, removed) == [clips[0]] + rest;
        FirstMatchBehindOther(clips[0], rest, value);
        FirstMatchBehindOther(clips[0], clips[1..], value);
        assert clips == [clips[0]] + clips[1..];
      } else {
        FirstMatchBehindOther(clips[0], clips[1..], value);
        assert clips == [clips[0]] + clips[1..];
      }
    }
  }

  lemma FirstMatchBehindOther(c: Clip, clips: seq<Clip>, value: string)
    requires c.value != value
    ensures FirstMatch([c] + clips, value) == FirstMatch(clips, value)
  {
    assert ([c] + clips)[1..] == clips;
  }

  /** With no cap, one copy raises the copy count of the copied text by one and leaves every other text's alone. */
  lemma RecordCopyCountStep(clips: seq<Clip>, change: ClipChange, maxClips: int, value: string)
    requires maxClips <= 0
    ensures CopyCountOf(RecordCopy(clips, change, maxClips, true), value)
         == CopyCountOf(clips, value) + (if change.value == value then 1 else 0)
  {
    var i := FindIndex(clips, change.value);
    var front := if i >= 0 then clips[i].(copyCount := clips[i].copyCount + 1) else NewClip(change);
    var rest := if i >= 0 then Without(clips, change.value) else clips;
    var r := RecordCopy(clips, change, maxClips, true);
    assert r == [front] + rest;
    if change.value == value {
      assert r[0] == front && front.value == value;
      assert FirstMatch(r, value) == Some(front);
      assert FirstMatch(clips, value) == if i >= 0 then Some(clips[i]) else None;
    } else {
      FirstMatchBehindOther(front, rest, value);
      if i >= 0 {
        FirstMatchWithout(clips, change.value, value);
      }
    }
  }

  /**
   * Under any cap, one copy raises the copy count of the copied text by one;
   * every other text keeps its count while it stays in the list and drops to
   * 0 when it is cut off the tail.
   */
  lemma RecordCopyCountCapped(clips: seq<Clip>, change: ClipChange, maxClips: int, value: string)
    ensures var r := RecordCopy(clips, change, maxClips, true);
      CopyCountOf(r, value)
        == if change.value == value then CopyCountOf(clips, value) + 1
           else if HasValue(r, value) then CopyCountOf(clips, value)
           else 0
  {
    var full := RecordCopy(clips, change, 0, true);
    var r := RecordCopy(clips, change, maxClips, true);
    RecordCopyCountStep(clips, change, 0, value);
    var i := FindIndex(clips, change.value);
    var front := if i >= 0 then clips[i].(copyCount := clips[i].copyCount + 1) else NewClip(change);
    var rest := if i >= 0 then Without(clips, change.value) else clips;
    assert full == [front] + rest;
    assert r == full[..|r|];
    FirstMatchPrefix(full, |r|, value);
    if change.value == value {
      assert r[0].value == value;
    }
  }

  /** Cutting a list keeps the first match of a text when the kept prefix still holds it, and none otherwise. */
  lemma FirstMatchPrefix(full: seq<Clip>, n: nat, value: string)
    requires n <= |full|
    ensures FirstMatch(full[..n], value) == if HasValue(full[..n], value) then FirstMatch(full, value) else None
  {
    var prefix := full[..n];
    var k := FindIndex(prefix, value);
    if k >= 0 {
      var f := FindIndex(full, value);
      assert full[k] == prefix[k];
      assert f == k;
    }
  }

  /**
   * With `avoidDuplicates` on and no capacity bound, the copy count of each
   * text grows by exactly the number of times it is copied; from an empty
   * history it equals that number.
   */
  lemma {:induction false} CopyCountTracksCopies(clips: seq<Clip>, changes: seq<ClipChange>, maxClips: int, value: string)
    requires maxClips <= 0
    ensures CopyCountOf(RecordCopies(clips, changes, maxClips, true), value)
         == CopyCountOf(clips, value) + CountCopies(changes, value)
    decreases |changes|
  {
    if changes != [] {
      RecordCopyCountStep(clips, changes[0], maxClips, value);
      CopyCountTracksCopies(RecordCopy(clips, changes[0], maxClips, true), changes[1..], maxClips, value);
    }
  }

  /** From any duplicate-free history, every sequence of deduplicated copies keeps at most one entry per text. */
  lemma {:induction false} RecordCopiesKeepNoDuplicates(clips: seq<Clip>, changes: seq<ClipChange>, maxClips: int)
    requires NoDuplicateValues(clips)
    ensures NoDuplicateValues(RecordCopies(clips, changes, maxClips, true))
    decreases |changes|
  {
    if changes != [] {
      RecordCopyKeepsNoDuplicates(clips, changes[0], maxClips);
      RecordCopiesKeepNoDuplicates(RecordCopy(clips, changes[0], maxClips, true), changes[1..], maxClips);
    }
  }

  // ---------------------------------------------------------------------------
  // Recording a use (manager.ts `updateClipUsage`).

  /** Using a text that is not in the history changes nothing. */
  lemma RecordUseAbsent(clips: seq<Clip>, value: string, moveToTop: bool)
    requires !HasValue(clips, value)
    ensures RecordUse(clips, value, moveToTop) == clips
  {
  }

  /**
   * Using a present text with `moveToTop`: its first entry, with `useCount`
   * up by one and nothing else of it changed, moves to the front; the entries
   * before it shift back by one and those after it stay where they were.
   */
  lemma RecordUseMovesFirstMatch(clips: seq<Clip>, value: string)
    requires HasValue(clips, value)
    ensures var r := RecordUse(clips, value, true);
      var i := FindIndex(clips, value);
      && r[0] == clips[i].(useCount := clips[i].useCount + 1)
      && (forall j :: 0 <= j < i ==> r[j + 1] == clips[j])
      && (forall j :: i < j < |clips| ==> r[j] == clips[j])
  {
    var i := FindIndex(clips, value);
    MovedToFront(clips, i, clips[i].(useCount := clips[i].useCount + 1));
  }

  /**
   * Using a present text without `moveToTop`: only its first entry changes,
   * in place, with `useCount` up by one and nothing else of it changed.
   */
  lemma RecordUseBumpsFirstMatch(clips: seq<Clip>, value: string)
    requires HasValue(clips, value)
    ensures var r := RecordUse(clips, value, false);
      var i := FindIndex(clips, value);
      && r[i] == clips[i].(useCount := clips[i].useCount + 1)
      && (forall j :: 0 <= j < |clips| && j != i ==> r[j] == clips[j])
  {
  }

  /** Recording a use keeps a duplicate-free list duplicate-free: it moves or bumps one entry, never copies one. */
  lemma RecordUseKeepsNoDuplicates(clips: seq<Clip>, value: string, moveToTop: bool)
    requires NoDuplicateValues(clips)
    ensures NoDuplicateValues(RecordUse(clips, value, moveToTop))
  {
    var i := FindIndex(clips, value);
    var r := RecordUse(clips, value, moveToTop);
    if i >= 0 {
      var used := clips[i].(useCount := clips[i].useCount + 1);
      if moveToTop {
        MovedToFront(clips, i, used);
        forall a, b | 0 <= a < b < |r| ensures r[a].value != r[b].value {
          var ma := if a == 0 then i else if a <= i then a - 1 else a;
          var mb := if b == 0 then i else if b <= i then b - 1 else b;
          assert r[a].value == clips[ma].value;
          assert r[b].value == clips[mb].value;
          assert ma != mb;
        }
      } else {
        assert forall j :: 0 <= j < |r| ==> r[j].value == clips[j].value;
      }
    }
  }

  /** Moving entry `i` to the front shifts the entries before it back by one and keeps those after it. */
  lemma MovedToFront(clips: seq<Clip>, i: nat, used: Clip)
    requires i < |clips|
    ensures var r := [used] + clips[..i] + clips[i + 1..];
      && |r| == |clips| && r[0] == used
      && (forall j :: 0 <= j < i ==> r[j + 1] == clips[j])
      && (forall j :: i < j < |clips| ==> r[j] == clips[j])
  {
    var r := [used] + clips[..i] + clips[i + 1..];
    forall j | 0 <= j < i ensures r[j + 1] == clips[j] {
      assert r[j + 1] == clips[..i][j];
    }
    forall j | i < j < |clips| ensures r[j] == clips[j] {
      assert r[j] == clips[i + 1..][j - i - 1];
    }
  }


  /** A used entry is in front afterwards exactly when `moveToTop` is on or it was in front already. */
  lemma RecordUseFront(clips: seq<Clip>, value: string, moveToTop: bool)
    requires HasValue(clips, value)
    ensures var r := RecordUse(clips, value, moveToTop);
      r[0].value == value <==> moveToTop || FindIndex(clips, value) == 0
  {
  }

  /** Recording a use never changes any text's copy count. */
  lemma RecordUseKeepsCopyCounts(clips: seq<Clip>, used: string, value: string, moveToTop: bool)
    ensures CopyCountOf(RecordUse(clips, used, moveToTop), value) == CopyCountOf(clips, value)
  {
    var i := FindIndex(clips, used);
    if i >= 0 {
      var r := RecordUse(clips, used, moveToTop);
      if moveToTop {
        if value == used {
          assert FindIndex(r, value) == 0;
        } else {
          MovedEntryHidesNoMatch(clips, i, r[0], value);
        }
      } else {
        assert forall j :: 0 <= j < |r| ==> r[j].value == clips[j].value;
      }
    }
  }

  /** Moving an entry of another text to the front leaves the first match of `value` unchanged. */
  lemma MovedEntryHidesNoMatch(clips: seq<Clip>, i: nat, moved: Clip, value: string)
    requires i < |clips| && moved.value == clips[i].value && value != moved.value
    ensures FirstMatch([moved] + clips[..i] + clips[i + 1..], value) == FirstMatch(clips, value)
  {
    var r := [moved] + clips[..i] + clips[i + 1..];
    var k := FindIndex(clips, value);
    if k >= 0 {
      if k < i {
        assert r[k + 1] == clips[k];
        forall j | 0 <= j < k + 1 ensures r[j].value != value {
          if j > 0 { assert r[j] == clips[j - 1]; }
        }
        assert FindIndex(r, value) == k + 1;
      } else {
        assert r[k] == clips[k];
        forall j | 0 <= j < k ensures r[j].value != value {
          if 0 < j <= i { assert r[j] == clips[j - 1]; }
        }
        assert FindIndex(r, value) == k;
      }
    } else {
      forall j | 0 <= j < |r| ensures r[j].value != value {
        if 0 < j <= i { assert r[j] == clips[j - 1]; } else if j > i { assert r[j] == clips[j]; }
      }
    }
  }


  // ---------------------------------------------------------------------------
  // `lastUse`: declared on every entry, set by no operation.

  /** Recording a copy never introduces a `lastUse`. */
  lemma RecordCopyKeepsNoLastUse(clips: seq<Clip>, change: ClipChange, maxClips: int, avoidDuplicates: bool)
    requires NoLastUse(clips)
    ensures NoLastUse(RecordCopy(clips, change, maxClips, avoidDuplicates))
  {
    var i := if avoidDuplicates then FindIndex(clips, change.value) else -1;
    var front := if i >= 0 then clips[i].(copyCount := clips[i].copyCount + 1) else NewClip(change);
    var rest := if i >= 0 then Without(clips, change.value) else clips;
    var full := [front] + rest;
    WithoutMembers(clips, change.value);
    forall k | 0 <= k < |full| ensures full[k].lastUse.None? {
      if k > 0 {
        assert full[k] == rest[k - 1];
        assert full[k] in clips;
      }
    }
  }

  /** Recording a use never introduces a `lastUse` either. */
  lemma RecordUseKeepsNoLastUse(clips: seq<Clip>, value: string, moveToTop: bool)
    requires NoLastUse(clips)
    ensures NoLastUse(RecordUse(clips, value, moveToTop))
  {
    var r := RecordUse(clips, value, moveToTop);
    var i := FindIndex(clips, value);
    if i >= 0 && moveToTop {
      forall k | 0 <= k < |r| ensures r[k].lastUse.None? {
        if 0 < k <= i {
          assert r[k] == clips[k - 1];
        } else if k > i {
          assert r[k] == clips[k];
        }
      }
    }
  }

  /** Filtering never introduces a `lastUse`. */
  lemma WithoutKeepsNoLastUse(clips: seq<Clip>, value: string)
    requires NoLastUse(clips)
    ensures NoLastUse(Without(clips, value))
  {
    var r := Without(clips, value);
    WithoutMembers(clips, value);
    forall k | 0 <= k < |r| ensures r[k].lastUse.None? {
      assert r[k] in clips;
    }
  }
}
