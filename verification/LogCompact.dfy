/** Compaction: the retained messages are rewritten into a fresh generation of files, which then replaces the old one.
    Wherever that is interrupted, no retained message is lost. */
module LogCompact {
  import opened Bytes
  import opened Optional
  import opened Segment
  import opened LogDisk
  import opened LogView
  import opened LogCrash
  import Blob
  import Crc
  import L = Log
  import LogMeta

  /** A bound on the blob file that holds these messages. */
  function BlobBound(msgs: seq<Msg>): nat {
    if msgs == [] then 0 else BlobBound(msgs[..|msgs| - 1]) + Blob.HDR + |msgs[|msgs| - 1].payload|
  }

  lemma {:induction false} BlobBoundGrows(msgs: seq<Msg>, i: nat)
    requires i <= |msgs|
    ensures BlobBound(msgs[..i]) <= BlobBound(msgs)
    decreases |msgs|
  {
    if i == |msgs| {
      assert msgs[..i] == msgs;
    } else {
      BlobBoundGrows(msgs[..|msgs| - 1], i);
      assert msgs[..|msgs| - 1][..i] == msgs[..i];
    }
  }

  predicate MsgFits(x: Msg) {
    MetaFits(x.m) && |x.payload| < U32
  }

  lemma {:induction false} ListedFits(entries: seq<Entry>, base: nat, trim: nat)
    requires AllOk(entries)
    ensures forall x :: x in Listed(entries, base, trim) ==> MsgFits(x)
    decreases |entries|
  {
    if entries != [] {
      assert entries[0] in entries && EntryOk(entries[0]);
      ListedFits(entries[1..], base + 1, trim);
    }
  }

  lemma {:induction false} FlattenOk(parts: seq<seq<Entry>>)
    requires forall p :: p in parts ==> AllOk(p)
    ensures AllOk(Flatten(parts))
  {
    hide EntryOk;
    if parts != [] {
      assert parts[0] in parts;
      FlattenOk(parts[1..]);
    }
  }

  lemma MessagesFit(disk: Disk, parts: seq<seq<Entry>>, blobs: seq<bytes>, base: nat, next: nat, msgs: seq<Msg>)
    requires OnDisk(disk, parts, blobs, base, next, msgs)
    ensures forall x :: x in msgs ==> MsgFits(x)
  {
    hide EntryOk, Listed, Flatten, Blob.Image, Blob.AllFit, AllInBlob, Segment.Image;
    forall p | p in parts
      ensures AllOk(p)
    {
      var i :| 0 <= i < |parts| && parts[i] == p;
      assert SegHolds(disk.segs[i], parts[i], disk.blob);
    }
    FlattenOk(parts);
    ListedFits(Flatten(parts), base, next - |msgs|);
  }

  /** What reopening would give now: the messages since the trim that was last recorded. */
  ghost function Recorded(log: L.Log): seq<Msg>
    reads log`parts, log`meta
  {
    Listed(Flatten(log.parts), Base(log.meta), Trim(log.meta))
  }

  /** It ends with the messages retained; before them are only messages trimmed since then. */
  lemma RecordedEndsWithRetained(log: L.Log)
    requires log.Valid() && Persistent(log.mode)
    ensures |log.Contents()| <= |Recorded(log)|
    ensures Recorded(log)[|Recorded(log)| - |log.Contents()|..] == log.Contents()
  {
    hide Holds, Listed, Flatten, LogMeta.InForce, View, Blob.Image, Blob.AllFit;
    ListedTrim(Flatten(log.parts), log.diskBase, Trim(log.meta), log.nextOffset - |log.msgs|);
  }

  // ---- one change at a time ----

  /** A change to a generation that is not in use is safe, and leaves the one in use as it was. */
  lemma ChangeElsewhere(fs: Fs, loose: set<nat>, changes: seq<Change>, c: Change, a: seq<Msg>, b: seq<Msg>,
                        cur: Option<LogMeta.Meta>, d: Disk, parts: seq<seq<Entry>>, blobs: seq<bytes>)
    requires CrashSafe(fs, loose, changes, a, b) && Points(Run(fs, changes), cur, d, parts, blobs)
    requires !c.PutMeta? && c.g != Generation(cur) && Generation(cur) !in Unsynced(loose, changes)
    requires Listed(Flatten(parts), Base(cur), Trim(cur)) == a || Listed(Flatten(parts), Base(cur), Trim(cur)) == b
    ensures CrashSafe(fs, loose, changes + [c], a, b) && Points(Run(fs, changes + [c]), cur, d, parts, blobs)
    ensures Run(fs, changes + [c]) == Apply(Run(fs, changes), c)
    ensures Unsynced(loose, changes + [c]) == Loosened(Unsynced(loose, changes), c) && Generation(cur) !in Unsynced(loose, changes + [c])
  {
    hide CrashSafe, Points, CrashLeaves, Apply, OneOf, Listed, Flatten, Run, Unsynced, Loosened;
    SafeIsOk(fs, loose, changes, a, b);
    forall crashed | CrashLeaves(Run(fs, changes), Unsynced(loose, changes), c, crashed)
      ensures OneOf(crashed, a, b)
    {
      ElsewhereIsSafe(Run(fs, changes), Unsynced(loose, changes), c, crashed, cur, d, parts, blobs);
      PointsIsOneOf(crashed, cur, d, parts, blobs, a, b);
    }
    CrashSafeAppend(fs, loose, changes, c, a, b);
    ElsewhereIsSafe(Run(fs, changes), Unsynced(loose, changes), c, Apply(Run(fs, changes), c), cur, d, parts, blobs);
  }

  lemma SafeIsOk(fs: Fs, loose: set<nat>, changes: seq<Change>, a: seq<Msg>, b: seq<Msg>)
    requires CrashSafe(fs, loose, changes, a, b)
    ensures ChangesOk(changes)
  {
  }

  /** Once the fresh generation is synced, writing the metadata slot is safe, and switches to it. */
  lemma Switch(fs: Fs, loose: set<nat>, changes: seq<Change>, m: LogMeta.Meta, a: seq<Msg>, b: seq<Msg>,
               cur: Option<LogMeta.Meta>, d: Disk, parts: seq<seq<Entry>>, blobs: seq<bytes>,
               d': Disk, parts': seq<seq<Entry>>, blobs': seq<bytes>)
    requires CrashSafe(fs, loose, changes, a, b) && Points(Run(fs, changes), cur, d, parts, blobs)
    requires LogMeta.MetaFits(m) && m.sequence == LogMeta.SequenceOf(cur) + 1
    requires m.generation in Run(fs, changes).gens && Run(fs, changes).gens[m.generation] == GenOf(d') && Written(d', parts', blobs')
    requires Generation(cur) !in Unsynced(loose, changes) && m.generation !in Unsynced(loose, changes)
    requires Listed(Flatten(parts), Base(cur), Trim(cur)) == a && Listed(Flatten(parts'), m.diskBase, m.trim) == b
    ensures var c := PutMeta(LogMeta.SlotOf(m.sequence), LogMeta.SlotBytes(m));
            CrashSafe(fs, loose, changes + [c], a, b) && Points(Run(fs, changes + [c]), Some(m), d', parts', blobs') &&
            Run(fs, changes + [c]) == Apply(Run(fs, changes), c) && Unsynced(loose, changes + [c]) == Unsynced(loose, changes)
  {
    hide CrashSafe, Points, CrashLeaves, Apply, OneOf, Listed, Flatten, Run, Unsynced, LogMeta.SlotBytes, Written;
    SafeIsOk(fs, loose, changes, a, b);
    var c := PutMeta(LogMeta.SlotOf(m.sequence), LogMeta.SlotBytes(m));
    forall crashed | CrashLeaves(Run(fs, changes), Unsynced(loose, changes), c, crashed)
      ensures OneOf(crashed, a, b)
    {
      SwitchIsSafe(Run(fs, changes), Unsynced(loose, changes), m, crashed, cur, d, parts, blobs, d', parts', blobs');
      if Points(crashed, cur, d, parts, blobs) {
        PointsIsOneOf(crashed, cur, d, parts, blobs, a, b);
      } else {
        PointsIsOneOf(crashed, Some(m), d', parts', blobs', a, b);
      }
    }
    CrashSafeAppend(fs, loose, changes, c, a, b);
    SwitchTakesEffect(Run(fs, changes), m, cur, d, parts, blobs, d', parts', blobs');
  }

  // ---- the rewrite ----

  /** The first `i` messages have been rewritten. */
  predicate Copied(msgs: seq<Msg>, i: nat, d: Disk, locs: seq<Loc>, base: nat, parts: seq<seq<Entry>>, blobs: seq<bytes>) {
    i <= |msgs| && Written(d, parts, blobs) && |Flatten(parts)| == i && Listed(Flatten(parts), base, base) == msgs[..i] &&
    |d.blob| <= BlobBound(msgs[..i]) && AllReadable(d, locs, msgs[..i])
  }

  lemma NothingCopied(msgs: seq<Msg>, base: nat)
    ensures Copied(msgs, 0, Disk([Seg([], 0)], []), [], base, [[]], [])
  {
    hide Flatten, Listed;
    FlattenOne([]);
    NothingListed(base);
    NothingWritten();
    assert msgs[..0] == [];
  }

  lemma NothingListed(base: nat)
    ensures Listed([], base, base) == []
  {
  }

  lemma NothingWritten()
    ensures Written(Disk([Seg([], 0)], []), [[]], [])
  {
  }

  lemma CopiedFacts(msgs: seq<Msg>, i: nat, d: Disk, locs: seq<Loc>, base: nat, parts: seq<seq<Entry>>, blobs: seq<bytes>)
    requires Copied(msgs, i, d, locs, base, parts, blobs) && BlobBound(msgs) < U64
    ensures Written(d, parts, blobs) && Holds(d, parts) && parts != [] && d.blob == Blob.Image(blobs) && Blob.AllFit(blobs)
    ensures |d.blob| <= BlobBound(msgs) && i <= |msgs| && |locs| == i
  {
    hide Holds, Blob.Image, Blob.AllFit, Bounded, Aligned, Flatten, Listed, BlobBound;
    BlobBoundGrows(msgs, i);
  }

  lemma OneMoreCopied(msgs: seq<Msg>, i: nat, d: Disk, locs: seq<Loc>, base: nat, parts: seq<seq<Entry>>, blobs: seq<bytes>,
                      d': Disk, loc: Loc, parts': seq<seq<Entry>>, blobs': seq<bytes>, threshold: nat)
    requires Copied(msgs, i, d, locs, base, parts, blobs) && i < |msgs| && msgs[i].offset == base + i
    requires Written(d', parts', blobs') && Extends(d, d') && Readable(d', loc, msgs[i].payload)
    requires Flatten(parts') == Flatten(parts) + [Stored(msgs[i].m, msgs[i].payload, threshold, |d.blob|)]
    requires |d'.blob| <= |d.blob| + Blob.HDR + |msgs[i].payload|
    ensures Copied(msgs, i + 1, d', locs + [loc], base, parts', blobs')
  {
    hide Written, Extends, Readable, Flatten, Listed, MsgOf;
    var x := msgs[i];
    var e := Stored(x.m, x.payload, threshold, |d.blob|);
    ListedAppend(Flatten(parts), e, base, base);
    StoredIsMsg(x.m, x.payload, threshold, |d.blob|, base + i);
    assert msgs[..i + 1] == msgs[..i] + [x];
    assert msgs[..i + 1][..i] == msgs[..i];
    forall k | 0 <= k < i
      ensures Readable(d', locs[k], msgs[k].payload)
    {
      assert Readable(d, locs[k], msgs[..i][k].payload);
      StaysReadable(d, d', locs[k], msgs[k].payload);
    }
  }

  /** Reads message `i` and writes it to the fresh files. */
  method CopyOne(log: L.Log, i: nat, d: Disk, locs: seq<Loc>, ghost base: nat, ghost parts: seq<seq<Entry>>, ghost blobs: seq<bytes>)
    returns (d': Disk, locs': seq<Loc>, ghost parts': seq<seq<Entry>>, ghost blobs': seq<bytes>)
    requires log.Valid() && Persistent(log.mode) && i < log.count && base == log.nextOffset - |log.msgs|
    requires Copied(log.msgs, i, d, locs, base, parts, blobs) && BlobBound(log.msgs) < U64
    ensures Copied(log.msgs, i + 1, d', locs', base, parts', blobs')
  {
    hide Copied, View, Readable, Written, Flatten, Crc.IsTable, L.SlotIs, OnDisk, MetaFor, Extends, Holds, Blob.Image, Blob.AllFit;
    Lengths(log.disk, true, log.slots, log.msgs, log.nextOffset);
    MessagesFit(log.disk, log.parts, log.blobs, log.diskBase, log.nextOffset, log.msgs);
    CopiedFacts(log.msgs, i, d, locs, base, parts, blobs);
    ViewAt(log.disk, true, log.slots, log.msgs, log.nextOffset, i);
    var s := log.Get(i);
    var payload := Some([]);
    if s.loc.len != 0 {
      payload := s.hot;
      if s.hot.None? {
        payload := ReadPayload(log.disk, s.loc, log.table);
      }
    }
    assert log.msgs[i] in log.msgs && MsgFits(log.msgs[i]);
    var loc;
    d', loc, parts', blobs' := Persist(d, s.m, payload.value, log.threshold, parts, blobs);
    locs' := locs + [loc];
    OneMoreCopied(log.msgs, i, d, locs, base, parts, blobs, d', loc, parts', blobs', log.threshold);
  }

  /** Everything known while the fresh generation is being written. */
  ghost predicate Copying(log: L.Log, i: nat, d: Disk, locs: seq<Loc>, base: nat, parts: seq<seq<Entry>>, blobs: seq<bytes>,
                          fs: Fs, loose: set<nat>, changes: seq<Change>, a: seq<Msg>, b: seq<Msg>)
    reads log
  {
    Copied(log.msgs, i, d, locs, base, parts, blobs) && CrashSafe(fs, loose, changes, a, b) &&
    Points(Run(fs, changes), log.meta, log.disk, log.parts, log.blobs) && Generation(log.meta) !in Unsynced(loose, changes) &&
    log.generation + 1 in Run(fs, changes).gens && Run(fs, changes).gens[log.generation + 1] == GenOf(d) &&
    Run(fs, changes).meta == log.metaFile && AgreeBut(Run(fs, changes), fs, {log.generation + 1})
  }

  lemma OneRewritten(now: Fs, before: Fs, g: nat, to: Gen)
    requires AgreeBut(now, before, {g})
    ensures AgreeBut(Apply(now, Rewrite(g, to)), before, {g}) && AgreeBut(Apply(now, Remove(g)), before, {g})
  {
    assert now.gens[g := to] - {g} == now.gens - {g};
  }

  /** Rewrites every retained message into the next generation. */
  method CopyAll(log: L.Log, ghost base: nat, ghost fs: Fs, ghost loose: set<nat>, started: seq<Change>, ghost a: seq<Msg>, ghost b: seq<Msg>)
    returns (d: Disk, locs: seq<Loc>, ghost parts: seq<seq<Entry>>, ghost blobs: seq<bytes>, changes: seq<Change>)
    requires log.Valid() && Persistent(log.mode) && base == log.nextOffset - |log.msgs| && BlobBound(log.msgs) < U64
    requires Generation(log.meta) == log.generation && a == Recorded(log)
    requires Copying(log, 0, Disk([Seg([], 0)], []), [], base, [[]], [], fs, loose, started, a, b)
    ensures Copying(log, |log.msgs|, d, locs, base, parts, blobs, fs, loose, changes, a, b)
  {
    hide Copied, CrashSafe, Points, Run, GenOf, View, OnDisk, MetaFor, Crc.IsTable, L.SlotIs, Listed, Flatten;
    Lengths(log.disk, true, log.slots, log.msgs, log.nextOffset);
    d, locs, parts, blobs, changes := Disk([Seg([], 0)], []), [], [[]], [], started;
    var i := 0;
    while i < log.count
      invariant i <= log.count && Copying(log, i, d, locs, base, parts, blobs, fs, loose, changes, a, b)
    {
      d, locs, parts, blobs := CopyOne(log, i, d, locs, base, parts, blobs);
      var c := Rewrite(log.generation + 1, GenOf(d));
      SafeIsOk(fs, loose, changes, a, b);
      OneRewritten(Run(fs, changes), fs, log.generation + 1, GenOf(d));
      ChangeElsewhere(fs, loose, changes, c, a, b, log.meta, log.disk, log.parts, log.blobs);
      changes := changes + [c];
      i := i + 1;
    }
  }

  /** Compacts a log whose files are synced.  The changes it makes to the directory are recorded, so as to say what a crash
      leaves: everything that was recorded before, or everything retained; and once it has returned, the latter.  Then the
      new files have taken the place of the old ones, and the other generations are as they were; when the generations have
      run out, the files of the number that would come next are removed. */
  method Compact(log: L.Log, ghost fs: Fs, ghost loose: set<nat>) returns (rc: int, changes: seq<Change>)
    requires log.Valid() && log.InRange() && BlobBound(log.Contents()) < U64
    requires Persistent(log.mode) ==>
      log.Clean() && fs.meta == log.metaFile && log.generation in fs.gens && fs.gens[log.generation] == GenOf(log.disk) &&
      log.generation !in loose
    modifies log`trimOffset, log`metaFile, log`metaSequence, log`meta, log`slots, log`disk, log`parts, log`blobs
    modifies log`generation, log`diskBase, log.entries
    ensures log.Valid() && log.Contents() == old(log.Contents())
    ensures rc == if Persistent(log.mode) && old(log.generation) + 1 == U32 then -6 else 0
    ensures rc == 0 && Persistent(log.mode) ==>
      log.Clean() && log.generation == old(log.generation) + 1 && log.diskBase == log.trimOffset == log.nextOffset - log.count &&
      Recorded(log) == log.Contents() && Trim(log.meta) == log.trimOffset && log.metaSequence == old(log.metaSequence) + 1 &&
      |log.disk.blob| <= BlobBound(log.Contents())
    ensures if Persistent(log.mode) then CrashSafe(fs, loose, changes, old(Recorded(log)), log.Contents()) else changes == []
    ensures rc == 0 && Persistent(log.mode) ==>
      Rests(fs, loose, changes, log.Contents()) &&
      Ends(fs, changes, Replaced(fs, old(log.generation), GenOf(log.disk), log.metaFile))
    ensures rc != 0 ==> Ends(fs, changes, Fs(fs.gens - {0}, fs.meta))
    ensures rc != 0 || !Persistent(log.mode) ==>
      unchanged(log`trimOffset, log`meta, log`metaFile, log`metaSequence, log`disk, log`parts, log`blobs, log`generation, log`diskBase)
    ensures HotCount(log.slots) == HotCount(old(log.slots)) && HotBytes(log.slots) == HotBytes(old(log.slots))
  {
    hide CrashSafe, Run, GenOf, View, OnDisk, Crc.IsTable, L.SlotIs, Listed, Flatten, Written, LogMeta.InForce, HotCount, HotBytes,
      BlobBound, Copying, Rests, Ends, Unsynced;
    changes := [];
    if !Persistent(log.mode) {
      return 0, changes;
    }
    if log.generation + 1 == U32 {
      changes := [Remove(0)];
      NoneLeft(log, fs, loose, log.Contents());
      return -6, changes;
    }
    ghost var a, b, oldGen := Recorded(log), log.Contents(), log.generation;
    Lengths(log.disk, true, log.slots, log.msgs, log.nextOffset);
    var base := log.RetainedStart();
    changes := Started(log.generation + 1);
    Begin(log, base, fs, loose, b);
    var d, locs;
    ghost var parts, blobs;
    d, locs, parts, blobs, changes := CopyAll(log, base, fs, loose, changes, a, b);
    changes := Finish(log, base, d, locs, parts, blobs, fs, loose, changes, a, b);
    rc := 0;
  }

  /** Files left over from an interrupted compaction are removed, and empty files take their place. */
  function Started(g: nat): seq<Change> {
    [Remove(g), Rewrite(g, GenOf(Disk([Seg([], 0)], [])))]
  }

  lemma Begin(log: L.Log, base: nat, fs: Fs, loose: set<nat>, b: seq<Msg>)
    requires log.Valid() && log.Clean() && Persistent(log.mode)
    requires fs.meta == log.metaFile && log.generation in fs.gens && fs.gens[log.generation] == GenOf(log.disk)
    requires log.generation !in loose
    ensures Generation(log.meta) == log.generation
    ensures Copying(log, 0, Disk([Seg([], 0)], []), [], base, [[]], [], fs, loose, Started(log.generation + 1), Recorded(log), b)
  {
    hide Copied, CrashSafe, GenOf, View, OnDisk, Listed, Flatten, Written, LogMeta.InForce;
    var g, a := log.generation + 1, Recorded(log);
    NothingCopied(log.msgs, base);
    NoChanges(fs, loose, a, b);
    assert Points(Run(fs, []), log.meta, log.disk, log.parts, log.blobs);
    ChangeElsewhere(fs, loose, [], Remove(g), a, b, log.meta, log.disk, log.parts, log.blobs);
    assert [] + [Remove(g)] == [Remove(g)];
    var c := Rewrite(g, GenOf(Disk([Seg([], 0)], [])));
    ChangeElsewhere(fs, loose, [Remove(g)], c, a, b, log.meta, log.disk, log.parts, log.blobs);
    assert [Remove(g)] + [c] == Started(g);
  }

  /** Generation 0 is not in use then. */
  lemma NoneLeft(log: L.Log, fs: Fs, loose: set<nat>, b: seq<Msg>)
    requires log.Valid() && log.Clean() && Persistent(log.mode)
    requires fs.meta == log.metaFile && log.generation in fs.gens && fs.gens[log.generation] == GenOf(log.disk)
    requires log.generation !in loose && log.generation != 0
    ensures CrashSafe(fs, loose, [Remove(0)], Recorded(log), b) && Ends(fs, [Remove(0)], Fs(fs.gens - {0}, fs.meta))
  {
    hide CrashSafe, GenOf, View, OnDisk, Listed, Flatten, Written, LogMeta.InForce;
    NoChanges(fs, loose, Recorded(log), b);
    assert Points(Run(fs, []), log.meta, log.disk, log.parts, log.blobs);
    ChangeElsewhere(fs, loose, [], Remove(0), Recorded(log), b, log.meta, log.disk, log.parts, log.blobs);
    assert [] + [Remove(0)] == [Remove(0)];
  }

  lemma NoChanges(fs: Fs, loose: set<nat>, a: seq<Msg>, b: seq<Msg>)
    ensures CrashSafe(fs, loose, [], a, b) && Run(fs, []) == fs && Unsynced(loose, []) == loose
  {
  }

  /** The metadata switches to the fresh generation, the log adopts it, and the old files are removed. */
  method Finish(log: L.Log, base: nat, d: Disk, locs: seq<Loc>, ghost parts: seq<seq<Entry>>, ghost blobs: seq<bytes>,
                ghost fs: Fs, ghost loose: set<nat>, copied: seq<Change>, ghost a: seq<Msg>, ghost b: seq<Msg>)
    returns (changes: seq<Change>)
    requires log.Valid() && Persistent(log.mode) && log.InRange() && log.generation + 1 < U32
    requires base == log.nextOffset - |log.msgs| && Generation(log.meta) == log.generation && BlobBound(log.msgs) < U64
    requires a == Recorded(log) && b == log.msgs && Copying(log, |log.msgs|, d, locs, base, parts, blobs, fs, loose, copied, a, b)
    modifies log`trimOffset, log`metaFile, log`metaSequence, log`meta, log`slots, log`disk, log`parts, log`blobs
    modifies log`generation, log`diskBase, log.entries
    ensures log.Valid() && log.Clean() && log.generation == old(log.generation) + 1 && log.diskBase == log.trimOffset == base
    ensures Recorded(log) == b && Trim(log.meta) == base && log.metaSequence == old(log.metaSequence) + 1
    ensures |log.disk.blob| <= BlobBound(b)
    ensures CrashSafe(fs, loose, changes, a, b)
    ensures Ends(fs, changes, Replaced(fs, old(log.generation), GenOf(log.disk), log.metaFile))
    ensures Rests(fs, loose, changes, b)
    ensures HotCount(log.slots) == HotCount(old(log.slots)) && HotBytes(log.slots) == HotBytes(old(log.slots))
  {
    hide CrashSafe, Run, GenOf, View, OnDisk, Crc.IsTable, L.SlotIs, Listed, Flatten, Written, LogMeta.InForce, LogMeta.SlotBytes,
      LogMeta.WriteSlot, Blob.Image, Blob.AllFit, HotCount, HotBytes, BlobBound, Readable, Holds, ChangesOk, Unsynced, RestLeaves,
      OneOf;
    ghost var oldGen, m := log.generation, Fresh(log, base);
    Lengths(log.disk, true, log.slots, log.msgs, log.nextOffset);
    CopiedFacts(log.msgs, |log.msgs|, d, locs, base, parts, blobs);
    assert log.msgs[..|log.msgs|] == log.msgs;
    AdoptedOnDisk(d, parts, blobs, base, log.nextOffset, log.msgs);
    changes := copied + [Sync(log.generation + 1)];
    ChangeElsewhere(fs, loose, copied, Sync(log.generation + 1), a, b, log.meta, log.disk, log.parts, log.blobs);
    Switch(fs, loose, changes, m, a, b, log.meta, log.disk, log.parts, log.blobs, d, parts, blobs);
    changes := changes + [PutMeta((log.metaSequence + 1) % 2, LogMeta.SlotBytes(Fresh(log, base)))];
    log.SwitchTo(d, locs, log.generation + 1, base, parts, blobs);
    ChangeElsewhere(fs, loose, changes, Remove(log.generation - 1), a, b, Some(m), d, parts, blobs);
    SafeIsOk(fs, loose, changes, a, b);
    OldIsGone(Run(fs, changes), fs, oldGen, GenOf(d));
    changes := changes + [Remove(log.generation - 1)];
    SafeIsOk(fs, loose, changes, a, b);
    AtRest(Run(fs, changes), Unsynced(loose, changes), Some(m), d, parts, blobs, b);
  }

  /** The files of a generation have given way to those of the next. */
  function Replaced(fs: Fs, g: nat, to: Gen, meta: bytes): Fs {
    Fs((fs.gens - {g})[g + 1 := to], meta)
  }

  /** The old generation is gone, the new one is there, and every other is as it was. */
  lemma OnlyTheNewOneIsLeft(fs: Fs, g: nat, to: Gen, meta: bytes)
    ensures var r := Replaced(fs, g, to, meta);
            r.gens.Keys == fs.gens.Keys - {g} + {g + 1} && r.gens[g + 1] == to && r.meta == meta &&
            forall k :: k in fs.gens && k != g && k != g + 1 ==> r.gens[k] == fs.gens[k]
  {
    assert (fs.gens - {g}).Keys == fs.gens.Keys - {g};
  }

  lemma OldIsGone(now: Fs, before: Fs, g: nat, to: Gen)
    requires AgreeBut(now, before, {g + 1}) && g + 1 in now.gens && now.gens[g + 1] == to
    ensures now.gens - {g} == (before.gens - {g})[g + 1 := to]
  {
    forall k | k in now.gens.Keys + before.gens.Keys && k != g + 1
      ensures k in now.gens <==> k in before.gens
      ensures k in now.gens ==> now.gens[k] == before.gens[k]
    {
      assert k in now.gens - {g + 1} <==> k in before.gens - {g + 1};
      if k in now.gens { assert (now.gens - {g + 1})[k] == (before.gens - {g + 1})[k]; }
    }
  }

  /** The metadata that puts the fresh generation in force. */
  function Fresh(log: L.Log, base: nat): LogMeta.Meta
    reads log
  {
    LogMeta.Meta(log.metaSequence + 1, log.generation + 1, log.threshold, base, base, log.nextOffset)
  }

  lemma AtRest(fs: Fs, loose: set<nat>, cur: Option<LogMeta.Meta>, d: Disk, parts: seq<seq<Entry>>, blobs: seq<bytes>, b: seq<Msg>)
    requires Points(fs, cur, d, parts, blobs) && Generation(cur) !in loose && Listed(Flatten(parts), Base(cur), Trim(cur)) == b
    ensures forall left :: RestLeaves(fs, loose, left) ==> OneOf(left, b, b)
  {
    hide Points, RestLeaves, OneOf, Listed, Flatten;
    forall left | RestLeaves(fs, loose, left)
      ensures OneOf(left, b, b)
    {
      OthersDoNotMatter(fs, loose, left, cur, d, parts, blobs);
      PointsIsOneOf(left, cur, d, parts, blobs, b, b);
    }
  }

  lemma AdoptedOnDisk(d: Disk, parts: seq<seq<Entry>>, blobs: seq<bytes>, base: nat, next: nat, msgs: seq<Msg>)
    requires Holds(d, parts) && parts != [] && d.blob == Blob.Image(blobs) && Blob.AllFit(blobs)
    requires |msgs| <= next && base == next - |msgs| && |Flatten(parts)| == |msgs| && Listed(Flatten(parts), base, base) == msgs
    ensures OnDisk(d, parts, blobs, base, next, msgs)
  {
    hide Holds, Blob.Image, Blob.AllFit, Flatten, Listed;
  }
}
