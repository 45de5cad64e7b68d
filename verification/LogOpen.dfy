/** Opening a log: the metadata says which files to read, and the files say what the messages are. */
module LogOpen {
  import opened Bytes
  import opened Optional
  import opened Record
  import opened Segment
  import opened LogDisk
  import opened LogView
  import opened LogCrash
  import Blob
  import Crc
  import L = Log
  import LogMeta
  import LogRecovery

  /** Record `j` of a segment can be read where the records before it end. */
  lemma EntryReadable(d: Disk, parts: seq<seq<Entry>>, i: nat, j: nat, pos: nat, loc: Loc)
    requires Holds(d, parts) && i < |parts| && j < |parts[i]| && AllOk(parts[i]) && pos == |Segment.Image(parts[i][..j])|
    requires loc == LocOf(parts[i][j].h, i, pos)
    ensures Readable(d, loc, parts[i][j].payload)
    ensures pos + |EntryBytes(parts[i][j])| == |Segment.Image(parts[i][..j + 1])|
  {
    hide Blob.WholeAt, EntryBytes, Segment.Image, HasBlob, HasInline;
    var e, s := parts[i][j], d.segs[i];
    assert SegHolds(s, parts[i], d.blob) && e in parts[i] && EntryOk(e) && InBlob(e, d.blob);
    RangeOfLength(e);
    assert parts[i][..j + 1] == parts[i][..j] + [e];
    ImageAppend(parts[i][..j], e);
    if !HasBlob(loc.flags) {
      ImagePrefix(parts[i], j + 1);
      InlineAt(s.file, s.used, Segment.Image(parts[i][..j]), e, pos);
    }
  }

  lemma {:induction false} ImagePrefix(entries: seq<Entry>, k: nat)
    requires AllOk(entries) && k <= |entries|
    ensures Segment.Image(entries[..k]) <= Segment.Image(entries)
    decreases |entries| - k
  {
    hide EntryBytes, EntryOk, Segment.Image;
    if k == |entries| {
      assert entries[..k] == entries;
    } else {
      ImagePrefix(entries, k + 1);
      assert entries[..k + 1] == entries[..k] + [entries[k]];
      ImageAppend(entries[..k], entries[k]);
    }
  }

  lemma InlineAt(file: bytes, used: nat, front: bytes, e: Entry, pos: nat)
    requires EntryOk(e) && !HasBlob(e.h.flags) && used <= |file| && pos == |front| && front + EntryBytes(e) <= file[..used]
    ensures pos + HDR + |e.payload| <= used && file[pos + HDR..pos + HDR + |e.payload|] == e.payload
  {
    hide HeaderBytes, ComputeCrc, HasInline, HasBlob;
    FlagsSplit(e.h.flags);
    var record := EntryBytes(e);
    assert record[HDR..HDR + |e.payload|] == e.payload;
    SliceOfSlice(file, 0, used, pos, |record|);
    assert (front + record)[pos..pos + |record|] == record;
    assert file[..used][pos..pos + |record|] == (front + record)[pos..pos + |record|];
    SliceOfSlice(file, pos, |record|, HDR, |e.payload|);
  }

  function LocOf(h: Header, segId: nat, pos: nat): Loc {
    Loc(h.flags, segId, pos, h.blobOffset, h.payloadLen)
  }

  /** Enters a record that was recovered, unless it was trimmed. */
  method AddRecovered(log: L.Log, h: Header, logical: nat, loc: Loc, ghost e: Entry) returns (rc: int)
    requires log.RingOk() && View(log.disk, true, log.slots, log.msgs, logical) && log.entries.Length < U32 && !log.mode.Ring?
    requires (log.msgs != [] ==> log.trimOffset <= logical) && e.h == h && Readable(log.disk, loc, e.payload)
    modifies log`slots, log`start, log`count, log`msgs, log`entries, log.entries
    ensures log.RingOk() && log.entries.Length < U32 && (log.entries == old(log.entries) || fresh(log.entries))
    ensures rc == if logical >= log.trimOffset && |old(log.msgs)| >= L.Limit(old(log.entries.Length)) then -2 else 0
    ensures L.Limit(log.entries.Length) == L.Limit(old(log.entries.Length))
    ensures rc == 0 ==> View(log.disk, true, log.slots, log.msgs, logical + 1)
    ensures rc == 0 ==> log.msgs == old(log.msgs) + (if logical < log.trimOffset then [] else [MsgOf(e, logical)])
  {
    hide SlotHolds, View, Readable, L.SlotIs, L.Limit;
    Lengths(log.disk, true, log.slots, log.msgs, logical);
    if logical < log.trimOffset {
      ViewOfNothing(log.disk, logical + 1);
      return 0;
    }
    rc := log.EnsureCapacity();
    if rc != 0 {
      return -2;
    }
    var m := LogDisk.Meta(h.queueId, h.msgId, h.priority, h.timestamp, h.deliverAt, h.ttl);
    RecoveredSlot(log.disk, logical, m, loc, e);
    ViewAppend(log.disk, true, log.slots, log.msgs, logical, Slot(logical, m, None, loc), MsgOf(e, logical));
    log.PushBack(Slot(logical, m, None, loc));
    log.msgs := log.msgs + [MsgOf(e, logical)];
  }

  lemma ViewOfNothing(d: Disk, next: nat)
    ensures View(d, true, [], [], next)
  {
  }

  lemma RecoveredSlot(d: Disk, logical: nat, m: LogDisk.Meta, loc: Loc, e: Entry)
    requires Readable(d, loc, e.payload)
    requires m == LogDisk.Meta(e.h.queueId, e.h.msgId, e.h.priority, e.h.timestamp, e.h.deliverAt, e.h.ttl)
    ensures SlotHolds(d, true, Slot(logical, m, None, loc), MsgOf(e, logical))
  {
    hide HasBlob, Blob.WholeAt;
  }

  lemma {:induction false} ListedNothing(entries: seq<Entry>, base: nat, trim: nat)
    requires base + |entries| <= trim
    ensures Listed(entries, base, trim) == []
    decreases |entries|
  {
    if entries != [] { ListedNothing(entries[1..], base + 1, trim); }
  }

  /** The records in `done` have been entered. */
  ghost predicate Indexed(log: L.Log, done: seq<Entry>, base: nat)
    reads log`slots, log`msgs, log`disk, log`trimOffset, log`entries, log`start, log`count, log.entries
  {
    log.RingOk() && log.entries.Length < U32 && View(log.disk, true, log.slots, log.msgs, base + |done|) &&
    log.msgs == Listed(done, base, log.trimOffset)
  }

  method IndexSegment(log: L.Log, i: nat, parts: seq<seq<Entry>>, base: nat, logical: nat, ghost done: seq<Entry>)
    returns (rc: int, logical': nat)
    requires Holds(log.disk, parts) && i < |parts| && AllOk(parts[i]) && !log.mode.Ring?
    requires Indexed(log, done, base) && logical == base + |done|
    modifies log`slots, log`start, log`count, log`msgs, log`entries, log.entries
    ensures log.entries == old(log.entries) || fresh(log.entries)
    ensures L.Limit(log.entries.Length) == L.Limit(old(log.entries.Length))
    ensures rc == if |Listed(done + parts[i], base, log.trimOffset)| > L.Limit(old(log.entries.Length)) then -2 else 0
    ensures rc == 0 ==> Indexed(log, done + parts[i], base) && logical' == base + |done| + |parts[i]|
  {
    hide View, Holds, Listed, Segment.Image, EntryOk, EntryBytes, Readable, L.SlotIs, L.Limit, MsgOf;
    var j, pos := 0, 0;
    logical' := logical;
    assert parts[i][..0] == [] && done + [] == done;
    assert pos == |Segment.Image(parts[i][..0])| by { EmptyImage(); }
    while j < |parts[i]|
      invariant j <= |parts[i]| && Indexed(log, done + parts[i][..j], base) && logical' == base + |done| + j
      invariant pos == |Segment.Image(parts[i][..j])|
      invariant log.entries == old(log.entries) || fresh(log.entries)
      invariant L.Limit(log.entries.Length) == L.Limit(old(log.entries.Length))
    {
      var e := parts[i][j];
      assert e in parts[i] && EntryOk(e);
      var loc := LocOf(e.h, i, pos);
      EntryReadable(log.disk, parts, i, j, pos, loc);
      if logical' <= log.trimOffset { ListedNothing(done + parts[i][..j], base, log.trimOffset); }
      ListedAppend(done + parts[i][..j], e, base, log.trimOffset);
      assert done + parts[i][..j + 1] == done + parts[i][..j] + [e];
      rc := AddRecovered(log, e.h, logical', loc, e);
      if rc != 0 {
        ListedPrefix(done + parts[i][..j + 1], done + parts[i], base, log.trimOffset);
        return;
      }
      pos := pos + |EntryBytes(e)|;
      logical' := logical' + 1;
      j := j + 1;
    }
    assert parts[i][..j] == parts[i];
    Lengths(log.disk, true, log.slots, log.msgs, logical');
    AllFitIn(log);
    rc := 0;
  }

  /** The entries of a log fit into its buffer. */
  lemma AllFitIn(log: L.Log)
    requires log.RingOk() && |log.slots| == |log.msgs|
    ensures |log.msgs| <= L.Limit(log.entries.Length)
  {
  }

  lemma EmptyImage()
    ensures Segment.Image([]) == []
  {
  }

  method IndexAll(log: L.Log, parts: seq<seq<Entry>>, base: nat) returns (rc: int, logical: nat)
    requires Holds(log.disk, parts) && (forall i :: 0 <= i < |parts| ==> AllOk(parts[i])) && !log.mode.Ring?
    requires Indexed(log, [], base)
    modifies log`slots, log`start, log`count, log`msgs, log`entries, log.entries
    ensures log.entries == old(log.entries) || fresh(log.entries)
    ensures L.Limit(log.entries.Length) == L.Limit(old(log.entries.Length))
    ensures rc == if |Listed(Flatten(parts), base, log.trimOffset)| > L.Limit(old(log.entries.Length)) then -2 else 0
    ensures rc == 0 ==> Indexed(log, Flatten(parts), base) && logical == base + |Flatten(parts)|
  {
    hide Holds, AllOk, L.Limit, View, Listed, Flatten, L.SlotIs;
    logical := base;
    var i := 0;
    assert parts[..0] == [];
    FlattenNothing();
    while i < |parts|
      invariant i <= |parts| && Indexed(log, Flatten(parts[..i]), base) && logical == base + |Flatten(parts[..i])|
      invariant log.entries == old(log.entries) || fresh(log.entries)
      invariant L.Limit(log.entries.Length) == L.Limit(old(log.entries.Length))
    {
      assert parts[..i + 1] == parts[..i] + [parts[i]];
      FlattenAppend(parts[..i], [parts[i]]);
      FlattenOne(parts[i]);
      rc, logical := IndexSegment(log, i, parts, base, logical, Flatten(parts[..i]));
      if rc != 0 {
        FlattenGrows(parts, i + 1);
        ListedPrefix(Flatten(parts[..i + 1]), Flatten(parts), base, log.trimOffset);
        return;
      }
      i := i + 1;
    }
    assert parts[..i] == parts;
    Lengths(log.disk, true, log.slots, log.msgs, logical);
    AllFitIn(log);
    rc := 0;
  }

  lemma FlattenNothing()
    ensures Flatten([]) == []
  {
  }

  lemma FlattenGrows(parts: seq<seq<Entry>>, k: nat)
    requires k <= |parts|
    ensures Flatten(parts[..k]) <= Flatten(parts)
  {
    hide Flatten;
    assert parts[..k] + parts[k..] == parts;
    FlattenAppend(parts[..k], parts[k..]);
  }

  // ---- opening ----

  /** The files of the generation in force; a generation that does not exist has none. */
  function GenIn(fs: Fs, g: nat): Gen {
    if g in fs.gens then fs.gens[g] else Gen([], [])
  }

  function EntriesFor(capacity: nat): nat {
    if capacity == 0 then L.DEFAULT_CAP else capacity
  }

  /** What recovery makes of the files of a generation, `kept` being the frames that are left in its blob file; where
      there are none, the first segment is created empty. */
  function RecoveredFrom(gen: Gen, kept: seq<bytes>): (r: LogRecovery.Recovered)
    ensures r.foreign || r.parts != []
  {
    if gen.files == [] then LogRecovery.Recovered([Seg([], 0)], [[]], false)
    else LogRecovery.RecoverAll(gen.files, Blob.Image(kept))
  }

  /** What opening a persistent log returns. */
  function OpenCode(fs: Fs, kept: seq<bytes>, capacity: nat): int {
    if LogMeta.Load(fs.meta).None? then -11
    else
      var cur := LogMeta.Load(fs.meta).value;
      if Generation(cur) !in fs.gens && Generation(cur) != 0 then -6
      else FilesCode(GenIn(fs, Generation(cur)), cur, kept, EntriesFor(capacity))
  }

  function FilesCode(gen: Gen, cur: Option<LogMeta.Meta>, kept: seq<bytes>, room: nat): int {
    var r := RecoveredFrom(gen, kept);
    if r.foreign then -11
    else if gen.files == [] && (Generation(cur) != 0 || LogMeta.SequenceOf(cur) != 0) then -6
    else if |Listed(Flatten(r.parts), Base(cur), Trim(cur))| > L.Limit(room) then -2
    else 0
  }

  /** The metadata that is loaded speaks of these files: it trims between their first and their last message. */
  predicate Consistent(cur: Option<LogMeta.Meta>, meta: bytes, end: nat) {
    LogMeta.InForce(meta, cur) && Base(cur) <= Trim(cur) <= end
  }

  /** What is in the metadata is now in the log. */
  ghost predicate Follows(log: L.Log, cur: Option<LogMeta.Meta>, meta: bytes)
    reads log
  {
    log.metaFile == meta && log.meta == cur && log.metaSequence == LogMeta.SequenceOf(cur) &&
    log.generation == Generation(cur) && log.diskBase == Base(cur) && log.trimOffset == Trim(cur) &&
    log.threshold == (if cur.Some? && cur.value.threshold != 0 then cur.value.threshold else LogMeta.DEFAULT_THRESHOLD) &&
    log.hotByteLimit == log.hotLimit * log.threshold
  }

  /** The disk of the log is what recovery makes of these files. */
  ghost predicate Recovered(log: L.Log, gen: Gen)
    reads log`disk, log`parts, log`blobs
  {
    var r := RecoveredFrom(gen, log.blobs);
    KeptFrames(gen.blob, log.blobs) && !r.foreign &&
    log.disk == Disk(r.segs, Blob.Image(log.blobs)) && log.parts == r.parts && Holds(log.disk, log.parts)
  }

  /** The log holds what is in the files, without what was trimmed; and it is in good order if the metadata is one that
      this code writes, torn or not, and trims nothing beyond the end of the files. */
  ghost predicate Opened(log: L.Log, gen: Gen, cur: Option<LogMeta.Meta>, meta: bytes)
    reads log, log.entries
  {
    var end := Base(cur) + |Flatten(log.parts)|;
    Follows(log, cur, meta) && Recovered(log, gen) &&
    log.Contents() == Listed(Flatten(log.parts), Base(cur), Trim(cur)) &&
    log.nextOffset == (if Trim(cur) > end then Trim(cur) else end) &&
    (Consistent(cur, meta, end) ==> log.Valid())
  }

  /** Opens a log; `end` is the offset at which its files end. */
  method Open(mode: Mode, capacity: nat, fs: Fs, table: seq<Crc.word>) returns (rc: int, log: L.Log, end: nat)
    requires capacity < U32 && Crc.IsTable(Crc.CRC32, table)
    ensures fresh(log) && fresh(log.entries) && log.mode == mode && log.table == table
    ensures !Persistent(mode) ==> rc == 0 && log.Valid() && log.Contents() == [] && log.nextOffset == 0
    ensures Persistent(mode) ==> forall kept :: KeptFrames(BlobOf(fs), kept) ==> rc == OpenCode(fs, kept, capacity)
    ensures rc == 0 && Persistent(mode) ==> LogMeta.Load(fs.meta).Some?
    ensures rc == 0 && Persistent(mode) ==>
      var cur := LogMeta.Load(fs.meta).value; Opened(log, GenIn(fs, Generation(cur)), cur, fs.meta)
    ensures rc == 0 ==> L.Limit(log.entries.Length) == L.Limit(EntriesFor(capacity))
    ensures rc == 0 && Persistent(mode) ==> end == log.diskBase + |Flatten(log.parts)|
    ensures Persistent(mode) ==> AsRead(fs, capacity, rc, log.parts)
  {
    hide Crc.IsTable, Opened, L.Limit, KeptFrames, L.SlotIs, LogMeta.Load, FilesCode, AsRead;
    end := 0;
    log := new L.Log(mode, capacity, table);
    if !Persistent(mode) {
      return 0, log, end;
    }
    var loaded := LogMeta.Load(fs.meta);
    if loaded.None? {
      OpensAsRead(fs, capacity, -11, log.parts);
      return -11, log, end;
    }
    rc, end := OpenFiles(log, loaded.value, fs);
    if rc == 0 { OpenedFinds(log, fs, loaded.value); }
    OpensAsRead(fs, capacity, rc, log.parts);
  }

  lemma OpenedFinds(log: L.Log, fs: Fs, cur: Option<LogMeta.Meta>)
    requires LogMeta.Load(fs.meta) == Some(cur) && Opened(log, GenIn(fs, Generation(cur)), cur, fs.meta)
    ensures FoundIn(fs, log.parts)
  {
    hide KeptFrames, LogMeta.Load, Listed, Flatten, Blob.Image, Holds, RecoveredFrom;
    OnlyKept(BlobOf(fs), log.blobs);
  }

  /** A log is opened as the bytes of its files read: not at all if there is a record of another version behind whole
      segments, and otherwise with the entries that are read, unless there are too many. */
  ghost predicate AsRead(fs: Fs, capacity: nat, rc: int, found: seq<seq<Entry>>) {
    LogMeta.Load(fs.meta).Some? ==>
      var cur := LogMeta.Load(fs.meta).value;
      forall kept, parts, verdict ::
        KeptFrames(BlobOf(fs), kept) && LogRecovery.ReadsAs(GenIn(fs, Generation(cur)).files, Blob.Image(kept), parts, verdict) ==>
        OpensWith(rc, found, cur, parts, verdict, capacity)
  }

  ghost predicate OpensWith(rc: int, found: seq<seq<Entry>>, cur: Option<LogMeta.Meta>, parts: seq<seq<Entry>>, verdict: Found, capacity: nat) {
    (rc == if verdict.Foreign? then -11
           else if |Listed(Flatten(parts), Base(cur), Trim(cur))| > L.Limit(EntriesFor(capacity)) then -2 else 0) &&
    (rc == 0 ==> found == parts)
  }

  /** What is found on the disk of an opened log. */
  ghost predicate FoundIn(fs: Fs, found: seq<seq<Entry>>) {
    LogMeta.Load(fs.meta).Some? ==>
      forall kept :: KeptFrames(BlobOf(fs), kept) ==>
        found == RecoveredFrom(GenIn(fs, Generation(LogMeta.Load(fs.meta).value)), kept).parts
  }

  lemma OpensAsRead(fs: Fs, capacity: nat, rc: int, found: seq<seq<Entry>>)
    requires forall kept :: KeptFrames(BlobOf(fs), kept) ==> rc == OpenCode(fs, kept, capacity)
    requires rc == 0 ==> FoundIn(fs, found)
    ensures AsRead(fs, capacity, rc, found)
  {
    hide KeptFrames, LogMeta.Load, LogRecovery.ReadsAs, Blob.Image, OpenCode, OpensWith, RecoveredFrom;
    if LogMeta.Load(fs.meta).Some? {
      var cur := LogMeta.Load(fs.meta).value;
      var gen := GenIn(fs, Generation(cur));
      forall kept, parts, verdict | KeptFrames(BlobOf(fs), kept) && LogRecovery.ReadsAs(gen.files, Blob.Image(kept), parts, verdict)
        ensures OpensWith(rc, found, cur, parts, verdict, capacity)
      {
        OneReading(fs, cur, capacity, rc, found, kept, parts, verdict);
      }
    }
  }

  lemma OneReading(fs: Fs, cur: Option<LogMeta.Meta>, capacity: nat, rc: int, found: seq<seq<Entry>>,
                   kept: seq<bytes>, parts: seq<seq<Entry>>, verdict: Found)
    requires LogMeta.Load(fs.meta) == Some(cur) && rc == OpenCode(fs, kept, capacity)
    requires LogRecovery.ReadsAs(GenIn(fs, Generation(cur)).files, Blob.Image(kept), parts, verdict)
    requires rc == 0 ==> found == RecoveredFrom(GenIn(fs, Generation(cur)), kept).parts
    ensures OpensWith(rc, found, cur, parts, verdict, capacity)
  {
    hide L.Limit, LogMeta.Load, Listed, Flatten, LogRecovery.ReadsAs, LogRecovery.RecoverAll, LogRecovery.Leaves, Blob.Image;
    LogRecovery.ReadsSome(GenIn(fs, Generation(cur)).files, Blob.Image(kept), parts, verdict);
    LogRecovery.RecoversReading(GenIn(fs, Generation(cur)).files, Blob.Image(kept), parts, verdict);
  }

  /** The blob file that opening reads. */
  function BlobOf(fs: Fs): bytes {
    if LogMeta.Load(fs.meta).None? then [] else GenIn(fs, Generation(LogMeta.Load(fs.meta).value)).blob
  }

  /** A persistent log that holds nothing yet. */
  ghost predicate Empty(log: L.Log)
    reads log, log.entries
  {
    log.RingOk() && |log.slots| == 0 && log.msgs == [] && Persistent(log.mode) && Crc.IsTable(Crc.CRC32, log.table) &&
    log.entries.Length < U32
  }

  method TakeMeta(log: L.Log, cur: Option<LogMeta.Meta>, meta: bytes)
    requires log.generation == log.diskBase == log.trimOffset == log.metaSequence == 0 && log.threshold == LogMeta.DEFAULT_THRESHOLD
    modifies log`metaFile, log`meta, log`metaSequence, log`generation, log`diskBase, log`trimOffset, log`threshold, log`hotByteLimit
    ensures Follows(log, cur, meta)
  {
    log.metaFile, log.meta := meta, cur;
    if cur.Some? {
      var m := cur.value;
      log.metaSequence, log.generation, log.diskBase, log.trimOffset := m.sequence, m.generation, m.diskBase, m.trim;
      log.threshold := if m.threshold != 0 then m.threshold else LogMeta.DEFAULT_THRESHOLD;
    }
    log.hotByteLimit := log.hotLimit * log.threshold;
  }

  method OpenFiles(log: L.Log, cur: Option<LogMeta.Meta>, fs: Fs) returns (rc: int, end: nat)
    requires Empty(log)
    requires log.generation == log.diskBase == log.trimOffset == log.metaSequence == 0 && log.threshold == LogMeta.DEFAULT_THRESHOLD
    modifies log, log.entries
    ensures log.entries == old(log.entries) || fresh(log.entries)
    ensures forall kept :: KeptFrames(GenIn(fs, Generation(cur)).blob, kept) ==>
      rc == if Generation(cur) !in fs.gens && Generation(cur) != 0 then -6
            else FilesCode(GenIn(fs, Generation(cur)), cur, kept, old(log.entries.Length))
    ensures rc == 0 ==> Opened(log, GenIn(fs, Generation(cur)), cur, fs.meta) && end == log.diskBase + |Flatten(log.parts)|
    ensures rc == 0 ==> L.Limit(log.entries.Length) == L.Limit(old(log.entries.Length))
  {
    hide Crc.IsTable, Opened, L.Limit, L.SlotIs, KeptFrames, FilesCode, View;
    TakeMeta(log, cur, fs.meta);
    if log.generation !in fs.gens && log.generation != 0 {
      return -6, 0;
    }
    rc, end := ReadFiles(log, cur, GenIn(fs, log.generation));
    OnlyKept(GenIn(fs, log.generation).blob, log.blobs);
  }

  method ReadFiles(log: L.Log, ghost cur: Option<LogMeta.Meta>, gen: Gen) returns (rc: int, end: nat)
    requires Empty(log) && Follows(log, cur, log.metaFile)
    modifies log`disk, log`parts, log`blobs, log`nextOffset
    modifies log`slots, log`start, log`count, log`msgs, log`entries, log.entries
    ensures log.entries == old(log.entries) || fresh(log.entries)
    ensures KeptFrames(gen.blob, log.blobs) && rc == FilesCode(gen, cur, log.blobs, old(log.entries.Length))
    ensures rc == 0 ==> Opened(log, gen, cur, log.metaFile) && end == log.diskBase + |Flatten(log.parts)|
    ensures rc == 0 ==> L.Limit(log.entries.Length) == L.Limit(old(log.entries.Length))
  {
    hide Crc.IsTable, View, Listed, Flatten, Opened, L.SlotIs, L.Limit, RecoveredFrom, KeptFrames, Holds;
    var parts;
    rc, parts := RecoverFiles(log, gen);
    end := 0;
    if rc == 0 {
      rc, end := EnterAll(log, cur, gen, parts);
    }
  }

  /** Enters what was recovered. */
  method EnterAll(log: L.Log, ghost cur: Option<LogMeta.Meta>, ghost gen: Gen, parts: seq<seq<Entry>>)
    returns (rc: int, end: nat)
    requires Empty(log) && Follows(log, cur, log.metaFile) && Recovered(log, gen) && parts == log.parts
    modifies log`nextOffset, log`slots, log`start, log`count, log`msgs, log`entries, log.entries
    ensures log.entries == old(log.entries) || fresh(log.entries)
    ensures L.Limit(log.entries.Length) == L.Limit(old(log.entries.Length))
    ensures rc == if |Listed(Flatten(parts), Base(cur), Trim(cur))| > L.Limit(old(log.entries.Length)) then -2 else 0
    ensures rc == 0 ==> Opened(log, gen, cur, log.metaFile) && end == log.diskBase + |Flatten(log.parts)|
  {
    hide Crc.IsTable, View, Listed, Flatten, Indexed, Opened, L.SlotIs, L.Limit, Recovered, RecoveredFrom, Holds;
    StartIndex(log, log.diskBase);
    RecoveredIsOk(log, gen);
    rc, end := IndexAll(log, parts, log.diskBase);
    if rc == 0 {
      log.nextOffset := if log.trimOffset > end then log.trimOffset else end;
      OpenedInOrder(log, gen, cur);
    }
  }

  lemma OnlyKept(file: bytes, kept: seq<bytes>)
    requires KeptFrames(file, kept)
    ensures forall kept' :: KeptFrames(file, kept') ==> kept' == kept
  {
    hide KeptFrames;
    forall kept' | KeptFrames(file, kept')
      ensures kept' == kept
    {
      KeptUnique(file, kept, kept');
    }
  }

  method RecoverFiles(log: L.Log, gen: Gen) returns (rc: int, parts: seq<seq<Entry>>)
    requires Crc.IsTable(Crc.CRC32, log.table)
    modifies log`disk, log`parts, log`blobs
    ensures KeptFrames(gen.blob, log.blobs)
    ensures rc == if RecoveredFrom(gen, log.blobs).foreign then -11
                  else if gen.files == [] && (log.generation != 0 || log.metaSequence != 0) then -6 else 0
    ensures rc == 0 ==> Recovered(log, gen) && parts == log.parts
  {
    hide Crc.IsTable, LogRecovery.RecoverAll, Holds, Blob.Image, Blob.AllFit, Blob.WholeAt, LogRecovery.ReadsAs, LogRecovery.Leaves;
    var d;
    ghost var blobs;
    rc, d, parts, blobs := LogRecovery.Recover(gen.files, gen.blob, log.generation == 0 && log.metaSequence == 0, log.table);
    log.disk, log.parts, log.blobs := d, parts, blobs;
    LogRecovery.NothingRecovered(d.blob);
  }

  lemma RecoveredIsOk(log: L.Log, gen: Gen)
    requires Recovered(log, gen)
    ensures Holds(log.disk, log.parts) && forall i :: 0 <= i < |log.parts| ==> AllOk(log.parts[i])
  {
    hide Holds, AllOk, KeptFrames, RecoveredFrom, Blob.Image;
    PartsAreOk(log.disk, log.parts);
  }

  lemma StartIndex(log: L.Log, base: nat)
    requires log.RingOk() && log.entries.Length < U32 && |log.slots| == 0 && log.msgs == []
    ensures Indexed(log, [], base)
  {
    ViewOfNothing(log.disk, base);
    assert log.slots == [];
  }

  lemma PartsAreOk(d: Disk, parts: seq<seq<Entry>>)
    requires Holds(d, parts)
    ensures forall i :: 0 <= i < |parts| ==> AllOk(parts[i])
  {
    hide AllOk, Segment.Image, AllInBlob;
    assert forall i :: 0 <= i < |parts| ==> SegHolds(d.segs[i], parts[i], d.blob);
  }

  lemma OpenedInOrder(log: L.Log, gen: Gen, cur: Option<LogMeta.Meta>)
    requires Persistent(log.mode) && Crc.IsTable(Crc.CRC32, log.table)
    requires Follows(log, cur, log.metaFile) && Recovered(log, gen)
    requires Indexed(log, Flatten(log.parts), log.diskBase)
    requires log.nextOffset == if log.trimOffset > log.diskBase + |Flatten(log.parts)| then log.trimOffset else log.diskBase + |Flatten(log.parts)|
    ensures Opened(log, gen, cur, log.metaFile)
  {
    hide Crc.IsTable, RecoveredFrom, View, Holds, Listed, Flatten, Blob.Image, Blob.AllFit, LogMeta.InForce, L.SlotIs, Blob.WholeAt;
    if Consistent(cur, log.metaFile, Base(cur) + |Flatten(log.parts)|) {
      ListedNumbered(Flatten(log.parts), log.diskBase, log.trimOffset);
    }
  }
}
