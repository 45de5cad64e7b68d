/** Whole lives of a persistent log, from an empty directory on, with reopenings and crashes in between. */
module LogHistory {
  import opened Bytes
  import opened Optional
  import opened Segment
  import opened LogDisk
  import opened LogView
  import opened LogRecovery
  import opened LogCrash
  import opened LogCompact
  import opened LogOpen
  import opened LogReopen
  import Blob
  import Crc
  import L = Log
  import LogMeta

  /** `Crash(lost, blobLost, _)`: so many bytes at the end of the last segment and of the blob file do not survive, and the
      log is opened again. */
  datatype Op =
    | Append(m: Meta, data: bytes)
    | Read(offset: nat)
    | TrimFront(offset: nat)
    | Snapshot
    | SetThreshold(size: nat)
    | Compact
    | Reopen(capacity: nat)
    | Crash(lost: nat, blobLost: nat, capacity: nat)

  datatype Answer = Done(rc: int) | At(offset: nat) | Got(x: Msg)

  datatype Phase = Live | Closed | Gap

  /** What a log is for: a list of messages, the first of which have been trimmed.  Of those that are trimmed, the ones
      from `mark` on come back when the log is opened again. */
  datatype St = St(all: seq<Msg>, start: nat, mark: nat, limit: nat, generation: nat, phase: Phase)

  /** Opening a log that still has its first `n` messages.  When these do not reach the mark, what is appended would not
      be numbered from where the files end. */
  predicate OpenedWith(s: St, n: nat, capacity: nat, a: Answer, s': St) {
    n <= |s.all| &&
    var limit := L.Limit(EntriesFor(capacity));
    if n < s.mark then a == Done(0) && s' == s.(all := s.all[..n], phase := Gap)
    else if n - s.mark > limit then a == Done(-2) && s' == s.(all := s.all[..n], phase := Closed)
    else a == Done(0) && s' == s.(all := s.all[..n], start := s.mark, limit := limit)
  }

  ghost predicate StepOf(s: St, op: Op, a: Answer, s': St) {
    s.phase.Live? && s.start <= |s.all| &&
    match op
    case Append(m, data) =>
      if |s.all| - s.start >= s.limit then a == Done(-2) && s' == s
      else a == At(|s.all|) && s' == s.(all := s.all + [Msg(|s.all|, m, data)])
    case Read(offset) => s' == s && a == if s.start <= offset < |s.all| then Got(s.all[offset]) else Done(-3)
    case TrimFront(offset) =>
      a == Done(0) && s' == s.(start := if offset <= s.start then s.start else if offset <= |s.all| then offset else |s.all|)
    case Snapshot => a == Done(0) && s' == s.(mark := s.start)
    case SetThreshold(_) => a == Done(0) && s' == s.(mark := s.start)
    case Compact =>
      if s.generation + 1 == U32 then a == Done(-6) && s' == s
      else a == Done(0) && s' == s.(mark := s.start, generation := s.generation + 1)
    case Reopen(capacity) => OpenedWith(s, |s.all|, capacity, a, s')
    case Crash(lost, blobLost, capacity) =>
      exists n :: OpenedWith(s, n, capacity, a, s') && (lost == 0 && blobLost == 0 ==> n == |s.all|)
  }

  function Begin(capacity: nat): St {
    St([], 0, 0, L.Limit(EntriesFor(capacity)), 0, Live)
  }

  /** A run of the list.  It ends early when the log could not be opened again. */
  ghost predicate IsRun(ops: seq<Op>, answers: seq<Answer>, states: seq<St>) {
    |states| == |answers| + 1 && |answers| <= |ops| &&
    (forall i {:trigger states[i + 1]} :: 0 <= i < |answers| ==> StepOf(states[i], ops[i], answers[i], states[i + 1])) &&
    (|answers| < |ops| ==> !states[|answers|].phase.Live?)
  }

  // ---- the log is that list ----

  /** Each message has its position as offset. */
  predicate Positioned(all: seq<Msg>) {
    forall i :: 0 <= i < |all| ==> all[i].offset == i
  }

  /** The log stands for this state of the list. */
  ghost predicate Stands(log: L.Log, s: St)
    reads log, log.entries
  {
    log.Valid() && log.Clean() && Persistent(log.mode) && s.phase.Live? &&
    s.mark <= s.start <= |s.all| && Positioned(s.all) &&
    log.Contents() == s.all[s.start..] && log.nextOffset == |s.all| && log.trimOffset == s.start &&
    Recorded(log) == s.all[s.mark..] && Trim(log.meta) == s.mark &&
    L.Limit(log.entries.Length) == s.limit && log.generation == s.generation
  }

  /** The counters are far from their widths: `steps` operations so far, which appended `spent` bytes. */
  ghost predicate Within(log: L.Log, s: St, steps: nat, spent: nat)
    reads log
  {
    |s.all| <= steps && log.metaSequence <= steps && |log.disk.blob| <= spent && BlobBound(s.all) <= spent &&
    log.threshold < U32 && log.generation < U32
  }

  /** What is known of a persistent log in good order. */
  lemma Facts(log: L.Log)
    requires log.Valid() && Persistent(log.mode)
    ensures |log.slots| == |log.msgs| == log.count <= log.nextOffset
    ensures log.nextOffset == log.diskBase + |Flatten(log.parts)| && Base(log.meta) == log.diskBase <= Trim(log.meta)
    ensures log.msgs == Listed(Flatten(log.parts), log.diskBase, log.nextOffset - |log.msgs|)
    ensures Generation(log.meta) == log.generation && LogMeta.InForce(log.metaFile, log.meta)
  {
    hide Holds, Listed, Flatten, LogMeta.InForce, View, Blob.Image, Blob.AllFit, L.SlotIs;
    Lengths(log.disk, true, log.slots, log.msgs, log.nextOffset);
  }

  function Cost(op: Op): nat {
    if op.Append? then Blob.HDR + |op.data| else 0
  }

  function Costs(ops: seq<Op>): nat {
    if ops == [] then 0 else Costs(ops[..|ops| - 1]) + Cost(ops[|ops| - 1])
  }

  /** What the source's types allow. */
  predicate OpFits(op: Op) {
    match op
    case Append(m, data) => LogDisk.MetaFits(m) && |data| < U32
    case SetThreshold(size) => size < U32
    case Reopen(capacity) => capacity < U32
    case Crash(_, _, capacity) => capacity < U32
    case _ => true
  }

  method DoAppend(log: L.Log, m: Meta, data: bytes, ghost s: St, ghost steps: nat, ghost spent: nat) returns (a: Answer, ghost s': St)
    requires Stands(log, s) && Within(log, s, steps, spent) && OpFits(Append(m, data)) && spent < U64
    modifies log`entries, log`start, log`count, log`slots, log`msgs, log`nextOffset, log`disk, log`parts, log`blobs, log.entries
    ensures StepOf(s, Append(m, data), a, s') && Stands(log, s') && Within(log, s', steps + 1, spent + Cost(Append(m, data)))
    ensures log.entries == old(log.entries) || fresh(log.entries)
  {
    hide LogMeta.InForce, View, Written, Listed, Flatten, Crc.IsTable, OnDisk, L.SlotIs, L.Limit, BlobBound, Stored, MsgOf;
    Facts(log);
    s' := s;
    ghost var parts, blob := log.parts, log.disk.blob;
    var rc, offset := log.Append(m, data);
    if rc != 0 {
      a := Done(rc);
      return;
    }
    a := At(offset);
    s' := s.(all := s.all + [Msg(|s.all|, m, data)]);
    AppendRecorded(Flatten(parts), m, data, log.threshold, |blob|, Base(log.meta), Trim(log.meta));
    BlobBoundAppend(s.all, Msg(|s.all|, m, data));
    assert s'.all[s.mark..] == s.all[s.mark..] + [Msg(|s.all|, m, data)];
    assert s'.all[s.start..] == s.all[s.start..] + [Msg(|s.all|, m, data)];
  }

  lemma AppendRecorded(entries: seq<Entry>, m: Meta, data: bytes, threshold: nat, blobOffset: nat, base: nat, trim: nat)
    requires trim <= base + |entries|
    ensures Listed(entries + [Stored(m, data, threshold, blobOffset)], base, trim) ==
      Listed(entries, base, trim) + [Msg(base + |entries|, m, data)]
  {
    hide Listed, MsgOf, Stored;
    ListedAppend(entries, Stored(m, data, threshold, blobOffset), base, trim);
    StoredIsMsg(m, data, threshold, blobOffset, base + |entries|);
  }

  lemma BlobBoundAppend(msgs: seq<Msg>, x: Msg)
    ensures BlobBound(msgs + [x]) == BlobBound(msgs) + Blob.HDR + |x.payload|
  {
    assert (msgs + [x])[..|msgs|] == msgs;
  }

  method DoRead(log: L.Log, offset: nat, ghost s: St) returns (a: Answer)
    requires Stands(log, s)
    ensures StepOf(s, Read(offset), a, s)
  {
    hide LogMeta.InForce, View, Written, Listed, Flatten, Crc.IsTable, OnDisk, L.SlotIs, L.Limit;
    Facts(log);
    var rc, x := log.Read(offset);
    a := if rc == 0 then Got(x) else Done(rc);
  }

  method DoTrim(log: L.Log, offset: nat, ghost s: St, ghost steps: nat, ghost spent: nat) returns (a: Answer, ghost s': St)
    requires Stands(log, s) && Within(log, s, steps, spent)
    modifies log`slots, log`start, log`count, log`msgs, log`trimOffset, log.entries
    ensures StepOf(s, TrimFront(offset), a, s') && Stands(log, s') && Within(log, s', steps, spent)
  {
    hide LogMeta.InForce, View, Written, Listed, Flatten, Crc.IsTable, OnDisk, L.SlotIs, L.Limit, BlobBound, From;
    Facts(log);
    log.TrimFront(offset);
    Facts(log);
    s' := s.(start := if offset <= s.start then s.start else if offset <= |s.all| then offset else |s.all|);
    FromOfSuffix(s.all, s.start, offset);
    a := Done(0);
  }

  lemma {:induction false} FromOfSuffix(all: seq<Msg>, start: nat, offset: nat)
    requires Positioned(all) && start <= |all|
    ensures From(all[start..], offset) == all[if offset <= start then start else if offset <= |all| then offset else |all|..]
    decreases |all| - start
  {
    if start < |all| && start < offset {
      assert all[start..][1..] == all[start + 1..];
      FromOfSuffix(all, start + 1, offset);
    }
  }

  /** The trim recorded in the metadata is where the retained messages start. */
  lemma RecordedNow(log: L.Log)
    requires log.Valid() && Persistent(log.mode) && Trim(log.meta) == log.nextOffset - log.count
    ensures Recorded(log) == log.Contents()
  {
    hide LogMeta.InForce, View, Listed, Flatten, Crc.IsTable, OnDisk, L.SlotIs;
    Facts(log);
  }

  method DoSnapshot(log: L.Log, ghost s: St, ghost steps: nat, ghost spent: nat) returns (a: Answer, ghost s': St)
    requires Stands(log, s) && Within(log, s, steps, spent) && steps + 1 < U64
    modifies log`trimOffset, log`metaFile, log`metaSequence, log`meta
    ensures StepOf(s, Snapshot, a, s') && Stands(log, s') && Within(log, s', steps + 1, spent)
  {
    hide LogMeta.InForce, View, Written, Listed, Flatten, Crc.IsTable, OnDisk, L.SlotIs, L.Limit, BlobBound;
    Facts(log);
    log.Snapshot();
    Facts(log);
    RecordedNow(log);
    s' := s.(mark := s.start);
    a := Done(0);
  }

  method DoThreshold(log: L.Log, size: nat, ghost s: St, ghost steps: nat, ghost spent: nat) returns (a: Answer, ghost s': St)
    requires Stands(log, s) && Within(log, s, steps, spent) && steps + 1 < U64 && size < U32
    modifies log`threshold, log`hotByteLimit, log`slots, log`metaFile, log`metaSequence, log`meta, log.entries
    ensures StepOf(s, SetThreshold(size), a, s') && Stands(log, s') && Within(log, s', steps + 1, spent)
  {
    hide LogMeta.InForce, View, Written, Listed, Flatten, Crc.IsTable, OnDisk, L.SlotIs, L.Limit, BlobBound;
    Facts(log);
    log.SetBlobThreshold(size);
    Facts(log);
    RecordedNow(log);
    s' := s.(mark := s.start);
    a := Done(0);
  }

  function OnlyGen(g: nat, gen: Gen): (gens: map<nat, Gen>)
    ensures g in gens && gens[g] == gen
  {
    var none: map<nat, Gen> := map[];
    none[g := gen]
  }

  /** The directory of a log, but for this much at the end of its last segment and of its blob file. */
  function Directory(log: L.Log, cut: nat, blobCut: nat): Fs
    requires blobCut <= |log.disk.blob|
    reads log
  {
    Fs(OnlyGen(log.generation, Gen(Files(log.disk.segs, cut), log.disk.blob[..blobCut])), log.metaFile)
  }

  lemma BlobBoundOfSuffix(msgs: seq<Msg>, k: nat)
    requires k <= |msgs|
    ensures BlobBound(msgs[k..]) <= BlobBound(msgs)
    decreases |msgs|
  {
    if k < |msgs| {
      BlobBoundOfSuffix(msgs[..|msgs| - 1], k);
      assert msgs[k..][..|msgs| - k - 1] == msgs[..|msgs| - 1][k..];
    }
  }

  method DoCompact(log: L.Log, ghost s: St, ghost steps: nat, ghost spent: nat) returns (a: Answer, ghost s': St)
    requires Stands(log, s) && Within(log, s, steps, spent) && steps + 1 < U64 && spent < U64
    modifies log`trimOffset, log`metaFile, log`metaSequence, log`meta, log`slots, log`disk, log`parts, log`blobs
    modifies log`generation, log`diskBase, log.entries
    ensures StepOf(s, Compact, a, s') && Stands(log, s') && Within(log, s', steps + 1, spent)
  {
    hide LogMeta.InForce, View, Written, Listed, Flatten, Crc.IsTable, OnDisk, L.SlotIs, L.Limit, BlobBound, CrashSafe, Run, Unsynced,
      RestLeaves, OneOf, GenOf;
    Facts(log);
    BlobBoundOfSuffix(s.all, s.start);
    ghost var fs := Fs(OnlyGen(log.generation, GenOf(log.disk)), log.metaFile);
    var rc, changes := LogCompact.Compact(log, fs, {});
    Facts(log);
    s' := if rc == 0 then s.(mark := s.start, generation := s.generation + 1) else s;
    a := Done(rc);
  }

  // ---- opening again ----

  /** A prefix of the entries lists the messages up to where it ends. */
  lemma ListedUpTo(entries: seq<Entry>, prefix: seq<Entry>, base: nat, trim: nat, all: seq<Msg>)
    requires prefix <= entries && base <= trim <= |all| == base + |entries| && Listed(entries, base, trim) == all[trim..]
    ensures var n := base + |prefix|; Listed(prefix, base, trim) == if n < trim then [] else all[trim..n]
  {
    hide Listed;
    var n := base + |prefix|;
    if n < trim {
      ListedNothing(prefix, base, trim);
    } else {
      ListedPrefix(prefix, entries, base, trim);
      ListedNumbered(prefix, base, trim);
      assert all[trim..][..n - trim] == all[trim..n];
    }
  }

  /** What the directory and the files of a log say. */
  lemma Standing(log: L.Log, s: St, cut: nat, blobCut: nat)
    requires Stands(log, s) && blobCut <= |log.disk.blob|
    ensures var fs := Directory(log, cut, blobCut);
            LogMeta.Load(fs.meta) == Some(log.meta) && Generation(log.meta) == log.generation && log.generation in fs.gens && Trim(log.meta) == s.mark &&
            Left(fs.gens[log.generation], log.disk, log.parts, log.blobs, cut, blobCut) &&
            Base(log.meta) <= s.mark <= |s.all| == Base(log.meta) + |Flatten(log.parts)| &&
            Listed(Flatten(log.parts), Base(log.meta), s.mark) == s.all[s.mark..]
  {
    hide LogMeta.InForce, LogMeta.Load, View, Listed, Flatten, Crc.IsTable, OnDisk, L.SlotIs, L.Limit, Files, Written;
    Facts(log);
    LogMeta.LoadInForce(log.metaFile, log.meta);
  }

  /** What is left of the files of a log are its first `n` messages, of which opening lists those from the mark on. */
  lemma WhatIsLeft(fs: Fs, cur: Option<LogMeta.Meta>, d: Disk, parts: seq<seq<Entry>>, blobs: seq<bytes>, cut: nat, blobCut: nat,
                   all: seq<Msg>, capacity: nat, kept: seq<bytes>) returns (n: nat, i: nat, j: nat)
    requires LogMeta.Load(fs.meta) == Some(cur) && Generation(cur) in fs.gens
    requires Left(fs.gens[Generation(cur)], d, parts, blobs, cut, blobCut) && KeptFrames(fs.gens[Generation(cur)].blob, kept)
    requires Base(cur) <= Trim(cur) <= |all| == Base(cur) + |Flatten(parts)|
    requires Listed(Flatten(parts), Base(cur), Trim(cur)) == all[Trim(cur)..]
    ensures KeptFrames(BlobOf(fs), kept) && n <= |all|
    ensures EachOk(parts) && LongestWithin(parts, i, j, cut, blobCut) && i < |parts| && n == Base(cur) + |Flatten(parts[..i])| + j
    ensures OpenCode(fs, kept, capacity) == if Trim(cur) <= n && n - Trim(cur) > L.Limit(EntriesFor(capacity)) then -2 else 0
    ensures var parts' := RecoveredFrom(fs.gens[Generation(cur)], kept).parts;
            n == Base(cur) + |Flatten(parts')| &&
            Listed(Flatten(parts'), Base(cur), Trim(cur)) == if n < Trim(cur) then [] else all[Trim(cur)..n]
    ensures d.segs != [] && (cut >= |d.segs[|d.segs| - 1].file| && blobCut == |d.blob| ==> n == |all|)
  {
    hide LogMeta.Load, Listed, Flatten, L.Limit, KeptFrames, RecoveredFrom, Left, EachOk, LongestWithin;
    var gen := fs.gens[Generation(cur)];
    i, j := RecoveredPrefix(gen, d, parts, blobs, cut, blobCut, kept);
    var parts' := RecoveredFrom(gen, kept).parts;
    n := Base(cur) + |Flatten(parts')|;
    ListedUpTo(Flatten(parts), Flatten(parts'), Base(cur), Trim(cur), all);
  }

  /** The log that was opened stands for what was left. */
  lemma OpenedStands(log: L.Log, s: St, log': L.Log, cut: nat, blobCut: nat, capacity: nat, kept: seq<bytes>, n: nat)
    requires Stands(log, s) && blobCut <= |log.disk.blob| && Persistent(log'.mode)
    requires Opened(log', Directory(log, cut, blobCut).gens[log.generation], log.meta, log.metaFile)
    requires s.mark <= n <= |s.all| && KeptFrames(Directory(log, cut, blobCut).gens[log.generation].blob, kept)
    requires var parts' := RecoveredFrom(Directory(log, cut, blobCut).gens[log.generation], kept).parts;
             n == log.diskBase + |Flatten(parts')| && Listed(Flatten(parts'), log.diskBase, s.mark) == s.all[s.mark..n]
    requires L.Limit(log'.entries.Length) == L.Limit(EntriesFor(capacity))
    ensures Stands(log', s.(all := s.all[..n], start := s.mark, limit := L.Limit(EntriesFor(capacity))))
    ensures |log'.disk.blob| <= |log.disk.blob| && log'.metaSequence == log.metaSequence && log'.threshold < U32
  {
    hide LogMeta.InForce, LogMeta.Load, View, Listed, Flatten, Crc.IsTable, OnDisk, L.SlotIs, L.Limit, Files, Written, KeptFrames,
      RecoveredFrom;
    Facts(log);
    var gen := Directory(log, cut, blobCut).gens[log.generation];
    KeptUnique(gen.blob, kept, log'.blobs);
    assert Left(gen, log.disk, log.parts, log.blobs, cut, blobCut);
    OpenedIsClean(log', gen, log.meta, log.metaFile);
    OpenedBlob(log', gen, log.meta, log.metaFile);
    assert s.all[..n][s.mark..] == s.all[s.mark..n];
  }

  lemma OpenedBlob(log: L.Log, gen: Gen, cur: Option<LogMeta.Meta>, meta: bytes)
    requires Opened(log, gen, cur, meta)
    ensures |log.disk.blob| <= |gen.blob|
    ensures LogMeta.InForce(meta, cur) ==> log.threshold < U32
  {
    hide Blob.Image, RecoveredFrom, Listed, Flatten, Holds;
  }

  lemma OpenedParts(log: L.Log, gen: Gen, cur: Option<LogMeta.Meta>, meta: bytes, kept: seq<bytes>, rc: int)
    requires rc == 0 ==> Opened(log, gen, cur, meta)
    requires KeptFrames(gen.blob, kept)
    ensures rc == 0 ==> log.parts == RecoveredFrom(gen, kept).parts && log.trimOffset == Trim(cur) && log.diskBase == Base(cur)
  {
    hide KeptFrames, RecoveredFrom, Listed, Flatten, Holds, LogMeta.InForce, View, OnDisk, L.SlotIs;
    if rc == 0 { KeptUnique(gen.blob, kept, log.blobs); }
  }

  /** The log is opened again from what is left of its files: everything before entry `j` of part `i`, the first that is not
      within the cuts. */
  method OpenAgain(log: L.Log, cut: nat, blobCut: nat, capacity: nat, ghost s: St, ghost steps: nat, ghost spent: nat)
    returns (a: Answer, log': L.Log, live: bool, ghost s': St, ghost n: nat, ghost i: nat, ghost j: nat)
    requires Stands(log, s) && Within(log, s, steps, spent) && blobCut <= |log.disk.blob| && capacity < U32
    ensures fresh(log') && fresh(log'.entries) && OpenedWith(s, n, capacity, a, s')
    ensures EachOk(log.parts) && LongestWithin(log.parts, i, j, cut, blobCut) && i < |log.parts|
    ensures n == log.diskBase + |Flatten(log.parts[..i])| + j
    ensures log.disk.segs != []
    ensures cut >= |log.disk.segs[|log.disk.segs| - 1].file| && blobCut == |log.disk.blob| ==> n == |s.all|
    ensures live == s'.phase.Live? && (live ==> Stands(log', s') && Within(log', s', steps, spent))
  {
    hide LogMeta.InForce, LogMeta.Load, View, Listed, Flatten, Crc.IsTable, OnDisk, L.SlotIs, L.Limit, Files, Written, KeptFrames,
      RecoveredFrom, OpenCode, Opened, Left, BlobBound, EachOk, LongestWithin;
    ghost var fs := Directory(log, cut, blobCut);
    Standing(log, s, cut, blobCut);
    ghost var kept := SomeKept(fs.gens[log.generation].blob);
    n, i, j := WhatIsLeft(fs, log.meta, log.disk, log.parts, log.blobs, cut, blobCut, s.all, capacity, kept);
    var rc, end;
    rc, log', end := Open(log.mode, capacity, Directory(log, cut, blobCut), log.table);
    a, live := Done(rc), rc == 0 && log'.trimOffset <= end;
    OpenedParts(log', fs.gens[log.generation], log.meta, log.metaFile, kept, rc);
    BlobBoundGrows(s.all, n);
    if n < s.mark {
      s' := s.(all := s.all[..n], phase := Gap);
    } else if n - s.mark > L.Limit(EntriesFor(capacity)) {
      s' := s.(all := s.all[..n], phase := Closed);
    } else {
      s' := s.(all := s.all[..n], start := s.mark, limit := L.Limit(EntriesFor(capacity)));
      OpenedStands(log, s, log', cut, blobCut, capacity, kept, n);
    }
  }

  // ---- whole histories ----

  /** A log in an empty directory. */
  method Create(mode: Mode, capacity: nat, table: seq<Crc.word>) returns (log: L.Log)
    requires Persistent(mode) && capacity < U32 && Crc.IsTable(Crc.CRC32, table)
    ensures fresh(log) && fresh(log.entries) && Stands(log, Begin(capacity)) && Within(log, Begin(capacity), 0, 0)
  {
    hide Crc.IsTable, View, LogMeta.InForce, LogMeta.Load, Opened, OpenCode, L.Limit, KeptFrames, L.SlotIs, Listed, Flatten, Written;
    var rc, end;
    rc, log, end := Open(mode, capacity, Fs(map[], []), table);
    ghost var kept := SomeKept(BlobOf(Fs(map[], [])));
    EmptyDirectoryOpens(kept, capacity);
    EmptyDirectoryIsEmpty(log);
    OpenedFollows(log, GenIn(Fs(map[], []), 0), None, []);
  }

  lemma OpenedFollows(log: L.Log, gen: Gen, cur: Option<LogMeta.Meta>, meta: bytes)
    requires Opened(log, gen, cur, meta)
    ensures Follows(log, cur, meta)
  {
  }

  method DoCrash(log: L.Log, lost: nat, blobLost: nat, capacity: nat, ghost s: St, ghost steps: nat, ghost spent: nat)
    returns (a: Answer, log': L.Log, live: bool, ghost s': St)
    requires Stands(log, s) && Within(log, s, steps, spent) && capacity < U32
    ensures fresh(log') && fresh(log'.entries) && StepOf(s, Crash(lost, blobLost, capacity), a, s')
    ensures lost == 0 && blobLost == 0 ==> StepOf(s, Reopen(capacity), a, s')
    ensures live == s'.phase.Live? && (live ==> Stands(log', s') && Within(log', s', steps, spent))
  {
    hide Stands, Within, L.Limit, OpenedWith;
    HasSegment(log, s);
    var size := |log.disk.segs[|log.disk.segs| - 1].file|;
    var cut := if lost <= size then size - lost else 0;
    var blobCut := if blobLost <= |log.disk.blob| then |log.disk.blob| - blobLost else 0;
    ghost var n, i, j;
    a, log', live, s', n, i, j := OpenAgain(log, cut, blobCut, capacity, s, steps, spent);
  }

  lemma HasSegment(log: L.Log, s: St)
    requires Stands(log, s)
    ensures log.disk.segs != [] && s.phase.Live? && s.start <= |s.all|
  {
    hide LogMeta.InForce, View, Listed, Flatten, Crc.IsTable, OnDisk, L.SlotIs, L.Limit, Aligned, SegHolds;
  }

  method Perform(log: L.Log, op: Op, ghost s: St, ghost steps: nat, ghost spent: nat)
    returns (a: Answer, log': L.Log, live: bool, ghost s': St)
    requires Stands(log, s) && Within(log, s, steps, spent) && OpFits(op) && steps + 1 < U64 && spent < U64
    modifies log, log.entries
    ensures StepOf(s, op, a, s')
    ensures live == s'.phase.Live? && (live ==> Stands(log', s') && Within(log', s', steps + 1, spent + Cost(op)))
    ensures (log' == log || fresh(log')) && (log'.entries == old(log.entries) || fresh(log'.entries))
  {
    hide Stands, OpenedWith, Recorded;
    log', live, s' := log, true, s;
    match op
    case Append(m, data) => a, s' := DoAppend(log, m, data, s, steps, spent);
    case Read(offset) => a := DoRead(log, offset, s);
    case TrimFront(offset) => a, s' := DoTrim(log, offset, s, steps, spent);
    case Snapshot => a, s' := DoSnapshot(log, s, steps, spent);
    case SetThreshold(size) => a, s' := DoThreshold(log, size, s, steps, spent);
    case Compact => a, s' := DoCompact(log, s, steps, spent);
    case Reopen(capacity) => a, log', live, s' := DoCrash(log, 0, 0, capacity, s, steps, spent);
    case Crash(lost, blobLost, capacity) => a, log', live, s' := DoCrash(log, lost, blobLost, capacity, s, steps, spent);
  }

  lemma CostsUpTo(ops: seq<Op>, k: nat)
    requires k < |ops|
    ensures Costs(ops[..k + 1]) == Costs(ops[..k]) + Cost(ops[k])
  {
    assert ops[..k + 1][..k] == ops[..k];
  }

  lemma {:induction false} CostsGrow(ops: seq<Op>, k: nat)
    requires k <= |ops|
    ensures Costs(ops[..k]) <= Costs(ops)
    decreases |ops|
  {
    if k == |ops| {
      assert ops[..k] == ops;
    } else {
      CostsGrow(ops[..|ops| - 1], k);
      assert ops[..|ops| - 1][..k] == ops[..k];
    }
  }

  /** Whatever is done to a log, and wherever it crashes, is a history of the list. */
  method Replay(mode: Mode, capacity: nat, ops: seq<Op>, table: seq<Crc.word>)
    returns (answers: seq<Answer>, log: L.Log, ghost states: seq<St>)
    requires Persistent(mode) && capacity < U32 && Crc.IsTable(Crc.CRC32, table)
    requires (forall op :: op in ops ==> OpFits(op)) && |ops| + 1 < U64 && Costs(ops) < U64
    ensures IsRun(ops, answers, states) && states[0] == Begin(capacity)
    ensures states[|answers|].phase.Live? ==> |answers| == |ops| && Stands(log, states[|answers|])
  {
    hide Stands, Within, StepOf, Crc.IsTable, Begin, OpFits, Cost, Costs;
    log := Create(mode, capacity, table);
    ghost var s, spent := Begin(capacity), 0;
    answers, states := [], [s];
    assert s.phase.Live? && Costs(ops[..0]) == 0 by { NoCosts(capacity); assert ops[..0] == []; }
    while |answers| < |ops|
      invariant |answers| <= |ops| && |states| == |answers| + 1 && states[0] == Begin(capacity) && states[|answers|] == s
      invariant forall i {:trigger states[i + 1]} :: 0 <= i < |answers| ==> StepOf(states[i], ops[i], answers[i], states[i + 1])
      invariant s.phase.Live? && Stands(log, s) && Within(log, s, |answers|, Costs(ops[..|answers|]))
      invariant fresh(log) && fresh(log.entries)
    {
      ghost var k := |answers|;
      CostsGrow(ops, k);
      CostsUpTo(ops, k);
      var a, live;
      assert ops[k] in ops;
      a, log, live, s := Perform(log, ops[|answers|], s, k, Costs(ops[..k]));
      answers, states := answers + [a], states + [s];
      if !live {
        return;
      }
    }
  }

  lemma NoCosts(capacity: nat)
    ensures Costs([]) == 0 && Begin(capacity).phase.Live?
  {
  }

  // ---- what a history keeps ----

  /** The list is in order: what reopening would give starts at or before what is retained. */
  predicate InOrder(s: St) {
    s.mark <= s.start <= |s.all| && Positioned(s.all)
  }

  lemma StepInOrder(s: St, op: Op, a: Answer, s': St)
    requires InOrder(s) && StepOf(s, op, a, s')
    ensures s'.phase.Live? ==> InOrder(s')
    ensures s.mark <= s'.mark && s'.start <= (if op.TrimFront? && op.offset > s.start then op.offset else s.start)
    ensures op.Crash? || s.all <= s'.all
    ensures s.all <= s'.all || s'.all <= s.all
  {
    hide L.Limit;
    if op.Crash? {
      var n :| OpenedWith(s, n, op.capacity, a, s');
    }
  }

  lemma {:induction false} RunInOrder(ops: seq<Op>, answers: seq<Answer>, states: seq<St>, capacity: nat, k: nat)
    requires IsRun(ops, answers, states) && states[0] == Begin(capacity) && k <= |answers| && states[k].phase.Live?
    ensures InOrder(states[k])
  {
    hide StepOf, InOrder;
    if k == 0 {
      assert InOrder(Begin(capacity)) by { BeginInOrder(capacity); }
    } else {
      StepAt(ops, answers, states, k - 1);
      RunInOrder(ops, answers, states, capacity, k - 1);
      StepInOrder(states[k - 1], ops[k - 1], answers[k - 1], states[k]);
    }
  }

  lemma BeginInOrder(capacity: nat)
    ensures InOrder(Begin(capacity)) && Begin(capacity).start == 0
  {
  }

  lemma StepAt(ops: seq<Op>, answers: seq<Answer>, states: seq<St>, k: nat)
    requires IsRun(ops, answers, states) && k < |answers|
    ensures StepOf(states[k], ops[k], answers[k], states[k + 1]) && states[k].phase.Live?
  {
    hide L.Limit, OpenedWith;
  }

  /** A message that was appended, that no trim reached and no crash cut off, is retained, unchanged and at its offset,
      whatever else was done: snapshots, compactions, reopenings, crashes. */
  lemma {:induction false} NothingIsLost(ops: seq<Op>, answers: seq<Answer>, states: seq<St>, capacity: nat, i: nat, j: nat, offset: nat)
    requires IsRun(ops, answers, states) && states[0] == Begin(capacity) && i <= j <= |answers| && states[j].phase.Live?
    requires offset < |states[i].all|
    requires forall k :: 0 <= k < j && ops[k].TrimFront? ==> ops[k].offset <= offset
    requires forall k :: i <= k < j && ops[k].Crash? ==> offset < |states[k + 1].all|
    ensures states[j].start <= offset < |states[j].all| && states[j].all[offset] == states[i].all[offset]
    ensures states[j].all[offset].offset == offset
    decreases j
  {
    hide StepOf;
    RunInOrder(ops, answers, states, capacity, j);
    if j == 0 {
      BeginInOrder(capacity);
    } else {
      StepAt(ops, answers, states, j - 1);
      RunInOrder(ops, answers, states, capacity, j - 1);
      StepInOrder(states[j - 1], ops[j - 1], answers[j - 1], states[j]);
      if i < j {
        NothingIsLost(ops, answers, states, capacity, i, j - 1, offset);
      } else {
        StartsBefore(ops, answers, states, capacity, j, offset);
      }
    }
  }

  /** Nothing but a trim moves the start forwards. */
  lemma {:induction false} StartsBefore(ops: seq<Op>, answers: seq<Answer>, states: seq<St>, capacity: nat, j: nat, offset: nat)
    requires IsRun(ops, answers, states) && states[0] == Begin(capacity) && j <= |answers| && states[j].phase.Live?
    requires forall k :: 0 <= k < j && ops[k].TrimFront? ==> ops[k].offset <= offset
    ensures states[j].start <= offset
  {
    hide StepOf;
    if j == 0 {
      BeginInOrder(capacity);
    } else {
      StepAt(ops, answers, states, j - 1);
      RunInOrder(ops, answers, states, capacity, j - 1);
      StepInOrder(states[j - 1], ops[j - 1], answers[j - 1], states[j]);
      StartsBefore(ops, answers, states, capacity, j - 1, offset);
    }
  }

  /** What was trimmed when the metadata was last written never comes back. */
  lemma {:induction false} TrimmedStaysTrimmed(ops: seq<Op>, answers: seq<Answer>, states: seq<St>, capacity: nat, i: nat, j: nat)
    requires IsRun(ops, answers, states) && states[0] == Begin(capacity) && i <= j <= |answers| && states[j].phase.Live?
    ensures states[i].mark <= states[j].mark <= states[j].start
    decreases j
  {
    hide StepOf;
    RunInOrder(ops, answers, states, capacity, j);
    if i < j {
      StepAt(ops, answers, states, j - 1);
      TrimmedStaysTrimmed(ops, answers, states, capacity, i, j - 1);
      RunInOrder(ops, answers, states, capacity, j - 1);
      StepInOrder(states[j - 1], ops[j - 1], answers[j - 1], states[j]);
    }
  }

  // ---- where a crash leaves a gap ----

  /** A message appended to a log whose files end at `base + |entries|` will be listed when the log is opened again, with
      the offset it was given, if and only if the trim in the metadata is not beyond the end of the files. */
  lemma AppendedIsListed(entries: seq<Entry>, m: Meta, data: bytes, threshold: nat, blobOffset: nat, base: nat, trim: nat)
    ensures var end := base + |entries|;
            var next := if trim > end then trim else end;
            (Listed(entries + [Stored(m, data, threshold, blobOffset)], base, trim) ==
             Listed(entries, base, trim) + [Msg(next, m, data)]) <==> trim <= end
    ensures trim > base + |entries| ==> Listed(entries + [Stored(m, data, threshold, blobOffset)], base, trim) == []
  {
    hide Listed, MsgOf, Stored;
    if trim <= base + |entries| {
      AppendRecorded(entries, m, data, threshold, blobOffset, base, trim);
    } else {
      ListedNothing(entries + [Stored(m, data, threshold, blobOffset)], base, trim);
    }
  }

  /** An input that leaves a gap: a message was appended and trimmed, the metadata was written, which does not sync the
      segments, and the crash left nothing of the segment.  The log opens, but numbers what comes next from 1 in files
      that end at 0. */
  lemma GapExample(fs: Fs, m: LogMeta.Meta, capacity: nat)
    requires LogMeta.InForce(fs.meta, Some(m)) && m.generation == m.diskBase == 0 && m.trim == m.next == 1
    requires 0 in fs.gens && fs.gens[0] == Gen([[]], [])
    ensures KeptFrames(BlobOf(fs), []) && OpenCode(fs, [], capacity) == 0
    ensures forall log: L.Log :: Opened(log, fs.gens[0], Some(m), fs.meta) ==>
      log.Contents() == [] && log.nextOffset == 1 && log.diskBase + |Flatten(log.parts)| == 0
  {
    hide LogMeta.Load, LogMeta.InForce, L.Limit, Holds, Scan, Listed, View, L.SlotIs;
    LogMeta.LoadInForce(fs.meta, Some(m));
    Blob.ImageEmpty();
    ScanStep([], []);
    assert fs.gens[0].files[1..] == [];
    NothingRecovered([]);
    assert RecoveredFrom(fs.gens[0], []).parts == [[]];
    FlattenOne([]);
    ListedNothing([], 0, 1);
  }
}
