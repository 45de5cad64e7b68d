/** What reopening a log gives, whatever was done to it before. */
module LogReopen {
  import opened Bytes
  import opened Optional
  import opened Segment
  import opened LogDisk
  import opened LogView
  import opened LogRecovery
  import opened LogCrash
  import opened LogCompact
  import opened LogOpen
  import Blob
  import L = Log
  import LogMeta

  /** The metadata file of a log is in the directory. */
  ghost predicate Same(log: L.Log, fs: Fs)
    reads log`metaFile, log`generation
  {
    fs.meta == log.metaFile && log.generation in fs.gens
  }

  /** Closing a log and opening it again gives back every message that was not trimmed, with its offset, fields and
      payload, and nothing else; after a snapshot those are the messages retained. */
  lemma ClosedLogReopens(log: L.Log, fs: Fs)
    requires log.Valid() && log.Clean() && Persistent(log.mode)
    requires Same(log, fs) && fs.gens[log.generation] == GenOf(log.disk)
    ensures Reopens(fs, Recorded(log)) && forall msgs :: Reopens(fs, msgs) ==> msgs == Recorded(log)
    ensures Trim(log.meta) == log.nextOffset - log.count ==> Recorded(log) == log.Contents()
  {
    hide Listed, Flatten, Written, View, LogMeta.InForce, Reopens, L.SlotIs, Holds;
    assert Points(fs, log.meta, log.disk, log.parts, log.blobs);
    ReopeningIsExact(fs, log.meta, log.disk, log.parts, log.blobs);
    Lengths(log.disk, true, log.slots, log.msgs, log.nextOffset);
  }

  /** When a crash cut the last segment and the blob file anywhere, the log opens again, and what it gives are its
      messages up to the first whose record or payload is not within the cuts. */
  lemma CutLogReopens(log: L.Log, fs: Fs, cut: nat, blobCut: nat) returns (i: nat, j: nat)
    requires log.Valid() && log.Clean() && Persistent(log.mode) && Same(log, fs) && blobCut <= |log.disk.blob|
    requires fs.gens[log.generation] == Gen(Files(log.disk.segs, cut), log.disk.blob[..blobCut])
    ensures EachOk(log.parts) && LongestWithin(log.parts, i, j, cut, blobCut) && i < |log.parts| && j <= |log.parts[i]|
    ensures Survivors(log, i, j) <= Recorded(log)
    ensures Reopens(fs, Survivors(log, i, j)) && forall msgs :: Reopens(fs, msgs) ==> msgs == Survivors(log, i, j)
  {
    hide *;
    var msgs := CutOpens(log, fs, cut, blobCut);
    i, j := CutReopens(log, fs, cut, blobCut, msgs);
    forall msgs' | Reopens(fs, msgs')
      ensures msgs' == Survivors(log, i, j)
    {
      var i', j' := CutReopens(log, fs, cut, blobCut, msgs');
      OneLongest(log.parts, cut, blobCut, i, j, i', j');
    }
  }

  /** Nothing that a crash can cut off keeps the log from being opened. */
  lemma CutOpens(log: L.Log, fs: Fs, cut: nat, blobCut: nat) returns (msgs: seq<Msg>)
    requires log.Valid() && log.Clean() && Persistent(log.mode) && Same(log, fs) && blobCut <= |log.disk.blob|
    requires fs.gens[log.generation] == Gen(Files(log.disk.segs, cut), log.disk.blob[..blobCut])
    ensures Reopens(fs, msgs)
  {
    hide Listed, Flatten, View, LogMeta.InForce, L.SlotIs, Holds, RecoverAll, Blob.Image, Blob.WholeAt, Blob.AllFit, Files,
      LogMeta.Load, EachOk, Bounded, Aligned, LongestWithin;
    LogMeta.LoadInForce(log.metaFile, log.meta);
    var kept := SomeKept(log.disk.blob[..blobCut]);
    assert KeptOfCut(log.blobs, blobCut, kept);
    var i, j := RecoveryAfterCrash(log.disk, log.parts, log.blobs, cut, blobCut, kept);
    WrittenIsFull(log.disk, log.parts, log.blobs);
    var r := RecoverAll(Files(log.disk.segs, cut), Blob.Image(kept));
    msgs := Listed(Flatten(r.parts), Base(log.meta), Trim(log.meta));
    assert ReopensWith(fs, kept, msgs);
  }

  /** The messages up to entry `j` of part `i`. */
  ghost function Survivors(log: L.Log, i: nat, j: nat): seq<Msg>
    requires i < |log.parts| && j <= |log.parts[i]|
    reads log`parts, log`meta
  {
    Listed(Flatten(log.parts[..i] + [log.parts[i][..j]]), Base(log.meta), Trim(log.meta))
  }

  lemma CutReopens(log: L.Log, fs: Fs, cut: nat, blobCut: nat, msgs: seq<Msg>) returns (i: nat, j: nat)
    requires log.Valid() && log.Clean() && Persistent(log.mode) && Same(log, fs) && blobCut <= |log.disk.blob|
    requires fs.gens[log.generation] == Gen(Files(log.disk.segs, cut), log.disk.blob[..blobCut])
    requires Reopens(fs, msgs)
    ensures EachOk(log.parts) && LongestWithin(log.parts, i, j, cut, blobCut) && i < |log.parts| && j <= |log.parts[i]|
    ensures msgs <= Recorded(log) && msgs == Survivors(log, i, j)
  {
    hide Listed, Flatten, View, LogMeta.InForce, L.SlotIs, Holds, RecoverAll, Blob.Image, Blob.WholeAt, Blob.AllFit, Files,
      LogMeta.Load, EachOk, Bounded, Aligned;
    LogMeta.LoadInForce(log.metaFile, log.meta);
    var kept :| ReopensWith(fs, kept, msgs);
    assert KeptOfCut(log.blobs, blobCut, kept);
    i, j := RecoveryAfterCrash(log.disk, log.parts, log.blobs, cut, blobCut, kept);
    ListedPrefix(Flatten(log.parts[..i] + [log.parts[i][..j]]), Flatten(log.parts), Base(log.meta), Trim(log.meta));
  }

  // ---- opening what a log left ----

  /** The files of a log, its last segment and its blob file cut anywhere, or not at all. */
  ghost predicate Left(gen: Gen, d: Disk, parts: seq<seq<Entry>>, blobs: seq<bytes>, cut: nat, blobCut: nat) {
    Written(d, parts, blobs) && blobCut <= |d.blob| && gen == Gen(Files(d.segs, cut), d.blob[..blobCut])
  }

  /** Files that a log left, or none. */
  ghost predicate LeftByLog(gen: Gen) {
    gen.files == [] || exists d, parts, blobs, cut, blobCut :: Left(gen, d, parts, blobs, cut, blobCut)
  }

  /** Recovery of what a log left: everything up to the first entry that is not within the cuts, in clean files. */
  lemma RecoveredOfLeft(gen: Gen, d: Disk, parts: seq<seq<Entry>>, blobs: seq<bytes>, cut: nat, blobCut: nat, kept: seq<bytes>)
    returns (i: nat, j: nat)
    requires Left(gen, d, parts, blobs, cut, blobCut) && KeptFrames(gen.blob, kept)
    ensures EachOk(parts) && LongestWithin(parts, i, j, cut, blobCut) && i < |parts| && j <= |parts[i]|
    ensures var r := RecoveredFrom(gen, kept);
            gen.files != [] && !r.foreign && r.parts == parts[..i] + [parts[i][..j]] && Flatten(r.parts) <= Flatten(parts) &&
            Written(Disk(r.segs, Blob.Image(kept)), r.parts, kept)
  {
    hide Blob.Image, Blob.WholeAt, Blob.AllFit, RecoverAll, Files, Holds, Aligned, Bounded, Flatten, EachOk, WithinCuts;
    assert KeptOfCut(blobs, blobCut, kept);
    i, j := RecoveryAfterCrash(d, parts, blobs, cut, blobCut, kept);
    WrittenIsFull(d, parts, blobs);
  }

  /** What is recovered is a prefix, and everything if nothing was cut off. */
  lemma RecoveredPrefix(gen: Gen, d: Disk, parts: seq<seq<Entry>>, blobs: seq<bytes>, cut: nat, blobCut: nat, kept: seq<bytes>)
    returns (i: nat, j: nat)
    requires Left(gen, d, parts, blobs, cut, blobCut) && KeptFrames(gen.blob, kept)
    ensures EachOk(parts) && LongestWithin(parts, i, j, cut, blobCut) && i < |parts|
    ensures var r := RecoveredFrom(gen, kept); gen.files != [] && !r.foreign && Flatten(r.parts) <= Flatten(parts)
    ensures |Flatten(RecoveredFrom(gen, kept).parts)| == |Flatten(parts[..i])| + j
    ensures d.segs != [] && (|d.segs[|d.segs| - 1].file| <= cut && blobCut == |d.blob| ==> RecoveredFrom(gen, kept).parts == parts)
  {
    hide KeptFrames, RecoveredFrom, Holds, Aligned, Bounded, Flatten, Files, EachOk, WithinCuts, Blob.Image, Blob.AllFit;
    i, j := RecoveredOfLeft(gen, d, parts, blobs, cut, blobCut, kept);
    FlattenAppend(parts[..i], [parts[i][..j]]);
    FlattenOne(parts[i][..j]);
    assert |d.segs| == |parts| by { WrittenIsFull(d, parts, blobs); }
    if |d.segs[|d.segs| - 1].file| <= cut && blobCut == |d.blob| {
      if j < |parts[i]| {
        EverythingWithin(d, parts, blobs, i, j, cut);
        assert false;
      }
      assert parts[i][..j] == parts[i] && parts[..i] + [parts[i]] == parts;
    }
  }

  /** A log that is opened from such files has nothing but records and frames in its files again. */
  lemma OpenedIsClean(log: L.Log, gen: Gen, cur: Option<LogMeta.Meta>, meta: bytes)
    requires Opened(log, gen, cur, meta) && LeftByLog(gen)
    ensures log.Clean()
  {
    hide KeptFrames, Holds, Listed, LogMeta.InForce, Blob.Image, LeftByLog, Left, Written, RecoveredFrom;
    if gen.files == [] {
      NothingIsClean(gen, log.blobs);
    } else {
      var d, parts, blobs, cut, blobCut := LeftBy(gen);
      var i, j := RecoveredOfLeft(gen, d, parts, blobs, cut, blobCut, log.blobs);
    }
  }

  lemma LeftBy(gen: Gen) returns (d: Disk, parts: seq<seq<Entry>>, blobs: seq<bytes>, cut: nat, blobCut: nat)
    requires gen.files != [] && LeftByLog(gen)
    ensures Left(gen, d, parts, blobs, cut, blobCut)
  {
    hide Left;
    d, parts, blobs, cut, blobCut :| Left(gen, d, parts, blobs, cut, blobCut);
  }

  lemma NothingIsClean(gen: Gen, kept: seq<bytes>)
    requires gen.files == [] && KeptFrames(gen.blob, kept)
    ensures var r := RecoveredFrom(gen, kept); Written(Disk(r.segs, Blob.Image(kept)), r.parts, kept)
  {
    hide Blob.Image, Blob.WholeAt;
    EmptySegment(Blob.Image(kept));
  }

  /** An empty directory is opened, and as an empty log. */
  lemma EmptyDirectoryOpens(kept: seq<bytes>, capacity: nat)
    requires KeptFrames(BlobOf(Fs(map[], [])), kept)
    ensures LogMeta.Load([]) == Some(None) && OpenCode(Fs(map[], []), kept, capacity) == 0
  {
    hide Blob.WholeAt, LogMeta.Load, LogMeta.InForce, L.Limit;
    NothingInForce();
    LogMeta.LoadInForce([], None);
    FlattenOne([]);
  }

  lemma EmptyDirectoryIsEmpty(log: L.Log)
    requires Opened(log, GenIn(Fs(map[], []), 0), None, [])
    ensures log.Valid() && log.Clean() && log.Contents() == [] && log.nextOffset == 0 && Recorded(log) == [] && log.disk.blob == []
  {
    hide Blob.WholeAt, LogMeta.InForce, Holds, L.SlotIs, View, Written;
    NothingInForce();
    FlattenOne([]);
    OpenedIsClean(log, GenIn(Fs(map[], []), 0), None, []);
  }

  lemma NothingInForce()
    ensures LogMeta.InForce([], None)
  {
  }

  /** What a log left is opened, unless it is more than a buffer can hold. */
  lemma LeftOpens(log: L.Log, fs: Fs, cut: nat, blobCut: nat, kept: seq<bytes>, capacity: nat) returns (i: nat, j: nat)
    requires log.Valid() && log.Clean() && Persistent(log.mode) && Same(log, fs) && blobCut <= |log.disk.blob|
    requires fs.gens[log.generation] == Gen(Files(log.disk.segs, cut), log.disk.blob[..blobCut])
    requires KeptFrames(BlobOf(fs), kept)
    ensures EachOk(log.parts) && LongestWithin(log.parts, i, j, cut, blobCut) && i < |log.parts| && j <= |log.parts[i]|
    ensures LogMeta.Load(fs.meta) == Some(log.meta) && Generation(log.meta) == log.generation
    ensures OpenCode(fs, kept, capacity) == if |Survivors(log, i, j)| > L.Limit(EntriesFor(capacity)) then -2 else 0
  {
    hide Listed, Flatten, View, LogMeta.InForce, L.SlotIs, Holds, RecoveredFrom, Blob.Image, Files, L.Limit, KeptFrames, Written,
      LogMeta.Load, EachOk, LongestWithin;
    LogMeta.LoadInForce(log.metaFile, log.meta);
    i, j := RecoveredOfLeft(fs.gens[log.generation], log.disk, log.parts, log.blobs, cut, blobCut, kept);
  }

  /** The cuts determine how far the survivors go. */
  lemma OneLongest(parts: seq<seq<Entry>>, cut: nat, blobCut: nat, i: nat, j: nat, i': nat, j': nat)
    requires EachOk(parts) && LongestWithin(parts, i, j, cut, blobCut) && LongestWithin(parts, i', j', cut, blobCut)
    ensures i == i' && j == j'
  {
    hide WithinCuts, EachOk;
  }
}
