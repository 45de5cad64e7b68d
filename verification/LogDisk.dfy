/** The files of a durable log: rotating segments and the blob file.  Appending, reading back, recovering. */
module LogDisk {
  import opened Bytes
  import opened Optional
  import opened Record
  import opened Segment
  import Blob
  import Crc

  const SEGMENT_BYTES: nat := 4 * 1024 * 1024

  /** A segment file, and how much of it holds records. */
  datatype Seg = Seg(file: bytes, used: nat)

  datatype Disk = Disk(segs: seq<Seg>, blob: bytes)

  /** The segments hold these entries, and every payload kept in the blob file is there. */
  predicate Holds(d: Disk, parts: seq<seq<Entry>>) {
    |d.segs| == |parts| && forall i :: 0 <= i < |parts| ==> SegHolds(d.segs[i], parts[i], d.blob)
  }

  predicate SegHolds(s: Seg, entries: seq<Entry>, blob: bytes) {
    AllOk(entries) && AllInBlob(entries, blob) && s.used <= |s.file| && s.file[..s.used] == Segment.Image(entries)
  }

  /** The log of all segments, oldest entry first. */
  function Flatten(parts: seq<seq<Entry>>): seq<Entry> {
    if parts == [] then [] else parts[0] + Flatten(parts[1..])
  }

  /** The blob file consists of whole frames, and the payloads kept there are frames of it. */
  predicate Aligned(e: Entry, blobs: seq<bytes>) {
    HasBlob(e.h.flags) ==> exists j :: 0 <= j < |blobs| && FrameAt(e, blobs, j)
  }

  predicate FrameAt(e: Entry, blobs: seq<bytes>, j: nat) {
    j < |blobs| && blobs[j] == e.payload && e.h.blobOffset == |Blob.Image(blobs[..j])|
  }

  /** Only a record that is larger than a segment makes its segment larger. */
  predicate Bounded(s: Seg, entries: seq<Entry>) {
    |entries| > 1 ==> s.used <= SEGMENT_BYTES
  }

  /** What appending leaves: nothing but records in the segments, nothing but frames in the blob file. */
  predicate Written(d: Disk, parts: seq<seq<Entry>>, blobs: seq<bytes>) {
    Holds(d, parts) && parts != [] && d.blob == Blob.Image(blobs) && Blob.AllFit(blobs) &&
    (forall i :: 0 <= i < |parts| ==> d.segs[i].used == |d.segs[i].file| && Bounded(d.segs[i], parts[i])) &&
    forall i, e :: 0 <= i < |parts| && e in parts[i] ==> Aligned(e, blobs)
  }

  // ---- where a payload is ----

  datatype Loc = Loc(flags: nat, segId: nat, pos: nat, blobOffset: nat, len: nat)

  /** The payload can be read at this place. */
  predicate Readable(d: Disk, loc: Loc, payload: bytes) {
    loc.len == |payload| < U32 && loc.segId < |d.segs| &&
    if HasBlob(loc.flags) then Blob.WholeAt(d.blob, loc.blobOffset, payload)
    else
      var s := d.segs[loc.segId];
      loc.pos + HDR + loc.len <= s.used <= |s.file| && s.file[loc.pos + HDR..loc.pos + HDR + loc.len] == payload
  }

  /** `d'` has everything that `d` has. */
  predicate Extends(d: Disk, d': Disk) {
    |d.segs| <= |d'.segs| && d.blob <= d'.blob && forall i :: 0 <= i < |d.segs| ==> SegExtends(d.segs[i], d'.segs[i])
  }

  predicate SegExtends(s: Seg, s': Seg) {
    s.used <= s'.used <= |s'.file| && s.used <= |s.file| && s.file[..s.used] == s'.file[..s.used]
  }

  /** Growing the log never moves or changes a payload. */
  lemma StaysReadable(d: Disk, d': Disk, loc: Loc, payload: bytes)
    requires Extends(d, d') && Readable(d, loc, payload)
    ensures Readable(d', loc, payload)
  {
    hide Blob.WholeAt, HasBlob;
    if HasBlob(loc.flags) {
      Blob.WholePrefix(d.blob, d'.blob, loc.blobOffset, payload);
    } else {
      var s, s' := d.segs[loc.segId], d'.segs[loc.segId];
      assert SegExtends(s, s');
      var at := loc.pos + HDR;
      assert s.file[at..at + loc.len] == s.file[..s.used][at..at + loc.len];
      assert s'.file[at..at + loc.len] == s'.file[..s.used][at..at + loc.len];
    }
  }

  /** Reads a payload back from wherever it was put. */
  method ReadPayload(d: Disk, loc: Loc, table: seq<Crc.word>) returns (r: Option<bytes>)
    requires Crc.IsTable(Crc.CRC32, table)
    ensures forall payload :: Readable(d, loc, payload) ==> r == Some(payload)
  {
    hide Crc.IsTable, Blob.WholeAt, Blob.ReadAt, HasBlob;
    if loc.len == 0 {
      r := Some([]);
    } else if loc.segId >= |d.segs| {
      r := None;
    } else if HasBlob(loc.flags) {
      r := Blob.Read(d.blob, loc.blobOffset, loc.len, table);
      forall payload | Readable(d, loc, payload)
        ensures r == Some(payload)
      {
        Blob.ReadIsWhole(d.blob, loc.blobOffset, payload);
      }
    } else {
      var file, at := d.segs[loc.segId].file, loc.pos + HDR;
      r := if at + loc.len > |file| then None else Some(file[at..at + loc.len]);
    }
  }

  // ---- appending ----

  datatype Meta = Meta(queueId: nat, msgId: nat, priority: nat, timestamp: nat, deliverAt: nat, ttl: nat)

  predicate MetaFits(m: Meta) {
    m.queueId < U32 && m.msgId < U64 && m.priority < U32 && m.timestamp < U64 && m.deliverAt < U64 && m.ttl < U64
  }

  /** The entry that is stored for a message. */
  function Stored(m: Meta, payload: bytes, threshold: nat, blobOffset: nat): Entry {
    var inlined := |payload| <= threshold;
    Entry(Header(if inlined then INLINE else BLOB, m.queueId, m.msgId, m.timestamp, m.deliverAt, m.ttl, m.priority,
                 |payload|, if inlined then 0 else blobOffset), payload)
  }

  lemma StoredOk(m: Meta, payload: bytes, threshold: nat, blobOffset: nat)
    requires MetaFits(m) && |payload| < U32 && blobOffset < U64
    ensures EntryOk(Stored(m, payload, threshold, blobOffset))
    ensures HasBlob(Stored(m, payload, threshold, blobOffset).h.flags) == (|payload| > threshold)
  {
  }

  /** The parts after an entry was added to the last segment, or to a new one. */
  function AddTo(parts: seq<seq<Entry>>, e: Entry, rotated: bool): seq<seq<Entry>>
    requires parts != []
  {
    if rotated then parts + [[e]] else parts[..|parts| - 1] + [parts[|parts| - 1] + [e]]
  }

  predicate Rotates(d: Disk, size: nat)
    requires d.segs != []
  {
    var used := d.segs[|d.segs| - 1].used;
    used != 0 && (size > SEGMENT_BYTES || used > SEGMENT_BYTES - size)
  }

  /** Puts a message at the end of the log: a payload beyond the threshold goes to the blob file first, then the record goes
      to the last segment, or to a new one when that one is full. */
  method Persist(d: Disk, m: Meta, payload: bytes, threshold: nat, ghost parts: seq<seq<Entry>>, ghost blobs: seq<bytes>)
    returns (d': Disk, loc: Loc, ghost parts': seq<seq<Entry>>, ghost blobs': seq<bytes>)
    requires Holds(d, parts) && parts != [] && MetaFits(m) && |payload| < U32 && |d.blob| < U64
    requires d.blob == Blob.Image(blobs) && Blob.AllFit(blobs)
    ensures Holds(d', parts') && parts' != [] && Extends(d, d') && Readable(d', loc, payload)
    ensures Flatten(parts') == Flatten(parts) + [Stored(m, payload, threshold, |d.blob|)]
    ensures d'.blob == Blob.Image(blobs') && Blob.AllFit(blobs')
    ensures loc.flags == Stored(m, payload, threshold, |d.blob|).h.flags
    ensures d'.blob == if |payload| <= threshold then d.blob else d.blob + Blob.Frame(payload)
    ensures Written(d, parts, blobs) ==> Written(d', parts', blobs')
  {
    hide Blob.Image, Blob.Frame, Blob.WholeAt, Written, EntryBytes, HasBlob, HasInline, HeaderFits, FlagsOk, Segment.Image,
      Flatten, Extends, Readable, Rotates, Grown, AddTo;
    ghost var e := Stored(m, payload, threshold, |d.blob|);
    StoredOk(m, payload, threshold, |d.blob|);
    var blob, blobOffset := d.blob, 0;
    blobs' := blobs;
    if |payload| > threshold {
      blob, blobOffset := Blob.Append(d.blob, payload, blobs);
      blobs' := blobs + [payload];
    }
    var h := Header(if |payload| <= threshold then INLINE else BLOB, m.queueId, m.msgId, m.timestamp, m.deliverAt, m.ttl,
                    m.priority, |payload|, blobOffset);
    assert h == e.h;
    var record := EntryBytes(Entry(h, payload));
    var segs := RotateIfNeeded(d, |record|);
    assert segs == if Rotates(d, |record|) then d.segs + [Seg([], 0)] else d.segs;
    var last := |segs| - 1;
    var s := segs[last];
    assert SegHolds(d.segs[|parts| - 1], parts[|parts| - 1], d.blob);
    loc := Loc(h.flags, last, s.used, blobOffset, |payload|);
    d' := Disk(segs[last := Seg(WriteAt(s.file, s.used, record), s.used + |record|)], blob);
    parts' := AddTo(parts, e, Rotates(d, |record|));
    WriteGrows(d, segs, blob, record);
    if |payload| <= threshold { assert blobs' == blobs; }
    PersistHolds(d, parts, blob, e);
    PersistReads(d, blob, e, loc);
    PersistExtends(d, parts, blob, record);
    FlattenAdd(parts, e, Rotates(d, |record|));
    if Written(d, parts, blobs) {
      PersistWritten(d, parts, blobs, blobs', blob, e);
    }
  }

  /** Starts a new segment when the last one is full.  Whatever was written stays where it is; the record fits into the
      segment that it goes to, or has it to itself; and no segment is started that is not needed for that. */
  method RotateIfNeeded(d: Disk, size: nat) returns (segs: seq<Seg>)
    requires d.segs != []
    ensures d.segs <= segs && segs != []
    ensures var s := segs[|segs| - 1]; s.used + size <= SEGMENT_BYTES || s.used == 0
    ensures |segs| == |d.segs| || (|segs| == |d.segs| + 1 && segs[|d.segs|] == Seg([], 0))
    ensures |segs| > |d.segs| <==> Rotates(d, size)
    ensures |segs| > |d.segs| ==> 0 < d.segs[|d.segs| - 1].used && d.segs[|d.segs| - 1].used + size > SEGMENT_BYTES
  {
    segs := d.segs;
    var used := segs[|segs| - 1].used;
    if used != 0 && (size > SEGMENT_BYTES || used > SEGMENT_BYTES - size) {
      segs := segs + [Seg([], 0)];
    }
  }

  lemma WriteGrows(d: Disk, segs: seq<Seg>, blob: bytes, record: bytes)
    requires d.segs != [] && d.segs[|d.segs| - 1].used <= |d.segs[|d.segs| - 1].file|
    requires segs == if Rotates(d, |record|) then d.segs + [Seg([], 0)] else d.segs
    ensures var last := |segs| - 1;
            Disk(segs[last := Seg(WriteAt(segs[last].file, segs[last].used, record), segs[last].used + |record|)], blob) ==
            Grown(d, blob, record)
  {
    if Rotates(d, |record|) {
      assert WriteAt([], 0, record) == record;
      assert segs[|segs| - 1 := Seg(record, |record|)] == d.segs + [Seg(record, |record|)];
    }
  }

  /** The disk after a record was written. */
  function Grown(d: Disk, blob: bytes, record: bytes): Disk
    requires d.segs != [] && d.segs[|d.segs| - 1].used <= |d.segs[|d.segs| - 1].file|
  {
    var last := |d.segs| - 1;
    if Rotates(d, |record|) then Disk(d.segs + [Seg(record, |record|)], blob)
    else
      var s := d.segs[last];
      Disk(d.segs[last := Seg(WriteAt(s.file, s.used, record), s.used + |record|)], blob)
  }

  function WriteAt(file: bytes, at: nat, data: bytes): (r: bytes)
    requires at <= |file|
    ensures |r| >= at + |data| && r[..at] == file[..at] && r[..at + |data|] == file[..at] + data
    ensures at == |file| ==> |r| == at + |data|
  {
    file[..at] + data + (if at + |data| <= |file| then file[at + |data|..] else [])
  }

  lemma {:induction false} ImageAppend(entries: seq<Entry>, e: Entry)
    requires AllOk(entries) && EntryOk(e)
    ensures Segment.Image(entries + [e]) == Segment.Image(entries) + EntryBytes(e)
  {
    hide EntryBytes, EntryOk;
    if entries == [] {
      assert [e][1..] == [] && entries + [e] == [e];
      assert Segment.Image([e]) == EntryBytes(e) + [];
    } else {
      assert (entries + [e])[1..] == entries[1..] + [e];
      ImageAppend(entries[1..], e);
      Associate(EntryBytes(entries[0]), Segment.Image(entries[1..]), EntryBytes(e));
    }
  }

  lemma SegKept(s: Seg, entries: seq<Entry>, blob: bytes, blob': bytes)
    requires SegHolds(s, entries, blob) && blob <= blob'
    ensures SegHolds(s, entries, blob')
  {
    hide Blob.WholeAt, Segment.Image, HasBlob, EntryOk;
    forall e | e in entries
      ensures InBlob(e, blob')
    {
      assert InBlob(e, blob);
      if HasBlob(e.h.flags) { Blob.WholePrefix(blob, blob', e.h.blobOffset, e.payload); }
    }
  }

  lemma SegAppended(s: Seg, entries: seq<Entry>, blob: bytes, e: Entry)
    requires SegHolds(s, entries, blob) && EntryOk(e) && InBlob(e, blob)
    ensures SegHolds(Seg(WriteAt(s.file, s.used, EntryBytes(e)), s.used + |EntryBytes(e)|), entries + [e], blob)
  {
    hide InBlob, Segment.Image, EntryOk, EntryBytes;
    ImageAppend(entries, e);
  }

  lemma SegAlone(e: Entry, blob: bytes)
    requires EntryOk(e) && InBlob(e, blob)
    ensures SegHolds(Seg(EntryBytes(e), |EntryBytes(e)|), [e], blob)
  {
    hide InBlob, EntryOk, EntryBytes;
    SegAppended(Seg([], 0), [], blob, e);
    assert [] + [e] == [e];
    assert WriteAt([], 0, EntryBytes(e)) == EntryBytes(e);
  }

  lemma PersistHolds(d: Disk, parts: seq<seq<Entry>>, blob: bytes, e: Entry)
    requires Holds(d, parts) && parts != [] && d.blob <= blob && EntryOk(e) && InBlob(e, blob)
    requires SegHolds(d.segs[|d.segs| - 1], parts[|parts| - 1], d.blob)
    ensures Holds(Grown(d, blob, EntryBytes(e)), AddTo(parts, e, Rotates(d, |EntryBytes(e)|)))
  {
    hide InBlob, EntryOk, EntryBytes, SegHolds;
    forall i | 0 <= i < |parts|
      ensures SegHolds(d.segs[i], parts[i], blob)
    {
      SegKept(d.segs[i], parts[i], d.blob, blob);
    }
    if Rotates(d, |EntryBytes(e)|) {
      SegAlone(e, blob);
    } else {
      SegAppended(d.segs[|parts| - 1], parts[|parts| - 1], blob, e);
    }
  }

  lemma PersistReads(d: Disk, blob: bytes, e: Entry, loc: Loc)
    requires d.segs != [] && d.segs[|d.segs| - 1].used <= |d.segs[|d.segs| - 1].file| && EntryOk(e) && InBlob(e, blob)
    requires var last := if Rotates(d, |EntryBytes(e)|) then |d.segs| else |d.segs| - 1;
             loc == Loc(e.h.flags, last, if last == |d.segs| then 0 else d.segs[last].used, e.h.blobOffset, |e.payload|)
    ensures Readable(Grown(d, blob, EntryBytes(e)), loc, e.payload)
  {
    hide Blob.WholeAt, HeaderBytes, ComputeCrc, HasInline, HasBlob;
    RangeOfLength(e);
    if !HasBlob(e.h.flags) {
      FlagsSplit(e.h.flags);
      var record, s := EntryBytes(e), Grown(d, blob, EntryBytes(e)).segs[loc.segId];
      assert record[HDR..HDR + loc.len] == e.payload;
      assert s.file[loc.pos..loc.pos + |record|] == record;
      SliceOfSlice(s.file, loc.pos, |record|, HDR, loc.len);
    }
  }

  lemma PersistExtends(d: Disk, parts: seq<seq<Entry>>, blob: bytes, record: bytes)
    requires Holds(d, parts) && parts != [] && d.blob <= blob
    requires d.segs[|d.segs| - 1].used <= |d.segs[|d.segs| - 1].file|
    ensures Extends(d, Grown(d, blob, record))
  {
    hide AllOk, AllInBlob, Segment.Image;
    assert forall i :: 0 <= i < |d.segs| ==> SegHolds(d.segs[i], parts[i], d.blob);
  }

  lemma {:induction false} FlattenAppend(a: seq<seq<Entry>>, b: seq<seq<Entry>>)
    ensures Flatten(a + b) == Flatten(a) + Flatten(b)
  {
    if a == [] {
      assert a + b == b;
    } else {
      assert (a + b)[1..] == a[1..] + b;
      FlattenAppend(a[1..], b);
      Associate(a[0], Flatten(a[1..]), Flatten(b));
    }
  }

  lemma FlattenOne(part: seq<Entry>)
    ensures Flatten([part]) == part
  {
    assert [part][1..] == [] && part + [] == part;
  }

  lemma FlattenAdd(parts: seq<seq<Entry>>, e: Entry, rotated: bool)
    requires parts != []
    ensures Flatten(AddTo(parts, e, rotated)) == Flatten(parts) + [e]
  {
    hide Flatten;
    var n := |parts| - 1;
    if rotated {
      FlattenAppend(parts, [[e]]);
      FlattenOne([e]);
    } else {
      FlattenAppend(parts[..n], [parts[n] + [e]]);
      FlattenAppend(parts[..n], [parts[n]]);
      FlattenOne(parts[n] + [e]);
      FlattenOne(parts[n]);
      assert parts[..n] + [parts[n]] == parts;
      Associate(Flatten(parts[..n]), parts[n], [e]);
    }
  }

  lemma AlignedStays(e: Entry, blobs: seq<bytes>, payload: bytes)
    requires Aligned(e, blobs)
    ensures Aligned(e, blobs + [payload])
  {
    hide HasBlob, Blob.Image;
    if HasBlob(e.h.flags) {
      var j :| 0 <= j < |blobs| && FrameAt(e, blobs, j);
      assert (blobs + [payload])[..j] == blobs[..j];
      assert FrameAt(e, blobs + [payload], j);
    }
  }

  lemma PersistWritten(d: Disk, parts: seq<seq<Entry>>, blobs: seq<bytes>, blobs': seq<bytes>, blob: bytes, e: Entry)
    requires Written(d, parts, blobs) && d.blob <= blob && blob == Blob.Image(blobs') && Blob.AllFit(blobs')
    requires EntryOk(e) && InBlob(e, blob)
    requires if HasBlob(e.h.flags) then blobs' == blobs + [e.payload] && e.h.blobOffset == |d.blob| else blobs' == blobs
    requires d.segs[|d.segs| - 1].used <= |d.segs[|d.segs| - 1].file|
    ensures Written(Grown(d, blob, EntryBytes(e)), AddTo(parts, e, Rotates(d, |EntryBytes(e)|)), blobs')
  {
    hide InBlob, EntryOk, EntryBytes, SegHolds, Blob.Image, HasBlob, Aligned, Blob.AllFit;
    var n := |parts| - 1;
    assert SegHolds(d.segs[n], parts[n], d.blob);
    PersistHolds(d, parts, blob, e);
    var d', parts' := Grown(d, blob, EntryBytes(e)), AddTo(parts, e, Rotates(d, |EntryBytes(e)|));
    forall i, x | 0 <= i < |parts'| && x in parts'[i]
      ensures Aligned(x, blobs')
    {
      if x == e {
        NewAligned(e, blobs, blobs', d.blob);
      } else {
        assert i < |parts| && x in parts[i];
        if HasBlob(e.h.flags) { AlignedStays(x, blobs, e.payload); }
      }
    }
    LastBounded(d, parts, e);
    assert forall i :: 0 <= i < |parts| ==> d.segs[i].used == |d.segs[i].file| && Bounded(d.segs[i], parts[i]);
  }

  lemma NewAligned(e: Entry, blobs: seq<bytes>, blobs': seq<bytes>, blob: bytes)
    requires blob == Blob.Image(blobs)
    requires HasBlob(e.h.flags) ==> blobs' == blobs + [e.payload] && e.h.blobOffset == |blob|
    ensures Aligned(e, blobs')
  {
    hide HasBlob, Blob.Image;
    if HasBlob(e.h.flags) {
      assert blobs'[..|blobs|] == blobs;
      assert FrameAt(e, blobs', |blobs|);
    }
  }

  lemma LastBounded(d: Disk, parts: seq<seq<Entry>>, e: Entry)
    requires Holds(d, parts) && parts != [] && EntryOk(e)
    requires SegHolds(d.segs[|d.segs| - 1], parts[|parts| - 1], d.blob)
    ensures var n, size := |parts| - 1, |EntryBytes(e)|;
            !Rotates(d, size) && |parts[n]| > 0 ==> d.segs[n].used + size <= SEGMENT_BYTES
  {
    hide EntryBytes, EntryOk, InBlob;
    var part := parts[|parts| - 1];
    if |part| > 0 {
      assert Segment.Image(part) == EntryBytes(part[0]) + Segment.Image(part[1..]);
    }
  }
}
