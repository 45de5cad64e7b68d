/** The log of a queue: a growing circular buffer of entries over rotating segment files, a blob file and two
    metadata slots.  What it is for is `Contents`: the messages retained, at consecutive offsets. */
module Log {
  import opened Arith
  import opened Bytes
  import opened Optional
  import opened Segment
  import opened LogDisk
  import opened LogView
  import Blob
  import Crc
  import LogMeta
  import Record

  const DEFAULT_CAP: nat := 8

  /** How many entries a buffer can hold, that starts with room for `length` and is doubled as long as its size fits
      into 32 bits. */
  function Limit(length: nat): (limit: nat)
    ensures limit >= length && (length > 0 ==> limit > (U32 - 1) / 2)
    decreases U32 - length
  {
    if length == 0 || length > (U32 - 1) / 2 then length else Limit(2 * length)
  }

  class Log {
    const mode: Mode
    const table: seq<Crc.word>
    const hotLimit: nat
    var entries: array<Slot>
    var start: nat
    var count: nat
    ghost var slots: seq<Slot>

    var nextOffset: nat
    var diskBase: nat
    var trimOffset: nat
    var threshold: nat
    var hotByteLimit: nat
    ghost var msgs: seq<Msg>

    var disk: Disk
    ghost var parts: seq<seq<Entry>>
    ghost var blobs: seq<bytes>

    var generation: nat
    var metaFile: bytes
    var metaSequence: nat
    ghost var meta: Option<LogMeta.Meta>

    /** The circular buffer holds the slots, in order. */
    ghost predicate RingOk()
      reads this`entries, this`start, this`count, this`slots, entries
    {
      0 < entries.Length && |slots| == count <= entries.Length &&
      forall i :: 0 <= i < count ==> SlotIs(entries[..], start, i, slots[i])
    }

    /** The slots stand for the messages, which are the retained end of what was ever appended. */
    ghost predicate ViewOk()
      reads this`slots, this`msgs, this`nextOffset, this`disk
    {
      View(disk, Persistent(mode), slots, msgs, nextOffset)
    }

    /** Files and metadata agree with the messages. */
    ghost predicate FilesOk()
      reads this`disk, this`parts, this`blobs, this`msgs, this`nextOffset, this`diskBase
      reads this`meta, this`metaFile, this`metaSequence, this`generation, this`trimOffset
    {
      OnDisk(disk, parts, blobs, diskBase, nextOffset, msgs) &&
      MetaFor(metaFile, meta, metaSequence, generation, diskBase, trimOffset, nextOffset - |msgs|)
    }

    ghost predicate Valid()
      reads this, entries
    {
      Crc.IsTable(Crc.CRC32, table) && entries.Length < U32 &&
      RingOk() && ViewOk() && (Persistent(mode) ==> FilesOk())
    }

    /** The messages retained. */
    ghost function Contents(): seq<Msg>
      reads this`msgs
    {
      msgs
    }

    /** Nothing but records and blob frames in the files. */
    ghost predicate Clean()
      reads this`disk, this`parts, this`blobs
    {
      Written(disk, parts, blobs)
    }

    /** The hot payloads are within both limits. */
    ghost predicate WithinLimits()
      reads this`slots, this`hotByteLimit
    {
      HotFits(slots, hotLimit, hotByteLimit)
    }

    /** An empty log, without files. */
    constructor (storage: Mode, capacity: nat, crcTable: seq<Crc.word>)
      requires capacity < U32 && Crc.IsTable(Crc.CRC32, crcTable)
      ensures RingOk() && ViewOk() && Contents() == [] && nextOffset == 0 && fresh(entries) && entries.Length < U32
      ensures mode == storage && table == crcTable && (!Persistent(mode) ==> Valid())
      ensures generation == diskBase == trimOffset == metaSequence == 0 && meta == None && metaFile == []
      ensures hotLimit == (if capacity == 0 then DEFAULT_CAP else capacity) == entries.Length
      ensures threshold == LogMeta.DEFAULT_THRESHOLD && hotByteLimit == hotLimit * threshold
    {
      hide Crc.IsTable;
      mode, table := storage, crcTable;
      var cap := if capacity == 0 then DEFAULT_CAP else capacity;
      hotLimit := cap;
      entries := new Slot[cap](_ => NO_SLOT);
      start, count, slots, msgs, nextOffset := 0, 0, [], [], 0;
      diskBase, trimOffset, threshold, hotByteLimit := 0, 0, LogMeta.DEFAULT_THRESHOLD, cap * LogMeta.DEFAULT_THRESHOLD;
      disk, parts, blobs := Disk([], []), [], [];
      generation, metaFile, metaSequence, meta := 0, [], 0, None;
    }

    // ---- the circular buffer ----

    /** The physical index of slot `i`. */
    function At(i: nat): (k: nat)
      requires 0 < entries.Length
      reads this`entries, this`start
      ensures k < entries.Length
    {
      (start + i) % entries.Length
    }

    lemma SlotCount()
      requires RingOk()
      ensures |slots| == count
    {
    }

    method Get(i: nat) returns (s: Slot)
      requires RingOk() && i < count
      ensures s == slots[i]
    {
      IndexIsModulo(start + i, entries.Length);
      assert SlotIs(entries[..], start, i, slots[i]);
      s := entries[At(i)];
    }

    method Put(i: nat, s: Slot)
      requires RingOk() && i < count
      modifies this`slots, entries
      ensures RingOk() && slots == old(slots)[i := s]
    {
      IndexIsModulo(start + i, entries.Length);
      ghost var before := entries[..];
      entries[At(i)] := s;
      slots := slots[i := s];
      PutKeeps(before, entries[..], start, i, s, count);
    }

    /** Doubles the buffer when it is full. */
    method EnsureCapacity() returns (rc: int)
      requires RingOk() && entries.Length < U32
      modifies this`entries, this`start
      ensures RingOk() && slots == old(slots) && entries.Length < U32
      ensures entries == old(entries) || fresh(entries)
      ensures rc == if mode.Ring? then (if count < entries.Length then 0 else -4)
                    else if count < Limit(old(entries.Length)) then 0 else -2
      ensures rc == 0 ==> count < entries.Length
      ensures Limit(entries.Length) == Limit(old(entries.Length)) && (mode.Ring? ==> entries == old(entries))
    {
      if count < entries.Length {
        return 0;
      }
      if mode.Ring? {
        return -4;
      }
      if entries.Length > (U32 - 1) / 2 {
        return -2;
      }
      var bigger := new Slot[entries.Length * 2](_ => NO_SLOT);
      var i := 0;
      while i < count
        invariant 0 <= i <= count && entries == old(entries) && start == old(start) && RingOk()
        invariant forall k :: 0 <= k < i ==> bigger[k] == slots[k]
      {
        var s := Get(i);
        bigger[i] := s;
        i := i + 1;
      }
      entries, start := bigger, 0;
      forall k | 0 <= k < count
        ensures SlotIs(entries[..], start, k, slots[k])
      {
        SmallIndex(k, entries.Length);
      }
      rc := 0;
    }

    method PushBack(s: Slot)
      requires RingOk() && count < entries.Length
      modifies this`slots, this`count, entries
      ensures RingOk() && slots == old(slots) + [s] && count == old(count) + 1
    {
      IndexIsModulo(start + count, entries.Length);
      ghost var before := entries[..];
      entries[At(count)] := s;
      slots := slots + [s];
      count := count + 1;
      PutKeeps(before, entries[..], start, count - 1, s, count - 1);
    }

    method PopFront()
      requires RingOk() && 0 < count
      modifies this`slots, this`start, this`count, entries
      ensures RingOk() && slots == old(slots)[1..] && count == old(count) - 1
    {
      IndexIsModulo(start, entries.Length);
      ghost var before := entries[..];
      entries[At(0)] := NO_SLOT;
      PutKeeps(before, entries[..], start, 0, NO_SLOT, count);
      slots := slots[1..];
      start, count := start + 1, count - 1;
      forall i | 0 <= i < count
        ensures SlotIs(entries[..], start, i, slots[i])
      {
        assert SlotIs(entries[..], start - 1, i + 1, old(slots)[i + 1]);
        assert start - 1 + (i + 1) == start + i;
      }
    }

    // ---- the hot set ----

    /** Evicts payloads, oldest first, until the hot set is within its limits. */
    method BoundHotSet()
      requires RingOk() && ViewOk()
      modifies this`slots, entries
      ensures RingOk() && ViewOk()
      ensures if mode.Hybrid? then CooledToFit(old(slots), slots, hotLimit, hotByteLimit) else slots == old(slots)
    {
      hide SlotHolds, View, SlotIs, Cooled;
      if !mode.Hybrid? {
        return;
      }
      var hot, hotBytes, i := 0, 0, 0;
      while i < count
        invariant RingOk() && slots == old(slots) && 0 <= i <= count
        invariant hot == HotCount(slots[..i]) && hotBytes == HotBytes(slots[..i])
      {
        var s := Get(i);
        HotAppend(slots[..i], [s]);
        assert slots[..i + 1] == slots[..i] + [s];
        if s.hot.Some? {
          hot, hotBytes := hot + 1, hotBytes + s.loc.len;
        }
        i := i + 1;
      }
      assert slots[..i] == slots;
      i := 0;
      CooledNone(old(slots));
      while (hot > hotLimit || hotBytes > hotByteLimit) && i < count
        invariant 0 <= i <= count && hot == HotCount(slots) && hotBytes == HotBytes(slots)
        invariant RingOk() && ViewOk() && slots == Cooled(old(slots), i)
        invariant forall j :: 0 <= j < i ==> !HotFits(Cooled(old(slots), j), hotLimit, hotByteLimit)
      {
        CooledOneMore(old(slots), i);
        var s := Get(i);
        if s.hot.Some? {
          ViewEvict(disk, slots, msgs, nextOffset, i);
          HotUpdate(slots, i, s.(hot := None));
          hotBytes := hotBytes - s.loc.len;
          Put(i, s.(hot := None));
          hot := hot - 1;
        }
        i := i + 1;
      }
      if i == count { AllCooled(old(slots)); }
      assert CooledTo(old(slots), slots, i, hotLimit, hotByteLimit);
    }

    // ---- operations ----

    /** Drops the oldest message. */
    method DropFirst()
      requires Valid() && count > 0
      modifies this`slots, this`start, this`count, this`msgs, entries
      ensures Valid() && count == old(count) - 1 && msgs == old(msgs)[1..]
      ensures HotCount(slots) <= HotCount(old(slots)) && HotBytes(slots) <= HotBytes(old(slots))
    {
      hide SlotHolds, View, SlotIs, OnDisk, Crc.IsTable, LogMeta.InForce;
      HotSuffix(slots, 1);
      ViewDrop(disk, Persistent(mode), slots, msgs, nextOffset);
      if Persistent(mode) { OnDiskDrop(disk, parts, blobs, diskBase, nextOffset, msgs); }
      PopFront();
      msgs := msgs[1..];
    }

    /** Writes a message to the files. */
    method Store(m: Meta, data: bytes) returns (loc: Loc)
      requires Crc.IsTable(Crc.CRC32, table) && MetaFits(m) && |data| < U32 && |disk.blob| < U64
      requires View(disk, true, slots, msgs, nextOffset) && OnDisk(disk, parts, blobs, diskBase, nextOffset, msgs)
      modifies this`disk, this`parts, this`blobs
      ensures View(disk, true, slots, msgs, nextOffset) && Readable(disk, loc, data)
      ensures OnDisk(disk, parts, blobs, diskBase, nextOffset + 1, msgs + [Msg(nextOffset, m, data)])
      ensures old(Clean()) ==> Clean()
      ensures Flatten(parts) == Flatten(old(parts)) + [Stored(m, data, threshold, |old(disk.blob)|)]
      ensures |disk.blob| <= |old(disk.blob)| + Blob.HDR + |data|
    {
      hide Readable, View, OnDisk, Crc.IsTable, Written, Blob.Image, Blob.AllFit, Holds, Flatten, MsgOf, Extends;
      ghost var disk0, parts0, blobs0 := disk, parts, blobs;
      OnDiskFacts(disk0, parts0, blobs0, diskBase, nextOffset, msgs);
      disk, loc, parts, blobs := Persist(disk, m, data, threshold, parts, blobs);
      ViewOnLongerDisk(disk0, disk, slots, msgs, nextOffset);
      OnDiskAppend(disk0, parts0, blobs0, diskBase, nextOffset, msgs, disk, parts, blobs, Stored(m, data, threshold, |disk0.blob|));
      StoredIsMsg(m, data, threshold, |disk0.blob|, nextOffset);
    }

    /** Appends a message.  A full buffer drops its oldest message in ring mode, and grows in the others. */
    method Append(m: Meta, data: bytes) returns (rc: int, offset: nat)
      requires Valid() && MetaFits(m) && |data| < U32 && |disk.blob| < U64
      modifies this`entries, this`start, this`count, this`slots, this`msgs, this`nextOffset, this`disk, this`parts, this`blobs, entries
      ensures Valid() && (entries == old(entries) || fresh(entries))
      ensures rc == if !mode.Ring? && old(count) >= Limit(old(entries.Length)) then -2 else 0
      ensures Limit(entries.Length) == Limit(old(entries.Length))
      ensures rc == 0 ==> offset == old(nextOffset) && nextOffset == offset + 1
      ensures rc == 0 ==>
        Contents() == old(if mode.Ring? && count >= entries.Length then msgs[1..] else msgs) + [Msg(offset, m, data)]
      ensures rc != 0 ==> Contents() == old(Contents())
      ensures rc == 0 && mode.Hybrid? ==> WithinLimits() && Cools(old(slots), offset, m, data)
      ensures old(Clean()) ==> Clean()
      ensures rc == 0 && Persistent(mode) ==> Flatten(parts) == Flatten(old(parts)) + [Stored(m, data, threshold, |old(disk.blob)|)]
      ensures |disk.blob| <= |old(disk.blob)| + Blob.HDR + |data|
      ensures rc != 0 ==> nextOffset == old(nextOffset) && disk == old(disk) && parts == old(parts)
    {
      hide SlotHolds, Readable, View, OnDisk, MetaFor, Crc.IsTable, Written, CooledToFit, HotFits, RingOk, Limit, Flatten, Stored, EntryOk;
      rc := MakeRoom();
      offset := nextOffset;
      if rc == 0 {
        Add(m, data);
      }
    }

    /** Appends a message for which there is room. */
    method Add(m: Meta, data: bytes)
      requires Valid() && MetaFits(m) && |data| < U32 && |disk.blob| < U64 && count < entries.Length
      modifies this`count, this`slots, this`msgs, this`nextOffset, this`disk, this`parts, this`blobs, entries
      ensures Valid() && nextOffset == old(nextOffset) + 1 && Contents() == old(Contents()) + [Msg(old(nextOffset), m, data)]
      ensures mode.Hybrid? ==> WithinLimits() && Cools(old(slots), old(nextOffset), m, data)
      ensures old(Clean()) ==> Clean()
      ensures Persistent(mode) ==> Flatten(parts) == Flatten(old(parts)) + [Stored(m, data, threshold, |old(disk.blob)|)]
      ensures |disk.blob| <= |old(disk.blob)| + Blob.HDR + |data|
    {
      hide SlotHolds, Readable, View, OnDisk, MetaFor, Crc.IsTable, Written, CooledToFit, HotFits, RingOk, Flatten, Stored, EntryOk;
      var loc := Loc(Record.INLINE, 0, 0, 0, |data|);
      if Persistent(mode) {
        loc := Store(m, data);
      }
      Enter(Slot(nextOffset, m, if data == [] then None else Some(data), loc), Msg(nextOffset, m, data));
      assert slots == Entered(old(slots), old(nextOffset), m, data, loc);
      ghost var entered := slots;
      BoundHotSet();
      if mode.Hybrid? { FitsInTheEnd(entered, slots, hotLimit, hotByteLimit); }
    }

    /** The payload of a message was added to the hot set, and as many of the oldest evicted as that takes. */
    ghost predicate Cools(before: seq<Slot>, offset: nat, m: Meta, data: bytes)
      reads this`slots, this`hotByteLimit
    {
      exists loc :: CooledToFit(Entered(before, offset, m, data, loc), slots, hotLimit, hotByteLimit)
    }

    /** Makes room for one more entry. */
    method MakeRoom() returns (rc: int)
      requires Valid()
      modifies this`entries, this`start, this`count, this`slots, this`msgs, entries
      ensures Valid() && (entries == old(entries) || fresh(entries))
      ensures rc == if !mode.Ring? && old(count) >= Limit(old(entries.Length)) then -2 else 0
      ensures Limit(entries.Length) == Limit(old(entries.Length))
      ensures rc == 0 ==> count < entries.Length
      ensures !mode.Ring? ==> slots == old(slots)
      ensures msgs == old(if mode.Ring? && count >= entries.Length then msgs[1..] else msgs)
    {
      hide SlotHolds, SlotIs, View, OnDisk, MetaFor, Crc.IsTable;
      Lengths(disk, Persistent(mode), slots, msgs, nextOffset);
      if mode.Ring? && count >= entries.Length {
        DropFirst();
      }
      rc := EnsureCapacity();
    }

    /** Enters a message whose files are written already. */
    method Enter(s: Slot, ghost x: Msg)
      requires RingOk() && ViewOk() && count < entries.Length
      requires s == Slot(nextOffset, x.m, if x.payload == [] then None else Some(x.payload), s.loc)
      requires x.offset == nextOffset && |x.payload| < U32
      requires if Persistent(mode) then Readable(disk, s.loc, x.payload) else s.loc.len == |x.payload|
      modifies this`slots, this`count, this`msgs, this`nextOffset, entries
      ensures RingOk() && ViewOk() && msgs == old(msgs) + [x] && nextOffset == old(nextOffset) + 1 && slots == old(slots) + [s]
      ensures entries == old(entries)
    {
      hide SlotHolds, Readable, View, SlotIs;
      NewSlot(disk, Persistent(mode), nextOffset, x.m, x.payload, s.loc);
      ViewAppend(disk, Persistent(mode), slots, msgs, nextOffset, s, x);
      PushBack(s);
      msgs := msgs + [x];
      nextOffset := nextOffset + 1;
    }

    /** The position of the entry with this offset. */
    method Find(offset: nat) returns (i: nat)
      requires Valid()
      ensures if nextOffset - count <= offset < nextOffset then i < count && slots[i].offset == offset else i == count
    {
      hide SlotHolds, View, SlotIs, OnDisk, MetaFor, Crc.IsTable;
      i := 0;
      while i < count
        invariant 0 <= i <= count && RingOk() && ViewOk() && (forall k :: 0 <= k < i ==> slots[k].offset != offset)
      {
        ViewAt(disk, Persistent(mode), slots, msgs, nextOffset, i);
        var s := Get(i);
        if s.offset == offset {
          return;
        }
        i := i + 1;
      }
      if nextOffset - count <= offset < nextOffset {
        ViewAt(disk, Persistent(mode), slots, msgs, nextOffset, offset - (nextOffset - count));
      }
    }

    /** Reads a message, its payload from memory or from the files. */
    method Read(offset: nat) returns (rc: int, x: Msg)
      requires Valid()
      ensures rc == if nextOffset - count <= offset < nextOffset then 0 else -3
      ensures rc == 0 ==> x == Contents()[offset - (nextOffset - count)]
    {
      hide Readable, View, SlotIs, OnDisk, MetaFor, Crc.IsTable;
      x := Msg(offset, Meta(0, 0, 0, 0, 0, 0), []);
      var i := Find(offset);
      if i == count {
        return -3, x;
      }
      var s := Get(i);
      ViewAt(disk, Persistent(mode), slots, msgs, nextOffset, i);
      var payload := s.hot;
      if s.loc.len == 0 {
        payload := Some([]);
      } else if s.hot.None? {
        payload := ReadPayload(disk, s.loc, table);
      }
      return 0, Msg(s.offset, s.m, payload.value);
    }

    function RetainedStart(): (offset: nat)
      requires Valid()
      reads this, entries
      ensures offset == nextOffset - count
    {
      if count != 0 then
        IndexIsModulo(start, entries.Length);
        assert SlotIs(entries[..], start, 0, slots[0]);
        ViewAt(disk, Persistent(mode), slots, msgs, nextOffset, 0);
        entries[At(0)].offset
      else nextOffset
    }

    /** Drops the messages before `newStart`. */
    method TrimFront(newStart: nat)
      requires Valid()
      modifies this`slots, this`start, this`count, this`msgs, this`trimOffset, entries
      ensures Valid()
      ensures Contents() == From(old(Contents()), newStart) && trimOffset == nextOffset - count
      ensures HotCount(slots) <= HotCount(old(slots)) && HotBytes(slots) <= HotBytes(old(slots))
    {
      hide View, RingOk, OnDisk, Crc.IsTable, LogMeta.InForce, HotCount, HotBytes, From;
      DropBefore(newStart);
      SlotCount();
      Lengths(disk, Persistent(mode), slots, msgs, nextOffset);
      trimOffset := RetainedStart();
    }

    method DropBefore(newStart: nat)
      requires Valid()
      modifies this`slots, this`start, this`count, this`msgs, entries
      ensures Valid() && msgs == From(old(msgs), newStart)
      ensures HotCount(slots) <= HotCount(old(slots)) && HotBytes(slots) <= HotBytes(old(slots))
    {
      hide SlotHolds, View, RingOk, OnDisk, MetaFor, Crc.IsTable, HotCount, HotBytes;
      Lengths(disk, Persistent(mode), slots, msgs, nextOffset);
      SlotCount();
      ghost var msgs0, k := msgs, 0;
      while count > 0
        invariant Valid() && k + count == |msgs0| && msgs == msgs0[k..]
        invariant From(msgs0, newStart) == From(msgs, newStart)
        invariant HotCount(slots) <= HotCount(old(slots)) && HotBytes(slots) <= HotBytes(old(slots))
        decreases count
      {
        SlotCount();
        var s := Get(0);
        ViewAt(disk, Persistent(mode), slots, msgs, nextOffset, 0);
        Lengths(disk, Persistent(mode), slots, msgs, nextOffset);
        if s.offset >= newStart {
          break;
        }
        DropFirst();
        Tail(msgs0, k);
        k := k + 1;
      }
    }

    /** The counters of the log have not run out of their widths. */
    ghost predicate InRange()
      reads this`nextOffset, this`metaSequence, this`generation, this`threshold
    {
      nextOffset < U64 && metaSequence + 1 < U64 && generation < U32 && threshold < U32
    }

    /** Writes the metadata record, to the slot that is not in force. */
    method WriteMeta(gen: nat, base: nat, trim: nat)
      requires LogMeta.InForce(metaFile, meta) && metaSequence == LogMeta.SequenceOf(meta)
      requires InRange() && gen < U32 && base <= trim <= nextOffset
      modifies this`metaFile, this`metaSequence, this`meta
      ensures LogMeta.InForce(metaFile, meta) && metaSequence == LogMeta.SequenceOf(meta)
      ensures metaSequence == old(metaSequence) + 1
      ensures meta == Some(LogMeta.Meta(old(metaSequence) + 1, gen, threshold, base, trim, nextOffset))
      ensures metaFile == LogMeta.WriteSlot(old(metaFile), LogMeta.SlotOf(meta.value.sequence), LogMeta.SlotBytes(meta.value))
    {
      hide LogMeta.InForce, LogMeta.WriteSlot, LogMeta.SlotBytes;
      var m := LogMeta.Meta(metaSequence + 1, gen, threshold, base, trim, nextOffset);
      LogMeta.WriteTakesEffect(metaFile, meta, m);
      metaFile := LogMeta.WriteSlot(metaFile, (metaSequence + 1) % 2, LogMeta.SlotBytes(m));
      metaSequence := metaSequence + 1;
      meta := Some(m);
    }

    /** Switches to other files that hold the same messages. */
    method Adopt(d: Disk, locs: seq<Loc>, gen: nat, base: nat, ghost ps: seq<seq<Entry>>, ghost bs: seq<bytes>)
      requires RingOk() && View(disk, true, slots, msgs, nextOffset) && AllReadable(d, locs, msgs)
      modifies this`slots, this`disk, this`parts, this`blobs, this`generation, this`diskBase, entries
      ensures RingOk() && View(d, true, slots, msgs, nextOffset)
      ensures disk == d && parts == ps && blobs == bs && generation == gen && diskBase == base
      ensures HotCount(slots) == HotCount(old(slots)) && HotBytes(slots) == HotBytes(old(slots))
    {
      hide View, SlotIs, HotCount, HotBytes, Readable;
      Lengths(disk, true, slots, msgs, nextOffset);
      ghost var slots0 := slots;
      generation, diskBase := gen, base;
      var i := 0;
      while i < count
        modifies this`slots, entries
        invariant 0 <= i <= count && RingOk() && Relocated(slots0, slots, locs, i)
      {
        var s := Get(i);
        Put(i, s.(loc := locs[i]));
        i := i + 1;
      }
      ViewRelocated(disk, d, slots0, slots, locs, msgs, nextOffset);
      disk, parts, blobs := d, ps, bs;
    }

    /** Puts a fresh generation of files in force. */
    method SwitchTo(d: Disk, locs: seq<Loc>, gen: nat, base: nat, ghost ps: seq<seq<Entry>>, ghost bs: seq<bytes>)
      requires Valid() && Persistent(mode) && InRange() && gen < U32 && AllReadable(d, locs, msgs)
      requires |msgs| <= nextOffset && base == nextOffset - |msgs| && OnDisk(d, ps, bs, base, nextOffset, msgs)
      modifies this`trimOffset, this`metaFile, this`metaSequence, this`meta
      modifies this`slots, this`disk, this`parts, this`blobs, this`generation, this`diskBase, entries
      ensures Valid() && disk == d && parts == ps && blobs == bs && generation == gen && diskBase == base && trimOffset == base
      ensures metaSequence == old(metaSequence) + 1
      ensures meta == Some(LogMeta.Meta(old(metaSequence) + 1, gen, threshold, base, base, nextOffset))
      ensures metaFile == LogMeta.WriteSlot(old(metaFile), LogMeta.SlotOf(meta.value.sequence), LogMeta.SlotBytes(meta.value))
      ensures HotCount(slots) == HotCount(old(slots)) && HotBytes(slots) == HotBytes(old(slots))
    {
      hide SlotIs, View, OnDisk, Crc.IsTable, LogMeta.InForce, LogMeta.SlotBytes, LogMeta.WriteSlot, AllReadable, HotCount, HotBytes;
      trimOffset := base;
      WriteMeta(gen, base, base);
      Adopt(d, locs, gen, base, ps, bs);
    }

    /** Records trim and generation. */
    method Snapshot()
      requires Valid() && InRange()
      modifies this`trimOffset, this`metaFile, this`metaSequence, this`meta
      ensures Valid()
      ensures Persistent(mode) ==>
        trimOffset == nextOffset - count && metaSequence == old(metaSequence) + 1 &&
        meta == Some(LogMeta.Meta(metaSequence, generation, threshold, diskBase, trimOffset, nextOffset))
    {
      hide View, SlotIs, OnDisk, Crc.IsTable, LogMeta.InForce, LogMeta.WriteSlot, LogMeta.SlotBytes;
      if !Persistent(mode) {
        return;
      }
      Lengths(disk, Persistent(mode), slots, msgs, nextOffset);
      trimOffset := RetainedStart();
      WriteMeta(generation, diskBase, trimOffset);
    }

    /** Sets the size beyond which payloads go to the blob file; it also sizes the hot set. */
    method SetBlobThreshold(size: nat)
      requires Valid() && InRange() && size < U32
      modifies this`threshold, this`hotByteLimit, this`slots, this`metaFile, this`metaSequence, this`meta, entries
      ensures Valid() && threshold == if size == 0 then LogMeta.DEFAULT_THRESHOLD else size
      ensures mode.Hybrid? ==> WithinLimits() && CooledToFit(old(slots), slots, hotLimit, hotByteLimit)
      ensures Persistent(mode) ==>
        metaSequence == old(metaSequence) + 1 &&
        meta == Some(LogMeta.Meta(metaSequence, generation, threshold, diskBase, trimOffset, nextOffset))
      ensures !Persistent(mode) ==> metaSequence == old(metaSequence) && meta == old(meta) && metaFile == old(metaFile)
    {
      hide View, SlotIs, OnDisk, Crc.IsTable, LogMeta.InForce, LogMeta.WriteSlot, LogMeta.SlotBytes, CooledToFit, HotFits;
      threshold := if size == 0 then LogMeta.DEFAULT_THRESHOLD else size;
      hotByteLimit := hotLimit * threshold;
      BoundHotSet();
      if mode.Hybrid? { FitsInTheEnd(old(slots), slots, hotLimit, hotByteLimit); }
      if Persistent(mode) {
        Lengths(disk, true, slots, msgs, nextOffset);
        WriteMeta(generation, diskBase, trimOffset);
      }
    }
  }

  const NO_SLOT: Slot := Slot(0, Meta(0, 0, 0, 0, 0, 0), None, Loc(0, 0, 0, 0, 0))

  /** One more slot, with its payload in memory unless that is empty. */
  function Entered(slots: seq<Slot>, offset: nat, m: Meta, data: bytes, loc: Loc): seq<Slot> {
    slots + [Slot(offset, m, if data == [] then None else Some(data), loc)]
  }

  lemma Tail<T>(s: seq<T>, k: nat)
    requires k < |s|
    ensures s[k..][1..] == s[k + 1..]
  {
  }

  /** Slot `i` of a buffer that starts at position `start`. */
  predicate SlotIs(buffer: seq<Slot>, start: nat, i: nat, s: Slot) {
    0 < |buffer| && buffer[Index(start + i, |buffer|)] == s
  }

  /** Writing one slot leaves the others alone. */
  lemma PutKeeps(buffer: seq<Slot>, buffer': seq<Slot>, start: nat, i: nat, s: Slot, count: nat)
    requires 0 < |buffer| && i < |buffer| && count <= |buffer|
    requires buffer' == buffer[Index(start + i, |buffer|) := s]
    ensures SlotIs(buffer', start, i, s)
    ensures forall k, x :: 0 <= k < count && k != i && SlotIs(buffer, start, k, x) ==> SlotIs(buffer', start, k, x)
  {
    hide Index;
    forall k, x | 0 <= k < count && k != i && SlotIs(buffer, start, k, x)
      ensures SlotIs(buffer', start, k, x)
    {
      if Index(start + k, |buffer|) == Index(start + i, |buffer|) {
        if k < i {
          IndexGap(start + k, start + i, |buffer|);
        } else {
          IndexGap(start + i, start + k, |buffer|);
        }
      }
    }
  }
}
