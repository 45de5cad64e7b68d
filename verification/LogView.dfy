/** What a log stands for: messages at consecutive offsets, and how the entries in memory and on disk represent them. */
module LogView {
  import opened Bytes
  import opened Optional
  import opened Segment
  import opened LogDisk
  import Blob
  import LogMeta
  import Record

  datatype Mode = Fast | Ring | Durable | Hybrid | Stream

  predicate Persistent(mode: Mode) {
    mode.Durable? || mode.Hybrid? || mode.Stream?
  }

  datatype Msg = Msg(offset: nat, m: Meta, payload: bytes)

  /** An entry of the ring: the payload may be in memory (hot), on disk, or both. */
  datatype Slot = Slot(offset: nat, m: Meta, hot: Option<bytes>, loc: Loc)

  /** The entry stands for the message: nothing that memory or disk says about it is different. */
  predicate SlotHolds(disk: Disk, persistent: bool, s: Slot, x: Msg) {
    s.offset == x.offset && s.m == x.m && s.loc.len == |x.payload| < U32 &&
    (s.hot.Some? ==> s.hot.value == x.payload && x.payload != []) &&
    (if persistent then Readable(disk, s.loc, x.payload) else s.hot.Some? || x.payload == [])
  }

  predicate SlotsHold(disk: Disk, persistent: bool, slots: seq<Slot>, msgs: seq<Msg>) {
    |slots| == |msgs| && forall i :: 0 <= i < |slots| ==> SlotHolds(disk, persistent, slots[i], msgs[i])
  }

  /** Consecutive offsets, up to `next`. */
  predicate Numbered(msgs: seq<Msg>, next: nat) {
    |msgs| <= next && forall i :: 0 <= i < |msgs| ==> msgs[i].offset == next - |msgs| + i
  }

  /** The messages from an offset on. */
  function From(msgs: seq<Msg>, offset: nat): seq<Msg> {
    if msgs == [] || msgs[0].offset >= offset then msgs else From(msgs[1..], offset)
  }

  /** Of consecutive messages, those are exactly the ones whose offset is not smaller. */
  lemma {:induction false} FromIsExact(msgs: seq<Msg>, next: nat, offset: nat, x: Msg)
    requires Numbered(msgs, next)
    ensures x in From(msgs, offset) <==> x in msgs && x.offset >= offset
    ensures Numbered(From(msgs, offset), next)
  {
    if msgs != [] && msgs[0].offset < offset {
      FromIsExact(msgs[1..], next, offset, x);
      assert msgs == [msgs[0]] + msgs[1..];
    }
  }

  /** The message that an entry on disk stands for. */
  function MsgOf(e: Entry, offset: nat): Msg {
    Msg(offset, Meta(e.h.queueId, e.h.msgId, e.h.priority, e.h.timestamp, e.h.deliverAt, e.h.ttl), e.payload)
  }

  /** The messages of the entries on disk, the first of which has offset `base`, without those before `trim`. */
  function Listed(entries: seq<Entry>, base: nat, trim: nat): (msgs: seq<Msg>) {
    if entries == [] then []
    else (if base < trim then [] else [MsgOf(entries[0], base)]) + Listed(entries[1..], base + 1, trim)
  }

  lemma {:induction false} ListedAll(entries: seq<Entry>, base: nat, trim: nat)
    requires trim <= base
    ensures |Listed(entries, base, trim)| == |entries|
    ensures forall i :: 0 <= i < |entries| ==> Listed(entries, base, trim)[i] == MsgOf(entries[i], base + i)
    decreases |entries|
  {
    if entries != [] { ListedAll(entries[1..], base + 1, trim); }
  }

  lemma {:induction false} ListedAppend(entries: seq<Entry>, e: Entry, base: nat, trim: nat)
    ensures Listed(entries + [e], base, trim) ==
      Listed(entries, base, trim) + (if base + |entries| < trim then [] else [MsgOf(e, base + |entries|)])
    decreases |entries|
  {
    hide MsgOf;
    if entries == [] {
      assert entries + [e] == [e] && [e][1..] == [];
    } else {
      assert (entries + [e])[1..] == entries[1..] + [e];
      ListedAppend(entries[1..], e, base + 1, trim);
      Associate(if base < trim then [] else [MsgOf(entries[0], base)], Listed(entries[1..], base + 1, trim),
                if base + |entries| < trim then [] else [MsgOf(e, base + |entries|)]);
    }
  }

  lemma {:induction false} ListedPrefix(a: seq<Entry>, b: seq<Entry>, base: nat, trim: nat)
    requires a <= b
    ensures Listed(a, base, trim) <= Listed(b, base, trim)
  {
    if a != [] {
      ListedPrefix(a[1..], b[1..], base + 1, trim);
    }
  }

  /** Trimming further keeps a suffix. */
  lemma {:induction false} ListedTrim(entries: seq<Entry>, base: nat, trim: nat, trim': nat)
    requires trim <= trim' && base <= trim' <= base + |entries|
    ensures var k := |Listed(entries, base, trim)| - (base + |entries| - trim');
            0 <= k && Listed(entries, base, trim') == Listed(entries, base, trim)[k..]
    decreases |entries|
  {
    hide MsgOf;
    if base == trim' {
      ListedAll(entries, base, trim);
      ListedAll(entries, base, trim');
      assert Listed(entries, base, trim) == Listed(entries, base, trim');
    } else {
      ListedTrim(entries[1..], base + 1, trim, trim');
    }
  }

  lemma {:induction false} ListedNumbered(entries: seq<Entry>, base: nat, trim: nat)
    requires trim <= base + |entries|
    ensures Numbered(Listed(entries, base, trim), base + |entries|)
    ensures base <= trim ==> |Listed(entries, base, trim)| == base + |entries| - trim
    decreases |entries|
  {
    hide MsgOf;
    if entries != [] {
      if base < trim {
        ListedNumbered(entries[1..], base + 1, trim);
      } else {
        ListedAll(entries, base, trim);
        assert forall i :: 0 <= i < |entries| ==> MsgOf(entries[i], base + i).offset == base + i by { OffsetOf(); }
      }
    }
  }

  lemma OffsetOf()
    ensures forall e, offset :: MsgOf(e, offset).offset == offset
  {
  }

  lemma StoredIsMsg(m: Meta, payload: bytes, threshold: nat, blobOffset: nat, offset: nat)
    ensures MsgOf(Stored(m, payload, threshold, blobOffset), offset) == Msg(offset, m, payload)
  {
  }

  /** Growing the disk leaves every entry as good as it was. */
  lemma SlotsStay(disk: Disk, disk': Disk, slots: seq<Slot>, msgs: seq<Msg>)
    requires SlotsHold(disk, true, slots, msgs) && Extends(disk, disk')
    ensures SlotsHold(disk', true, slots, msgs)
  {
    hide Extends, Readable;
    forall i | 0 <= i < |slots|
      ensures SlotHolds(disk', true, slots[i], msgs[i])
    {
      StaysReadable(disk, disk', slots[i].loc, msgs[i].payload);
    }
  }

  // ---- the hot set ----

  predicate Hot(s: Slot) { s.hot.Some? }

  function HotCount(slots: seq<Slot>): nat {
    if slots == [] then 0 else (if Hot(slots[0]) then 1 else 0) + HotCount(slots[1..])
  }

  function HotBytes(slots: seq<Slot>): nat {
    if slots == [] then 0 else (if Hot(slots[0]) then slots[0].loc.len else 0) + HotBytes(slots[1..])
  }

  lemma {:induction false} HotAppend(a: seq<Slot>, b: seq<Slot>)
    ensures HotCount(a + b) == HotCount(a) + HotCount(b) && HotBytes(a + b) == HotBytes(a) + HotBytes(b)
  {
    if a == [] {
      assert a + b == b;
    } else {
      assert (a + b)[1..] == a[1..] + b;
      HotAppend(a[1..], b);
    }
  }

  /** The slot at `i` takes its payload out of, or puts it into, the hot set. */
  lemma HotUpdate(slots: seq<Slot>, i: nat, s: Slot)
    requires i < |slots|
    ensures HotCount(slots[i := s]) == HotCount(slots) - HotCount([slots[i]]) + HotCount([s])
    ensures HotBytes(slots[i := s]) == HotBytes(slots) - HotBytes([slots[i]]) + HotBytes([s])
  {
    hide HotCount, HotBytes;
    HotAppend(slots[..i], [slots[i]] + slots[i + 1..]);
    HotAppend([slots[i]], slots[i + 1..]);
    HotAppend(slots[..i], [s] + slots[i + 1..]);
    HotAppend([s], slots[i + 1..]);
    assert slots == slots[..i] + ([slots[i]] + slots[i + 1..]);
    assert slots[i := s] == slots[..i] + ([s] + slots[i + 1..]);
  }

  lemma {:induction false} NoneHot(slots: seq<Slot>)
    requires forall s :: s in slots ==> !Hot(s)
    ensures HotCount(slots) == 0 && HotBytes(slots) == 0
  {
    if slots != [] { NoneHot(slots[1..]); }
  }

  /** Dropping slots can only shrink the hot set. */
  lemma HotSuffix(slots: seq<Slot>, k: nat)
    requires k <= |slots|
    ensures HotCount(slots[k..]) <= HotCount(slots) && HotBytes(slots[k..]) <= HotBytes(slots)
  {
    HotAppend(slots[..k], slots[k..]);
    assert slots[..k] + slots[k..] == slots;
  }

  /** The hot payloads are within a limit on their number and one on their size. */
  predicate HotFits(slots: seq<Slot>, number: nat, size: nat) {
    HotCount(slots) <= number && HotBytes(slots) <= size
  }

  /** The first `k` payloads are no longer hot. */
  function Cooled(slots: seq<Slot>, k: nat): seq<Slot>
    requires k <= |slots|
  {
    seq(|slots|, i requires 0 <= i < |slots| => if i < k then slots[i].(hot := None) else slots[i])
  }

  /** The first `k` payloads were evicted, and fewer would not have been enough. */
  predicate CooledTo(before: seq<Slot>, after: seq<Slot>, k: nat, number: nat, size: nat) {
    k <= |before| && after == Cooled(before, k) && HotFits(after, number, size) &&
    forall j :: 0 <= j < k ==> !HotFits(Cooled(before, j), number, size)
  }

  /** As many of the oldest payloads were evicted as it takes to be within the limits, and no more. */
  ghost predicate CooledToFit(before: seq<Slot>, after: seq<Slot>, number: nat, size: nat) {
    exists k: nat :: CooledTo(before, after, k, number, size)
  }

  lemma FitsInTheEnd(before: seq<Slot>, after: seq<Slot>, number: nat, size: nat)
    requires CooledToFit(before, after, number, size)
    ensures HotFits(after, number, size)
  {
  }

  lemma CooledNone(slots: seq<Slot>)
    ensures Cooled(slots, 0) == slots
  {
  }

  lemma CooledOneMore(slots: seq<Slot>, i: nat)
    requires i < |slots|
    ensures Cooled(slots, i)[i] == slots[i]
    ensures Cooled(slots, i + 1) == Cooled(slots, i)[i := slots[i].(hot := None)]
    ensures slots[i].hot.None? ==> Cooled(slots, i + 1) == Cooled(slots, i)
  {
  }

  lemma AllCooled(slots: seq<Slot>)
    ensures HotCount(Cooled(slots, |slots|)) == 0 && HotBytes(Cooled(slots, |slots|)) == 0
  {
    NoneHot(Cooled(slots, |slots|));
  }

  /** Nothing is evicted that fits. */
  lemma NothingEvictedInVain(before: seq<Slot>, after: seq<Slot>, number: nat, size: nat)
    requires CooledToFit(before, after, number, size) && HotFits(before, number, size)
    ensures after == before
  {
    hide HotFits, Cooled;
    var k: nat :| CooledTo(before, after, k, number, size);
    CooledNone(before);
  }

  // ---- the invariants of a log, and what keeps them ----

  /** The slots stand for the messages, which are numbered up to `next`. */
  predicate View(disk: Disk, persistent: bool, slots: seq<Slot>, msgs: seq<Msg>, next: nat) {
    SlotsHold(disk, persistent, slots, msgs) && Numbered(msgs, next)
  }

  lemma ViewAt(disk: Disk, persistent: bool, slots: seq<Slot>, msgs: seq<Msg>, next: nat, i: nat)
    requires View(disk, persistent, slots, msgs, next) && i < |slots|
    ensures |msgs| == |slots| <= next && SlotHolds(disk, persistent, slots[i], msgs[i])
    ensures slots[i].offset == msgs[i].offset == next - |msgs| + i
  {
    hide Readable;
  }

  lemma Lengths(disk: Disk, persistent: bool, slots: seq<Slot>, msgs: seq<Msg>, next: nat)
    requires View(disk, persistent, slots, msgs, next)
    ensures |msgs| == |slots| <= next
  {
  }

  /** The entry for a message just appended: its payload is in memory, and on disk too if there is one. */
  lemma NewSlot(disk: Disk, persistent: bool, offset: nat, m: Meta, data: bytes, loc: Loc)
    requires |data| < U32 && (if persistent then Readable(disk, loc, data) else loc.len == |data|)
    ensures SlotHolds(disk, persistent, Slot(offset, m, if data == [] then None else Some(data), loc), Msg(offset, m, data))
  {
  }

  lemma ViewAppend(disk: Disk, persistent: bool, slots: seq<Slot>, msgs: seq<Msg>, next: nat, s: Slot, x: Msg)
    requires View(disk, persistent, slots, msgs, next) && SlotHolds(disk, persistent, s, x) && x.offset == next
    ensures View(disk, persistent, slots + [s], msgs + [x], next + 1)
  {
    hide Readable;
  }

  lemma ViewDrop(disk: Disk, persistent: bool, slots: seq<Slot>, msgs: seq<Msg>, next: nat)
    requires View(disk, persistent, slots, msgs, next) && slots != []
    ensures msgs != [] && View(disk, persistent, slots[1..], msgs[1..], next)
  {
    hide SlotHolds;
  }

  lemma ViewEvict(disk: Disk, slots: seq<Slot>, msgs: seq<Msg>, next: nat, i: nat)
    requires View(disk, true, slots, msgs, next) && i < |slots|
    ensures View(disk, true, slots[i := slots[i].(hot := None)], msgs, next)
  {
    hide Readable;
  }

  lemma ViewOnLongerDisk(disk: Disk, disk': Disk, slots: seq<Slot>, msgs: seq<Msg>, next: nat)
    requires View(disk, true, slots, msgs, next) && Extends(disk, disk')
    ensures View(disk', true, slots, msgs, next)
  {
    hide Extends, SlotHolds;
    SlotsStay(disk, disk', slots, msgs);
  }

  /** The files hold every message from `base` on, of which the last ones are retained. */
  predicate OnDisk(disk: Disk, parts: seq<seq<Entry>>, blobs: seq<bytes>, base: nat, next: nat, msgs: seq<Msg>) {
    Holds(disk, parts) && parts != [] && disk.blob == Blob.Image(blobs) && Blob.AllFit(blobs) &&
    next == base + |Flatten(parts)| && base + |msgs| <= next &&
    msgs == Listed(Flatten(parts), base, next - |msgs|)
  }

  lemma OnDiskFacts(disk: Disk, parts: seq<seq<Entry>>, blobs: seq<bytes>, base: nat, next: nat, msgs: seq<Msg>)
    requires OnDisk(disk, parts, blobs, base, next, msgs)
    ensures Holds(disk, parts) && parts != [] && disk.blob == Blob.Image(blobs) && Blob.AllFit(blobs)
    ensures base + |msgs| <= next
  {
  }

  lemma OnDiskAppend(disk: Disk, parts: seq<seq<Entry>>, blobs: seq<bytes>, base: nat, next: nat, msgs: seq<Msg>,
                     disk': Disk, parts': seq<seq<Entry>>, blobs': seq<bytes>, e: Entry)
    requires OnDisk(disk, parts, blobs, base, next, msgs)
    requires Holds(disk', parts') && parts' != [] && disk'.blob == Blob.Image(blobs') && Blob.AllFit(blobs')
    requires Flatten(parts') == Flatten(parts) + [e]
    ensures OnDisk(disk', parts', blobs', base, next + 1, msgs + [MsgOf(e, next)])
  {
    hide Holds, Blob.Image, Blob.AllFit, Flatten, Listed, MsgOf;
    ListedAppend(Flatten(parts), e, base, next - |msgs|);
  }

  lemma OnDiskDrop(disk: Disk, parts: seq<seq<Entry>>, blobs: seq<bytes>, base: nat, next: nat, msgs: seq<Msg>)
    requires OnDisk(disk, parts, blobs, base, next, msgs) && msgs != []
    ensures OnDisk(disk, parts, blobs, base, next, msgs[1..])
  {
    hide Holds, Blob.Image, Blob.AllFit, Flatten, Listed, MsgOf;
    ListedTrim(Flatten(parts), base, next - |msgs|, next - |msgs| + 1);
  }

  /** The metadata in force describes the files, and trims nothing that is retained. */
  predicate MetaFor(file: bytes, meta: Option<LogMeta.Meta>, sequence: nat, generation: nat, base: nat, trim: nat, retained: nat) {
    LogMeta.InForce(file, meta) && sequence == LogMeta.SequenceOf(meta) && base <= trim <= retained &&
    match meta
    case None => generation == 0 && base == 0
    case Some(m) => m.generation == generation && m.diskBase == base && base <= m.trim <= trim
  }

  /** The same messages, their payloads at other places. */
  predicate Relocated(slots: seq<Slot>, slots': seq<Slot>, locs: seq<Loc>, n: nat) {
    |slots'| == |slots| == |locs| && n <= |slots| &&
    forall i :: 0 <= i < |slots| ==> slots'[i] == if i < n then slots[i].(loc := locs[i]) else slots[i]
  }

  predicate AllReadable(disk: Disk, locs: seq<Loc>, msgs: seq<Msg>) {
    |locs| == |msgs| && forall i :: 0 <= i < |locs| ==> Readable(disk, locs[i], msgs[i].payload)
  }

  lemma ViewRelocated(disk: Disk, disk': Disk, slots: seq<Slot>, slots': seq<Slot>, locs: seq<Loc>, msgs: seq<Msg>, next: nat)
    requires View(disk, true, slots, msgs, next) && Relocated(slots, slots', locs, |slots|) && AllReadable(disk', locs, msgs)
    ensures View(disk', true, slots', msgs, next)
    ensures HotCount(slots') == HotCount(slots) && HotBytes(slots') == HotBytes(slots)
  {
    hide HotCount, HotBytes, Record.HasBlob, Blob.WholeAt;
    forall i | 0 <= i < |slots|
      ensures SlotHolds(disk', true, slots'[i], msgs[i]) && Hot(slots'[i]) == Hot(slots[i]) && slots'[i].loc.len == slots[i].loc.len
    {
      assert SlotHolds(disk, true, slots[i], msgs[i]);
    }
    SameHotSet(slots, slots');
  }

  lemma {:induction false} SameHotSet(a: seq<Slot>, b: seq<Slot>)
    requires |a| == |b| && forall i :: 0 <= i < |a| ==> Hot(a[i]) == Hot(b[i]) && a[i].loc.len == b[i].loc.len
    ensures HotCount(a) == HotCount(b) && HotBytes(a) == HotBytes(b)
  {
    if a != [] { SameHotSet(a[1..], b[1..]); }
  }
}
