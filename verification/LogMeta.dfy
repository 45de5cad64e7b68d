/** The metadata file of a durable log: two slots that are written in turn. */
module LogMeta {
  import opened Bytes
  import opened Optional
  import Crc

  const MAGIC: nat := 0x454D514D
  const VERSION: nat := 1
  const SLOT: nat := 56
  const DEFAULT_THRESHOLD: nat := 8 * 1024

  /** magic, version, size, sequence, storage_generation, blob_threshold, disk_base, trim, next, crc32, reserved */
  const LAYOUT: seq<nat> := [4, 2, 2, 8, 4, 4, 8, 8, 8, 4, 4]

  datatype Meta = Meta(sequence: nat, generation: nat, threshold: nat, diskBase: nat, trim: nat, next: nat)

  predicate MetaFits(m: Meta) {
    m.sequence < U64 && m.generation < U32 && m.threshold < U32 && m.diskBase < U64 && m.trim < U64 && m.next < U64
  }

  function Fields(m: Meta, crc: nat): (f: seq<nat>)
    ensures |f| == 11
  {
    [MAGIC, VERSION, SLOT, m.sequence, m.generation, m.threshold, m.diskBase, m.trim, m.next, crc, 0]
  }

  function MetaOf(f: seq<nat>): Meta
    requires |f| == 11
  {
    Meta(f[3], f[4], f[5], f[6], f[7], f[8])
  }

  lemma LayoutSize()
    ensures Size(LAYOUT) == SLOT
  {
    assert Size([4, 4]) == 8;
    assert Size([8, 8, 8, 4, 4]) == 32;
    assert Size([8, 4, 4, 8, 8, 8, 4, 4]) == 48;
    assert Size([2, 2, 8, 4, 4, 8, 8, 8, 4, 4]) == 52;
  }

  function SlotImage(fields: seq<nat>): (b: bytes)
    requires |fields| == 11
    ensures |b| == SLOT
  {
    LayoutSize();
    Pack(LAYOUT, fields)
  }

  function SlotFields(slot: bytes): (f: seq<nat>)
    requires |slot| == SLOT
    ensures |f| == 11
  {
    LayoutSize();
    Unpack(LAYOUT, slot)
  }

  /** The bytes written for a metadata record: the check value covers them with a zero in its own place. */
  function SlotBytes(m: Meta): (b: bytes)
    ensures |b| == SLOT
  {
    SlotImage(Fields(m, Crc.Crc32(SlotImage(Fields(m, 0)))))
  }

  /** A slot with a version this code does not know. */
  predicate Future(slot: bytes)
    requires |slot| == SLOT
  {
    SlotFields(slot)[0] == MAGIC && SlotFields(slot)[1] > VERSION
  }

  /** What a slot says, if it is intact. */
  function ReadSlot(slot: bytes): (r: Option<Meta>)
    requires |slot| == SLOT
  {
    var f := SlotFields(slot);
    if f[0] != MAGIC || f[1] != VERSION || f[2] != SLOT then None
    else if Crc.Crc32(SlotImage(f[9 := 0])) != f[9] then None
    else Some(MetaOf(f))
  }

  /** A written slot reads back. */
  lemma SlotReadsBack(m: Meta)
    requires MetaFits(m)
    ensures ReadSlot(SlotBytes(m)) == Some(m)
  {
    hide Pack, Unpack, Size;
    LayoutSize();
    RangeValues();
    var crc := Crc.Crc32(SlotImage(Fields(m, 0)));
    UnpackPack(LAYOUT, Fields(m, crc));
    assert Fields(m, crc)[9 := 0] == Fields(m, 0);
  }

  /** The check value of a slot is the CRC-32 of its bytes, with a zero in its own place; only such a slot is read. */
  lemma CheckedByCrc(slot: bytes)
    requires |slot| == SLOT && ReadSlot(slot).Some?
    ensures FromLE(slot[48..52]) == Crc.Crc32(Zeroed(slot, 48))
  {
    hide Pack, Unpack, Size, FromLE, ToLE, Crc.Crc32, Fits;
    LayoutSize();
    var f := SlotFields(slot);
    PackUnpack(LAYOUT, slot);
    FieldRead(LAYOUT, slot, 9);
    PackChanged(LAYOUT, f, 9, 0);
    assert Offset(LAYOUT, 1) == 4 && Offset(LAYOUT, 2) == 6 && Offset(LAYOUT, 3) == 8;
    assert Offset(LAYOUT, 4) == 16 && Offset(LAYOUT, 5) == 20 && Offset(LAYOUT, 6) == 24;
    assert Offset(LAYOUT, 7) == 32 && Offset(LAYOUT, 8) == 40 && Offset(LAYOUT, 9) == 48;
    ZeroWord();
  }

  // ---- the two slots ----

  /** The metadata in force; None if a slot is from the future.  A missing or broken slot counts for nothing, and of
      two good ones the one written last counts. */
  function Load(file: bytes): (r: Option<Option<Meta>>) {
    var slot0 := if |file| >= SLOT then Some(file[..SLOT]) else None;
    var slot1 := if |file| >= 2 * SLOT then Some(file[SLOT..2 * SLOT]) else None;
    if slot0.Some? && Future(slot0.value) then None
    else if slot1.Some? && Future(slot1.value) then None
    else
      var meta0 := if slot0.Some? then ReadSlot(slot0.value) else None;
      var meta1 := if slot1.Some? then ReadSlot(slot1.value) else None;
      Some(if meta0.Some? && meta1.Some? then (if meta0.value.sequence >= meta1.value.sequence then meta0 else meta1)
           else if meta0.Some? then meta0
           else meta1)
  }

  /** `slot` of the file overwritten; a slot in front that was never written reads as zeros. */
  function WriteSlot(file: bytes, slot: nat, b: bytes): (r: bytes)
    requires slot < 2 && |b| == SLOT
    ensures slot == 0 ==> |r| >= SLOT && r[..SLOT] == b
    ensures slot == 1 ==> |r| >= 2 * SLOT && r[SLOT..2 * SLOT] == b
    ensures slot == 0 ==> r[SLOT..] == if |file| >= SLOT then file[SLOT..] else []
    ensures slot == 1 ==> |r| >= 2 * SLOT && r[..SLOT] == Padded(file)[..SLOT]
  {
    if slot == 0 then b + (if |file| >= SLOT then file[SLOT..] else [])
    else Padded(file)[..SLOT] + b + (if |file| >= 2 * SLOT then file[2 * SLOT..] else [])
  }

  function Padded(file: bytes): (r: bytes)
    ensures |r| >= SLOT && file <= r
  {
    if |file| >= SLOT then file else file + seq(SLOT - |file|, _ => 0)
  }

  // ---- writes that a crash tears ----

  /** A version field that is 0 or 1. */
  predicate Sane(slot: bytes)
    requires |slot| == SLOT
  {
    slot[4] <= 1 && slot[5] == 0
  }

  predicate Zero(b: bytes) {
    forall i :: 0 <= i < |b| ==> b[i] == 0
  }

  predicate Older(slot: bytes, m: Meta)
    requires |slot| == SLOT
  {
    Sane(slot) && (ReadSlot(slot).Some? ==> ReadSlot(slot).value.sequence < m.sequence)
  }

  predicate Unused(slot: bytes)
    requires |slot| == SLOT
  {
    Sane(slot) && ReadSlot(slot).None?
  }

  function SlotAt(file: bytes, k: nat): (b: bytes)
    requires k < 2 && |file| >= 2 * SLOT
    ensures |b| == SLOT
  {
    if k == 0 then file[..SLOT] else file[SLOT..2 * SLOT]
  }

  /** The slots are written in turn. */
  function SlotOf(sequence: nat): (slot: nat)
    ensures slot < 2
  {
    sequence % 2
  }

  lemma SlotsAlternate(sequence: nat)
    ensures SlotOf(sequence + 1) == 1 - SlotOf(sequence)
    ensures SlotOf(1) == 1
  {
  }

  /** The metadata in force, and why the next write cannot endanger it: it goes to the other slot. */
  predicate InForce(file: bytes, cur: Option<Meta>) {
    if |file| < 2 * SLOT then
      cur.None? && Zero(file[..if |file| <= SLOT then |file| else SLOT]) &&
      Before(file, SLOT + 4) <= 1 && Before(file, SLOT + 5) == 0
    else match cur
      case None => Unused(SlotAt(file, 0)) && Unused(SlotAt(file, 1))
      case Some(m) =>
        MetaFits(m) && SlotAt(file, SlotOf(m.sequence)) == SlotBytes(m) && Older(SlotAt(file, 1 - SlotOf(m.sequence)), m)
  }

  lemma FirstFields(slot: bytes)
    requires |slot| == SLOT
    ensures SlotFields(slot)[0] == FromLE(slot[..4]) && SlotFields(slot)[1] == FromLE(slot[4..6])
  {
    hide FromLE, Size, Unpack;
    LayoutSize();
    FieldRead(LAYOUT, slot, 0);
    FieldRead(LAYOUT, slot, 1);
    assert Offset(LAYOUT, 1) == 4 && slot[0..4] == slot[..4];
  }

  lemma SlotFieldRead(f: seq<nat>, k: nat)
    requires Fits(LAYOUT, f) && k < 11
    ensures Offset(LAYOUT, k) + LAYOUT[k] <= SLOT
    ensures FromLE(SlotImage(f)[Offset(LAYOUT, k)..Offset(LAYOUT, k) + LAYOUT[k]]) == f[k]
  {
    hide Pack, Unpack, Size, FromLE, Offset, Fits;
    LayoutSize();
    UnpackPack(LAYOUT, f);
    FieldRead(LAYOUT, SlotImage(f), k);
  }

  /** Where the fields of a slot lie. */
  lemma FieldPlaces(m: Meta, crc: nat)
    requires MetaFits(m) && crc < U32
    ensures var b := SlotImage(Fields(m, crc));
            FromLE(b[0..4]) == 0x454D514D && FromLE(b[4..6]) == 1 && FromLE(b[6..8]) == 56 && FromLE(b[8..16]) == m.sequence &&
            FromLE(b[16..20]) == m.generation && FromLE(b[20..24]) == m.threshold && FromLE(b[24..32]) == m.diskBase &&
            FromLE(b[32..40]) == m.trim && FromLE(b[40..48]) == m.next && FromLE(b[48..52]) == crc && FromLE(b[52..56]) == 0
  {
    hide SlotImage, FromLE;
    RangeValues();
    forall k | 0 <= k < 11
      ensures Offset(LAYOUT, k) + LAYOUT[k] <= SLOT
      ensures FromLE(SlotImage(Fields(m, crc))[Offset(LAYOUT, k)..Offset(LAYOUT, k) + LAYOUT[k]]) == Fields(m, crc)[k]
    {
      SlotFieldRead(Fields(m, crc), k);
    }
    assert Offset(LAYOUT, 1) == 4 && Offset(LAYOUT, 2) == 6 && Offset(LAYOUT, 3) == 8;
    assert Offset(LAYOUT, 4) == 16 && Offset(LAYOUT, 5) == 20 && Offset(LAYOUT, 6) == 24;
    assert Offset(LAYOUT, 7) == 32 && Offset(LAYOUT, 8) == 40 && Offset(LAYOUT, 9) == 48;
    assert Offset(LAYOUT, 10) == 52;
  }

  /** A slot that says it is metadata, of a version above 1. */
  predicate FromTheFuture(slot: bytes) {
    |slot| >= 6 && FromLE(slot[..4]) == 0x454D514D && FromLE(slot[4..6]) > 1
  }

  /** Loading is refused exactly when one of the two slots is whole and from the future. */
  lemma RefusedIff(file: bytes)
    ensures Load(file).None? <==> (|file| >= 56 && FromTheFuture(file[..56])) || (|file| >= 112 && FromTheFuture(file[56..112]))
  {
    hide SlotFields, FromLE, ReadSlot;
    if |file| >= SLOT { FirstFields(file[..SLOT]); }
    if |file| >= 2 * SLOT { FirstFields(file[SLOT..2 * SLOT]); }
  }

  lemma SaneIsKnown(slot: bytes)
    requires |slot| == SLOT && Sane(slot)
    ensures !Future(slot)
  {
    hide SlotFields;
    FirstFields(slot);
    var v := slot[4..6];
    assert v[1..][1..] == [] && FromLE(v[1..]) == v[1] && FromLE(v) == v[0] + 256 * v[1];
  }

  lemma ZeroSlot(slot: bytes)
    requires |slot| == SLOT && Zero(slot)
    ensures Sane(slot) && ReadSlot(slot).None?
  {
    hide SlotFields;
    FirstFields(slot);
    ZeroIsZero(slot[..4]);
  }

  lemma {:induction false} ZeroIsZero(b: bytes)
    requires Zero(b)
    ensures FromLE(b) == 0
  {
    if b != [] { ZeroIsZero(b[1..]); }
  }

  lemma WrittenIsSane(m: Meta)
    ensures Sane(SlotBytes(m))
  {
    hide Size, Crc.Crc32;
    var f := Fields(m, Crc.Crc32(SlotImage(Fields(m, 0))));
    assert Pack(LAYOUT, f) == ToLE(f[0], 4) + (ToLE(f[1], 2) + Pack(LAYOUT[1..][1..], f[1..][1..]));
    assert ToLE(1, 2) == [1, 0] by { assert ToLE(0, 1) == [0]; }
  }

  /** What is in force is what is loaded. */
  lemma LoadInForce(file: bytes, cur: Option<Meta>)
    requires InForce(file, cur)
    ensures Load(file) == Some(cur)
  {
    hide ReadSlot, SlotBytes, Future, Sane;
    if |file| >= 2 * SLOT {
      assert file[..SLOT] == SlotAt(file, 0) && file[SLOT..2 * SLOT] == SlotAt(file, 1);
      if cur.Some? {
        SlotReadsBack(cur.value);
        WrittenIsSane(cur.value);
      }
      SaneIsKnown(SlotAt(file, 0));
      SaneIsKnown(SlotAt(file, 1));
    } else if |file| >= SLOT {
      ZeroSlot(file[..SLOT]);
      SaneIsKnown(file[..SLOT]);
    }
  }

  function SequenceOf(cur: Option<Meta>): nat {
    if cur.Some? then cur.value.sequence else 0
  }

  /** The byte that was at `i`, zero beyond the end of the file. */
  function Before(file: bytes, i: nat): byte {
    if i < |file| then file[i] else 0
  }

  /** Any mixture of the bytes before and after a write of `b` to `slot` that a crash can leave. */
  predicate Torn(file: bytes, slot: nat, b: bytes, torn: bytes)
    requires slot < 2 && |b| == SLOT
  {
    |file| <= |torn| <= |WriteSlot(file, slot, b)| &&
    forall i :: 0 <= i < |torn| ==> torn[i] == WriteSlot(file, slot, b)[i] || torn[i] == Before(file, i)
  }

  /** The one assumption about the check value: it does not accept a genuine mixture. */
  predicate NoCollision(file: bytes, slot: nat, b: bytes, torn: bytes)
    requires slot < 2 && |b| == SLOT
  {
    |torn| >= 2 * SLOT && ReadSlot(SlotAt(torn, slot)).Some? ==>
      SlotAt(torn, slot) == b || (|file| >= 2 * SLOT && SlotAt(torn, slot) == SlotAt(file, slot))
  }

  /** A metadata write is atomic: whatever a crash leaves of it, the old metadata is in force or the new. */
  lemma WriteIsAtomic(file: bytes, cur: Option<Meta>, m: Meta, torn: bytes)
    requires InForce(file, cur) && MetaFits(m) && m.sequence == SequenceOf(cur) + 1
    requires Torn(file, SlotOf(m.sequence), SlotBytes(m), torn) && NoCollision(file, SlotOf(m.sequence), SlotBytes(m), torn)
    ensures InForce(torn, cur) || InForce(torn, Some(m))
  {
    hide ReadSlot, SlotBytes, SlotOf, Torn, Sane;
    var slot := SlotOf(m.sequence);
    SlotsAlternate(SequenceOf(cur));
    if cur.Some? {
      SlotReadsBack(cur.value);
      WrittenIsSane(cur.value);
    }
    if |file| < 2 * SLOT {
      FirstWrite(file, m, torn);
    } else {
      LaterWrite(file, m, slot, torn);
    }
  }

  lemma FirstWrite(file: bytes, m: Meta, torn: bytes)
    requires |file| < 2 * SLOT && InForce(file, None) && MetaFits(m) && m.sequence == 1
    requires Torn(file, 1, SlotBytes(m), torn) && NoCollision(file, 1, SlotBytes(m), torn)
    ensures InForce(torn, None) || InForce(torn, Some(m))
  {
    hide ReadSlot, SlotBytes;
    assert forall i :: 0 <= i < |torn| && i < SLOT ==> torn[i] == 0;
    WrittenIsSane(m);
    var target := WriteSlot(file, 1, SlotBytes(m));
    assert target[SLOT + 4] == SlotBytes(m)[4] && target[SLOT + 5] == SlotBytes(m)[5];
    if |torn| >= 2 * SLOT {
      ZeroSlot(SlotAt(torn, 0));
      assert torn[SLOT + 4] == SlotAt(torn, 1)[4] && torn[SLOT + 5] == SlotAt(torn, 1)[5];
    }
  }

  lemma LaterWrite(file: bytes, m: Meta, slot: nat, torn: bytes)
    requires |file| >= 2 * SLOT && slot < 2 && Torn(file, slot, SlotBytes(m), torn)
    requires Sane(SlotAt(file, slot))
    ensures |torn| >= 2 * SLOT && SlotAt(torn, 1 - slot) == SlotAt(file, 1 - slot) && Sane(SlotAt(torn, slot))
  {
    hide ReadSlot, SlotBytes;
    WrittenIsSane(m);
    var b, target := SlotBytes(m), WriteSlot(file, slot, SlotBytes(m));
    if slot == 0 {
      assert forall i :: 0 <= i < SLOT ==> target[i] == target[..SLOT][i];
      assert forall i :: SLOT <= i < |file| ==> target[i] == target[SLOT..][i - SLOT] == file[SLOT..][i - SLOT];
      assert torn[SLOT..2 * SLOT] == file[SLOT..2 * SLOT];
    } else {
      assert forall i :: 0 <= i < SLOT ==> target[i] == target[..SLOT][i] == file[..SLOT][i];
      assert forall i :: SLOT <= i < 2 * SLOT ==> target[i] == target[SLOT..2 * SLOT][i - SLOT];
      assert torn[..SLOT] == file[..SLOT];
    }
  }

  /** A write that completes puts the new metadata in force. */
  lemma WriteTakesEffect(file: bytes, cur: Option<Meta>, m: Meta)
    requires InForce(file, cur) && MetaFits(m) && m.sequence == SequenceOf(cur) + 1
    ensures InForce(WriteSlot(file, SlotOf(m.sequence), SlotBytes(m)), Some(m))
  {
    hide ReadSlot, SlotBytes, SlotOf, Sane, WriteSlot;
    var slot := SlotOf(m.sequence);
    var target := WriteSlot(file, slot, SlotBytes(m));
    SlotsAlternate(SequenceOf(cur));
    if cur.Some? {
      SlotReadsBack(cur.value);
      WrittenIsSane(cur.value);
    }
    assert SlotAt(target, slot) == SlotBytes(m);
    if |file| < 2 * SLOT {
      assert Padded(file)[..SLOT] == SlotAt(target, 0);
      ZeroSlot(SlotAt(target, 0));
    } else {
      OtherSlotKept(file, slot, SlotBytes(m));
    }
  }

  lemma OtherSlotKept(file: bytes, slot: nat, b: bytes)
    requires |file| >= 2 * SLOT && slot < 2 && |b| == SLOT
    ensures |WriteSlot(file, slot, b)| >= 2 * SLOT && SlotAt(WriteSlot(file, slot, b), 1 - slot) == SlotAt(file, 1 - slot)
  {
    var target := WriteSlot(file, slot, b);
    if slot == 0 { assert target[SLOT..2 * SLOT] == target[SLOT..][..SLOT] == file[SLOT..][..SLOT]; }
  }
}
