/** Segment files: log records one behind the other, and the scan that finds them again. */
module Segment {
  import opened Bytes
  import opened Optional
  import opened Record
  import Blob
  import Crc

  /** A log entry: what its header says, and its payload wherever it is stored. */
  datatype Entry = Entry(h: Header, payload: bytes)

  predicate EntryOk(e: Entry) {
    HeaderFits(e.h) && FlagsOk(e.h.flags) && |e.payload| == e.h.payloadLen
  }

  predicate AllOk(entries: seq<Entry>) {
    forall e :: e in entries ==> EntryOk(e)
  }

  function InlinePayload(e: Entry): Option<bytes> {
    if HasInline(e.h.flags) then Some(e.payload) else None
  }

  /** What the entry occupies in its segment. */
  function EntryBytes(e: Entry): (b: bytes)
    requires EntryOk(e)
    ensures |b| == EncodedSize(e.h.payloadLen, HasInline(e.h.flags)) >= HDR
  {
    HeaderBytes(e.h, ComputeCrc(e.h, InlinePayload(e))) + (if HasInline(e.h.flags) then e.payload else [])
  }

  lemma EntryEncodes(e: Entry, cap: nat)
    requires EntryOk(e) && |EntryBytes(e)| <= cap
    ensures Encode(e.h, Some(e.payload), cap) == Some(EntryBytes(e))
  {
    hide HeaderBytes, ComputeCrc, HasInline, HasBlob;
  }

  /** The segment file made of these entries. */
  function Image(entries: seq<Entry>): bytes
    requires AllOk(entries)
  {
    if entries == [] then [] else EntryBytes(entries[0]) + Image(entries[1..])
  }

  /** The payload of an entry that keeps it in the blob file is whole there. */
  predicate InBlob(e: Entry, blob: bytes) {
    HasBlob(e.h.flags) ==> Blob.WholeAt(blob, e.h.blobOffset, e.payload)
  }

  predicate AllInBlob(entries: seq<Entry>, blob: bytes) {
    forall e :: e in entries ==> InBlob(e, blob)
  }

  // ---- the scan ----

  datatype Found = Found(e: Entry) | Clean | Corrupt | Foreign

  predicate AllZero(b: bytes) {
    forall i :: 0 <= i < |b| ==> b[i] == 0
  }

  datatype Sized = Whole(h: Header, n: nat) | Stop(why: Found)

  /** What the header at the front says: a record of so many bytes, or why there is none. */
  function SizeUp(rest: bytes): (r: Sized)
    ensures r.Whole? ==> HDR <= r.n <= |rest| && r.n == EncodedSize(r.h.payloadLen, HasInline(r.h.flags))
    ensures r.Stop? ==> !r.why.Found?
  {
    if |rest| < HDR then Stop(Corrupt)
    else if AllZero(rest[..HDR]) then Stop(Clean)
    else
      LayoutSize();
      var f := Unpack(LAYOUT, rest[..HDR]);
      var h := HeaderOf(f);
      if f[0] != MAGIC then Stop(Corrupt)
      else if f[1] != VERSION then Stop(Foreign)
      else if HasInline(h.flags) == HasBlob(h.flags) then Stop(Corrupt)
      else if EncodedSize(h.payloadLen, HasInline(h.flags)) > |rest| then Stop(Corrupt)
      else Whole(h, EncodedSize(h.payloadLen, HasInline(h.flags)))
  }

  /** The record at the front of a piece of a segment, if there is one. */
  function Step(rest: bytes, blob: bytes): (r: Found)
    ensures r.Found? ==> EntryOk(r.e) && EntryBytes(r.e) <= rest && InBlob(r.e, blob)
  {
    var s := SizeUp(rest);
    if s.Stop? then s.why
    else
      var d := Decode(rest[..s.n]);
      if d.None? then Corrupt
      else
        DecodedHeader(rest, s);
        Checked(rest, d.value, blob)
  }

  lemma DecodedHeader(rest: bytes, s: Sized)
    requires s == SizeUp(rest) && s.Whole? && Decode(rest[..s.n]).Some?
    ensures Decode(rest[..s.n]).value.h == s.h
  {
    hide Unpack, Size, ComputeCrc, HasInline, HasBlob;
    LayoutSize();
    assert rest[..s.n][..HDR] == rest[..HDR];
  }

  /** A record that keeps its payload in the blob file counts only if the payload is there. */
  function Checked(rest: bytes, d: Decoded, blob: bytes): (r: Found)
    requires EncodedSize(d.h.payloadLen, HasInline(d.h.flags)) <= |rest|
    requires Decode(rest[..EncodedSize(d.h.payloadLen, HasInline(d.h.flags))]) == Some(d)
    ensures r.Found? ==> EntryOk(r.e) && EntryBytes(r.e) <= rest && InBlob(r.e, blob)
    ensures !r.Clean? && !r.Foreign?
  {
    if HasInline(d.h.flags) then
      CheckedInline(rest, d);
      Found(Entry(d.h, d.payload.value))
    else
      var payload := Blob.ReadAt(blob, d.h.blobOffset, d.h.payloadLen);
      if payload.None? then Corrupt
      else
        CheckedBlob(rest, d, blob);
        Found(Entry(d.h, payload.value))
  }

  lemma CheckedInline(rest: bytes, d: Decoded)
    requires EncodedSize(d.h.payloadLen, HasInline(d.h.flags)) <= |rest| && HasInline(d.h.flags)
    requires Decode(rest[..EncodedSize(d.h.payloadLen, HasInline(d.h.flags))]) == Some(d)
    ensures d.payload.Some? && EntryOk(Entry(d.h, d.payload.value)) && !HasBlob(d.h.flags)
    ensures EntryBytes(Entry(d.h, d.payload.value)) <= rest
  {
    hide Decode, HeaderBytes, ComputeCrc, HasInline, HasBlob;
    var src := rest[..EncodedSize(d.h.payloadLen, HasInline(d.h.flags))];
    EncodeDecode(src);
    EntryEncodes(Entry(d.h, d.payload.value), |src|);
  }

  lemma CheckedBlob(rest: bytes, d: Decoded, blob: bytes)
    requires EncodedSize(d.h.payloadLen, HasInline(d.h.flags)) <= |rest| && !HasInline(d.h.flags)
    requires Decode(rest[..EncodedSize(d.h.payloadLen, HasInline(d.h.flags))]) == Some(d)
    requires Blob.ReadAt(blob, d.h.blobOffset, d.h.payloadLen).Some?
    ensures var e := Entry(d.h, Blob.ReadAt(blob, d.h.blobOffset, d.h.payloadLen).value);
            EntryOk(e) && EntryBytes(e) <= rest && InBlob(e, blob)
  {
    hide Decode, HeaderBytes, ComputeCrc, HasInline, HasBlob, Blob.ReadAt, Blob.WholeAt;
    var src := rest[..EncodedSize(d.h.payloadLen, HasInline(d.h.flags))];
    var payload := Blob.ReadAt(blob, d.h.blobOffset, d.h.payloadLen).value;
    EncodeDecode(src);
    assert HeaderBytes(d.h, ComputeCrc(d.h, None)) + [] == src;
    Blob.ReadIsWhole(blob, d.h.blobOffset, payload);
  }

  datatype Scanned = Scanned(entries: seq<Entry>, used: nat, verdict: Found)

  /** What was scanned is exactly the front of `rest`, and every payload in the blob file is there. */
  predicate IsFront(s: Scanned, rest: bytes, blob: bytes) {
    AllOk(s.entries) && AllInBlob(s.entries, blob) && !s.verdict.Found? &&
    s.used <= |rest| && Image(s.entries) == rest[..s.used]
  }

  /** All records from the front of `rest` up to the first place where there is none. */
  function Scan(rest: bytes, blob: bytes): (s: Scanned)
    ensures IsFront(s, rest, blob)
    decreases |rest|
  {
    if rest == [] then
      NothingScanned(rest, blob, Clean);
      Scanned([], 0, Clean)
    else
      var r := Step(rest, blob);
      if !r.Found? then
        NothingScanned(rest, blob, r);
        Scanned([], 0, r)
      else
        var n := |EntryBytes(r.e)|;
        var s := Scan(rest[n..], blob);
        OneMoreScanned(rest, blob, r.e, s, n);
        Scanned([r.e] + s.entries, n + s.used, s.verdict)
  }

  lemma NothingScanned(rest: bytes, blob: bytes, verdict: Found)
    requires !verdict.Found?
    ensures IsFront(Scanned([], 0, verdict), rest, blob)
  {
  }

  lemma OneMoreScanned(rest: bytes, blob: bytes, e: Entry, s: Scanned, n: nat)
    requires EntryOk(e) && EntryBytes(e) <= rest && n == |EntryBytes(e)| && InBlob(e, blob) && IsFront(s, rest[n..], blob)
    ensures IsFront(Scanned([e] + s.entries, n + s.used, s.verdict), rest, blob)
  {
    hide EntryBytes, EntryOk, InBlob;
    assert ([e] + s.entries)[1..] == s.entries;
    assert rest[..n + s.used] == rest[..n] + rest[n..][..s.used];
  }

  // ---- what the bytes of a segment say ----

  /** 64 zero bytes: space that was never written. */
  predicate Unwritten(tail: bytes) {
    |tail| >= 64 && forall i :: 0 <= i < 64 ==> tail[i] == 0
  }

  /** A header that says it is a record, but not one of version 2. */
  predicate OtherVersion(tail: bytes) {
    |tail| >= 64 && FromLE(tail[..4]) == 0x454D5152 && FromLE(tail[4..6]) != 2
  }

  /** The record of this entry, whole and with its payload. */
  predicate StartsWith(tail: bytes, blob: bytes, e: Entry) {
    EntryOk(e) && EntryBytes(e) <= tail && InBlob(e, blob)
  }

  /** The file is the image of these entries, with what the verdict says behind it. */
  ghost predicate Reads(file: bytes, blob: bytes, entries: seq<Entry>, verdict: Found) {
    AllOk(entries) && AllInBlob(entries, blob) && Image(entries) <= file &&
    var tail := file[|Image(entries)|..];
    match verdict
    case Clean => tail == [] || Unwritten(tail)
    case Foreign => OtherVersion(tail)
    case Corrupt => tail != [] && !Unwritten(tail) && !OtherVersion(tail) && forall e :: !StartsWith(tail, blob, e)
    case Found(_) => false
  }

  lemma ZeroField(b: bytes)
    requires |b| >= 64 && Unwritten(b)
    ensures !OtherVersion(b)
  {
    assert b[..4][1..][1..] == b[2..4];
    assert FromLE(b[..4]) % 256 == 0;
  }

  /** What the header at the front says, in terms of its bytes. */
  lemma SizeUpMeans(rest: bytes)
    ensures SizeUp(rest) == Stop(Foreign) <==> OtherVersion(rest)
    ensures SizeUp(rest) == Stop(Clean) <==> Unwritten(rest)
    ensures SizeUp(rest).Whole? ==> FromLE(rest[..4]) == 0x454D5152
  {
    hide Unpack, Size, HasInline, HasBlob;
    if |rest| >= HDR {
      LayoutSize();
      FrontFields(rest[..HDR]);
      assert rest[..HDR][0..4] == rest[..4] && rest[..HDR][4..6] == rest[4..6];
      assert AllZero(rest[..HDR]) <==> Unwritten(rest) by { assert forall i :: 0 <= i < HDR ==> rest[..HDR][i] == rest[i]; }
      if Unwritten(rest) { ZeroField(rest); }
    }
  }

  /** What stands where the next record should. */
  lemma StepMeans(rest: bytes, blob: bytes)
    requires rest != []
    ensures Step(rest, blob).Foreign? <==> OtherVersion(rest)
    ensures Step(rest, blob).Clean? <==> Unwritten(rest)
    ensures Step(rest, blob).Corrupt? <==> !Unwritten(rest) && !OtherVersion(rest) && forall e :: !StartsWith(rest, blob, e)
  {
    hide SizeUp, Decode, EntryBytes, EntryOk, InBlob, HasInline, Unwritten, OtherVersion;
    SizeUpMeans(rest);
    forall e | StartsWith(rest, blob, e)
      ensures Step(rest, blob) == Found(e)
    {
      StepFinds(e, rest, blob);
    }
    if Step(rest, blob).Found? { assert StartsWith(rest, blob, Step(rest, blob).e); }
  }

  /** Without the magic number there is no record. */
  lemma WrongMagic(tail: bytes, blob: bytes, e: Entry)
    requires |tail| < 64 || FromLE(tail[..4]) != 0x454D5152
    ensures !StartsWith(tail, blob, e)
  {
    hide EntryBytes, HasInline, HasBlob, Unpack, Size, FromLE;
    SizeUpMeans(tail);
    if StartsWith(tail, blob, e) { StepDecodes(e, tail); }
  }

  /** The record of an entry: bit 0 of its flags says that the payload follows the header, and if not, bit 1 says that it
      is in the blob file. */
  lemma EntryPlaces(e: Entry)
    requires EntryOk(e)
    ensures (e.h.flags % 2 == 1) != (e.h.flags / 2 % 2 == 1)
    ensures |EntryBytes(e)| == if e.h.flags % 2 == 1 then 64 + |e.payload| else 64
    ensures EntryBytes(e)[..64] == HeaderBytes(e.h, ComputeCrc(e.h, InlinePayload(e)))
    ensures e.h.flags % 2 == 1 ==> EntryBytes(e)[64..] == e.payload
  {
    hide HeaderBytes, ComputeCrc;
  }

  /** The check value of a record is the CRC-32 of its bytes, with a zero in its own place. */
  lemma EntryChecked(e: Entry)
    requires EntryOk(e)
    ensures FromLE(EntryBytes(e)[8..12]) == Crc.Crc32(Zeroed(EntryBytes(e), 8))
  {
    hide HeaderBytes, FromLE, Crc.Crc32, Crc.Crc32Of2;
    var b, crc := EntryBytes(e), ComputeCrc(e.h, InlinePayload(e));
    FieldPlaces(e.h, crc);
    WithoutCrc(e.h, crc);
    assert b[8..12] == HeaderBytes(e.h, crc)[8..12];
    if HasInline(e.h.flags) {
      CoveredByCrc(e.h, e.payload);
      assert Zeroed(b, 8) == HeaderBytes(e.h, 0) + e.payload;
    } else {
      assert b == HeaderBytes(e.h, crc) + [];
      assert Zeroed(b, 8) == HeaderBytes(e.h, 0);
    }
  }

  /** What is scanned is what the bytes say. */
  lemma {:induction false} ScanReads(rest: bytes, blob: bytes)
    ensures Reads(rest, blob, Scan(rest, blob).entries, Scan(rest, blob).verdict) && Scan(rest, blob).used == |Image(Scan(rest, blob).entries)|
    decreases |rest|
  {
    hide Step, EntryBytes, EntryOk, InBlob, Scan, Unwritten, OtherVersion, StartsWith;
    ScanStep(rest, blob);
    if rest != [] {
      StepMeans(rest, blob);
      var r := Step(rest, blob);
      if r.Found? {
        var n := |EntryBytes(r.e)|;
        ScanReads(rest[n..], blob);
        ReadsFront(rest, blob, r.e, n, Scan(rest[n..], blob).entries, Scan(rest[n..], blob).verdict);
      }
    }
  }

  lemma ReadsFront(rest: bytes, blob: bytes, e: Entry, n: nat, entries: seq<Entry>, verdict: Found)
    requires EntryOk(e) && EntryBytes(e) <= rest && InBlob(e, blob) && n == |EntryBytes(e)| && Reads(rest[n..], blob, entries, verdict)
    ensures Reads(rest, blob, [e] + entries, verdict) && |Image([e] + entries)| == n + |Image(entries)|
  {
    hide EntryBytes, EntryOk, InBlob, Unwritten, OtherVersion;
    assert ([e] + entries)[1..] == entries;
    assert rest == rest[..n] + rest[n..];
    assert rest[n + |Image(entries)|..] == rest[n..][|Image(entries)|..];
  }

  /** And the bytes leave no other reading. */
  lemma {:induction false} ReadsIsScan(rest: bytes, blob: bytes, entries: seq<Entry>, verdict: Found)
    requires Reads(rest, blob, entries, verdict)
    ensures Scan(rest, blob) == Scanned(entries, |Image(entries)|, verdict)
    decreases |entries|
  {
    hide Step, EntryBytes, EntryOk, InBlob, Scan, Unwritten, StartsWith, IsFront;
    ScanStep(rest, blob);
    if entries == [] {
      assert Image(entries) == [] && rest[|Image(entries)|..] == rest;
      if rest != [] {
        StepMeans(rest, blob);
      }
    } else {
      var e, n := entries[0], |EntryBytes(entries[0])|;
      assert EntryBytes(e) <= Image(entries) <= rest;
      StepFinds(e, rest, blob);
      assert rest[n..][|Image(entries[1..])|..] == rest[|Image(entries)|..];
      assert Image(entries[1..]) <= rest[n..] by { assert Image(entries)[n..] == Image(entries[1..]); }
      ReadsIsScan(rest[n..], blob, entries[1..], verdict);
      assert [e] + entries[1..] == entries;
    }
  }

  /** The scan as a loop over the file.  The bytes leave exactly one reading, and that is the result. */
  method Recover(file: bytes, blob: bytes, table: seq<Crc.word>) returns (s: Scanned)
    requires Crc.IsTable(Crc.CRC32, table)
    ensures s == Scan(file, blob)
    ensures Reads(file, blob, s.entries, s.verdict) && s.used == |Image(s.entries)|
    ensures forall entries, verdict :: Reads(file, blob, entries, verdict) ==> entries == s.entries && verdict == s.verdict
  {
    hide Reads, Scan;
    s := ScanFile(file, blob, table);
    ScanReads(file, blob);
    forall entries, verdict | Reads(file, blob, entries, verdict)
      ensures entries == s.entries && verdict == s.verdict
    {
      ReadsIsScan(file, blob, entries, verdict);
    }
  }

  method ScanFile(file: bytes, blob: bytes, table: seq<Crc.word>) returns (s: Scanned)
    requires Crc.IsTable(Crc.CRC32, table)
    ensures s == Scan(file, blob)
  {
    hide SizeUp, Decode, EntryOk, EntryBytes, Image, InBlob, AllInBlob, Crc.IsTable, Blob.ReadAt, HasInline, HasBlob, FlagsOk;
    var pos, entries := 0, [];
    while pos < |file|
      invariant pos <= |file|
      invariant Scan(file, blob) == Onto(entries, pos, Scan(file[pos..], blob))
      decreases |file| - pos
    {
      var rest := file[pos..];
      var sized := SizeUp(rest);
      if sized.Stop? {
        return Scanned(entries, pos, sized.why);
      }
      var d := Decode(rest[..sized.n]);
      if d.None? {
        return Scanned(entries, pos, Corrupt);
      }
      DecodedHeader(rest, sized);
      var e := Entry(d.value.h, []);
      if HasInline(d.value.h.flags) {
        e := Entry(d.value.h, d.value.payload.value);
      } else {
        var payload := Blob.Read(blob, d.value.h.blobOffset, d.value.h.payloadLen, table);
        if payload.None? {
          return Scanned(entries, pos, Corrupt);
        }
        e := Entry(d.value.h, payload.value);
      }
      assert Step(rest, blob) == Found(e) && |EntryBytes(e)| == sized.n;
      OntoStep(entries, pos, rest, blob, e);
      assert rest[sized.n..] == file[pos + sized.n..];
      entries := entries + [e];
      pos := pos + sized.n;
    }
    s := Scanned(entries, pos, Clean);
  }

  function Onto(entries: seq<Entry>, pos: nat, s: Scanned): Scanned {
    Scanned(entries + s.entries, pos + s.used, s.verdict)
  }

  lemma OntoStep(entries: seq<Entry>, pos: nat, rest: bytes, blob: bytes, e: Entry)
    requires rest != [] && Step(rest, blob) == Found(e)
    ensures Onto(entries, pos, Scan(rest, blob)) == Onto(entries + [e], pos + |EntryBytes(e)|, Scan(rest[|EntryBytes(e)|..], blob))
  {
    hide Step, EntryOk, EntryBytes, Image, InBlob;
    Associate(entries, [e], Scan(rest[|EntryBytes(e)|..], blob).entries);
  }

  // ---- what the scan makes of a segment that was cut ----

  lemma HeaderNotZero(h: Header, crc: nat)
    ensures !AllZero(HeaderBytes(h, crc))
  {
    hide Size;
    var f := Fields(h, crc);
    assert Pack(LAYOUT, f) == ToLE(MAGIC, 4) + Pack(LAYOUT[1..], f[1..]);
    assert HeaderBytes(h, crc)[0] == MAGIC % 256;
  }

  /** The header of a record says how long the record is. */
  lemma SizeOfEntry(e: Entry, rest: bytes)
    requires EntryOk(e) && HDR <= |rest| && rest[..HDR] == EntryBytes(e)[..HDR]
    ensures SizeUp(rest) == if |EntryBytes(e)| <= |rest| then Whole(e.h, |EntryBytes(e)|) else Stop(Corrupt)
  {
    hide Unpack, Size, HeaderBytes, ComputeCrc, HasInline, HasBlob;
    var crc := ComputeCrc(e.h, InlinePayload(e));
    assert rest[..HDR] == HeaderBytes(e.h, crc);
    HeaderReadsBack(e.h, crc);
    HeaderNotZero(e.h, crc);
  }

  /** A whole record whose payload can be read is found. */
  lemma StepFinds(e: Entry, rest: bytes, blob: bytes)
    requires EntryOk(e) && EntryBytes(e) <= rest && InBlob(e, blob)
    ensures Step(rest, blob) == Found(e)
  {
    hide SizeUp, Decode, EntryBytes, HasInline, HasBlob, Blob.ReadAt, Blob.WholeAt, HeaderFits, FlagsOk;
    StepDecodes(e, rest);
    if !HasInline(e.h.flags) {
      FlagsSplit(e.h.flags);
      RangeOfLength(e);
      Blob.ReadIsWhole(blob, e.h.blobOffset, e.payload);
    }
  }

  lemma FlagsSplit(flags: nat)
    requires FlagsOk(flags)
    ensures HasInline(flags) == !HasBlob(flags)
  {
  }

  lemma RangeOfLength(e: Entry)
    requires EntryOk(e)
    ensures |e.payload| < U32
  {
  }

  lemma StepDecodes(e: Entry, rest: bytes)
    requires EntryOk(e) && EntryBytes(e) <= rest
    ensures SizeUp(rest) == Whole(e.h, |EntryBytes(e)|)
    ensures Decode(rest[..|EntryBytes(e)|]) == Some(Decoded(e.h, InlinePayload(e)))
  {
    hide Decode, SizeUp, HeaderBytes, ComputeCrc, HasInline, HasBlob;
    assert rest[..HDR] == EntryBytes(e)[..HDR];
    SizeOfEntry(e, rest);
    EntryEncodes(e, |rest|);
    DecodeEncode(e.h, Some(e.payload), |rest|, []);
    assert EntryBytes(e) + [] == rest[..|EntryBytes(e)|];
  }

  /** A record that was cut is corrupt. */
  lemma StepOfCut(e: Entry, rest: bytes, blob: bytes)
    requires EntryOk(e) && 0 < |rest| < |EntryBytes(e)| && rest <= EntryBytes(e)
    ensures Step(rest, blob) == Corrupt
  {
    hide Unpack, Size, HeaderBytes, ComputeCrc, HasInline, HasBlob, Decode;
    if |rest| >= HDR {
      assert rest[..HDR] == EntryBytes(e)[..HDR];
      SizeOfEntry(e, rest);
    }
  }

  /** A record whose payload was cut off the blob file is corrupt. */
  lemma StepOfLost(e: Entry, rest: bytes, blob: bytes, blob': bytes)
    requires EntryOk(e) && EntryBytes(e) <= rest && InBlob(e, blob) && blob' <= blob && !InBlob(e, blob')
    ensures Step(rest, blob') == Corrupt
  {
    hide SizeUp, Decode, EntryBytes, HasInline, HasBlob, Blob.ReadAt, Blob.WholeAt, HeaderFits, FlagsOk;
    StepDecodes(e, rest);
    FlagsSplit(e.h.flags);
    RangeOfLength(e);
    var r := Blob.ReadAt(blob', e.h.blobOffset, e.h.payloadLen);
    if r.Some? {
      Blob.ReadIsWhole(blob', e.h.blobOffset, r.value);
      Blob.WholePrefix(blob', blob, e.h.blobOffset, r.value);
      Blob.SamePlace(blob, e.h.blobOffset, r.value, e.payload);
      assert false;
    }
  }

  /** How many records from the front are whole within the first `cut` bytes, with their payloads in `blob`. */
  function WholeCount(entries: seq<Entry>, cut: nat, blob: bytes): (k: nat)
    requires AllOk(entries)
    ensures k <= |entries|
  {
    if entries == [] then 0
    else if |EntryBytes(entries[0])| <= cut && InBlob(entries[0], blob)
    then 1 + WholeCount(entries[1..], cut - |EntryBytes(entries[0])|, blob)
    else 0
  }

  /** That many records are whole, and no more: the next one, if any, is not. */
  lemma {:induction false} WholeCountIsLongest(entries: seq<Entry>, cut: nat, blob: bytes)
    requires AllOk(entries)
    ensures var k := WholeCount(entries, cut, blob);
            |Image(entries[..k])| <= cut && AllInBlob(entries[..k], blob) &&
            (k < |entries| ==> |Image(entries[..k + 1])| > cut || !InBlob(entries[k], blob))
  {
    hide EntryBytes, EntryOk, InBlob;
    var k := WholeCount(entries, cut, blob);
    if entries != [] && |EntryBytes(entries[0])| <= cut && InBlob(entries[0], blob) {
      WholeCountIsLongest(entries[1..], cut - |EntryBytes(entries[0])|, blob);
      ImageOfPrefix(entries, k);
      assert entries[..k][1..] == entries[1..][..k - 1];
      if k < |entries| { ImageOfPrefix(entries, k + 1); }
    } else if entries != [] {
      ImageOfPrefix(entries, 1);
      assert entries[1..][..0] == [];
    }
  }

  lemma ImageOfPrefix(entries: seq<Entry>, k: nat)
    requires AllOk(entries) && 0 < k <= |entries|
    ensures Image(entries[..k]) == EntryBytes(entries[0]) + Image(entries[1..][..k - 1])
  {
    hide EntryBytes, EntryOk;
    assert entries[..k][1..] == entries[1..][..k - 1];
  }

  /** Scanning a segment that was cut, beside a blob file that was cut, finds the records that are whole, up to the
      first that is not; the segment counts as corrupt exactly when bytes are left over. */
  lemma {:induction false} ScanOfCut(entries: seq<Entry>, cut: nat, blob: bytes, blob': bytes)
    requires AllOk(entries) && AllInBlob(entries, blob) && blob' <= blob && cut <= |Image(entries)|
    ensures var s, k := Scan(Image(entries)[..cut], blob'), WholeCount(entries, cut, blob');
            s.entries == entries[..k] && s.verdict == if s.used == cut then Clean else Corrupt
    decreases |entries|
  {
    hide EntryBytes, EntryOk, InBlob, Step, Scan, IsFront;
    var file := Image(entries)[..cut];
    ScanStep(file, blob');
    if cut > 0 {
      var e, n := entries[0], |EntryBytes(entries[0])|;
      if cut < n {
        assert file == EntryBytes(e)[..cut];
        StepOfCut(e, file, blob');
      } else {
        assert EntryBytes(e) <= file;
        if !InBlob(e, blob') {
          StepOfLost(e, file, blob, blob');
        } else {
          StepFinds(e, file, blob');
          assert file[n..] == Image(entries[1..])[..cut - n];
          ScanOfCut(entries[1..], cut - n, blob, blob');
          assert [e] + entries[1..][..WholeCount(entries[1..], cut - n, blob')] == entries[..WholeCount(entries, cut, blob')];
        }
      }
    }
  }

  lemma ScanStep(rest: bytes, blob: bytes)
    ensures rest == [] ==> Scan(rest, blob) == Scanned([], 0, Clean)
    ensures rest != [] && !Step(rest, blob).Found? ==> Scan(rest, blob) == Scanned([], 0, Step(rest, blob))
    ensures rest != [] && Step(rest, blob).Found? ==>
      var n := |EntryBytes(Step(rest, blob).e)|;
      Scan(rest, blob) == Onto([Step(rest, blob).e], n, Scan(rest[n..], blob))
  {
    hide Step, EntryBytes, EntryOk, InBlob, IsFront;
  }
}
