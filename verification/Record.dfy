/** Version 2 log records: a packed header of 64 bytes, and the payload unless it lives in the blob file. */
module Record {
  import opened Bytes
  import opened Optional
  import Crc

  const MAGIC: nat := 0x454D5152
  const VERSION: nat := 2
  const HDR: nat := 64
  const INLINE: nat := 1
  const BLOB: nat := 2

  /** magic, version, flags, crc32, queue_id, msg_id, timestamp_ns, deliver_at_ns, ttl_ns, priority, payload_len, blob_offset */
  const LAYOUT: seq<nat> := [4, 2, 2, 4, 4, 8, 8, 8, 8, 4, 4, 8]

  datatype Header = Header(flags: nat, queueId: nat, msgId: nat, timestamp: nat, deliverAt: nat, ttl: nat,
                           priority: nat, payloadLen: nat, blobOffset: nat)

  predicate HeaderFits(h: Header) {
    h.flags < U16 && h.queueId < U32 && h.msgId < U64 && h.timestamp < U64 && h.deliverAt < U64 && h.ttl < U64 &&
    h.priority < U32 && h.payloadLen < U32 && h.blobOffset < U64
  }

  predicate HasInline(flags: nat) { flags % 2 == 1 }

  predicate HasBlob(flags: nat) { flags / 2 % 2 == 1 }

  /** A payload is either in the record or in the blob file. */
  predicate FlagsOk(flags: nat) { HasInline(flags) != HasBlob(flags) }

  function Fields(h: Header, crc: nat): (f: seq<nat>)
    ensures |f| == 12
  {
    [MAGIC, VERSION, h.flags, crc, h.queueId, h.msgId, h.timestamp, h.deliverAt, h.ttl, h.priority, h.payloadLen, h.blobOffset]
  }

  function HeaderOf(f: seq<nat>): Header
    requires |f| == 12
  {
    Header(f[2], f[4], f[5], f[6], f[7], f[8], f[9], f[10], f[11])
  }

  lemma LayoutSize()
    ensures Size(LAYOUT) == HDR
  {
    assert Size([4, 4, 8]) == 16;
    assert Size([8, 8, 4, 4, 8]) == 32;
    assert Size([4, 8, 8, 8, 8, 4, 4, 8]) == 52;
    assert Size([2, 2, 4, 4, 8, 8, 8, 8, 4, 4, 8]) == 60;
  }

  function HeaderBytes(h: Header, crc: nat): (b: bytes)
    ensures |b| == HDR
  {
    LayoutSize();
    Pack(LAYOUT, Fields(h, crc))
  }

  function EncodedSize(payloadLen: nat, inlined: bool): nat {
    if inlined then HDR + payloadLen else HDR
  }

  /** The check value covers the header with a zero in its own place, and the payload of an inline record. */
  function ComputeCrc(h: Header, payload: Option<bytes>): (crc: nat)
    ensures crc < U32
  {
    if payload.Some? && h.payloadLen != 0 then Crc.Crc32Of2(HeaderBytes(h, 0), payload.value)
    else Crc.Crc32(HeaderBytes(h, 0))
  }

  /** Encodes into a buffer of `cap` bytes; None when the record or the buffer will not do. */
  function Encode(h: Header, payload: Option<bytes>, cap: nat): (r: Option<bytes>)
    requires payload.Some? ==> |payload.value| == h.payloadLen
  {
    var inlined := HasInline(h.flags);
    if inlined == HasBlob(h.flags) then None
    else if h.payloadLen != 0 && inlined && payload.None? then None
    else if EncodedSize(h.payloadLen, inlined) > cap then None
    else
      var carried := if inlined then payload else None;
      Some(HeaderBytes(h, ComputeCrc(h, carried)) + (if carried.Some? then carried.value else []))
  }

  datatype Decoded = Decoded(h: Header, payload: Option<bytes>)

  /** Decodes the record at the front of `src`; None when there is no intact record. */
  function Decode(src: bytes): (r: Option<Decoded>)
    ensures r.Some? ==> EncodedSize(r.value.h.payloadLen, HasInline(r.value.h.flags)) <= |src| && FlagsOk(r.value.h.flags)
    ensures r.Some? ==> r.value.payload.Some? == HasInline(r.value.h.flags)
    ensures r.Some? && r.value.payload.Some? ==> |r.value.payload.value| == r.value.h.payloadLen
  {
    if |src| < HDR then None
    else
      LayoutSize();
      var f := Unpack(LAYOUT, src[..HDR]);
      if f[0] != MAGIC || f[1] != VERSION then None
      else
        var h := HeaderOf(f);
        var inlined := HasInline(h.flags);
        if inlined == HasBlob(h.flags) then None
        else if inlined && |src| < HDR + h.payloadLen then None
        else
          var payload := if inlined then Some(src[HDR..HDR + h.payloadLen]) else None;
          if ComputeCrc(h, payload) != f[3] then None
          else Some(Decoded(h, payload))
  }

  lemma FieldsFit(h: Header, crc: nat)
    requires HeaderFits(h) && crc < U32
    ensures Fits(LAYOUT, Fields(h, crc))
  {
    RangeValues();
  }

  lemma HeaderReadsBack(h: Header, crc: nat)
    requires HeaderFits(h) && crc < U32
    ensures |HeaderBytes(h, crc)| == HDR == Size(LAYOUT)
    ensures Unpack(LAYOUT, HeaderBytes(h, crc)) == Fields(h, crc)
  {
    hide Pack, Unpack, Fits, Size, Fields;
    LayoutSize();
    FieldsFit(h, crc);
    UnpackPack(LAYOUT, Fields(h, crc));
  }

  /** Where the fields of a header lie. */
  lemma FieldPlaces(h: Header, crc: nat)
    requires HeaderFits(h) && crc < U32
    ensures var b := HeaderBytes(h, crc);
            FromLE(b[0..4]) == 0x454D5152 && FromLE(b[4..6]) == 2 && FromLE(b[6..8]) == h.flags && FromLE(b[8..12]) == crc &&
            FromLE(b[12..16]) == h.queueId && FromLE(b[16..24]) == h.msgId && FromLE(b[24..32]) == h.timestamp &&
            FromLE(b[32..40]) == h.deliverAt && FromLE(b[40..48]) == h.ttl && FromLE(b[48..52]) == h.priority &&
            FromLE(b[52..56]) == h.payloadLen && FromLE(b[56..64]) == h.blobOffset
  {
    hide Pack, Unpack, Size, FromLE, HeaderBytes;
    HeaderReadsBack(h, crc);
    var b := HeaderBytes(h, crc);
    forall k | 0 <= k < 12
      ensures Offset(LAYOUT, k) + LAYOUT[k] <= HDR && Fields(h, crc)[k] == FromLE(b[Offset(LAYOUT, k)..Offset(LAYOUT, k) + LAYOUT[k]])
    {
      FieldRead(LAYOUT, b, k);
    }
    assert Offset(LAYOUT, 1) == 4 && Offset(LAYOUT, 2) == 6 && Offset(LAYOUT, 3) == 8;
    assert Offset(LAYOUT, 4) == 12 && Offset(LAYOUT, 5) == 16 && Offset(LAYOUT, 6) == 24;
    assert Offset(LAYOUT, 7) == 32 && Offset(LAYOUT, 8) == 40 && Offset(LAYOUT, 9) == 48;
    assert Offset(LAYOUT, 10) == 52 && Offset(LAYOUT, 11) == 56;
  }

  /** The first two fields of 64 bytes. */
  lemma FrontFields(b: bytes)
    requires |b| == HDR == Size(LAYOUT)
    ensures Unpack(LAYOUT, b)[0] == FromLE(b[0..4]) && Unpack(LAYOUT, b)[1] == FromLE(b[4..6])
  {
    hide Unpack, Size, FromLE;
    FieldRead(LAYOUT, b, 0);
    FieldRead(LAYOUT, b, 1);
    assert Offset(LAYOUT, 1) == 4;
  }

  /** What is decoded is what was encoded, whatever follows it. */
  lemma DecodeEncode(h: Header, payload: Option<bytes>, cap: nat, rest: bytes)
    requires HeaderFits(h) && (payload.Some? ==> |payload.value| == h.payloadLen)
    requires Encode(h, payload, cap).Some? && (HasInline(h.flags) ==> payload.Some?)
    ensures |Encode(h, payload, cap).value| == EncodedSize(h.payloadLen, HasInline(h.flags))
    ensures Decode(Encode(h, payload, cap).value + rest) == Some(Decoded(h, if HasInline(h.flags) then payload else None))
  {
    hide Pack, Unpack, Size, HeaderBytes, ComputeCrc, HasInline, HasBlob;
    var carried := if HasInline(h.flags) then payload else None;
    var crc := ComputeCrc(h, carried);
    var src := Encode(h, payload, cap).value + rest;
    LayoutSize();
    assert src[..HDR] == HeaderBytes(h, crc);
    HeaderReadsBack(h, crc);
    if carried.Some? { assert src[HDR..HDR + h.payloadLen] == carried.value; }
  }

  lemma HeaderIsImage(b: bytes)
    requires |b| == HDR == Size(LAYOUT)
    ensures var f := Unpack(LAYOUT, b);
            HeaderFits(HeaderOf(f)) && (f[0] == MAGIC && f[1] == VERSION ==> HeaderBytes(HeaderOf(f), f[3]) == b)
  {
    hide Pack, Unpack, Size;
    RangeValues();
    PackUnpack(LAYOUT, b);
    var f := Unpack(LAYOUT, b);
    assert f[2] < Range(LAYOUT[2]) && f[4] < Range(LAYOUT[4]) && f[5] < Range(LAYOUT[5]) && f[6] < Range(LAYOUT[6]);
    assert f[7] < Range(LAYOUT[7]) && f[8] < Range(LAYOUT[8]) && f[9] < Range(LAYOUT[9]) && f[10] < Range(LAYOUT[10]);
    assert f[11] < Range(LAYOUT[11]);
    if f[0] == MAGIC && f[1] == VERSION { assert Fields(HeaderOf(f), f[3]) == f; }
  }

  /** Only images of records are accepted: what is decoded encodes to the very bytes it was decoded from. */
  lemma EncodeDecode(src: bytes)
    requires Decode(src).Some?
    ensures var d := Decode(src).value;
            HeaderFits(d.h) &&
            Encode(d.h, d.payload, |src|) == Some(src[..EncodedSize(d.h.payloadLen, HasInline(d.h.flags))])
  {
    hide Pack, Unpack, Size, HeaderBytes, ComputeCrc, HasInline, HasBlob;
    LayoutSize();
    HeaderIsImage(src[..HDR]);
    var d := Decode(src).value;
    assert HeaderBytes(d.h, ComputeCrc(d.h, d.payload)) == src[..HDR];
    if d.payload.Some? {
      assert src[..HDR] + src[HDR..HDR + d.h.payloadLen] == src[..HDR + d.h.payloadLen];
    } else {
      assert src[..HDR] + [] == src[..HDR];
    }
  }

  /** A header with a zero for its check value. */
  lemma WithoutCrc(h: Header, crc: nat)
    ensures HeaderBytes(h, 0) == Zeroed(HeaderBytes(h, crc), 8)
  {
    hide Pack, Size, ToLE;
    PackChanged(LAYOUT, Fields(h, crc), 3, 0);
    assert Fields(h, crc)[3 := 0] == Fields(h, 0);
    assert Offset(LAYOUT, 1) == 4 && Offset(LAYOUT, 2) == 6 && Offset(LAYOUT, 3) == 8;
    ZeroWord();
  }

  /** The check value of an inline record is the CRC-32 of header and payload as one message. */
  lemma CoveredByCrc(h: Header, payload: bytes)
    requires |payload| == h.payloadLen
    ensures ComputeCrc(h, Some(payload)) == Crc.Crc32(HeaderBytes(h, 0) + payload)
  {
    hide HeaderBytes, Crc.Crc32, Crc.Crc32Of2;
    if h.payloadLen == 0 {
      assert HeaderBytes(h, 0) + payload == HeaderBytes(h, 0);
    } else {
      Crc.Crc32InPieces(HeaderBytes(h, 0), payload);
    }
  }
}

/** Version 3 records: a header of 32 bytes, an optional extension, CRC-32C. */
module RecordV3 {
  import opened Bytes
  import opened Optional
  import Crc

  const MAGIC: nat := 0x454D5152
  const VERSION: nat := 3
  const HDR: nat := 32
  const EXT_SIZE: nat := 16

  /** magic, version, flags, crc32c, queue_id, msg_id, payload_len, meta_packed */
  const LAYOUT: seq<nat> := [4, 2, 2, 4, 4, 8, 4, 4]
  /** deliver_at_ns, ttl_ns */
  const EXT_LAYOUT: seq<nat> := [8, 8]

  datatype Header = Header(flags: nat, queueId: nat, msgId: nat, payloadLen: nat, metaPacked: nat)

  datatype Ext = Ext(deliverAt: nat, ttl: nat)

  predicate HeaderFits(h: Header) {
    h.flags < U16 && h.queueId < U32 && h.msgId < U64 && h.payloadLen < U32 && h.metaPacked < U32
  }

  predicate ExtFits(e: Ext) { e.deliverAt < U64 && e.ttl < U64 }

  predicate HasInline(flags: nat) { flags % 2 == 1 }

  predicate HasBlob(flags: nat) { flags / 2 % 2 == 1 }

  predicate HasExt(flags: nat) { flags / 8 % 2 == 1 }

  function Fields(h: Header, crc: nat): (f: seq<nat>)
    ensures |f| == 8
  {
    [MAGIC, VERSION, h.flags, crc, h.queueId, h.msgId, h.payloadLen, h.metaPacked]
  }

  function HeaderOf(f: seq<nat>): Header
    requires |f| == 8
  {
    Header(f[2], f[4], f[5], f[6], f[7])
  }

  lemma LayoutSizes()
    ensures Size(LAYOUT) == HDR && Size(EXT_LAYOUT) == EXT_SIZE
  {
    assert Size([8]) == 8;
    assert Size([8, 4, 4]) == 16;
    assert Size([2, 4, 4, 8, 4, 4]) == 26;
  }

  function HeaderBytes(h: Header, crc: nat): (b: bytes)
    ensures |b| == HDR
  {
    LayoutSizes();
    Pack(LAYOUT, Fields(h, crc))
  }

  function ExtBytes(e: Ext): (b: bytes)
    ensures |b| == EXT_SIZE
  {
    LayoutSizes();
    Pack(EXT_LAYOUT, [e.deliverAt, e.ttl])
  }

  function EncodedSize(payloadLen: nat, inlined: bool, ext: bool): nat {
    HDR + (if ext then EXT_SIZE else 0) + (if inlined then payloadLen else 0)
  }

  /** The check value covers the header with a zero in its own place, the extension, and an inline payload. */
  function ComputeCrc(h: Header, ext: Option<Ext>, payload: Option<bytes>): (crc: nat)
    ensures crc < U32
  {
    Crc.Crc32cOf3(HeaderBytes(h, 0),
                  if ext.Some? && HasExt(h.flags) then ExtBytes(ext.value) else [],
                  if payload.Some? && h.payloadLen != 0 then payload.value else [])
  }

  function PayloadBytes(payload: Option<bytes>): bytes {
    if payload.Some? then payload.value else []
  }

  function MaybeExt(ext: Option<Ext>): bytes {
    if ext.Some? then ExtBytes(ext.value) else []
  }

  /** Encodes into a buffer of `cap` bytes; None when the record or the buffer will not do. */
  function Encode(h: Header, ext: Option<Ext>, payload: Option<bytes>, cap: nat): (r: Option<bytes>)
    requires payload.Some? ==> |payload.value| == h.payloadLen
  {
    var inlined := HasInline(h.flags);
    if inlined == HasBlob(h.flags) then None
    else if HasExt(h.flags) != ext.Some? then None
    else if h.payloadLen != 0 && inlined && payload.None? then None
    else if EncodedSize(h.payloadLen, inlined, ext.Some?) > cap then None
    else
      var carried := if inlined then payload else None;
      Some(HeaderBytes(h, ComputeCrc(h, ext, carried)) + MaybeExt(ext) + PayloadBytes(carried))
  }

  datatype Decoded = Decoded(h: Header, ext: Option<Ext>, payload: Option<bytes>)

  function Decode(src: bytes): (r: Option<Decoded>)
    ensures r.Some? ==> r.value.ext.Some? == HasExt(r.value.h.flags) && r.value.payload.Some? == HasInline(r.value.h.flags)
    ensures r.Some? && r.value.payload.Some? ==> |r.value.payload.value| == r.value.h.payloadLen
    ensures r.Some? ==> EncodedSize(r.value.h.payloadLen, HasInline(r.value.h.flags), r.value.ext.Some?) <= |src|
  {
    if |src| < HDR then None
    else
      LayoutSizes();
      var f := Unpack(LAYOUT, src[..HDR]);
      if f[0] != MAGIC || f[1] != VERSION then None
      else
        var h := HeaderOf(f);
        var inlined := HasInline(h.flags);
        var hasExt := HasExt(h.flags);
        var off := if hasExt then HDR + EXT_SIZE else HDR;
        if inlined == HasBlob(h.flags) then None
        else if |src| < off then None
        else if inlined && |src| < off + h.payloadLen then None
        else
          var ext := if hasExt then Some(ExtOf(src[HDR..off])) else None;
          var payload := if inlined then Some(src[off..off + h.payloadLen]) else None;
          if ComputeCrc(h, ext, payload) != f[3] then None
          else Some(Decoded(h, ext, payload))
  }

  function ExtOf(b: bytes): Ext
    requires |b| == EXT_SIZE
  {
    LayoutSizes();
    var f := Unpack(EXT_LAYOUT, b);
    Ext(f[0], f[1])
  }

  lemma HeaderReadsBack(h: Header, crc: nat)
    requires HeaderFits(h) && crc < U32
    ensures Size(LAYOUT) == HDR && Unpack(LAYOUT, HeaderBytes(h, crc)) == Fields(h, crc)
  {
    hide Pack, Unpack, Size;
    LayoutSizes();
    RangeValues();
    UnpackPack(LAYOUT, Fields(h, crc));
  }

  lemma ExtReadsBack(e: Ext)
    requires ExtFits(e)
    ensures ExtOf(ExtBytes(e)) == e
  {
    hide Pack, Unpack, Size;
    LayoutSizes();
    RangeValues();
    UnpackPack(EXT_LAYOUT, [e.deliverAt, e.ttl]);
  }

  /** Where the fields of a header and of an extension lie. */
  lemma FieldPlaces(h: Header, crc: nat, e: Ext)
    requires HeaderFits(h) && crc < U32 && ExtFits(e)
    ensures var b := HeaderBytes(h, crc);
            FromLE(b[0..4]) == 0x454D5152 && FromLE(b[4..6]) == 3 && FromLE(b[6..8]) == h.flags && FromLE(b[8..12]) == crc &&
            FromLE(b[12..16]) == h.queueId && FromLE(b[16..24]) == h.msgId && FromLE(b[24..28]) == h.payloadLen &&
            FromLE(b[28..32]) == h.metaPacked
    ensures FromLE(ExtBytes(e)[0..8]) == e.deliverAt && FromLE(ExtBytes(e)[8..16]) == e.ttl
  {
    hide Pack, Unpack, Size, FromLE, HeaderBytes, ExtBytes;
    HeaderReadsBack(h, crc);
    var b := HeaderBytes(h, crc);
    forall k | 0 <= k < 8
      ensures Offset(LAYOUT, k) + LAYOUT[k] <= HDR && Fields(h, crc)[k] == FromLE(b[Offset(LAYOUT, k)..Offset(LAYOUT, k) + LAYOUT[k]])
    {
      FieldRead(LAYOUT, b, k);
    }
    assert Offset(LAYOUT, 1) == 4 && Offset(LAYOUT, 2) == 6 && Offset(LAYOUT, 3) == 8;
    assert Offset(LAYOUT, 4) == 12 && Offset(LAYOUT, 5) == 16 && Offset(LAYOUT, 6) == 24;
    assert Offset(LAYOUT, 7) == 28;
    ExtPlaces(e);
  }

  lemma ExtPlaces(e: Ext)
    requires ExtFits(e)
    ensures FromLE(ExtBytes(e)[0..8]) == e.deliverAt && FromLE(ExtBytes(e)[8..16]) == e.ttl
  {
    hide Pack, Unpack, Size, FromLE;
    LayoutSizes();
    RangeValues();
    UnpackPack(EXT_LAYOUT, [e.deliverAt, e.ttl]);
    FieldRead(EXT_LAYOUT, ExtBytes(e), 0);
    FieldRead(EXT_LAYOUT, ExtBytes(e), 1);
    assert Offset(EXT_LAYOUT, 1) == 8;
  }

  /** What is decoded is what was encoded, whatever follows it. */
  lemma DecodeEncode(h: Header, ext: Option<Ext>, payload: Option<bytes>, cap: nat, rest: bytes)
    requires HeaderFits(h) && (ext.Some? ==> ExtFits(ext.value)) && (payload.Some? ==> |payload.value| == h.payloadLen)
    requires Encode(h, ext, payload, cap).Some? && (HasInline(h.flags) ==> payload.Some?)
    ensures Decode(Encode(h, ext, payload, cap).value + rest) ==
      Some(Decoded(h, ext, if HasInline(h.flags) then payload else None))
  {
    hide Pack, Unpack, Size, HeaderBytes, ExtBytes, ExtOf, ComputeCrc, HasInline, HasBlob, HasExt;
    var carried := if HasInline(h.flags) then payload else None;
    var crc := ComputeCrc(h, ext, carried);
    var src := Encode(h, ext, payload, cap).value + rest;
    var off := if ext.Some? then HDR + EXT_SIZE else HDR;
    LayoutSizes();
    assert src[..HDR] == HeaderBytes(h, crc);
    HeaderReadsBack(h, crc);
    if ext.Some? {
      assert src[HDR..off] == ExtBytes(ext.value);
      ExtReadsBack(ext.value);
    }
    if carried.Some? { assert src[off..off + h.payloadLen] == carried.value; }
  }

  lemma HeaderIsImage(b: bytes)
    requires |b| == HDR == Size(LAYOUT)
    ensures var f := Unpack(LAYOUT, b);
            HeaderFits(HeaderOf(f)) && (f[0] == MAGIC && f[1] == VERSION ==> HeaderBytes(HeaderOf(f), f[3]) == b)
  {
    hide Pack, Unpack, Size;
    RangeValues();
    PackUnpack(LAYOUT, b);
    var f := Unpack(LAYOUT, b);
    assert f[2] < Range(LAYOUT[2]) && f[4] < Range(LAYOUT[4]) && f[5] < Range(LAYOUT[5]) && f[6] < Range(LAYOUT[6]);
    assert f[7] < Range(LAYOUT[7]);
    if f[0] == MAGIC && f[1] == VERSION { assert Fields(HeaderOf(f), f[3]) == f; }
  }

  lemma ExtIsImage(b: bytes)
    requires |b| == EXT_SIZE
    ensures ExtFits(ExtOf(b)) && ExtBytes(ExtOf(b)) == b
  {
    hide Pack, Unpack, Size;
    LayoutSizes();
    RangeValues();
    PackUnpack(EXT_LAYOUT, b);
    var f := Unpack(EXT_LAYOUT, b);
    assert f[0] < Range(EXT_LAYOUT[0]) && f[1] < Range(EXT_LAYOUT[1]);
    assert [f[0], f[1]] == f;
  }

  /** Only images of records are accepted. */
  lemma EncodeDecode(src: bytes)
    requires Decode(src).Some?
    ensures var d := Decode(src).value;
            HeaderFits(d.h) && (d.ext.Some? ==> ExtFits(d.ext.value)) &&
            Encode(d.h, d.ext, d.payload, |src|) ==
              Some(src[..EncodedSize(d.h.payloadLen, HasInline(d.h.flags), d.ext.Some?)])
  {
    hide Pack, Unpack, Size, HeaderBytes, ExtBytes, ExtOf, ComputeCrc, HasInline, HasBlob, HasExt;
    LayoutSizes();
    HeaderIsImage(src[..HDR]);
    var d := Decode(src).value;
    var off := if d.ext.Some? then HDR + EXT_SIZE else HDR;
    assert HeaderBytes(d.h, ComputeCrc(d.h, d.ext, d.payload)) == src[..HDR];
    if d.ext.Some? { ExtIsImage(src[HDR..off]); }
    assert src[..HDR] + MaybeExt(d.ext) == src[..off];
    if d.payload.Some? {
      assert src[..off] + src[off..off + d.h.payloadLen] == src[..off + d.h.payloadLen];
    } else {
      assert src[..off] + [] == src[..off];
    }
  }

  /** The check value is the CRC-32C of header, extension and inline payload as one message. */
  lemma CoveredByCrc(h: Header, ext: Option<Ext>, payload: Option<bytes>)
    requires (payload.Some? ==> |payload.value| == h.payloadLen) && ext.Some? == HasExt(h.flags)
    ensures ComputeCrc(h, ext, payload) == Crc.Crc32c(HeaderBytes(h, 0) + MaybeExt(ext) + PayloadBytes(payload))
  {
    hide HeaderBytes, ExtBytes, Crc.Crc32cOf3, HasExt;
    Crc.Crc32cInPieces(HeaderBytes(h, 0), MaybeExt(ext), PayloadBytes(payload));
  }
}
