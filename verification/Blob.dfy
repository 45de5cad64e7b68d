/** The blob file of a durable log: whole frames, one behind the other. */
module Blob {
  import opened Bytes
  import opened Optional
  import Crc

  const MAGIC: nat := 0x454D5142
  const HDR: nat := 12
  /** magic, payload_len, crc32 */
  const LAYOUT: seq<nat> := [4, 4, 4]
  const CHUNK: nat := 4096

  function Fields(payload: bytes): (f: seq<nat>)
    ensures |f| == 3
  {
    [MAGIC, |payload|, Crc.Crc32(payload)]
  }

  lemma LayoutSize()
    ensures Size(LAYOUT) == HDR
  {
    assert Size([4, 4]) == 8;
  }

  function Frame(payload: bytes): (b: bytes)
    ensures |b| == HDR + |payload|
  {
    LayoutSize();
    Pack(LAYOUT, Fields(payload)) + payload
  }

  /** The file made of the frames of these payloads. */
  function Image(payloads: seq<bytes>): bytes {
    if payloads == [] then [] else Frame(payloads[0]) + Image(payloads[1..])
  }

  predicate AllFit(payloads: seq<bytes>) {
    forall p :: p in payloads ==> |p| < U32
  }

  /** The frame of `payload` lies at `pos`, whole. */
  predicate WholeAt(file: bytes, pos: nat, payload: bytes) {
    pos + HDR + |payload| <= |file| && file[pos..pos + HDR + |payload|] == Frame(payload)
  }

  /** What the header at `pos` says, if there is one. */
  function HeaderAt(file: bytes, pos: nat): (f: Option<seq<nat>>)
    ensures f.Some? ==> |f.value| == 3 && pos + HDR <= |file|
  {
    if pos + HDR > |file| then None
    else
      LayoutSize();
      Some(Unpack(LAYOUT, file[pos..pos + HDR]))
  }

  /** The payload of `len` bytes stored at `pos`, if it is there and intact. */
  function ReadAt(file: bytes, pos: nat, len: nat): (r: Option<bytes>)
    ensures r.Some? ==> |r.value| == len && pos + HDR + len <= |file|
  {
    var f := HeaderAt(file, pos);
    if f.None? || f.value[0] != MAGIC || f.value[1] != len || pos + HDR + len > |file| then None
    else
      var payload := file[pos + HDR..pos + HDR + len];
      if Crc.Crc32(payload) == f.value[2] then Some(payload) else None
  }

  lemma HeaderReadsBack(payload: bytes)
    requires |payload| < U32
    ensures |Frame(payload)[..HDR]| == HDR == Size(LAYOUT)
    ensures Unpack(LAYOUT, Frame(payload)[..HDR]) == Fields(payload)
  {
    hide Pack, Unpack, Size;
    LayoutSize();
    RangeValues();
    UnpackPack(LAYOUT, Fields(payload));
    assert Frame(payload)[..HDR] == Pack(LAYOUT, Fields(payload));
  }

  /** What a frame consists of. */
  lemma FramePlaces(payload: bytes)
    requires |payload| < U32
    ensures var b := Frame(payload);
            FromLE(b[0..4]) == 0x454D5142 && FromLE(b[4..8]) == |payload| && FromLE(b[8..12]) == Crc.Crc32(payload) && b[12..] == payload
  {
    hide Pack, Unpack, Size, FromLE;
    HeaderReadsBack(payload);
    var b := Frame(payload)[..HDR];
    FieldRead(LAYOUT, b, 0);
    FieldRead(LAYOUT, b, 1);
    FieldRead(LAYOUT, b, 2);
    assert Offset(LAYOUT, 2) == 8;
    assert b[0..4] == Frame(payload)[0..4] && b[4..8] == Frame(payload)[4..8] && b[8..12] == Frame(payload)[8..12];
  }

  /** A read succeeds exactly when the whole frame is there. */
  lemma ReadIsWhole(file: bytes, pos: nat, payload: bytes)
    requires |payload| < U32
    ensures ReadAt(file, pos, |payload|) == Some(payload) <==> WholeAt(file, pos, payload)
  {
    hide Pack, Unpack, Size;
    LayoutSize();
    if pos + HDR + |payload| <= |file| {
      var at := file[pos..pos + HDR + |payload|];
      assert file[pos..pos + HDR] == at[..HDR] && file[pos + HDR..pos + HDR + |payload|] == at[HDR..];
      assert at == at[..HDR] + at[HDR..];
      if WholeAt(file, pos, payload) {
        HeaderReadsBack(payload);
        assert at[HDR..] == payload;
      }
      if ReadAt(file, pos, |payload|) == Some(payload) {
        HeaderIsImage(at[..HDR], payload);
      }
    }
  }

  lemma HeaderIsImage(b: bytes, payload: bytes)
    requires |b| == HDR == Size(LAYOUT) && Unpack(LAYOUT, b) == Fields(payload)
    ensures b + payload == Frame(payload)
  {
    PackUnpack(LAYOUT, b);
  }

  // ---- the file operations ----

  /** Reads and checks a payload in chunks. */
  method Read(file: bytes, pos: nat, len: nat, table: seq<Crc.word>) returns (r: Option<bytes>)
    requires Crc.IsTable(Crc.CRC32, table)
    ensures r == ReadAt(file, pos, len)
  {
    hide Crc.Update, Crc.IsTable, Unpack, Size;
    var f := HeaderAt(file, pos);
    if f.None? || f.value[0] != MAGIC || f.value[1] != len {
      return None;
    }
    var crc: Crc.word, done, payload := 0, 0, [];
    assert Crc.Update(Crc.CRC32, 0, []) == 0 by { Crc.EmptyUpdate(Crc.CRC32); }
    while done < len
      invariant done <= len && (done == 0 || pos + HDR + done <= |file|)
      invariant |payload| == done && (done > 0 ==> payload == file[pos + HDR..pos + HDR + done])
      invariant crc == Crc.Update(Crc.CRC32, 0, payload)
    {
      var n := if len - done > CHUNK then CHUNK else len - done;
      if pos + HDR + done + n > |file| {
        return None;
      }
      var chunk := file[pos + HDR + done..pos + HDR + done + n];
      Crc.UpdateComposes(Crc.CRC32, 0, payload, chunk);
      crc := Crc.TableUpdate(Crc.CRC32, table, crc, chunk);
      payload := payload + chunk;
      done := done + n;
    }
    assert payload == file[pos + HDR..pos + HDR + len];
    r := if Crc.Number(crc) == f.value[2] then Some(payload) else None;
  }

  /** Appends a frame; returns where it starts. */
  method Append(file: bytes, payload: bytes, ghost payloads: seq<bytes>) returns (file': bytes, pos: nat)
    requires file == Image(payloads)
    ensures pos == |file| && file' == Image(payloads + [payload]) && WholeAt(file', pos, payload) && file <= file'
    ensures file' == file + Frame(payload)
  {
    hide Pack, Size;
    ImageAppend(payloads, payload);
    pos := |file|;
    LayoutSize();
    file' := file + Pack(LAYOUT, [MAGIC, |payload|, Crc.Crc32(payload)]) + payload;
    assert file' == file + Frame(payload);
    assert file'[pos..pos + HDR + |payload|] == Frame(payload);
  }

  /** Cuts off whatever follows the last whole frame. */
  method Recover(file: bytes, table: seq<Crc.word>) returns (file': bytes, ghost payloads: seq<bytes>)
    requires Crc.IsTable(Crc.CRC32, table)
    ensures file' <= file && file' == Image(payloads) && AllFit(payloads)
    ensures forall p: bytes :: |p| < U32 ==> !WholeAt(file, |file'|, p)
  {
    hide Crc.IsTable, Image, Unpack, Size;
    var pos := 0;
    payloads := [];
    assert Image(payloads) == [] by { ImageEmpty(); }
    while pos < |file|
      invariant pos <= |file| && file[..pos] == Image(payloads) && AllFit(payloads)
    {
      var f := HeaderAt(file, pos);
      if f.None? || f.value[0] != MAGIC {
        break;
      }
      var end := pos + HDR + f.value[1];
      if end > |file| {
        break;
      }
      var r := Read(file, pos, f.value[1], table);
      if r.None? {
        break;
      }
      LengthFits(file, pos);
      ReadIsWhole(file, pos, r.value);
      ImageAppend(payloads, r.value);
      assert file[..end] == file[..pos] + Frame(r.value);
      payloads := payloads + [r.value];
      pos := end;
    }
    file' := file[..pos];
    forall p: bytes | |p| < U32
      ensures !WholeAt(file, pos, p)
    {
      if WholeAt(file, pos, p) { HeaderOfWhole(file, pos, p); }
    }
  }

  lemma ImageEmpty()
    ensures Image([]) == []
  {
  }

  lemma LengthFits(file: bytes, pos: nat)
    requires HeaderAt(file, pos).Some?
    ensures HeaderAt(file, pos).value[1] < U32
  {
    hide Unpack, Size;
    LayoutSize();
    RangeValues();
    var b := file[pos..pos + HDR];
    PackUnpack(LAYOUT, b);
    assert Unpack(LAYOUT, b)[1] < Range(LAYOUT[1]);
  }

  lemma HeaderOfWhole(file: bytes, pos: nat, payload: bytes)
    requires |payload| < U32 && WholeAt(file, pos, payload)
    ensures HeaderAt(file, pos) == Some(Fields(payload)) && ReadAt(file, pos, |payload|) == Some(payload)
  {
    hide Unpack, Size;
    LayoutSize();
    HeaderReadsBack(payload);
    ReadIsWhole(file, pos, payload);
    assert file[pos..pos + HDR] == file[pos..pos + HDR + |payload|][..HDR];
  }

  // ---- images ----

  lemma {:induction false} ImageAppend(payloads: seq<bytes>, payload: bytes)
    ensures Image(payloads + [payload]) == Image(payloads) + Frame(payload)
  {
    hide Frame;
    if payloads == [] {
      assert [payload][1..] == [];
      assert Image([payload]) == Frame(payload) + [];
    } else {
      assert (payloads + [payload])[1..] == payloads[1..] + [payload];
      ImageAppend(payloads[1..], payload);
      Associate(Frame(payloads[0]), Image(payloads[1..]), Frame(payload));
    }
  }

  lemma {:induction false} ImageSplit(payloads: seq<bytes>, k: nat)
    requires k <= |payloads|
    ensures Image(payloads) == Image(payloads[..k]) + Image(payloads[k..])
  {
    hide Frame;
    if k == 0 {
      assert payloads[..0] == [] && payloads[0..] == payloads;
      assert Image(payloads[..0]) + Image(payloads) == Image(payloads);
    } else {
      ImageSplit(payloads[1..], k - 1);
      assert payloads[..k][1..] == payloads[1..][..k - 1] && payloads[1..][k - 1..] == payloads[k..];
      Associate(Frame(payloads[0]), Image(payloads[1..][..k - 1]), Image(payloads[k..]));
    }
  }

  /** Frame `j` of an image is whole, where the frames before it end. */
  lemma FrameOfImage(payloads: seq<bytes>, j: nat)
    requires j < |payloads|
    ensures WholeAt(Image(payloads), |Image(payloads[..j])|, payloads[j])
    ensures |Image(payloads[..j + 1])| == |Image(payloads[..j])| + HDR + |payloads[j]|
  {
    hide Frame;
    ImageSplit(payloads, j);
    ImageSplit(payloads, j + 1);
    assert payloads[..j + 1] == payloads[..j] + [payloads[j]];
    ImageAppend(payloads[..j], payloads[j]);
    var file, pos := Image(payloads), |Image(payloads[..j])|;
    assert file == Image(payloads[..j]) + Frame(payloads[j]) + Image(payloads[j + 1..]);
    assert file[pos..pos + HDR + |payloads[j]|] == Frame(payloads[j]);
  }

  /** Where a frame starts, it is the only one. */
  lemma SamePlace(file: bytes, pos: nat, a: bytes, b: bytes)
    requires |a| < U32 && |b| < U32 && WholeAt(file, pos, a) && WholeAt(file, pos, b)
    ensures a == b
  {
    hide Unpack, Size, WholeAt;
    HeaderOfWhole(file, pos, a);
    HeaderOfWhole(file, pos, b);
  }

  lemma WholePrefix(file: bytes, longer: bytes, pos: nat, payload: bytes)
    requires file <= longer && WholeAt(file, pos, payload)
    ensures WholeAt(longer, pos, payload)
  {
    hide Frame;
    assert longer[pos..pos + HDR + |payload|] == file[pos..pos + HDR + |payload|];
  }

  /** Frames tile a file in one way only: two tilings of prefixes of a file agree as far as both go. */
  lemma {:induction false} TilingsAgree(file: bytes, a: seq<bytes>, b: seq<bytes>, k: nat)
    requires AllFit(a) && AllFit(b) && Image(a) <= file && Image(b) <= file && k <= |a| && k <= |b|
    ensures a[..k] == b[..k]
  {
    hide Image, Frame, WholeAt;
    if k > 0 {
      TilingsAgree(file, a, b, k - 1);
      FrameOfImage(a, k - 1);
      FrameOfImage(b, k - 1);
      var pos := |Image(a[..k - 1])|;
      WholePrefix(Image(a), file, pos, a[k - 1]);
      WholePrefix(Image(b), file, pos, b[k - 1]);
      assert a[k - 1] in a && b[k - 1] in b;
      SamePlace(file, pos, a[k - 1], b[k - 1]);
      assert a[..k] == a[..k - 1] + [a[k - 1]] && b[..k] == b[..k - 1] + [b[k - 1]];
    }
  }

  /** Recovery after a cut keeps exactly the frames that are whole: a frame survives if and only if it ends within
      the cut. */
  lemma CutKeepsWholeFrames(payloads: seq<bytes>, cut: nat, kept: seq<bytes>, j: nat)
    requires AllFit(payloads) && AllFit(kept) && cut <= |Image(payloads)| && Image(kept) <= Image(payloads)[..cut]
    requires forall p: bytes :: |p| < U32 ==> !WholeAt(Image(payloads)[..cut], |Image(kept)|, p)
    requires j < |payloads|
    ensures kept <= payloads
    ensures |Image(payloads[..j + 1])| <= cut <==> j < |kept|
  {
    hide Image, Frame, WholeAt;
    var file := Image(payloads);
    KeptIsPrefix(payloads, cut, kept);
    var n := |kept|;
    assert kept == payloads[..n];
    if j < n {
      ImageMonotone(payloads, j + 1, n);
    } else {
      if |Image(payloads[..j + 1])| <= cut {
        assert payloads[n] in payloads;
        ImageMonotone(payloads, n + 1, j + 1);
        FrameOfImage(payloads, n);
        CutFrame(file, cut, |Image(kept)|, payloads[n]);
        assert false;
      }
    }
  }

  lemma CutFrame(file: bytes, cut: nat, pos: nat, payload: bytes)
    requires cut <= |file| && WholeAt(file, pos, payload) && pos + HDR + |payload| <= cut
    ensures WholeAt(file[..cut], pos, payload)
  {
    hide Frame;
    assert file[..cut][pos..pos + HDR + |payload|] == file[pos..pos + HDR + |payload|];
  }

  lemma KeptIsPrefix(payloads: seq<bytes>, cut: nat, kept: seq<bytes>)
    requires AllFit(payloads) && AllFit(kept) && cut <= |Image(payloads)| && Image(kept) <= Image(payloads)[..cut]
    ensures kept <= payloads
  {
    hide Image, Frame, WholeAt;
    var file := Image(payloads);
    KeptNoLonger(payloads, kept);
    TilingsAgree(file, kept, payloads, |kept|);
    assert kept[..|kept|] == kept;
  }

  lemma KeptNoLonger(payloads: seq<bytes>, kept: seq<bytes>)
    requires AllFit(payloads) && AllFit(kept) && Image(kept) <= Image(payloads)
    ensures |kept| <= |payloads|
  {
    hide Image, Frame;
    if |kept| > |payloads| {
      TilingsAgree(Image(payloads), kept, payloads, |payloads|);
      assert kept[..|payloads|] == payloads[..|payloads|] == payloads;
      FrameOfImage(kept, |payloads|);
    }
  }

  lemma ImageMonotone(payloads: seq<bytes>, a: nat, b: nat)
    requires a <= b <= |payloads|
    ensures |Image(payloads[..a])| <= |Image(payloads[..b])|
  {
    ImageSplit(payloads[..b], a);
    assert payloads[..b][..a] == payloads[..a];
  }
}
