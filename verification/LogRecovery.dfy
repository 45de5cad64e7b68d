/** Recovery of a durable log from whatever a crash left of its files. */
module LogRecovery {
  import opened Bytes
  import opened Record
  import opened Segment
  import opened LogDisk
  import Blob
  import Crc

  datatype Recovered = Recovered(segs: seq<Seg>, parts: seq<seq<Entry>>, foreign: bool)

  /** The segments in order, up to the first that is corrupt; that one is cut where its last good record ends. */
  function RecoverAll(files: seq<bytes>, blob: bytes): (r: Recovered)
    ensures |r.segs| == |r.parts|
    ensures files != [] && !r.foreign ==> r.parts != []
  {
    if files == [] then Recovered([], [], false)
    else
      var s := Scan(files[0], blob);
      if s.verdict.Foreign? then Recovered([], [], true)
      else if s.verdict.Corrupt? then Recovered([Seg(files[0][..s.used], s.used)], [s.entries], false)
      else
        var rest := RecoverAll(files[1..], blob);
        Recovered([Seg(files[0], s.used)] + rest.segs, [s.entries] + rest.parts, rest.foreign)
  }

  predicate EachHolds(segs: seq<Seg>, parts: seq<seq<Entry>>, blob: bytes) {
    |segs| == |parts| && forall i :: 0 <= i < |parts| ==> SegHolds(segs[i], parts[i], blob)
  }

  /** What is recovered are whole records. */
  lemma {:induction false} RecoveredHold(files: seq<bytes>, blob: bytes)
    ensures EachHolds(RecoverAll(files, blob).segs, RecoverAll(files, blob).parts, blob)
  {
    if files == [] {
      assert RecoverAll(files, blob) == Recovered([], [], false);
    } else {
      RecoveredHold(files[1..], blob);
      RecoveredOneMore(files, blob);
    }
  }

  lemma RecoveredOneMore(files: seq<bytes>, blob: bytes)
    requires files != [] && EachHolds(RecoverAll(files[1..], blob).segs, RecoverAll(files[1..], blob).parts, blob)
    ensures EachHolds(RecoverAll(files, blob).segs, RecoverAll(files, blob).parts, blob)
  {
    hide RecoverAll, Scan, SegHolds, EachHolds;
    RecoverStep(files, blob);
    var s, rest := Scan(files[0], blob), RecoverAll(files[1..], blob);
    NoneHold(blob);
    if s.verdict.Corrupt? {
      OneMoreHolds([], [], Seg(files[0][..s.used], s.used), s.entries, blob);
    } else if s.verdict.Clean? {
      OneMoreHolds(rest.segs, rest.parts, Seg(files[0], s.used), s.entries, blob);
    }
  }

  lemma NoneHold(blob: bytes)
    ensures EachHolds([], [], blob)
  {
  }

  lemma OneMoreHolds(segs: seq<Seg>, parts: seq<seq<Entry>>, s: Seg, part: seq<Entry>, blob: bytes)
    requires EachHolds(segs, parts, blob) && SegHolds(s, part, blob)
    ensures EachHolds([s] + segs, [part] + parts, blob) && EachHolds(segs + [s], parts + [part], blob)
    ensures [s] + [] == [s] && [part] + [] == [part]
  {
    hide SegHolds;
  }

  // ---- what the bytes of the files say ----

  /** These segment files are the images of these entries, one after the other: all but the last are read to their end,
      and the last one stops as the verdict says; when that is clean, there are no more. */
  ghost predicate ReadsAs(files: seq<bytes>, blob: bytes, parts: seq<seq<Entry>>, verdict: Found) {
    0 < |parts| <= |files| && (forall i :: 0 <= i < |parts| - 1 ==> Reads(files[i], blob, parts[i], Clean)) &&
    Reads(files[|parts| - 1], blob, parts[|parts| - 1], verdict) && (verdict.Clean? ==> |parts| == |files|)
  }

  /** The segments that are left then: the last one is cut where its records end if it was corrupt. */
  ghost predicate Leaves(files: seq<bytes>, parts: seq<seq<Entry>>, verdict: Found, segs: seq<Seg>) {
    EachOk(parts) && |segs| == |parts| <= |files| &&
    forall i :: 0 <= i < |parts| ==>
      segs[i].used == |Segment.Image(parts[i])| <= |files[i]| &&
      segs[i].file == if verdict.Corrupt? && i == |parts| - 1 then files[i][..segs[i].used] else files[i]
  }

  lemma ReadsFacts(file: bytes, blob: bytes, entries: seq<Entry>, verdict: Found)
    requires Reads(file, blob, entries, verdict)
    ensures AllOk(entries) && |Segment.Image(entries)| <= |file| && !verdict.Found?
    ensures Scan(file, blob) == Scanned(entries, |Segment.Image(entries)|, verdict)
  {
    hide Scan;
    ReadsIsScan(file, blob, entries, verdict);
  }

  lemma ReadsTail(files: seq<bytes>, blob: bytes, parts: seq<seq<Entry>>, verdict: Found)
    requires ReadsAs(files, blob, parts, verdict) && |parts| > 1
    ensures Reads(files[0], blob, parts[0], Clean) && ReadsAs(files[1..], blob, parts[1..], verdict)
  {
    hide Reads;
  }

  /** What is recovered is what the bytes say. */
  lemma {:induction false} RecoversReading(files: seq<bytes>, blob: bytes, parts: seq<seq<Entry>>, verdict: Found)
    requires ReadsAs(files, blob, parts, verdict)
    ensures RecoverAll(files, blob).foreign <==> verdict.Foreign?
    ensures !verdict.Foreign? ==> RecoverAll(files, blob).parts == parts && Leaves(files, parts, verdict, RecoverAll(files, blob).segs)
    decreases |parts|
  {
    hide Reads, Scan, RecoverAll, SegHolds, Segment.Image, AllOk;
    RecoverStep(files, blob);
    if |parts| == 1 {
      ReadsFacts(files[0], blob, parts[0], verdict);
      if verdict.Clean? {
        assert files[1..] == [];
        NothingRecovered(blob);
      }
      assert parts == [parts[0]];
    } else {
      ReadsTail(files, blob, parts, verdict);
      ReadsFacts(files[0], blob, parts[0], Clean);
      RecoversReading(files[1..], blob, parts[1..], verdict);
      assert parts == [parts[0]] + parts[1..];
      if !verdict.Foreign? { LeavesFront(files, parts, verdict, RecoverAll(files[1..], blob).segs); }
    }
  }

  lemma LeavesFront(files: seq<bytes>, parts: seq<seq<Entry>>, verdict: Found, segs: seq<Seg>)
    requires |parts| > 1 && files != [] && AllOk(parts[0]) && |Segment.Image(parts[0])| <= |files[0]|
    requires Leaves(files[1..], parts[1..], verdict, segs)
    ensures Leaves(files, parts, verdict, [Seg(files[0], |Segment.Image(parts[0])|)] + segs)
  {
    hide Segment.Image, AllOk;
    forall p | p in parts
      ensures AllOk(p)
    {
      assert p == parts[0] || p in parts[1..];
    }
  }

  /** The bytes always have a reading. */
  lemma {:induction false} SomeReading(files: seq<bytes>, blob: bytes) returns (parts: seq<seq<Entry>>, verdict: Found)
    requires files != []
    ensures ReadsAs(files, blob, parts, verdict)
  {
    hide Reads, Scan, ReadsAs;
    var s := Scan(files[0], blob);
    ScanReads(files[0], blob);
    if s.verdict.Clean? && |files| > 1 {
      parts, verdict := SomeReading(files[1..], blob);
      ReadsBehind(files, blob, s.entries, parts, verdict);
      parts := [s.entries] + parts;
    } else {
      ReadsOne(files, blob, s.entries, s.verdict);
      parts, verdict := [s.entries], s.verdict;
    }
  }

  lemma ReadsOne(files: seq<bytes>, blob: bytes, entries: seq<Entry>, verdict: Found)
    requires files != [] && Reads(files[0], blob, entries, verdict) && (verdict.Clean? ==> |files| == 1)
    ensures ReadsAs(files, blob, [entries], verdict)
  {
    hide Reads;
  }

  lemma ReadsBehind(files: seq<bytes>, blob: bytes, entries: seq<Entry>, parts: seq<seq<Entry>>, verdict: Found)
    requires files != [] && Reads(files[0], blob, entries, Clean) && ReadsAs(files[1..], blob, parts, verdict)
    ensures ReadsAs(files, blob, [entries] + parts, verdict)
  {
    hide Reads;
  }

  /** Recovers from the files found on disk.  `brandNew` says that no metadata was ever written. */
  method Recover(files: seq<bytes>, blobFile: bytes, brandNew: bool, table: seq<Crc.word>)
    returns (rc: int, d: Disk, parts: seq<seq<Entry>>, ghost blobs: seq<bytes>)
    requires Crc.IsTable(Crc.CRC32, table)
    ensures rc == if RecoverAll(files, d.blob).foreign then -11 else if files == [] && !brandNew then -6 else 0
    ensures rc == 0 ==> Holds(d, parts) && parts != []
    ensures d.blob == Blob.Image(blobs) && Blob.AllFit(blobs) && d.blob <= blobFile
    ensures forall p: bytes :: |p| < U32 ==> !Blob.WholeAt(blobFile, |d.blob|, p)
    ensures rc == 0 && files != [] ==>
      d.segs == RecoverAll(files, d.blob).segs && parts == RecoverAll(files, d.blob).parts
    ensures rc == 0 && files == [] ==> d.segs == [Seg([], 0)] && parts == [[]]
    ensures files != [] ==> exists ps, v :: ReadsAs(files, d.blob, ps, v)
    ensures forall ps, v :: ReadsAs(files, d.blob, ps, v) ==>
      rc == (if v.Foreign? then -11 else 0) && (rc == 0 ==> parts == ps && Leaves(files, ps, v, d.segs))
  {
    hide RecoverAll, Holds, Blob.Image, Blob.AllFit, Blob.WholeAt, Crc.IsTable, ReadsAs, Leaves;
    rc, d, parts, blobs := RecoverFiles(files, blobFile, brandNew, table);
    if files != [] { var ps, v := SomeReading(files, d.blob); }
    forall ps, v | ReadsAs(files, d.blob, ps, v)
      ensures rc == (if v.Foreign? then -11 else 0) && (rc == 0 ==> parts == ps && Leaves(files, ps, v, d.segs))
    {
      RecoversReading(files, d.blob, ps, v);
      ReadsSome(files, d.blob, ps, v);
    }
  }

  lemma ReadsSome(files: seq<bytes>, blob: bytes, parts: seq<seq<Entry>>, verdict: Found)
    requires ReadsAs(files, blob, parts, verdict)
    ensures files != []
  {
  }

  /** The files one after the other, up to the first that is not in order. */
  method RecoverFiles(files: seq<bytes>, blobFile: bytes, brandNew: bool, table: seq<Crc.word>)
    returns (rc: int, d: Disk, parts: seq<seq<Entry>>, ghost blobs: seq<bytes>)
    requires Crc.IsTable(Crc.CRC32, table)
    ensures rc == if RecoverAll(files, d.blob).foreign then -11 else if files == [] && !brandNew then -6 else 0
    ensures rc == 0 ==> Holds(d, parts) && parts != []
    ensures d.blob == Blob.Image(blobs) && Blob.AllFit(blobs) && d.blob <= blobFile
    ensures forall p: bytes :: |p| < U32 ==> !Blob.WholeAt(blobFile, |d.blob|, p)
    ensures rc == 0 && files != [] ==>
      d.segs == RecoverAll(files, d.blob).segs && parts == RecoverAll(files, d.blob).parts
    ensures rc == 0 && files == [] ==> d.segs == [Seg([], 0)] && parts == [[]]
  {
    hide Crc.IsTable, Scan, SegHolds, Blob.WholeAt, Blob.Image, IsFront, Onto, EachHolds, RecoverAll, Reads,
      Segment.Image, AllOk, AllInBlob, Holds, Blob.AllFit;
    var blob;
    blob, blobs := Blob.Recover(blobFile, table);
    d, parts := Disk([], blob), [];
    var id := 0;
    OntoStart(RecoverAll(files, blob));
    NoneHold(blob);
    assert files[0..] == files;
    while id < |files|
      invariant id <= |files| && |d.segs| == |parts| == id && d.blob == blob
      invariant EachHolds(d.segs, parts, blob)
      invariant Onto(RecoverAll(files, blob), d.segs, parts, RecoverAll(files[id..], blob))
    {
      var s := Segment.Recover(files[id], blob, table);
      RecoverStep(files[id..], blob);
      assert files[id..][1..] == files[id + 1..];
      if s.verdict.Foreign? {
        OntoEnd(RecoverAll(files, blob), d.segs, parts, RecoverAll(files[id..], blob));
        return -11, d, parts, blobs;
      }
      if s.verdict.Corrupt? {
        OneMoreHolds(d.segs, parts, Seg(files[id][..s.used], s.used), s.entries, blob);
        EachHoldsIsHolds(Disk(d.segs + [Seg(files[id][..s.used], s.used)], blob), parts + [s.entries]);
        OntoEnd(RecoverAll(files, blob), d.segs, parts, RecoverAll(files[id..], blob));
        d := Disk(d.segs + [Seg(files[id][..s.used], s.used)], blob);
        parts := parts + [s.entries];
        return 0, d, parts, blobs;
      }
      OneMoreHolds(d.segs, parts, Seg(files[id], s.used), s.entries, blob);
      OntoStep(RecoverAll(files, blob), d.segs, parts, Seg(files[id], s.used), s.entries, RecoverAll(files[id + 1..], blob));
      d := Disk(d.segs + [Seg(files[id], s.used)], blob);
      parts := parts + [s.entries];
      id := id + 1;
    }
    assert files[id..] == [];
    NothingRecovered(blob);
    OntoEnd(RecoverAll(files, blob), d.segs, parts, RecoverAll([], blob));
    if id == 0 {
      if !brandNew {
        return -6, d, parts, blobs;
      }
      d, parts := Disk([Seg([], 0)], blob), [[]];
      EmptySegment(blob);
      OneMoreHolds([], [], Seg([], 0), [], blob);
    }
    EachHoldsIsHolds(d, parts);
    rc := 0;
  }

  lemma NothingRecovered(blob: bytes)
    ensures RecoverAll([], blob) == Recovered([], [], false)
  {
  }

  lemma EachHoldsIsHolds(d: Disk, parts: seq<seq<Entry>>)
    ensures EachHolds(d.segs, parts, d.blob) <==> Holds(d, parts)
  {
    hide SegHolds;
  }

  /** `r` is what was recovered so far, followed by `rest`. */
  predicate Onto(r: Recovered, segs: seq<Seg>, parts: seq<seq<Entry>>, rest: Recovered) {
    r == Recovered(segs + rest.segs, parts + rest.parts, rest.foreign)
  }

  lemma OntoStart(r: Recovered)
    ensures Onto(r, [], [], r)
  {
  }

  lemma OntoEnd(r: Recovered, segs: seq<Seg>, parts: seq<seq<Entry>>, rest: Recovered)
    requires Onto(r, segs, parts, rest)
    ensures r.segs == segs + rest.segs && r.parts == parts + rest.parts && r.foreign == rest.foreign
    ensures rest.segs == [] ==> segs + rest.segs == segs
    ensures rest.parts == [] ==> parts + rest.parts == parts
  {
  }

  lemma OntoStep(r: Recovered, segs: seq<Seg>, parts: seq<seq<Entry>>, s: Seg, part: seq<Entry>, rest: Recovered)
    requires Onto(r, segs, parts, Recovered([s] + rest.segs, [part] + rest.parts, rest.foreign))
    ensures Onto(r, segs + [s], parts + [part], rest)
  {
    Associate(segs, [s], rest.segs);
    Associate(parts, [part], rest.parts);
  }

  lemma EmptySegment(blob: bytes)
    ensures SegHolds(Seg([], 0), [], blob)
  {
  }

  /** One round of the loop. */
  lemma RecoverStep(files: seq<bytes>, blob: bytes)
    requires files != []
    ensures var s, r, rest := Scan(files[0], blob), RecoverAll(files, blob), RecoverAll(files[1..], blob);
            s.used <= |files[0]| &&
            (s.verdict.Foreign? ==> r == Recovered([], [], true)) &&
            (s.verdict.Corrupt? ==> r == Recovered([Seg(files[0][..s.used], s.used)], [s.entries], false) &&
                                    SegHolds(Seg(files[0][..s.used], s.used), s.entries, blob)) &&
            (s.verdict.Clean? ==> r == Recovered([Seg(files[0], s.used)] + rest.segs, [s.entries] + rest.parts, rest.foreign) &&
                                  SegHolds(Seg(files[0], s.used), s.entries, blob)) &&
            !s.verdict.Found?
  {
    hide Scan, AllOk, AllInBlob, Segment.Image;
  }

  // ---- what recovery makes of a log that was cut ----

  predicate EachOk(parts: seq<seq<Entry>>) {
    forall p :: p in parts ==> AllOk(p)
  }

  /** The files of a log whose last segment was cut after `cut` bytes. */
  function CutFiles(parts: seq<seq<Entry>>, cut: nat): (files: seq<bytes>)
    requires EachOk(parts)
    ensures |files| == |parts|
  {
    if parts == [] then []
    else
      var file := Segment.Image(parts[0]);
      if |parts| == 1 then [if cut <= |file| then file[..cut] else file]
      else [file] + CutFiles(parts[1..], cut)
  }

  /** Entry `j` of part `i` survived: its record is whole, and its payload is in what is left of the blob file. */
  predicate Whole(parts: seq<seq<Entry>>, i: nat, j: nat, cut: nat, blob: bytes)
    requires EachOk(parts)
    requires i < |parts| && j < |parts[i]|
  {
    InBlob(parts[i][j], blob) && (i == |parts| - 1 ==> EndOf(parts[i], j) <= cut)
  }

  /** Where the record of entry `j` ends in its segment. */
  function EndOf(entries: seq<Entry>, j: nat): nat
    requires AllOk(entries) && j < |entries|
  {
    |Segment.Image(entries[..j + 1])|
  }

  /** Up to entry `j` of part `i` everything survived, and that entry, if there is one, did not. */
  ghost predicate Longest(parts: seq<seq<Entry>>, i: nat, j: nat, cut: nat, blob: bytes)
    requires EachOk(parts)
  {
    i < |parts| && j <= |parts[i]| &&
    (forall a, b :: 0 <= a < i && 0 <= b < |parts[a]| ==> Whole(parts, a, b, cut, blob)) &&
    (forall b :: 0 <= b < j ==> Whole(parts, i, b, cut, blob)) &&
    if j < |parts[i]| then !Whole(parts, i, j, cut, blob) else i == |parts| - 1
  }

  predicate PartsOk(parts: seq<seq<Entry>>, blob: bytes) {
    forall p :: p in parts ==> AllOk(p) && AllInBlob(p, blob)
  }

  /** Recovery keeps the entries before entry `j` of part `i`, and nothing else; no stray bytes are left behind. */
  ghost predicate StopsAt(parts: seq<seq<Entry>>, cut: nat, blob: bytes, i: nat, j: nat)
    requires EachOk(parts)
  {
    var r := RecoverAll(CutFiles(parts, cut), blob);
    i < |parts| && j <= |parts[i]| && !r.foreign && r.parts == parts[..i] + [parts[i][..j]] && AllUsed(r.segs)
  }

  /** Recovery gives the longest prefix of entries whose record and blob frame are whole. */
  lemma {:induction false} RecoversLongestPrefix(parts: seq<seq<Entry>>, cut: nat, blob: bytes, blob': bytes) returns (i: nat, j: nat)
    requires parts != [] && PartsOk(parts, blob) && blob' <= blob
    ensures Longest(parts, i, j, cut, blob') && StopsAt(parts, cut, blob', i, j)
    decreases |parts|
  {
    hide Longest, StopsAt, WholeCount, AllInBlob, AllOk, FirstCut;
    j := WholeCount(parts[0], FirstCut(parts, cut), blob');
    if |parts| > 1 && j == |parts[0]| {
      i, j := RecoversLongestPrefix(parts[1..], cut, blob, blob');
      GoesOn(parts, cut, blob, blob', i, j);
      i := i + 1;
    } else {
      i := 0;
      Stops(parts, cut, blob, blob', j);
    }
  }

  lemma Stops(parts: seq<seq<Entry>>, cut: nat, blob: bytes, blob': bytes, k: nat)
    requires parts != [] && PartsOk(parts, blob) && blob' <= blob
    requires k == WholeCount(parts[0], FirstCut(parts, cut), blob') && (|parts| == 1 || k < |parts[0]|)
    ensures Longest(parts, 0, k, cut, blob') && StopsAt(parts, cut, blob', 0, k)
  {
    hide Longest, StopsAt, WholeCount, AllInBlob, AllOk, FirstCut, RecoverAll, CutFiles;
    RecoverFirst(parts, cut, blob, blob', k);
    LongestHere(parts, k, FirstCut(parts, cut), cut, blob');
    StopsHere(parts, cut, blob', k);
  }

  lemma GoesOn(parts: seq<seq<Entry>>, cut: nat, blob: bytes, blob': bytes, i: nat, j: nat)
    requires |parts| > 1 && PartsOk(parts, blob) && blob' <= blob
    requires WholeCount(parts[0], FirstCut(parts, cut), blob') == |parts[0]|
    requires Longest(parts[1..], i, j, cut, blob') && StopsAt(parts[1..], cut, blob', i, j)
    ensures Longest(parts, i + 1, j, cut, blob') && StopsAt(parts, cut, blob', i + 1, j)
  {
    hide Longest, StopsAt, WholeCount, AllInBlob, AllOk, RecoverAll, CutFiles;
    RecoverFirst(parts, cut, blob, blob', |parts[0]|);
    LongestTail(parts, i, j, cut, blob');
    StopsLater(parts, cut, blob', i, j);
  }

  lemma StopsHere(parts: seq<seq<Entry>>, cut: nat, blob: bytes, k: nat)
    requires parts != [] && EachOk(parts) && k <= |parts[0]|
    requires var r := RecoverAll(CutFiles(parts, cut), blob); !r.foreign && r.parts == [parts[0][..k]] && AllUsed(r.segs)
    ensures StopsAt(parts, cut, blob, 0, k)
  {
    hide RecoverAll, CutFiles, AllUsed, AllOk;
    assert [parts[0][..k]] == parts[..0] + [parts[0][..k]];
  }

  lemma StopsLater(parts: seq<seq<Entry>>, cut: nat, blob: bytes, i: nat, j: nat)
    requires |parts| > 1 && EachOk(parts) && StopsAt(parts[1..], cut, blob, i, j)
    requires RecoverAll(CutFiles(parts, cut), blob).foreign == RecoverAll(CutFiles(parts[1..], cut), blob).foreign
    requires RecoverAll(CutFiles(parts, cut), blob).parts == [parts[0]] + RecoverAll(CutFiles(parts[1..], cut), blob).parts
    requires AllUsed(RecoverAll(CutFiles(parts[1..], cut), blob).segs) ==> AllUsed(RecoverAll(CutFiles(parts, cut), blob).segs)
    ensures StopsAt(parts, cut, blob, i + 1, j)
  {
    hide RecoverAll, CutFiles, AllUsed, AllOk;
    Prepend(parts, i, parts[1..][i][..j]);
  }

  lemma Prepend<T>(s: seq<T>, i: nat, x: T)
    requires i < |s|
    ensures [s[0]] + (s[1..][..i] + [x]) == s[..i + 1] + [x]
  {
  }

  /** How much of the first segment is left. */
  function FirstCut(parts: seq<seq<Entry>>, cut: nat): (at: nat)
    requires parts != [] && AllOk(parts[0])
    ensures at <= |Segment.Image(parts[0])|
  {
    var full := |Segment.Image(parts[0])|;
    if |parts| == 1 && cut <= full then cut else full
  }

  predicate AllUsed(segs: seq<Seg>) {
    forall s :: s in segs ==> s.used == |s.file|
  }

  /** What recovery makes of the first segment. */
  lemma RecoverFirst(parts: seq<seq<Entry>>, cut: nat, blob: bytes, blob': bytes, k: nat)
    requires parts != [] && PartsOk(parts, blob) && blob' <= blob
    requires k == WholeCount(parts[0], FirstCut(parts, cut), blob')
    ensures var r := RecoverAll(CutFiles(parts, cut), blob');
            if |parts| > 1 && k == |parts[0]| then
              var rest := RecoverAll(CutFiles(parts[1..], cut), blob');
              r.foreign == rest.foreign && r.parts == [parts[0]] + rest.parts &&
              (AllUsed(rest.segs) ==> AllUsed(r.segs))
            else
              !r.foreign && r.parts == [parts[0][..k]] && AllUsed(r.segs)
  {
    hide Scan, EntryBytes, WholeCount, InBlob, AllInBlob, EntryOk, Segment.Image, SegHolds;
    var part, at, files := parts[0], FirstCut(parts, cut), CutFiles(parts, cut);
    assert part[..|part|] == part;
    assert files[0] == Segment.Image(part)[..at];
    ScanOfCut(part, at, blob, blob');
    RecoverStep(files, blob');
    UsedIsLength(part, at, blob', k);
    if |parts| > 1 {
      assert files[1..] == CutFiles(parts[1..], cut);
    } else {
      assert files[1..] == [];
    }
  }

  lemma {:induction false} ImageGrows(entries: seq<Entry>, a: nat, b: nat)
    requires AllOk(entries) && a <= b <= |entries|
    ensures |Segment.Image(entries[..a])| <= |Segment.Image(entries[..b])|
    ensures a < b ==> |Segment.Image(entries[..a])| < |Segment.Image(entries[..b])|
    decreases b - a
  {
    hide EntryBytes, EntryOk, Segment.Image;
    if a < b {
      ImageGrows(entries, a, b - 1);
      assert entries[..b] == entries[..b - 1] + [entries[b - 1]];
      ImageAppend(entries[..b - 1], entries[b - 1]);
    }
  }

  lemma UsedIsLength(part: seq<Entry>, at: nat, blob: bytes, k: nat)
    requires AllOk(part) && at <= |Segment.Image(part)| && k <= |part|
    requires Scan(Segment.Image(part)[..at], blob).entries == part[..k]
    ensures Scan(Segment.Image(part)[..at], blob).used == |Segment.Image(part[..k])|
    ensures at == |Segment.Image(part)| ==> (k == |part| <==> Scan(Segment.Image(part)[..at], blob).used == at)
  {
    hide Scan, EntryOk, Segment.Image;
    ImageGrows(part, k, |part|);
    assert part[..|part|] == part;
  }

  /** The first part is where recovery stops. */
  lemma LongestHere(parts: seq<seq<Entry>>, k: nat, at: nat, cut: nat, blob: bytes)
    requires parts != [] && EachOk(parts)
    requires k == WholeCount(parts[0], at, blob)
    requires at == FirstCut(parts, cut)
    requires k < |parts[0]| || |parts| == 1
    ensures Longest(parts, 0, k, cut, blob)
  {
    hide EntryBytes, EntryOk, Segment.Image, InBlob;
    var part := parts[0];
    WholeCountIsLongest(part, at, blob);
    assert part[..|part|] == part;
    forall b {:trigger Whole(parts, 0, b, cut, blob)} | 0 <= b < k
      ensures Whole(parts, 0, b, cut, blob)
    {
      assert part[b] == part[..k][b];
      ImageGrows(part, b + 1, k);
    }
    if k < |part| { ImageGrows(part, k + 1, |part|); }
  }

  /** The first part survived, and recovery goes on. */
  lemma LongestTail(parts: seq<seq<Entry>>, i: nat, j: nat, cut: nat, blob: bytes)
    requires |parts| > 1 && EachOk(parts)
    requires WholeCount(parts[0], |Segment.Image(parts[0])|, blob) == |parts[0]|
    requires Longest(parts[1..], i, j, cut, blob)
    ensures Longest(parts, i + 1, j, cut, blob)
  {
    hide EntryBytes, EntryOk, Segment.Image, InBlob;
    WholeCountIsLongest(parts[0], |Segment.Image(parts[0])|, blob);
    forall a, b | 0 <= a < i + 1 && 0 <= b < |parts[a]|
      ensures Whole(parts, a, b, cut, blob)
    {
      if a == 0 {
        assert parts[0][b] == parts[0][..|parts[0]|][b];
      } else {
        assert Whole(parts[1..], a - 1, b, cut, blob);
      }
    }
    forall b {:trigger Whole(parts, i + 1, b, cut, blob)} | 0 <= b < j
      ensures Whole(parts, i + 1, b, cut, blob)
    {
      assert Whole(parts[1..], i, b, cut, blob);
    }
  }

  // ---- recovery inverts appending ----

  /** The segment files of a disk, the last one cut after `cut` bytes. */
  function Files(segs: seq<Seg>, cut: nat): (files: seq<bytes>)
    ensures |files| == |segs|
  {
    if segs == [] then []
    else
      var file := segs[0].file;
      if |segs| == 1 then [if cut <= |file| then file[..cut] else file] else [file] + Files(segs[1..], cut)
  }

  predicate Full(segs: seq<Seg>, parts: seq<seq<Entry>>) {
    EachOk(parts) && |segs| == |parts| && forall i :: 0 <= i < |parts| ==> segs[i].file == Segment.Image(parts[i])
  }

  lemma {:induction false} FilesAreImages(segs: seq<Seg>, parts: seq<seq<Entry>>, cut: nat)
    requires Full(segs, parts)
    ensures Files(segs, cut) == CutFiles(parts, cut)
    decreases |parts|
  {
    hide Segment.Image, AllOk;
    if |parts| > 1 { FilesAreImages(segs[1..], parts[1..], cut); }
  }

  lemma WrittenIsFull(d: Disk, parts: seq<seq<Entry>>, blobs: seq<bytes>)
    requires Written(d, parts, blobs)
    ensures Full(d.segs, parts) && PartsOk(parts, d.blob)
  {
    hide Segment.Image, AllOk, AllInBlob, Blob.Image, Aligned;
    assert forall i :: 0 <= i < |parts| ==> SegHolds(d.segs[i], parts[i], d.blob);
    assert forall i :: 0 <= i < |parts| ==> d.segs[i].file[..d.segs[i].used] == d.segs[i].file;
  }

  /** A payload in the blob file survives a cut if and only if its frame ends within the cut. */
  lemma FrameSurvives(e: Entry, blobs: seq<bytes>, cut: nat, kept: seq<bytes>)
    requires EntryOk(e) && Aligned(e, blobs) && HasBlob(e.h.flags) && KeptOfCut(blobs, cut, kept)
    ensures InBlob(e, Blob.Image(kept)) <==> e.h.blobOffset + Blob.HDR + |e.payload| <= cut
    ensures InBlob(e, Blob.Image(kept)) ==> Aligned(e, kept)
  {
    hide Blob.Image, Blob.WholeAt, HasBlob, Blob.AllFit;
    var j :| 0 <= j < |blobs| && FrameAt(e, blobs, j);
    Blob.CutKeepsWholeFrames(blobs, cut, kept, j);
    Blob.FrameOfImage(blobs, j);
    if j < |kept| {
      assert kept[..j] == blobs[..j] && kept[j] == blobs[j];
      Blob.FrameOfImage(kept, j);
      assert FrameAt(e, kept, j);
    } else {
      KeptIsShort(blobs, cut, kept);
      if InBlob(e, Blob.Image(kept)) { BeyondKept(e, blobs, kept, j); }
    }
  }

  lemma BeyondKept(e: Entry, blobs: seq<bytes>, kept: seq<bytes>, j: nat)
    requires kept <= blobs && |kept| <= j && FrameAt(e, blobs, j)
    ensures !Blob.WholeAt(Blob.Image(kept), e.h.blobOffset, e.payload)
  {
    hide Blob.Image;
    assert kept == blobs[..|kept|];
    Blob.ImageMonotone(blobs, |kept|, j);
  }

  /** What recovery keeps of a blob file that was cut. */
  ghost predicate KeptOfCut(blobs: seq<bytes>, cut: nat, kept: seq<bytes>) {
    Blob.AllFit(blobs) && Blob.AllFit(kept) && cut <= |Blob.Image(blobs)| && Blob.Image(kept) <= Blob.Image(blobs)[..cut] &&
    forall p: bytes :: |p| < U32 ==> !Blob.WholeAt(Blob.Image(blobs)[..cut], |Blob.Image(kept)|, p)
  }

  lemma KeptIsShort(blobs: seq<bytes>, cut: nat, kept: seq<bytes>)
    requires KeptOfCut(blobs, cut, kept)
    ensures kept <= blobs && Blob.Image(kept) <= Blob.Image(blobs)
  {
    hide Blob.Image, Blob.WholeAt;
    Blob.KeptIsPrefix(blobs, cut, kept);
  }

  /** The record of entry `j` of part `i` ends within its segment as cut, and its blob frame within the blob file as cut. */
  predicate WithinCuts(parts: seq<seq<Entry>>, i: nat, j: nat, cut: nat, blobCut: nat)
    requires EachOk(parts) && i < |parts| && j < |parts[i]|
  {
    (i == |parts| - 1 ==> EndOf(parts[i], j) <= cut) &&
    (HasBlob(parts[i][j].h.flags) ==> parts[i][j].h.blobOffset + Blob.HDR + |parts[i][j].payload| <= blobCut)
  }

  /** Up to entry `j` of part `i` everything lies within the cuts, and that entry, if there is one, does not. */
  ghost predicate LongestWithin(parts: seq<seq<Entry>>, i: nat, j: nat, cut: nat, blobCut: nat)
    requires EachOk(parts)
  {
    i < |parts| && j <= |parts[i]| &&
    (forall a, b :: 0 <= a < i && 0 <= b < |parts[a]| ==> WithinCuts(parts, a, b, cut, blobCut)) &&
    (forall b :: 0 <= b < j ==> WithinCuts(parts, i, b, cut, blobCut)) &&
    if j < |parts[i]| then !WithinCuts(parts, i, j, cut, blobCut) else i == |parts| - 1
  }

  /** After a crash that cut the last segment and the blob file anywhere, recovery gives back the log up to the first
      entry that is not within the cuts, and leaves files to which a log can be appended as if that were all that was
      ever written. */
  lemma RecoveryAfterCrash(d: Disk, parts: seq<seq<Entry>>, blobs: seq<bytes>, cut: nat, blobCut: nat, kept: seq<bytes>)
    returns (i: nat, j: nat)
    requires Written(d, parts, blobs) && KeptOfCut(blobs, blobCut, kept)
    ensures EachOk(parts) && LongestWithin(parts, i, j, cut, blobCut)
    ensures var r := RecoverAll(Files(d.segs, cut), Blob.Image(kept));
            !r.foreign && r.parts == parts[..i] + [parts[i][..j]] && Flatten(r.parts) <= Flatten(parts) &&
            Written(Disk(r.segs, Blob.Image(kept)), r.parts, kept)
  {
    hide *;
    WrittenIsFull(d, parts, blobs);
    KeptFacts(d, parts, blobs, blobCut, kept);
    FilesAreImages(d.segs, parts, cut);
    FullIsOk(d.segs, parts);
    i, j := RecoversLongestPrefix(parts, cut, d.blob, Blob.Image(kept));
    LongestIsWithin(parts, i, j, cut, blobs, blobCut, kept);
    StopsFacts(parts, cut, Blob.Image(kept), i, j);
    FlattenPrefix(parts, i, j);
    StillWritten(d, parts, blobs, blobCut, kept, RecoverAll(CutFiles(parts, cut), Blob.Image(kept)), i, j);
  }

  lemma FullIsOk(segs: seq<Seg>, parts: seq<seq<Entry>>)
    requires Full(segs, parts)
    ensures EachOk(parts)
  {
  }

  lemma StopsFacts(parts: seq<seq<Entry>>, cut: nat, blob: bytes, i: nat, j: nat)
    requires EachOk(parts) && StopsAt(parts, cut, blob, i, j)
    ensures var r := RecoverAll(CutFiles(parts, cut), blob);
            i < |parts| && j <= |parts[i]| && !r.foreign && r.parts == parts[..i] + [parts[i][..j]] && AllUsed(r.segs) &&
            |r.segs| == |r.parts| && forall n :: 0 <= n < |r.parts| ==> SegHolds(r.segs[n], r.parts[n], blob)
  {
    hide SegHolds, AllUsed, RecoverAll;
    RecoveredHold(CutFiles(parts, cut), blob);
  }

  lemma KeptFacts(d: Disk, parts: seq<seq<Entry>>, blobs: seq<bytes>, blobCut: nat, kept: seq<bytes>)
    requires Written(d, parts, blobs) && KeptOfCut(blobs, blobCut, kept)
    ensures parts != [] && Blob.Image(kept) <= d.blob && Blob.AllFit(kept) && EachAligned(parts, blobs)
  {
    hide Blob.Image, Holds, Aligned, Bounded;
    KeptIsShort(blobs, blobCut, kept);
  }

  predicate EachAligned(parts: seq<seq<Entry>>, blobs: seq<bytes>) {
    forall i, e :: 0 <= i < |parts| && e in parts[i] ==> Aligned(e, blobs)
  }

  /** What survives is what lies within the cuts. */
  lemma LongestIsWithin(parts: seq<seq<Entry>>, i: nat, j: nat, cut: nat, blobs: seq<bytes>, blobCut: nat, kept: seq<bytes>)
    requires EachOk(parts) && EachAligned(parts, blobs) && KeptOfCut(blobs, blobCut, kept)
    requires Longest(parts, i, j, cut, Blob.Image(kept))
    ensures LongestWithin(parts, i, j, cut, blobCut)
  {
    hide Aligned, KeptOfCut, Blob.Image, WithinCuts, Whole, AllOk;
    forall a, b | 0 <= a < |parts| && 0 <= b < |parts[a]|
      ensures Whole(parts, a, b, cut, Blob.Image(kept)) <==> WithinCuts(parts, a, b, cut, blobCut)
    {
      WholeIsWithin(parts, a, b, cut, blobs, blobCut, kept);
    }
  }

  lemma WholeIsWithin(parts: seq<seq<Entry>>, a: nat, b: nat, cut: nat, blobs: seq<bytes>, blobCut: nat, kept: seq<bytes>)
    requires EachOk(parts) && EachAligned(parts, blobs) && KeptOfCut(blobs, blobCut, kept)
    requires a < |parts| && b < |parts[a]|
    ensures Whole(parts, a, b, cut, Blob.Image(kept)) <==> WithinCuts(parts, a, b, cut, blobCut)
  {
    hide Aligned, KeptOfCut, Blob.Image, Blob.WholeAt, HasBlob, EntryOk, EndOf;
    var e := parts[a][b];
    assert parts[a] in parts && e in parts[a] && EntryOk(e) && Aligned(e, blobs);
    if HasBlob(e.h.flags) { FrameSurvives(e, blobs, blobCut, kept); }
  }

  lemma FlattenPrefix(parts: seq<seq<Entry>>, i: nat, j: nat)
    requires i < |parts| && j <= |parts[i]|
    ensures Flatten(parts[..i] + [parts[i][..j]]) <= Flatten(parts)
  {
    hide Flatten;
    FlattenAppend(parts[..i], [parts[i][..j]]);
    FlattenOne(parts[i][..j]);
    FlattenAppend(parts[..i], parts[i..]);
    assert parts[..i] + parts[i..] == parts;
    FlattenAppend([parts[i]], parts[i + 1..]);
    FlattenOne(parts[i]);
    assert [parts[i]] + parts[i + 1..] == parts[i..];
    assert parts[i] == parts[i][..j] + parts[i][j..];
  }

  /** The recovered files are again files that appending leaves. */
  lemma StillWritten(d: Disk, parts: seq<seq<Entry>>, blobs: seq<bytes>, blobCut: nat, kept: seq<bytes>, r: Recovered, i: nat, j: nat)
    requires Written(d, parts, blobs) && KeptOfCut(blobs, blobCut, kept) && i < |parts| && j <= |parts[i]|
    requires |r.segs| == |r.parts| && r.parts == parts[..i] + [parts[i][..j]] && AllUsed(r.segs) && Blob.AllFit(kept)
    requires forall n :: 0 <= n < |r.parts| ==> SegHolds(r.segs[n], r.parts[n], Blob.Image(kept))
    ensures Written(Disk(r.segs, Blob.Image(kept)), r.parts, kept)
  {
    hide SegHolds, Blob.Image, Blob.AllFit, Aligned, KeptOfCut, Bounded;
    forall n, e | 0 <= n < |r.parts| && e in r.parts[n]
      ensures Aligned(e, kept)
    {
      assert e in parts[n];
      EntryStaysAligned(r.segs[n], r.parts[n], e, blobs, blobCut, kept);
    }
    forall n | 0 <= n < |r.parts|
      ensures r.segs[n].used == |r.segs[n].file| && Bounded(r.segs[n], r.parts[n])
    {
      assert r.segs[n] in r.segs;
      StaysBounded(d.segs[n], parts[n], d.blob, r.segs[n], r.parts[n], Blob.Image(kept));
    }
  }

  lemma EntryStaysAligned(s: Seg, part: seq<Entry>, e: Entry, blobs: seq<bytes>, blobCut: nat, kept: seq<bytes>)
    requires SegHolds(s, part, Blob.Image(kept)) && e in part && Aligned(e, blobs) && KeptOfCut(blobs, blobCut, kept)
    ensures Aligned(e, kept)
  {
    hide Blob.Image, KeptOfCut, HasBlob, Segment.Image, EntryOk, InBlob;
    if HasBlob(e.h.flags) { FrameSurvives(e, blobs, blobCut, kept); }
  }

  lemma StaysBounded(s: Seg, part: seq<Entry>, blob: bytes, s': Seg, part': seq<Entry>, blob': bytes)
    requires SegHolds(s, part, blob) && SegHolds(s', part', blob') && Bounded(s, part) && part' <= part
    ensures Bounded(s', part')
  {
    hide Segment.Image, EntryOk, InBlob;
    assert part' == part[..|part'|] && part == part[..|part|];
    ImageGrows(part, |part'|, |part|);
  }

  /** Reopening a log that was closed whole gives back every entry, from the very same files. */
  lemma RecoveryInvertsAppending(d: Disk, parts: seq<seq<Entry>>, blobs: seq<bytes>, cut: nat, kept: seq<bytes>)
    requires Written(d, parts, blobs) && KeptOfCut(blobs, |d.blob|, kept) && |d.segs[|d.segs| - 1].file| <= cut
    ensures Blob.Image(kept) == d.blob
    ensures RecoverAll(Files(d.segs, cut), d.blob).parts == parts && RecoverAll(Files(d.segs, cut), d.blob).segs == d.segs
  {
    hide KeptOfCut, Segment.Image, Aligned, SegHolds, Bounded, RecoverAll, Files, Blob.Image;
    AllKept(blobs, kept);
    var i, j := RecoveryAfterCrash(d, parts, blobs, cut, |d.blob|, kept);
    if j < |parts[i]| {
      EverythingWithin(d, parts, blobs, i, j, cut);
      assert false;
    }
    assert parts[i][..j] == parts[i] && parts[..i] + [parts[i]] == parts;
    SameSegs(d.segs, RecoverAll(Files(d.segs, cut), d.blob).segs, parts, d.blob);
  }

  lemma AllKept(blobs: seq<bytes>, kept: seq<bytes>)
    requires KeptOfCut(blobs, |Blob.Image(blobs)|, kept)
    ensures kept == blobs
  {
    hide Blob.Image, Blob.WholeAt;
    KeptIsShort(blobs, |Blob.Image(blobs)|, kept);
    if |kept| < |blobs| {
      assert blobs[..|blobs|] == blobs;
      Blob.ImageMonotone(blobs, |kept| + 1, |blobs|);
      Blob.CutKeepsWholeFrames(blobs, |Blob.Image(blobs)|, kept, |kept|);
    }
  }

  lemma EverythingWithin(d: Disk, parts: seq<seq<Entry>>, blobs: seq<bytes>, i: nat, j: nat, cut: nat)
    requires Written(d, parts, blobs) && i < |parts| && j < |parts[i]| && |d.segs[|d.segs| - 1].file| <= cut
    ensures EachOk(parts) && WithinCuts(parts, i, j, cut, |d.blob|)
  {
    hide Segment.Image, Aligned, Blob.Image, HasBlob, EntryOk;
    WrittenIsFull(d, parts, blobs);
    assert SegHolds(d.segs[i], parts[i], d.blob);
    assert InBlob(parts[i][j], d.blob);
    ImageGrows(parts[i], j + 1, |parts[i]|);
    assert parts[i][..|parts[i]|] == parts[i];
  }

  lemma SameSegs(a: seq<Seg>, b: seq<Seg>, parts: seq<seq<Entry>>, blob: bytes)
    requires |a| == |b| == |parts|
    requires forall i :: 0 <= i < |parts| ==> SegHolds(a[i], parts[i], blob) && SegHolds(b[i], parts[i], blob)
    requires forall i :: 0 <= i < |parts| ==> a[i].used == |a[i].file| && b[i].used == |b[i].file|
    ensures a == b
  {
    hide Segment.Image, AllOk, AllInBlob;
    forall i | 0 <= i < |parts|
      ensures a[i] == b[i]
    {
      assert SegHolds(a[i], parts[i], blob) && SegHolds(b[i], parts[i], blob);
      assert a[i].file[..a[i].used] == a[i].file && b[i].file[..b[i].used] == b[i].file;
    }
  }

  // ---- a crash during recovery ----

  /** Scanning what a scan found finds it again, and nothing else. */
  lemma ScanOfUsed(file: bytes, blob: bytes)
    ensures var s := Scan(file, blob); s.used <= |file| && Scan(file[..s.used], blob) == Scanned(s.entries, s.used, Clean)
  {
    hide Scan, EntryBytes, EntryOk, InBlob, Segment.Image;
    var s := Scan(file, blob);
    assert Segment.Image(s.entries)[..s.used] == file[..s.used];
    ScanOfCut(s.entries, s.used, blob, blob);
    AllWhole(s.entries, s.used, blob);
    assert s.entries[..|s.entries|] == s.entries;
    FrontOfAll(s.entries, Scan(file[..s.used], blob), file[..s.used]);
  }

  lemma {:induction false} AllWhole(entries: seq<Entry>, n: nat, blob: bytes)
    requires AllOk(entries) && AllInBlob(entries, blob) && n == |Segment.Image(entries)|
    ensures WholeCount(entries, n, blob) == |entries|
  {
    hide EntryBytes, EntryOk, InBlob;
    if entries != [] {
      AllWhole(entries[1..], n - |EntryBytes(entries[0])|, blob);
    }
  }

  lemma FrontOfAll(entries: seq<Entry>, s: Scanned, file: bytes)
    requires AllOk(entries) && s.entries == entries && s.used <= |file| && Segment.Image(s.entries) == file[..s.used]
    requires file == Segment.Image(entries) && s.verdict == (if s.used == |file| then Clean else Corrupt)
    ensures s == Scanned(entries, |file|, Clean)
  {
  }

  lemma RecoverFirstClean(files: seq<bytes>, blob: bytes, first: bytes, rest: seq<bytes>)
    requires files != [] && first == files[0] && rest == files[1..] && Scan(first, blob).verdict.Clean?
    ensures var s, r := Scan(first, blob), RecoverAll(rest, blob);
            RecoverAll(files, blob) == Recovered([Seg(first, s.used)] + r.segs, [s.entries] + r.parts, r.foreign)
  {
    hide Scan;
  }

  lemma RecoverFirstCorrupt(files: seq<bytes>, blob: bytes)
    requires files != [] && Scan(files[0], blob).verdict.Corrupt?
    ensures var s := Scan(files[0], blob);
            s.used <= |files[0]| && RecoverAll(files, blob) == Recovered([Seg(files[0][..s.used], s.used)], [s.entries], false)
  {
    hide Scan, SegHolds;
  }

  predicate AllClean(files: seq<bytes>, blob: bytes) {
    forall f :: f in files ==> Scan(f, blob).verdict.Clean?
  }

  lemma CleanTail(files: seq<bytes>, blob: bytes)
    requires files != [] && AllClean(files, blob)
    ensures Scan(files[0], blob).verdict.Clean? && AllClean(files[1..], blob)
  {
    hide Scan;
    assert files[0] in files;
  }

  /** Behind segments that are in order, recovery goes on. */
  lemma {:induction false} RecoverOnto(a: seq<bytes>, b: seq<bytes>, blob: bytes)
    requires AllClean(a, blob)
    ensures Onto(RecoverAll(a + b, blob), RecoverAll(a, blob).segs, RecoverAll(a, blob).parts, RecoverAll(b, blob))
    ensures !RecoverAll(a, blob).foreign
  {
    hide *;
    if a == [] {
      assert a + b == b;
      NothingRecovered(blob);
      OntoStart(RecoverAll(b, blob));
    } else {
      assert (a + b)[1..] == a[1..] + b;
      CleanTail(a, blob);
      RecoverOnto(a[1..], b, blob);
      RecoverFirstClean(a + b, blob, a[0], a[1..] + b);
      RecoverFirstClean(a, blob, a[0], a[1..]);
      var s, ra := Scan(a[0], blob), RecoverAll(a[1..], blob);
      OntoFront(RecoverAll(a[1..] + b, blob), ra.segs, ra.parts, RecoverAll(b, blob), Seg(a[0], s.used), s.entries);
    }
  }

  lemma OntoFront(r: Recovered, segs: seq<Seg>, parts: seq<seq<Entry>>, rest: Recovered, s: Seg, part: seq<Entry>)
    requires Onto(r, segs, parts, rest)
    ensures Onto(Recovered([s] + r.segs, [part] + r.parts, r.foreign), [s] + segs, [part] + parts, rest)
  {
    Associate([s], segs, rest.segs);
    Associate([part], parts, rest.parts);
  }

  /** The files that a recovery in which segment `id` was found corrupt has cut, but has not removed yet. */
  predicate Interrupted(files: seq<bytes>, blob: bytes, id: nat, left: seq<bytes>) {
    id < |files| && AllClean(files[..id], blob) && Scan(files[id], blob).verdict.Corrupt? && Scan(files[id], blob).used <= |files[id]| &&
    left == files[..id] + ([files[id][..Scan(files[id], blob).used]] + files[id + 1..])
  }

  lemma InterruptedFacts(files: seq<bytes>, blob: bytes, id: nat, left: seq<bytes>)
    requires Interrupted(files, blob, id, left)
    ensures id < |files| && AllClean(files[..id], blob) && Scan(files[id], blob).verdict.Corrupt?
    ensures Scan(files[id], blob).used <= |files[id]|
    ensures left == files[..id] + ([files[id][..Scan(files[id], blob).used]] + files[id + 1..])
  {
    hide Scan, AllClean;
  }

  lemma Halves<T>(s: seq<T>, k: nat)
    requires k < |s|
    ensures s == s[..k] + s[k..] && s[k..] != [] && s[k..][0] == s[k]
  {
  }

  /** Recovery stops at the corrupt segment. */
  lemma FirstRecovery(files: seq<bytes>, blob: bytes, id: nat, left: seq<bytes>)
    requires Interrupted(files, blob, id, left)
    ensures RecoverAll(files, blob).parts == RecoverAll(files[..id], blob).parts + [Scan(files[id], blob).entries]
    ensures !RecoverAll(files, blob).foreign
  {
    hide *;
    InterruptedFacts(files, blob, id, left);
    var front, back := files[..id], files[id..];
    Halves(files, id);
    RecoverOnto(front, back, blob);
    RecoverFirstCorrupt(back, blob);
    OntoEnd(RecoverAll(files, blob), RecoverAll(front, blob).segs, RecoverAll(front, blob).parts, RecoverAll(back, blob));
  }

  /** Once that is cut, recovery goes on behind it. */
  lemma NextRecovery(front: seq<bytes>, file: bytes, rest: seq<bytes>, blob: bytes)
    requires AllClean(front, blob) && Scan(file, blob).used <= |file|
    ensures var s := Scan(file, blob);
            var r := RecoverAll(front + ([file[..s.used]] + rest), blob);
            r.parts == RecoverAll(front, blob).parts + ([s.entries] + RecoverAll(rest, blob).parts) &&
            r.foreign == RecoverAll(rest, blob).foreign
  {
    hide *;
    var cut := file[..Scan(file, blob).used];
    var files := [cut] + rest;
    RecoverOnto(front, files, blob);
    OntoEnd(RecoverAll(front + files, blob), RecoverAll(front, blob).segs, RecoverAll(front, blob).parts, RecoverAll(files, blob));
    ScanOfUsed(file, blob);
    RecoverFirstClean(files, blob, cut, rest);
  }

  /** A crash after a corrupt segment was cut and before those behind it were removed: the next recovery gives the same
      entries if and only if there is nothing to find in those. */
  lemma InterruptedRecovery(files: seq<bytes>, blob: bytes, id: nat, left: seq<bytes>)
    requires Interrupted(files, blob, id, left)
    ensures var done, again, rest := RecoverAll(files, blob), RecoverAll(left, blob), RecoverAll(files[id + 1..], blob);
            !done.foreign && again.parts == done.parts + rest.parts &&
            (!again.foreign && Flatten(again.parts) == Flatten(done.parts) <==> !rest.foreign && Flatten(rest.parts) == [])
  {
    hide *;
    InterruptedFacts(files, blob, id, left);
    var rest := files[id + 1..];
    FirstRecovery(files, blob, id, left);
    NextRecovery(files[..id], files[id], rest, blob);
    Associate(RecoverAll(files[..id], blob).parts, [Scan(files[id], blob).entries], RecoverAll(rest, blob).parts);
    FlattenAppend(RecoverAll(files, blob).parts, RecoverAll(rest, blob).parts);
  }

  /** An input for which it gives more: a segment of one stray byte, and a whole record in the segment behind it. */
  lemma InterruptedExample(e: Entry, blob: bytes)
    requires EntryOk(e) && InBlob(e, blob)
    ensures var files, left := [[1], Segment.Image([e])], [[], Segment.Image([e])];
            Interrupted(files, blob, 0, left) &&
            RecoverAll(files, blob).parts == [[]] && RecoverAll(left, blob).parts == [[], [e]]
  {
    hide Step, EntryBytes, EntryOk, InBlob, Scan, SegHolds;
    var stray, whole: bytes := [1], Segment.Image([e]);
    var files, left := [stray, whole], [[], whole];
    StrayByte(stray, blob);
    ScanStep([], blob);
    ScanOfImage(e, blob);
    assert files[..0] == [] && files[0][..0] == [] && files[0 + 1..] == [whole] && left == [] + [[]] + [whole];
    RecoverFirstCorrupt(files, blob);
    RecoverFirstClean(left, blob, [], [whole]);
    RecoverFirstClean([whole], blob, whole, []);
    NothingRecovered(blob);
  }

  lemma StrayByte(stray: bytes, blob: bytes)
    requires |stray| == 1
    ensures Scan(stray, blob) == Scanned([], 0, Corrupt)
  {
    hide Scan, IsFront;
    ScanStep(stray, blob);
  }

  lemma ScanOfImage(e: Entry, blob: bytes)
    requires EntryOk(e) && InBlob(e, blob)
    ensures Scan(Segment.Image([e]), blob) == Scanned([e], |Segment.Image([e])|, Clean)
  {
    hide Step, EntryBytes, EntryOk, InBlob, Scan, IsFront;
    var file := Segment.Image([e]);
    assert [e][1..] == [] && Segment.Image([e]) == EntryBytes(e) + [];
    StepFinds(e, file, blob);
    ScanStep(file, blob);
    assert file[|EntryBytes(e)|..] == [];
    ScanStep([], blob);
  }

  /** What a recovery that completed has left is recovered to the same entries. */
  lemma RecoveryIsIdempotent(files: seq<bytes>, blob: bytes, id: nat, left: seq<bytes>)
    requires Interrupted(files, blob, id, left)
    ensures RecoverAll(left[..id + 1], blob).parts == RecoverAll(files, blob).parts && !RecoverAll(left[..id + 1], blob).foreign
  {
    hide *;
    InterruptedFacts(files, blob, id, left);
    FirstRecovery(files, blob, id, left);
    UpTo(files[..id], files[id][..Scan(files[id], blob).used], files[id + 1..]);
    NextRecovery(files[..id], files[id], [], blob);
    NothingRecovered(blob);
  }

  lemma UpTo<T>(front: seq<T>, x: T, rest: seq<T>)
    ensures (front + ([x] + rest))[..|front| + 1] == front + ([x] + [])
  {
  }
}
