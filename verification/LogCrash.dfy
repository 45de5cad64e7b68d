/** The files of a log in their directory, what reopening them gives, and what crashes can make of them. */
module LogCrash {
  import opened Bytes
  import opened Optional
  import opened Segment
  import opened LogDisk
  import opened LogView
  import opened LogRecovery
  import Blob
  import LogMeta

  /** The files of one generation. */
  datatype Gen = Gen(files: seq<bytes>, blob: bytes)

  /** A directory: any number of generations, and the metadata file. */
  datatype Fs = Fs(gens: map<nat, Gen>, meta: bytes)

  function GenOf(d: Disk): Gen {
    Gen(FilesOf(d.segs), d.blob)
  }

  function FilesOf(segs: seq<Seg>): (files: seq<bytes>)
    ensures |files| == |segs| && forall i :: 0 <= i < |segs| ==> files[i] == segs[i].file
  {
    if segs == [] then [] else [segs[0].file] + FilesOf(segs[1..])
  }

  function Generation(cur: Option<LogMeta.Meta>): nat { if cur.Some? then cur.value.generation else 0 }

  function Base(cur: Option<LogMeta.Meta>): nat { if cur.Some? then cur.value.diskBase else 0 }

  function Trim(cur: Option<LogMeta.Meta>): nat { if cur.Some? then cur.value.trim else 0 }

  /** `kept` are the frames that recovery keeps of a blob file. */
  ghost predicate KeptFrames(file: bytes, kept: seq<bytes>) {
    Blob.AllFit(kept) && Blob.Image(kept) <= file && forall p: bytes :: |p| < U32 ==> !Blob.WholeAt(file, |Blob.Image(kept)|, p)
  }

  /** Every file has a longest prefix of whole frames. */
  lemma SomeKept(file: bytes) returns (kept: seq<bytes>)
    ensures KeptFrames(file, kept)
  {
    Blob.ImageEmpty();
    kept := FramesKept(file, []);
  }

  lemma {:induction false} FramesKept(file: bytes, kept: seq<bytes>) returns (all: seq<bytes>)
    requires Blob.AllFit(kept) && Blob.Image(kept) <= file
    ensures KeptFrames(file, all)
    decreases |file| - |Blob.Image(kept)|
  {
    hide Blob.Image;
    if p: bytes :| |p| < U32 && Blob.WholeAt(file, |Blob.Image(kept)|, p) {
      Blob.ImageAppend(kept, p);
      all := FramesKept(file, kept + [p]);
    } else {
      all := kept;
    }
  }

  /** There is only one. */
  lemma KeptUnique(file: bytes, a: seq<bytes>, b: seq<bytes>)
    requires KeptFrames(file, a) && KeptFrames(file, b)
    ensures a == b
  {
    hide Blob.Image, Blob.WholeAt;
    KeptNotLonger(file, a, b);
    KeptNotLonger(file, b, a);
    Blob.TilingsAgree(file, a, b, |a|);
    assert a[..|a|] == a && b[..|a|] == b;
  }

  lemma KeptNotLonger(file: bytes, a: seq<bytes>, b: seq<bytes>)
    requires KeptFrames(file, a) && KeptFrames(file, b)
    ensures |b| <= |a|
  {
    hide Blob.Image, Blob.WholeAt;
    if |a| < |b| {
      Blob.TilingsAgree(file, a, b, |a|);
      assert b[..|a|] == a by { assert a[..|a|] == a; }
      Blob.FrameOfImage(b, |a|);
      Blob.WholePrefix(Blob.Image(b), file, |Blob.Image(a)|, b[|a|]);
      assert false;
    }
  }

  /** Reopening the directory gives these messages. */
  ghost predicate Reopens(fs: Fs, msgs: seq<Msg>) {
    exists kept: seq<bytes> :: ReopensWith(fs, kept, msgs)
  }

  ghost predicate ReopensWith(fs: Fs, kept: seq<bytes>, msgs: seq<Msg>) {
    LogMeta.Load(fs.meta).Some? &&
    var cur := LogMeta.Load(fs.meta).value;
    Generation(cur) in fs.gens &&
    var gen := fs.gens[Generation(cur)];
    gen.files != [] && KeptFrames(gen.blob, kept) &&
    var r := RecoverAll(gen.files, Blob.Image(kept));
    !r.foreign && msgs == Listed(Flatten(r.parts), Base(cur), Trim(cur))
  }

  /** The files of this disk are in the directory, and the metadata in force points to them. */
  ghost predicate Points(fs: Fs, cur: Option<LogMeta.Meta>, d: Disk, parts: seq<seq<Entry>>, blobs: seq<bytes>) {
    LogMeta.InForce(fs.meta, cur) && Generation(cur) in fs.gens && fs.gens[Generation(cur)] == GenOf(d) && Written(d, parts, blobs)
  }

  /** What reopening gives is then determined: the entries of that disk that are not trimmed. */
  lemma ReopeningIsExact(fs: Fs, cur: Option<LogMeta.Meta>, d: Disk, parts: seq<seq<Entry>>, blobs: seq<bytes>)
    requires Points(fs, cur, d, parts, blobs)
    ensures Reopens(fs, Listed(Flatten(parts), Base(cur), Trim(cur)))
    ensures forall msgs :: Reopens(fs, msgs) ==> msgs == Listed(Flatten(parts), Base(cur), Trim(cur))
  {
    hide KeptFrames, RecoverAll, Flatten, Listed, LogMeta.InForce, LogMeta.Load, Written, Blob.Image;
    LogMeta.LoadInForce(fs.meta, cur);
    BlobKept(d, parts, blobs);
    assert ReopensWith(fs, blobs, Listed(Flatten(parts), Base(cur), Trim(cur))) by {
      GenerationRecovers(d, parts, blobs, blobs);
    }
    forall msgs | Reopens(fs, msgs)
      ensures msgs == Listed(Flatten(parts), Base(cur), Trim(cur))
    {
      var kept :| ReopensWith(fs, kept, msgs);
      GenerationRecovers(d, parts, blobs, kept);
    }
  }

  lemma BlobKept(d: Disk, parts: seq<seq<Entry>>, blobs: seq<bytes>)
    requires Written(d, parts, blobs)
    ensures KeptFrames(d.blob, blobs)
  {
    hide Blob.Image, Holds, Aligned, Bounded;
  }

  lemma GenerationRecovers(d: Disk, parts: seq<seq<Entry>>, blobs: seq<bytes>, kept: seq<bytes>)
    requires Written(d, parts, blobs) && KeptFrames(d.blob, kept)
    ensures GenOf(d).files != [] && GenOf(d).blob == Blob.Image(kept)
    ensures !RecoverAll(GenOf(d).files, Blob.Image(kept)).foreign && RecoverAll(GenOf(d).files, Blob.Image(kept)).parts == parts
  {
    hide Blob.Image, RecoverAll, Holds, Aligned, Bounded;
    var n := |d.segs| - 1;
    assert |d.segs| == |parts| by { WrittenIsFull(d, parts, blobs); }
    var cut := |d.segs[n].file|;
    UncutFiles(d.segs, cut);
    assert d.blob == d.blob[..|d.blob|];
    RecoveryInvertsAppending(d, parts, blobs, cut, kept);
    var i, j := RecoveryAfterCrash(d, parts, blobs, cut, |d.blob|, kept);
  }

  lemma {:induction false} UncutFiles(segs: seq<Seg>, cut: nat)
    requires segs != [] && cut == |segs[|segs| - 1].file|
    ensures Files(segs, cut) == FilesOf(segs)
    decreases |segs|
  {
    if |segs| > 1 {
      UncutFiles(segs[1..], cut);
    } else {
      assert segs[1..] == [] && segs[0].file[..cut] == segs[0].file;
      assert FilesOf(segs) == [segs[0].file] + [];
    }
  }

  // ---- crashes ----

  /** A change to the directory: the files of one generation are rewritten, removed or synced, or a metadata slot is
      written and synced. */
  datatype Change = Rewrite(g: nat, to: Gen) | Remove(g: nat) | Sync(g: nat) | PutMeta(slot: nat, b: bytes)

  predicate ChangeOk(c: Change) {
    c.PutMeta? ==> c.slot < 2 && |c.b| == LogMeta.SLOT
  }

  function Apply(fs: Fs, c: Change): Fs
    requires ChangeOk(c)
  {
    match c
    case Rewrite(g, to) => fs.(gens := fs.gens[g := to])
    case Remove(g) => fs.(gens := fs.gens - {g})
    case Sync(g) => fs
    case PutMeta(slot, b) => fs.(meta := LogMeta.WriteSlot(fs.meta, slot, b))
  }

  /** The generations that were changed since they were last synced. */
  function Loosened(loose: set<nat>, c: Change): set<nat> {
    match c
    case Rewrite(g, _) => loose + {g}
    case Remove(g) => loose + {g}
    case Sync(g) => loose - {g}
    case PutMeta(_, _) => loose
  }

  /** The directories agree but for these generations. */
  predicate AgreeBut(a: Fs, b: Fs, loose: set<nat>) {
    a.gens - loose == b.gens - loose
  }

  /** What a crash may leave while nothing is written: of what was not synced, anything at all. */
  predicate RestLeaves(fs: Fs, loose: set<nat>, crashed: Fs) {
    crashed.meta == fs.meta && AgreeBut(crashed, fs, loose)
  }

  /** What a crash during a change may leave: what was not synced, and the generation being changed, in any state at all;
      and any mixture of the old and the new bytes of the slot being written. */
  predicate CrashLeaves(fs: Fs, loose: set<nat>, c: Change, crashed: Fs)
    requires ChangeOk(c)
  {
    match c
    case PutMeta(slot, b) =>
      AgreeBut(crashed, fs, loose) && LogMeta.Torn(fs.meta, slot, b, crashed.meta) && LogMeta.NoCollision(fs.meta, slot, b, crashed.meta)
    case _ => RestLeaves(fs, loose + {c.g}, crashed)
  }

  predicate ChangesOk(changes: seq<Change>) {
    forall c :: c in changes ==> ChangeOk(c)
  }

  function Run(fs: Fs, changes: seq<Change>): Fs
    requires ChangesOk(changes)
  {
    if changes == [] then fs else Apply(Run(fs, changes[..|changes| - 1]), changes[|changes| - 1])
  }

  function Unsynced(loose: set<nat>, changes: seq<Change>): set<nat> {
    if changes == [] then loose else Loosened(Unsynced(loose, changes[..|changes| - 1]), changes[|changes| - 1])
  }

  /** Reopening gives one of the two, and nothing else. */
  ghost predicate OneOf(fs: Fs, a: seq<Msg>, b: seq<Msg>) {
    (exists msgs :: Reopens(fs, msgs)) && forall msgs :: Reopens(fs, msgs) ==> msgs == a || msgs == b
  }

  /** Wherever these changes are interrupted, reopening gives one of the two; `loose` was not synced when they began. */
  ghost predicate CrashSafe(fs: Fs, loose: set<nat>, changes: seq<Change>, a: seq<Msg>, b: seq<Msg>) {
    ChangesOk(changes) &&
    forall k, crashed ::
      0 <= k < |changes| && CrashLeaves(Run(fs, changes[..k]), Unsynced(loose, changes[..k]), changes[k], crashed) ==>
      OneOf(crashed, a, b)
  }

  /** Where these changes lead. */
  predicate Ends(fs: Fs, changes: seq<Change>, end: Fs) {
    ChangesOk(changes) && Run(fs, changes) == end
  }

  /** Once these changes are made, a crash leaves a directory that gives these messages. */
  ghost predicate Rests(fs: Fs, loose: set<nat>, changes: seq<Change>, msgs: seq<Msg>) {
    ChangesOk(changes) && forall left :: RestLeaves(Run(fs, changes), Unsynced(loose, changes), left) ==> OneOf(left, msgs, msgs)
  }

  lemma CrashSafeAppend(fs: Fs, loose: set<nat>, changes: seq<Change>, c: Change, a: seq<Msg>, b: seq<Msg>)
    requires CrashSafe(fs, loose, changes, a, b) && ChangeOk(c)
    requires forall crashed :: CrashLeaves(Run(fs, changes), Unsynced(loose, changes), c, crashed) ==> OneOf(crashed, a, b)
    ensures CrashSafe(fs, loose, changes + [c], a, b) && Run(fs, changes + [c]) == Apply(Run(fs, changes), c)
    ensures Unsynced(loose, changes + [c]) == Loosened(Unsynced(loose, changes), c)
  {
    hide OneOf, CrashLeaves, Apply, Loosened;
    var longer := changes + [c];
    assert longer[..|changes|] == changes;
    forall k, crashed | 0 <= k < |longer| && CrashLeaves(Run(fs, longer[..k]), Unsynced(loose, longer[..k]), longer[k], crashed)
      ensures OneOf(crashed, a, b)
    {
      if k < |changes| { assert longer[..k] == changes[..k] && longer[k] == changes[k]; }
    }
  }

  /** Whatever becomes of other generations does not touch the log. */
  lemma OthersDoNotMatter(fs: Fs, loose: set<nat>, crashed: Fs, cur: Option<LogMeta.Meta>, d: Disk, parts: seq<seq<Entry>>, blobs: seq<bytes>)
    requires Points(fs, cur, d, parts, blobs) && Generation(cur) !in loose && RestLeaves(fs, loose, crashed)
    ensures Points(crashed, cur, d, parts, blobs)
  {
    hide Written, GenOf, LogMeta.InForce;
    SameGeneration(fs, crashed, loose, Generation(cur));
  }

  /** Changing the files of another generation, whether or not it completes, does not touch the log. */
  lemma ElsewhereIsSafe(fs: Fs, loose: set<nat>, c: Change, crashed: Fs,
                        cur: Option<LogMeta.Meta>, d: Disk, parts: seq<seq<Entry>>, blobs: seq<bytes>)
    requires Points(fs, cur, d, parts, blobs) && ChangeOk(c) && !c.PutMeta? && c.g != Generation(cur) && Generation(cur) !in loose
    requires CrashLeaves(fs, loose, c, crashed) || crashed == Apply(fs, c)
    ensures Points(crashed, cur, d, parts, blobs) && Generation(cur) !in Loosened(loose, c)
  {
    hide Points;
    assert RestLeaves(fs, loose + {c.g}, Apply(fs, c));
    OthersDoNotMatter(fs, loose + {c.g}, crashed, cur, d, parts, blobs);
  }

  /** While the metadata slot is written, both generations are complete and synced: whatever is left, one of them is
      opened. */
  lemma SwitchIsSafe(fs: Fs, loose: set<nat>, m: LogMeta.Meta, crashed: Fs, cur: Option<LogMeta.Meta>, d: Disk, parts: seq<seq<Entry>>, blobs: seq<bytes>,
                     d': Disk, parts': seq<seq<Entry>>, blobs': seq<bytes>)
    requires Points(fs, cur, d, parts, blobs)
    requires LogMeta.MetaFits(m) && m.sequence == LogMeta.SequenceOf(cur) + 1
    requires m.generation in fs.gens && fs.gens[m.generation] == GenOf(d') && Written(d', parts', blobs')
    requires Generation(cur) !in loose && m.generation !in loose
    requires CrashLeaves(fs, loose, PutMeta(LogMeta.SlotOf(m.sequence), LogMeta.SlotBytes(m)), crashed)
    ensures Points(crashed, cur, d, parts, blobs) || Points(crashed, Some(m), d', parts', blobs')
  {
    hide Written, GenOf, LogMeta.InForce, LogMeta.Torn, LogMeta.NoCollision, LogMeta.SlotBytes;
    LogMeta.WriteIsAtomic(fs.meta, cur, m, crashed.meta);
    SameGeneration(fs, crashed, loose, Generation(cur));
    SameGeneration(fs, crashed, loose, m.generation);
  }

  lemma SameGeneration(fs: Fs, crashed: Fs, loose: set<nat>, g: nat)
    requires AgreeBut(crashed, fs, loose) && g in fs.gens && g !in loose
    ensures g in crashed.gens && crashed.gens[g] == fs.gens[g]
  {
    assert g in fs.gens - loose && (fs.gens - loose)[g] == fs.gens[g];
    assert g in crashed.gens - loose && (crashed.gens - loose)[g] == crashed.gens[g];
  }

  lemma SwitchTakesEffect(fs: Fs, m: LogMeta.Meta, cur: Option<LogMeta.Meta>, d: Disk, parts: seq<seq<Entry>>, blobs: seq<bytes>,
                          d': Disk, parts': seq<seq<Entry>>, blobs': seq<bytes>)
    requires Points(fs, cur, d, parts, blobs)
    requires LogMeta.MetaFits(m) && m.sequence == LogMeta.SequenceOf(cur) + 1
    requires m.generation in fs.gens && fs.gens[m.generation] == GenOf(d') && Written(d', parts', blobs')
    ensures Points(Apply(fs, PutMeta(LogMeta.SlotOf(m.sequence), LogMeta.SlotBytes(m))), Some(m), d', parts', blobs')
  {
    hide Written, GenOf, LogMeta.InForce, LogMeta.SlotBytes, LogMeta.WriteSlot;
    LogMeta.WriteTakesEffect(fs.meta, cur, m);
  }

  lemma PointsIsOneOf(fs: Fs, cur: Option<LogMeta.Meta>, d: Disk, parts: seq<seq<Entry>>, blobs: seq<bytes>, a: seq<Msg>, b: seq<Msg>)
    requires Points(fs, cur, d, parts, blobs)
    requires Listed(Flatten(parts), Base(cur), Trim(cur)) == a || Listed(Flatten(parts), Base(cur), Trim(cur)) == b
    ensures OneOf(fs, a, b)
  {
    hide Points, Reopens, Listed, Flatten;
    ReopeningIsExact(fs, cur, d, parts, blobs);
  }
}
