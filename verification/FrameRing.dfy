/** Frames of varying length in a circular byte buffer, as both byte rings of the project lay them out.

    Positions grow for ever; position `p` is the byte at index `p` modulo the capacity.  Between the head and
    the tail lies a window of bytes that is tiled by frames.  A data frame never wraps around the end of the
    buffer: when it would, the rest of the buffer is covered by a padding frame, which a data frame follows.
  */
module FrameRing {
  import opened Arith
  import opened Bytes

  /** A data frame starts with the known bytes `head`; its `body` follows after `gap` more bytes.  Of a
      padding frame only the first eight bytes (length and status) are ever read. */
  datatype Frame =
    | Data(head: bytes, gap: nat, body: bytes)
    | Pad(mark: bytes, len: nat)

  function Align8(v: nat): (a: nat)
    ensures a % 8 == 0 && v <= a < v + 8
  {
    (v + 7) / 8 * 8
  }

  function BodyAt(f: Frame): nat
    requires f.Data?
  {
    |f.head| + f.gap
  }

  function Total(f: Frame): nat {
    if f.Data? then Align8(BodyAt(f) + |f.body|) else f.len
  }

  function TotalOf(frames: seq<Frame>): nat {
    if frames == [] then 0 else Total(frames[0]) + TotalOf(frames[1..])
  }

  /** The bytes `w` are an image of the frame. */
  predicate Holds(w: bytes, f: Frame) {
    |w| == Total(f) &&
    match f
    case Data(head, gap, body) => head == w[..|head|] && body == w[BodyAt(f)..BodyAt(f) + |body|]
    case Pad(mark, len) => |mark| == 8 <= |w| && mark == w[..8]
  }

  predicate Tiles(w: bytes, frames: seq<Frame>) {
    if frames == [] then w == []
    else Total(frames[0]) <= |w| && Holds(w[..Total(frames[0])], frames[0]) && Tiles(w[Total(frames[0])..], frames[1..])
  }

  /** Where a frame may lie: aligned, a data frame in one piece, padding exactly up to the end of the buffer and in front of
      a data frame that would have wrapped. */
  predicate FrameLaid(pos: nat, f: Frame, cap: nat)
    requires cap > 0
  {
    pos % 8 == 0 && Total(f) % 8 == 0 && Total(f) > 0 &&
    if f.Data? then Index(pos, cap) + Total(f) <= cap else Index(pos, cap) + f.len == cap
  }

  predicate Laid(pos: nat, frames: seq<Frame>, cap: nat)
    requires cap > 0
    decreases |frames|
  {
    frames == [] ||
    (FrameLaid(pos, frames[0], cap) &&
     (frames[0].Pad? ==> |frames| > 1 && frames[1].Data? && Total(frames[1]) > frames[0].len) &&
     Laid(pos + Total(frames[0]), frames[1..], cap))
  }

  /** The bytes between two positions, in order. */
  function Window(mem: bytes, a: nat, b: nat): (w: bytes)
    requires |mem| > 0 && a <= b
    ensures |w| == b - a
  {
    seq(b - a, i requires 0 <= i < b - a => mem[Index(a + i, |mem|)])
  }

  predicate RingOk(mem: bytes, head: nat, tail: nat, frames: seq<Frame>) {
    |mem| > 0 && |mem| % 8 == 0 && head % 8 == 0 &&
    head <= tail <= head + |mem| &&
    Tiles(Window(mem, head, tail), frames) && Laid(head, frames, |mem|)
  }

  lemma EmptyRing(mem: bytes)
    requires |mem| > 0 && |mem| % 8 == 0
    ensures RingOk(mem, 0, 0, [])
  {
    assert Window(mem, 0, 0) == [];
  }

  /** How much of the buffer has to be skipped before a frame of `need` bytes fits in one piece. */
  function PadFor(idx: nat, need: nat, cap: nat): nat
    requires idx < cap
  {
    if idx + need > cap then cap - idx else 0
  }

  /** Where a frame of `need` bytes starts that is written at this position: there if it fits up to the end of the buffer,
      and else at the beginning of the buffer. */
  function StartOf(pos: nat, need: nat, cap: nat): nat {
    if cap == 0 || need <= cap - Index(pos, cap) then pos else pos + (cap - Index(pos, cap))
  }

  /** There is room for a frame of `need` bytes behind the tail: either it fits up to the end of the buffer, within the bytes
      that are free, or they are enough for the rest of the buffer and the frame. */
  predicate Accepts(head: nat, tail: nat, need: nat, cap: nat) {
    0 < cap &&
    var free, rest := cap - (tail - head), cap - Index(tail, cap);
    (need <= rest && need <= free) || rest + need <= free
  }

  lemma RoomForPadding(head: nat, tail: nat, need: nat, cap: nat)
    requires cap > 0 && head <= tail
    ensures Accepts(head, tail, need, cap) <==> tail - head + PadFor(Index(tail, cap), need, cap) + need <= cap
    ensures Accepts(head, tail, need, cap) ==> need <= cap
    ensures tail + PadFor(Index(tail, cap), need, cap) == StartOf(tail, need, cap)
  {
    hide Index;
  }

  /** A frame that starts at this position lies in one piece in the free part of the buffer. */
  predicate Place(head: nat, tail: nat, need: nat, cap: nat, pos: nat)
    requires cap > 0
  {
    tail <= pos && pos + need <= head + cap && Index(pos, cap) + need <= cap
  }

  /** A frame is accepted if and only if there is a place for it, and it is put in the first one. */
  lemma AcceptsIffPlace(head: nat, tail: nat, need: nat, cap: nat)
    requires cap > 0 && head <= tail
    ensures Accepts(head, tail, need, cap) <==> exists pos: nat :: Place(head, tail, need, cap, pos)
    ensures Accepts(head, tail, need, cap) ==> Place(head, tail, need, cap, StartOf(tail, need, cap))
    ensures forall pos: nat :: Place(head, tail, need, cap, pos) ==> StartOf(tail, need, cap) <= pos
  {
    hide Index;
    if Accepts(head, tail, need, cap) {
      if need > cap - Index(tail, cap) { WrapToZero(tail, cap); }
      assert Place(head, tail, need, cap, StartOf(tail, need, cap));
    }
    forall pos: nat | Place(head, tail, need, cap, pos)
      ensures StartOf(tail, need, cap) <= pos && Accepts(head, tail, need, cap)
    {
      if need > cap - Index(tail, cap) && pos - tail < cap - Index(tail, cap) {
        IndexStep(tail, pos - tail, cap);
        assert false;
      }
    }
  }

  /** As long as nothing has wrapped, only the end of the buffer limits what is accepted. */
  lemma FirstLapAccepts(head: nat, tail: nat, need: nat, cap: nat)
    requires 0 < need && tail + need <= cap
    ensures Accepts(head, tail, need, cap) && StartOf(tail, need, cap) == tail
  {
    SmallIndex(tail, cap);
  }

  /** An empty ring takes every frame of at most half its capacity, wherever its tail happens to be; and no
      larger frame is taken at every position. */
  lemma HalfCapacityIsTheBound(half: nat, need: nat)
    requires half > 0 && half % 8 == 0 && need % 8 == 0 && need > 0
    ensures need <= half <==> forall tail: nat :: tail % 8 == 0 ==> Accepts(tail, tail, need, 2 * half)
  {
    hide *;
    if need <= half {
      forall tail: nat | tail % 8 == 0
        ensures Accepts(tail, tail, need, 2 * half)
      {
        HalfAccepted(tail, need, half);
      }
    } else {
      RefusedInTheMiddle(half, need);
    }
  }

  lemma RefusedInTheMiddle(half: nat, need: nat)
    requires half > 0 && need > half
    ensures !Accepts(half, half, need, 2 * half)
  {
    SmallIndex(half, 2 * half);
  }

  lemma HalfAccepted(tail: nat, need: nat, half: nat)
    requires half % 8 == 0 && half > 0 && need % 8 == 0 && need <= half && tail % 8 == 0
    ensures Accepts(tail, tail, need, 2 * half)
  {
    hide Index;
    AlignedIndex(tail, 2 * half);
  }

  // ---- windows ----

  lemma WindowSplit(mem: bytes, a: nat, b: nat, c: nat)
    requires |mem| > 0 && a <= b <= c
    ensures Window(mem, a, c) == Window(mem, a, b) + Window(mem, b, c)
  {
    var w := Window(mem, a, b) + Window(mem, b, c);
    forall i | 0 <= i < c - a
      ensures Window(mem, a, c)[i] == w[i]
    {
      if i >= b - a { assert b + (i - (b - a)) == a + i; }
    }
  }

  /** A stretch that does not wrap is a slice of the buffer. */
  lemma WindowInOnePiece(mem: bytes, pos: nat, n: nat)
    requires |mem| > 0 && Index(pos, |mem|) + n <= |mem|
    ensures Window(mem, pos, pos + n) == mem[Index(pos, |mem|)..Index(pos, |mem|) + n]
  {
    var w, s := Window(mem, pos, pos + n), mem[Index(pos, |mem|)..Index(pos, |mem|) + n];
    forall i | 0 <= i < n
      ensures w[i] == s[i]
    {
      IndexStep(pos, i, |mem|);
    }
  }

  /** The buffers differ at most in `n` bytes from index `at` on. */
  predicate SameOutside(mem: bytes, mem': bytes, at: nat, n: nat) {
    |mem'| == |mem| && forall i :: 0 <= i < |mem| && !(at <= i < at + n) ==> mem'[i] == mem[i]
  }

  /** Positions less than a lap apart never share a byte, so writing ahead of the window leaves it alone. */
  lemma WindowUntouched(mem: bytes, mem': bytes, head: nat, tail: nat, pos: nat, n: nat)
    requires |mem| > 0 && head <= tail <= pos && pos + n <= head + |mem|
    requires Index(pos, |mem|) + n <= |mem| && SameOutside(mem, mem', Index(pos, |mem|), n)
    ensures Window(mem', head, tail) == Window(mem, head, tail)
  {
    forall i | 0 <= i < tail - head
      ensures Window(mem', head, tail)[i] == Window(mem, head, tail)[i]
    {
      var p := head + i;
      var idx := Index(p, |mem|);
      if Index(pos, |mem|) <= idx < Index(pos, |mem|) + n {
        IndexStep(pos, idx - Index(pos, |mem|), |mem|);
        IndexGap(p, pos + (idx - Index(pos, |mem|)), |mem|);
        assert false;
      }
    }
  }

  // ---- frames ----

  lemma {:induction false} TilesLength(w: bytes, frames: seq<Frame>)
    requires Tiles(w, frames)
    ensures |w| == TotalOf(frames)
  {
    if frames != [] { TilesLength(w[Total(frames[0])..], frames[1..]); }
  }

  lemma {:induction false} TilesAppend(w: bytes, frames: seq<Frame>, w2: bytes, more: seq<Frame>)
    requires Tiles(w, frames) && Tiles(w2, more)
    ensures Tiles(w + w2, frames + more)
  {
    if frames == [] {
      assert w + w2 == w2 && frames + more == more;
    } else {
      var n := Total(frames[0]);
      TilesAppend(w[n..], frames[1..], w2, more);
      assert (w + w2)[..n] == w[..n] && (w + w2)[n..] == w[n..] + w2;
      assert (frames + more)[1..] == frames[1..] + more;
    }
  }

  lemma {:induction false} LaidAppend(pos: nat, frames: seq<Frame>, more: seq<Frame>, cap: nat)
    requires cap > 0 && Laid(pos, frames, cap) && Laid(pos + TotalOf(frames), more, cap)
    ensures Laid(pos, frames + more, cap)
    decreases |frames|
  {
    if frames == [] {
      assert frames + more == more;
    } else {
      LaidAppend(pos + Total(frames[0]), frames[1..], more, cap);
      assert (frames + more)[1..] == frames[1..] + more;
    }
  }

  lemma TilesOne(w: bytes, f: Frame)
    requires Holds(w, f)
    ensures Tiles(w, [f])
  {
    assert w[..Total(f)] == w && w[Total(f)..] == [];
  }

  /** The frame at the head lies in one piece, and is whole. */
  lemma HeadFrame(mem: bytes, head: nat, tail: nat, frames: seq<Frame>)
    requires RingOk(mem, head, tail, frames) && frames != []
    ensures head + Total(frames[0]) <= tail && Total(frames[0]) >= 8
    ensures frames[0].Pad? ==> |frames| > 1 && frames[1].Data? && Total(frames[1]) > frames[0].len
    ensures Index(head, |mem|) + Total(frames[0]) <= |mem|
    ensures Holds(mem[Index(head, |mem|)..Index(head, |mem|) + Total(frames[0])], frames[0])
  {
    hide Window, Index;
    var n := Total(frames[0]);
    WindowSplit(mem, head, head + n, tail);
    WindowInOnePiece(mem, head, n);
    assert Window(mem, head, tail)[..n] == Window(mem, head, head + n);
  }

  /** Moving the head past a frame removes exactly that frame. */
  lemma DropHead(mem: bytes, head: nat, tail: nat, frames: seq<Frame>)
    requires RingOk(mem, head, tail, frames) && frames != []
    ensures RingOk(mem, head + Total(frames[0]), tail, frames[1..])
  {
    hide Window, Index, Holds;
    var n := Total(frames[0]);
    HeadFrame(mem, head, tail, frames);
    assert Window(mem, head, tail)[n..] == Window(mem, head + n, tail) by {
      WindowSplit(mem, head, head + n, tail);
    }
    SumAligned(head, n);
  }

  lemma SumAligned(a: nat, b: nat)
    requires a % 8 == 0 && b % 8 == 0
    ensures (a + b) % 8 == 0
  {
  }

  /** The window is empty exactly when there is no frame. */
  lemma EmptyWindow(mem: bytes, head: nat, tail: nat, frames: seq<Frame>)
    requires RingOk(mem, head, tail, frames)
    ensures head == tail <==> frames == []
  {
    hide Window, Index, Holds;
    TilesLength(Window(mem, head, tail), frames);
  }

  /** The frame of a message in front starts at the head, or behind the padding there. */
  lemma FrontStart(mem: bytes, head: nat, tail: nat, frames: seq<Frame>)
    requires RingOk(mem, head, tail, frames) && frames != []
    ensures frames[0].Data? ==> StartOf(head, Total(frames[0]), |mem|) == head
    ensures frames[0].Pad? ==>
      |frames| > 1 && frames[1].Data? &&
      StartOf(head, Total(frames[1]), |mem|) == head + frames[0].len == StartOf(head + frames[0].len, Total(frames[1]), |mem|)
  {
    hide Window, Index, Holds, Tiles;
    HeadFrame(mem, head, tail, frames);
    if frames[0].Pad? {
      DropHead(mem, head, tail, frames);
      HeadFrame(mem, head + frames[0].len, tail, frames[1..]);
    }
  }

  /** The padding that has to precede a frame, if any. */
  predicate IsGap(gap: seq<Frame>, pad: nat) {
    if pad == 0 then gap == [] else |gap| == 1 && gap[0].Pad? && gap[0].len == pad && |gap[0].mark| == 8
  }

  /** The buffer after the padding, if any, has been marked. */
  predicate Marked(mem: bytes, marked: bytes, tail: nat, gap: seq<Frame>)
    requires |mem| > 0
  {
    if gap == [] then marked == mem
    else gap[0].Pad? && |gap[0].mark| == 8 && Index(tail, |mem|) + 8 <= |mem| &&
         SameOutside(mem, marked, Index(tail, |mem|), gap[0].len) && marked[Index(tail, |mem|)..Index(tail, |mem|) + 8] == gap[0].mark
  }

  /** The buffer after the frame has been written at index `at`. */
  predicate Written(marked: bytes, mem': bytes, at: nat, f: Frame) {
    f.Data? && at + Total(f) <= |marked| && SameOutside(marked, mem', at, Total(f)) &&
    mem'[at..at + |f.head|] == f.head && mem'[at + BodyAt(f)..at + BodyAt(f) + |f.body|] == f.body
  }

  /** A frame written behind the tail, with padding in front of it where it would have wrapped, joins the
      window; the rest of the window is untouched. */
  lemma AppendFrame(mem: bytes, marked: bytes, mem': bytes, head: nat, tail: nat, frames: seq<Frame>, pad: nat, gap: seq<Frame>, f: Frame)
    requires RingOk(mem, head, tail, frames)
    requires f.Data? && Total(f) > 0 && Accepts(head, tail, Total(f), |mem|)
    requires pad == PadFor(Index(tail, |mem|), Total(f), |mem|) && IsGap(gap, pad)
    requires Marked(mem, marked, tail, gap) && Written(marked, mem', Index(tail + pad, |mem|), f)
    ensures RingOk(mem', head, tail + pad + Total(f), frames + gap + [f])
    ensures Window(mem', head, tail) == Window(mem, head, tail)
  {
    hide Tiles, Laid, Window, Index, Total, Holds;
    var mid := tail + pad;
    RoomForPadding(head, tail, Total(f), |mem|);
    TailAligned(mem, head, tail, frames);
    WindowKept(mem, marked, mem', head, tail, frames, pad, gap, f);
    assert Laid(head, frames + gap + [f], |mem|) by {
      AppendLaid(head, tail, frames, pad, gap, f, |mem|);
    }
    assert Tiles(Window(mem', head, mid), frames + gap) by {
      if pad > 0 {
        AppendTiles(mem', head, tail, mid, frames, gap[0]);
        assert gap == [gap[0]];
      } else {
        assert frames + gap == frames;
      }
    }
    FrameWritten(marked, mem', mid, f);
    AppendTiles(mem', head, mid, mid + Total(f), frames + gap, f);
  }

  lemma FrameWritten(marked: bytes, mem': bytes, pos: nat, f: Frame)
    requires |marked| > 0 && Written(marked, mem', Index(pos, |marked|), f)
    ensures Holds(Window(mem', pos, pos + Total(f)), f)
  {
    hide Window, Index, Holds;
    WindowInOnePiece(mem', pos, Total(f));
    ImageHolds(mem', Index(pos, |marked|), Total(f), f);
  }

  lemma ImageHolds(mem: bytes, at: nat, n: nat, f: Frame)
    requires f.Data? && n == Total(f) && at + n <= |mem|
    requires mem[at..at + |f.head|] == f.head && mem[at + BodyAt(f)..at + BodyAt(f) + |f.body|] == f.body
    ensures Holds(mem[at..at + n], f)
  {
    SliceOfSlice(mem, at, n, 0, |f.head|);
    SliceOfSlice(mem, at, n, BodyAt(f), |f.body|);
  }

  lemma WindowKept(mem: bytes, marked: bytes, mem': bytes, head: nat, tail: nat, frames: seq<Frame>, pad: nat, gap: seq<Frame>, f: Frame)
    requires |mem| > 0 && |mem| % 8 == 0 && head <= tail && Index(tail, |mem|) % 8 == 0
    requires f.Data? && Total(f) > 0 && Accepts(head, tail, Total(f), |mem|)
    requires pad == PadFor(Index(tail, |mem|), Total(f), |mem|) && IsGap(gap, pad)
    requires Marked(mem, marked, tail, gap) && Written(marked, mem', Index(tail + pad, |mem|), f)
    ensures Window(mem', head, tail) == Window(mem, head, tail)
    ensures pad > 0 ==> Holds(Window(mem', tail, tail + pad), gap[0])
  {
    hide Window, Index;
    var mid := tail + pad;
    RoomForPadding(head, tail, Total(f), |mem|);
    FrameStart(tail, Total(f), |mem|);
    WindowUntouched(marked, mem', head, mid, mid, Total(f));
    WindowSplit(mem', head, tail, mid);
    WindowSplit(marked, head, tail, mid);
    assert Window(mem', head, tail) == Window(mem', head, mid)[..tail - head];
    assert Window(marked, head, tail) == Window(marked, head, mid)[..tail - head];
    if pad > 0 {
      WindowUntouched(mem, marked, head, tail, tail, pad);
      assert Window(mem', tail, mid) == Window(mem', head, mid)[tail - head..];
      assert Window(marked, tail, mid) == Window(marked, head, mid)[tail - head..];
      WindowInOnePiece(marked, tail, pad);
      assert Window(marked, tail, mid)[..8] == marked[Index(tail, |mem|)..Index(tail, |mem|) + 8];
    }
  }

  lemma TailAligned(mem: bytes, head: nat, tail: nat, frames: seq<Frame>)
    requires RingOk(mem, head, tail, frames)
    ensures tail == head + TotalOf(frames) && tail % 8 == 0 && Index(tail, |mem|) % 8 == 0
  {
    hide Window, Laid, Tiles, Index, TotalOf;
    TilesLength(Window(mem, head, tail), frames);
    AlignedEnd(head, frames, |mem|);
    AlignedIndex(tail, |mem|);
  }

  lemma AppendTiles(mem: bytes, head: nat, from: nat, to: nat, frames: seq<Frame>, f: Frame)
    requires |mem| > 0 && head <= from <= to
    requires Tiles(Window(mem, head, from), frames) && Holds(Window(mem, from, to), f)
    ensures Tiles(Window(mem, head, to), frames + [f])
  {
    hide Window, Tiles, Holds;
    WindowSplit(mem, head, from, to);
    TilesOne(Window(mem, from, to), f);
    TilesAppend(Window(mem, head, from), frames, Window(mem, from, to), [f]);
  }

  lemma PadThenFrame(tail: nat, pad: nat, gap: Frame, f: Frame, cap: nat)
    requires cap > 0 && cap % 8 == 0 && tail % 8 == 0 && Index(tail, cap) % 8 == 0
    requires f.Data? && 0 < Total(f) <= cap && pad == cap - Index(tail, cap) && gap.Pad? && gap.len == pad
    ensures FrameLaid(tail, gap, cap) && FrameLaid(tail + pad, f, cap)
  {
    WrapToZero(tail, cap);
    SumAligned(tail, pad);
  }

  /** The geometry of an append: padding reaches exactly to the end, and the frame starts over at index zero. */
  lemma AppendLaid(head: nat, tail: nat, frames: seq<Frame>, pad: nat, gap: seq<Frame>, f: Frame, cap: nat)
    requires cap > 0 && cap % 8 == 0 && tail % 8 == 0 && Index(tail, cap) % 8 == 0
    requires Laid(head, frames, cap) && tail == head + TotalOf(frames)
    requires f.Data? && 0 < Total(f) <= cap && pad == PadFor(Index(tail, cap), Total(f), cap)
    requires if pad == 0 then gap == [] else |gap| == 1 && gap[0].Pad? && gap[0].len == pad
    ensures Laid(head, frames + gap + [f], cap)
  {
    if pad > 0 {
      PadThenFrame(tail, pad, gap[0], f, cap);
      LaidTwo(tail, gap[0], f, cap);
      LaidAppend(head, frames, [gap[0], f], cap);
      assert frames + gap + [f] == frames + [gap[0], f];
    } else {
      assert frames + gap + [f] == frames + [f];
      assert FrameLaid(tail, f, cap);
      assert Laid(tail + Total(f), [], cap);
      LaidAppend(head, frames, [f], cap);
    }
  }

  lemma LaidTwo(pos: nat, p: Frame, f: Frame, cap: nat)
    requires cap > 0 && p.Pad? && f.Data? && Total(f) > p.len && FrameLaid(pos, p, cap) && FrameLaid(pos + Total(p), f, cap)
    ensures Laid(pos, [p, f], cap)
  {
    assert [p, f][1..] == [f] && [f][1..] == [];
    assert Laid(pos + Total(p) + Total(f), [], cap);
    assert Laid(pos + Total(p), [f], cap);
  }

  lemma {:induction false} AlignedEnd(pos: nat, frames: seq<Frame>, cap: nat)
    requires cap > 0 && pos % 8 == 0 && Laid(pos, frames, cap)
    ensures (pos + TotalOf(frames)) % 8 == 0
    decreases |frames|
  {
    if frames != [] { AlignedEnd(pos + Total(frames[0]), frames[1..], cap); }
  }

  /** The index of an aligned position is aligned, because the capacity is. */
  lemma {:induction false} AlignedIndex(pos: nat, cap: nat)
    requires cap > 0 && cap % 8 == 0 && pos % 8 == 0
    ensures Index(pos, cap) % 8 == 0
    decreases pos
  {
    if pos >= cap { AlignedIndex(pos - cap, cap); }
  }

  // ---- writing at the head ----

  /** Overwriting bytes behind the head does not disturb the ring. */
  lemma BehindUntouched(mem: bytes, mem': bytes, from: nat, n: nat, head: nat, tail: nat, frames: seq<Frame>)
    requires |mem| > 0 && RingOk(mem, head, tail, frames) && from + n <= head && tail <= from + |mem|
    requires Index(from, |mem|) + n <= |mem| && SameOutside(mem, mem', Index(from, |mem|), n)
    ensures RingOk(mem', head, tail, frames)
  {
    hide Tiles, Laid, Index, Holds;
    forall i | 0 <= i < tail - head
      ensures Window(mem', head, tail)[i] == Window(mem, head, tail)[i]
    {
      var p := head + i;
      var idx := Index(p, |mem|);
      if Index(from, |mem|) <= idx < Index(from, |mem|) + n {
        IndexStep(from, idx - Index(from, |mem|), |mem|);
        IndexGap(from + (idx - Index(from, |mem|)), p, |mem|);
        assert false;
      }
    }
    assert Window(mem', head, tail) == Window(mem, head, tail);
  }

  /** Marking the frame in front as consumed and moving the head past it removes exactly that frame. */
  lemma DropHeadRewritten(mem: bytes, mem': bytes, head: nat, tail: nat, n: nat, frames: seq<Frame>, rest: seq<Frame>)
    requires |mem| > 0 && RingOk(mem, head, tail, frames) && frames != [] && Total(frames[0]) == n && rest == frames[1..]
    requires Index(head, |mem|) + 8 <= |mem| && SameOutside(mem, mem', Index(head, |mem|), 8)
    ensures RingOk(mem', head + n, tail, rest)
  {
    hide Tiles, Laid, Window, Index, Holds;
    HeadFrame(mem, head, tail, frames);
    DropHead(mem, head, tail, frames);
    BehindUntouched(mem, mem', head, 8, head + n, tail, rest);
  }

  /** Rewriting the frame in front, in place, changes that frame and no other. */
  lemma RewriteHead(mem: bytes, mem': bytes, head: nat, tail: nat, n: nat, frames: seq<Frame>, rest: seq<Frame>, f: Frame)
    requires |mem| > 0 && RingOk(mem, head, tail, frames) && frames != [] && rest == frames[1..]
    requires frames[0].Data? && f.Data? && n == Total(f) == Total(frames[0])
    requires Index(head, |mem|) + n <= |mem| && SameOutside(mem, mem', Index(head, |mem|), n)
    requires Holds(mem'[Index(head, |mem|)..Index(head, |mem|) + n], f)
    ensures RingOk(mem', head, tail, [f] + rest)
  {
    hide Window, Index, Holds;
    HeadFrame(mem, head, tail, frames);
    DropHead(mem, head, tail, frames);
    BehindUntouched(mem, mem', head, n, head + n, tail, rest);
    WindowInOnePiece(mem', head, n);
    assert Window(mem', head, tail)[..n] == Window(mem', head, head + n) && Window(mem', head, tail)[n..] == Window(mem', head + n, tail) by {
      WindowSplit(mem', head, head + n, tail);
    }
    assert ([f] + rest)[1..] == rest;
  }

  /** Rewriting a frame in place, wherever it is in the ring, changes that frame and no other. */
  lemma {:induction false} RewriteInPlace(mem: bytes, mem': bytes, from: nat, at: nat, tail: nat, n: nat,
                                          front: seq<Frame>, f: Frame, rest: seq<Frame>, f': Frame)
    requires |mem| > 0 && RingOk(mem, from, tail, front + [f] + rest) && at == from + TotalOf(front)
    requires f.Data? && f'.Data? && n == Total(f) == Total(f') && at + n <= tail
    requires Index(at, |mem|) + n <= |mem| && SameOutside(mem, mem', Index(at, |mem|), n)
    requires Holds(mem'[Index(at, |mem|)..Index(at, |mem|) + n], f')
    ensures RingOk(mem', from, tail, front + [f'] + rest)
    decreases |front|
  {
    hide Window, Index, Holds, RingOk;
    if front == [] {
      assert [] + [f] + rest == [f] + rest && [] + [f'] + rest == [f'] + rest;
      RewriteHead(mem, mem', at, tail, n, [f] + rest, rest, f');
    } else {
      var g, frames := front[0], front[1..] + [f] + rest;
      assert front + [f] + rest == [g] + frames && front + [f'] + rest == [g] + (front[1..] + [f'] + rest);
      Bounds(mem, from, tail, [g] + frames);
      DropHead(mem, from, tail, [g] + frames);
      RewriteInPlace(mem, mem', from + Total(g), at, tail, n, front[1..], f, rest, f');
      WindowUntouched(mem, mem', from, from + Total(g), at, n);
      PutBack(mem, mem', from, tail, g, frames, front[1..] + [f'] + rest);
    }
  }

  lemma Bounds(mem: bytes, head: nat, tail: nat, frames: seq<Frame>)
    requires RingOk(mem, head, tail, frames)
    ensures head <= tail <= head + |mem|
  {
  }

  /** A frame in front of a ring whose bytes stayed as they were. */
  lemma PutBack(mem: bytes, mem': bytes, from: nat, tail: nat, g: Frame, frames: seq<Frame>, frames': seq<Frame>)
    requires |mem'| == |mem| && RingOk(mem, from, tail, [g] + frames) && RingOk(mem', from + Total(g), tail, frames')
    requires Window(mem', from, from + Total(g)) == Window(mem, from, from + Total(g))
    requires |frames'| == |frames| && (frames != [] ==> frames'[0].Data? == frames[0].Data? && Total(frames'[0]) == Total(frames[0]))
    ensures RingOk(mem', from, tail, [g] + frames')
  {
    hide Window, Index, Holds;
    HeadFrame(mem, from, tail, [g] + frames);
    WindowSplit(mem, from, from + Total(g), tail);
    WindowSplit(mem', from, from + Total(g), tail);
    assert Window(mem, from, tail)[..Total(g)] == Window(mem, from, from + Total(g));
    assert Window(mem', from, tail)[..Total(g)] == Window(mem', from, from + Total(g));
    assert Window(mem', from, tail)[Total(g)..] == Window(mem', from + Total(g), tail);
    assert ([g] + frames)[1..] == frames && ([g] + frames')[1..] == frames';
  }

  lemma WroteBoth(mem: bytes, mem': bytes, at: nat, header: bytes, data: bytes)
    requires at + |header| + |data| <= |mem|
    requires mem' == Patch(Patch(mem, at, header), at + |header|, data)
    ensures mem'[at..at + |header|] == header
    ensures mem'[at + |header|..at + |header| + |data|] == data
    ensures SameOutside(mem, mem', at, |header| + |data|)
  {
  }

  /** Where a reserved frame starts, it fits. */
  lemma FrameStart(end: nat, total: nat, cap: nat)
    requires 0 < total <= cap
    ensures Index(end + PadFor(Index(end, cap), total, cap), cap) + total <= cap
  {
    if Index(end, cap) + total > cap { WrapToZero(end, cap); }
  }
}
