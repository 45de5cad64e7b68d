/** The byte ring behind fast FIFO queues: variable-length frames, in-place peek, pop and zero-copy claim.

    Operations are atomic.  The object owns one buffer of bytes; everything a frame says is read back from
    those bytes.  What the ring is for is `Contents`: a plain queue of messages.
  */
module Lfq {
  import opened Arith
  import opened Bytes
  import opened FrameRing

  const COMMITTED: nat := 2
  const FRAME_EMPTY: nat := 0
  const HDR: nat := 32
  /** length, status, msg_id, flags, priority, reserved[2] */
  const LAYOUT: seq<nat> := [4, 4, 8, 4, 4, 4, 4]
  const MARK: seq<nat> := [4, 4]

  datatype Msg = Msg(data: bytes, id: nat, flags: nat, priority: nat)

  /** What a caller may push: the 32-bit frame total must not wrap around. */
  predicate Pushable(m: Msg) {
    |m.data| + HDR + 7 < U32 && m.id < U64 && m.flags < U32 && m.priority < U32
  }

  predicate MsgFits(m: Msg) {
    |m.data| < U32 / 2 && m.id < U64 && m.flags < U32 && m.priority < U32
  }

  /** What lies between head and tail: messages with their header bytes, and the padding in front of those
      that would have wrapped. */
  datatype Item = Message(m: Msg, header: bytes) | Gap(len: nat, mark: bytes)

  predicate ItemFits(it: Item) {
    match it
    case Message(m, header) => MsgFits(m) && IsHeader(header, m)
    case Gap(len, mark) => 0 < len < U32 / 2 && IsMark(mark, len)
  }

  /** The words of a header say what the message is. */
  predicate IsHeader(h: bytes, m: Msg) {
    |h| == HDR && FromLE(h[0..4]) == |m.data| && FromLE(h[4..8]) == COMMITTED &&
    FromLE(h[8..16]) == m.id && FromLE(h[16..20]) == m.flags && FromLE(h[20..24]) == m.priority
  }

  /** A negative length marks padding. */
  predicate IsMark(mark: bytes, len: nat) {
    |mark| == 8 && FromLE(mark[0..4]) == U32 - len && FromLE(mark[4..8]) == COMMITTED
  }

  lemma LayoutSizes()
    ensures Size(LAYOUT) == HDR && Size(MARK) == 8
  {
    assert Size([4]) == 4 && Size([4, 4]) == 8 && Size([4, 4, 4]) == 12 && Size([4, 4, 4, 4]) == 16;
    assert Size([8, 4, 4, 4, 4]) == 24 && Size([4, 8, 4, 4, 4, 4]) == 28;
  }

  function Header(m: Msg): (h: bytes)
    ensures |h| == HDR
  {
    LayoutSizes();
    Pack(LAYOUT, [|m.data|, COMMITTED, m.id, m.flags, m.priority, 0, 0])
  }

  function PadMark(len: nat): (mark: bytes)
    requires 0 < len < U32
    ensures |mark| == 8
  {
    LayoutSizes();
    Pack(MARK, [U32 - len, COMMITTED])
  }

  function FrameOf(it: Item): Frame {
    match it
    case Message(m, header) => Data(header, 0, m.data)
    case Gap(len, mark) => Pad(mark, len)
  }

  predicate AllFit(items: seq<Item>) {
    forall it :: it in items ==> ItemFits(it)
  }

  function FramesOf(items: seq<Item>): seq<Frame> {
    if items == [] then [] else [FrameOf(items[0])] + FramesOf(items[1..])
  }

  /** The messages among the items, oldest first. */
  function Messages(items: seq<Item>): seq<Msg> {
    if items == [] then []
    else (if items[0].Message? then [items[0].m] else []) + Messages(items[1..])
  }

  lemma {:induction false} FramesAppend(a: seq<Item>, b: seq<Item>)
    ensures FramesOf(a + b) == FramesOf(a) + FramesOf(b)
  {
    hide FrameOf;
    if a == [] {
      assert a + b == b;
    } else {
      assert (a + b)[1..] == a[1..] + b;
      FramesAppend(a[1..], b);
      Associate([FrameOf(a[0])], FramesOf(a[1..]), FramesOf(b));
    }
  }

  lemma {:induction false} MessagesAppend(a: seq<Item>, b: seq<Item>)
    ensures Messages(a + b) == Messages(a) + Messages(b)
  {
    if a == [] {
      assert a + b == b;
    } else {
      assert (a + b)[1..] == a[1..] + b;
      MessagesAppend(a[1..], b);
      Associate(if a[0].Message? then [a[0].m] else [], Messages(a[1..]), Messages(b));
    }
  }

  /** The header that is written reads back. */
  lemma HeaderReads(m: Msg)
    requires MsgFits(m)
    ensures IsHeader(Header(m), m)
  {
    hide Pack, FromLE, Range;
    LayoutSizes();
    RangeValues();
    var fields := [|m.data|, COMMITTED, m.id, m.flags, m.priority, 0, 0];
    assert LAYOUT[..0] == [] && LAYOUT[..1] == [4] && LAYOUT[..2] == [4, 4] && LAYOUT[..3] == [4, 4, 8] && LAYOUT[..4] == [4, 4, 8, 4];
    assert Size([8]) == 8 && Size([4, 8]) == 12 && Size([4, 4, 8]) == 16;
    assert Size([8, 4]) == 12 && Size([4, 8, 4]) == 16 && Size([4, 4, 8, 4]) == 20;
    FieldAt(LAYOUT, fields, 0, 0);
    FieldAt(LAYOUT, fields, 1, 4);
    FieldAt(LAYOUT, fields, 2, 8);
    FieldAt(LAYOUT, fields, 3, 16);
    FieldAt(LAYOUT, fields, 4, 20);
  }

  lemma MarkReads(len: nat)
    requires 0 < len < U32
    ensures IsMark(PadMark(len), len)
  {
    LayoutSizes();
    RangeValues();
    assert MARK[..0] == [] && MARK[..1] == [4];
    FieldAt(MARK, [U32 - len, COMMITTED], 0, 0);
    FieldAt(MARK, [U32 - len, COMMITTED], 1, 4);
  }

  /** The 32-bit word read as a signed number. */
  function Signed(v: nat): int
    requires v < U32
  {
    if v >= U32 / 2 then v - U32 else v
  }

  /** Some of the frames were marked as consumed when they left. */
  predicate Spent(items: seq<Item>) {
    forall it :: it in items ==> IsSpent(it)
  }

  predicate IsSpent(it: Item) {
    match it
    case Message(m, header) => |header| == HDR && FromLE(header[4..8]) == FRAME_EMPTY
    case Gap(len, mark) => ItemFits(it)
  }

  /** A message whose header was marked as consumed. */
  function Consumed(it: Item): Item
    requires it.Message? && |it.header| == HDR
  {
    it.(header := it.header[..4] + ToLE(FRAME_EMPTY, 4) + it.header[8..])
  }

  /** The header that is cleared for padding is a whole one: it is written beyond the end of the buffer when the padding
      is smaller. */
  predicate Overruns(tail: nat, need: nat, cap: nat)
    requires cap > 0
  {
    Index(tail, cap) + need > cap && Index(tail, cap) + HDR > cap
  }

  /** When every frame is a multiple of the header size, the tail stays one, and padding is never smaller than a header. */
  lemma NeverOverruns(tail: nat, need: nat, cap: nat)
    requires cap > 0 && cap % HDR == 0 && tail % HDR == 0 && need % HDR == 0
    ensures !Overruns(tail, need, cap) && (tail + PadFor(Index(tail, cap), need, cap) + need) % HDR == 0
  {
    hide Index;
    IndexOfMultiple(tail, cap);
  }

  lemma {:induction false} IndexOfMultiple(pos: nat, cap: nat)
    requires cap > 0 && cap % HDR == 0 && pos % HDR == 0
    ensures Index(pos, cap) % HDR == 0
    decreases pos
  {
    if pos >= cap { IndexOfMultiple(pos - cap, cap); }
  }

  class Ring {
    const buf: array<byte>
    const spsc: bool
    var head: nat
    var tail: nat
    ghost var items: seq<Item>

    // where the last claim was, and what has left the ring since
    ghost var claimed: nat
    ghost var gone: seq<Item>

    // padding has been written beyond the end of the buffer
    ghost var overran: bool

    ghost predicate Valid()
      reads this, buf
    {
      buf.Length % HDR == 0 && 4096 <= buf.Length <= U32 / 2 &&
      AllFit(items) &&
      RingOk(buf[..], head, tail, FramesOf(items)) &&
      Behind(buf[..], claimed, gone, head, tail, items)
    }

    /** The queue of messages, oldest first. */
    ghost function Contents(): seq<Msg>
      reads this
    {
      Messages(items)
    }

    /** How many messages have been taken since the last claim. */
    ghost function Taken(): nat
      reads this
    {
      |Messages(gone)|
    }

    /** A loan that is open: the message `m` was in front at the last claim, where its frame started at `from`. */
    ghost predicate IsLoan(from: nat, m: Msg)
      reads this
    {
      from == claimed && if gone == [] then items != [] && items[0].Message? && items[0].m == m else gone[0].Message? && gone[0].m == m
    }

    /** The buffer is rounded up to a power of two of at least a page. */
    constructor (capacityBytes: nat, singleProducerSingleConsumer: bool)
      requires capacityBytes <= U32 / 2
      ensures Valid() && Contents() == [] && head == tail == 0 && fresh(buf) && !overran
      ensures IsPowerOfTwo(buf.Length) && capacityBytes <= buf.Length && (buf.Length == 4096 || buf.Length < 2 * capacityBytes)
    {
      hide RingOk, IsPowerOfTwo, Behind, FramesOf, ItemFits;
      var c := RoundUpPow2(capacityBytes);
      buf := new byte[c](i => 0);
      spsc := singleProducerSingleConsumer;
      head, tail, items := 0, 0, [];
      claimed, gone, overran := 0, [], false;
      new;
      NothingInRing(buf[..]);
    }

    /** Copies `data` into the buffer. */
    method Store(at: nat, data: bytes)
      requires at + |data| <= buf.Length
      modifies buf
      ensures buf[..] == Patch(old(buf[..]), at, data)
    {
      var i := 0;
      while i < |data|
        invariant 0 <= i <= |data|
        invariant buf[..] == Patch(old(buf[..]), at, data[..i])
      {
        buf[at + i] := data[i];
        i := i + 1;
      }
      assert data[..i] == data;
    }

    /** Finds room for a frame of `need` bytes behind the tail; a frame that would wrap is preceded by padding. */
    method Reserve(need: nat) returns (ok: bool, offset: nat, ghost gap: seq<Item>)
      requires Valid() && 0 < need <= buf.Length && need % 8 == 0
      modifies this`tail, this`overran, buf
      ensures ok == Accepts(head, old(tail), need, buf.Length)
      ensures !ok ==> tail == old(tail) && buf[..] == old(buf[..])
      ensures ok ==> offset == old(tail) + PadFor(Index(old(tail), buf.Length), need, buf.Length) && tail == offset + need
      ensures ok ==> AllFit(gap) && Messages(gap) == [] && IsGap(FramesOf(gap), offset - old(tail))
      ensures ok ==> Marked(old(buf[..]), buf[..], old(tail), FramesOf(gap))
      ensures overran == (old(overran) || (ok && Overruns(old(tail), need, buf.Length)))
    {
      var cap := buf.Length;
      RingFacts();
      RoomForPadding(head, tail, need, cap);
      IndexIsModulo(tail, cap);
      var idx := tail % cap;
      var pad := 0;
      offset, gap := tail, [];
      if idx + need > cap {
        pad := cap - idx;
      }
      if tail - head + pad + need > cap {
        return false, tail, [];
      }
      offset := tail + pad;
      if pad > 0 {
        gap := WritePadding(idx, pad);
      }
      tail := tail + pad + need;
      ok := true;
    }

    /** Writes the header of padding, as far as it lies in the buffer. */
    method WritePadding(idx: nat, pad: nat) returns (ghost gap: seq<Item>)
      requires Valid() && idx == Index(tail, buf.Length) && 0 < pad == buf.Length - idx < U32 / 2
      modifies this`overran, buf
      ensures AllFit(gap) && Messages(gap) == [] && IsGap(FramesOf(gap), pad)
      ensures Marked(old(buf[..]), buf[..], tail, FramesOf(gap))
      ensures overran == (old(overran) || idx + HDR > buf.Length)
    {
      hide Tiles, Laid, Window, Index, Holds, FromLE;
      TailAligned(buf[..], head, tail, FramesOf(items));
      MarkReads(pad);
      var mark := PadMark(pad);
      gap := [Gap(pad, mark)];
      Store(idx, mark);
      Store(idx + 8, seq(if pad >= HDR then HDR - 8 else pad - 8, _ => 0));
      overran := overran || idx + HDR > buf.Length;
    }

    /** Appends a message, or refuses it when there is no room for its frame. */
    method TryPush(data: bytes, id: nat, flags: nat, priority: nat) returns (rc: int)
      requires Valid() && Pushable(Msg(data, id, flags, priority))
      modifies this`tail, this`items, this`overran, buf
      ensures Valid()
      ensures rc == if Accepts(head, old(tail), Align8(HDR + |data|), buf.Length) then 0 else -4
      ensures old(Contents()) == [] && Align8(HDR + |data|) <= buf.Length / 2 ==> rc == 0
      ensures Contents() == old(Contents()) + (if rc == 0 then [Msg(data, id, flags, priority)] else [])
      ensures rc != 0 ==> buf[..] == old(buf[..]) && tail == old(tail)
      ensures rc == 0 ==> tail == StartOf(old(tail), Align8(HDR + |data|), buf.Length) + Align8(HDR + |data|)
      ensures overran == (old(overran) || (rc == 0 && Overruns(old(tail), Align8(HDR + |data|), buf.Length)))
      ensures forall from, m :: old(IsLoan(from, m)) ==> IsLoan(from, m)
      ensures old(tail) <= tail && Window(buf[..], head, old(tail)) == Window(old(buf[..]), head, old(tail))
    {
      hide Tiles, Laid, Window, Index, Holds, Behind, Accepts, StartOf;
      var total := Align8(HDR + |data|);
      EmptyAccepts(buf[..], head, tail, items, total);
      RingFacts();
      RoomForPadding(head, tail, total, buf.Length);
      if total > buf.Length {
        return -4;
      }
      ghost var before, end := buf[..], tail;
      var ok, offset, gap := Reserve(total);
      if !ok {
        return -4;
      }
      Commit(before, end, offset, gap, Msg(data, id, flags, priority));
      rc := 0;
    }

    /** Fills in a reserved frame. */
    method Commit(ghost mem: bytes, ghost end: nat, offset: nat, ghost gap: seq<Item>, m: Msg)
      requires buf.Length == |mem| && 4096 <= buf.Length <= U32 / 2 && buf.Length % HDR == 0
      requires MsgFits(m) && AllFit(items) && RingOk(mem, head, end, FramesOf(items)) && Behind(mem, claimed, gone, head, end, items)
      requires Accepts(head, end, Align8(HDR + |m.data|), |mem|)
      requires offset == end + PadFor(Index(end, |mem|), Align8(HDR + |m.data|), |mem|)
      requires tail == offset + Align8(HDR + |m.data|)
      requires AllFit(gap) && Messages(gap) == [] && IsGap(FramesOf(gap), offset - end) && Marked(mem, buf[..], end, FramesOf(gap))
      modifies this`items, buf
      ensures Valid() && Contents() == old(Contents()) + [m] && old(items) <= items
      ensures Window(buf[..], head, end) == Window(mem, head, end)
    {
      hide Tiles, Laid, Window, Index, Holds, FramesOf, Messages, RingOk, Behind;
      ghost var marked, waiting := buf[..], items;
      Bounds(mem, head, end, FramesOf(items));
      RoomForPadding(head, end, Align8(HDR + |m.data|), buf.Length);
      FrameStart(end, Align8(HDR + |m.data|), buf.Length);
      IndexIsModulo(offset, buf.Length);
      ghost var it := WriteFrame(offset % buf.Length, m);
      items := items + gap + [it];
      PushedFrame(mem, marked, buf[..], head, end, tail, waiting, gap, it);
      PushedBehind(mem, marked, buf[..], claimed, gone, head, end, tail, waiting, gap, it);
    }

    method WriteFrame(at: nat, m: Msg) returns (ghost it: Item)
      requires MsgFits(m) && at + Align8(HDR + |m.data|) <= buf.Length
      modifies buf
      ensures it.Message? && it.m == m && ItemFits(it)
      ensures Written(old(buf[..]), buf[..], at, FrameOf(it))
    {
      var header := Header(m);
      HeaderReads(m);
      it := Message(m, header);
      Store(at, header);
      Store(at + HDR, m.data);
      WroteBoth(old(buf[..]), buf[..], at, header, m.data);
    }

    function Word(at: nat, width: nat): nat
      requires at + width <= buf.Length
      reads buf
    {
      FromLE(buf[at..at + width])
    }

    /** Where the frame of the message in front starts. */
    ghost function Front(): nat
      reads this
    {
      if Contents() == [] then head else StartOf(head, Needs(Contents()[0]), buf.Length)
    }

    /** Moves the head over padding until a message is in front; says where its frame starts. */
    method SkipPadding() returns (found: bool, at: nat)
      requires Valid()
      modifies this`head, this`items, this`gone
      ensures Valid() && Contents() == old(Contents()) && Taken() == old(Taken())
      ensures found <==> Contents() != []
      ensures found ==> Fronted(at)
      ensures Contents() == [] ==> head == tail
      ensures head == old(Front())
      ensures forall from, m :: old(IsLoan(from, m)) ==> IsLoan(from, m)
    {
      hide Behind, StartOf;
      at := 0;
      while true
        invariant Valid() && Contents() == old(Contents()) && Taken() == old(Taken()) && Front() == old(Front())
        invariant forall from, m :: old(IsLoan(from, m)) ==> IsLoan(from, m)
        decreases |items|
      {
        EmptyWindow(buf[..], head, tail, FramesOf(items));
        if head >= tail {
          return false, at;
        }
        HeadWords(buf[..], head, tail, items, Index(head, buf.Length));
        FrontItem(buf[..], head, tail, items);
        IndexIsModulo(head, buf.Length);
        at := head % buf.Length;
        if Word(at + 4, 4) != COMMITTED {
          assert false;
        }
        var len := Signed(Word(at, 4));
        if len >= 0 {
          return true, at;
        }
        SkipOne(-len);
      }
    }

    method SkipOne(len: nat)
      requires Valid() && items != [] && items[0].Gap? && items[0].len == len
      modifies this`head, this`items, this`gone
      ensures Valid() && Contents() == old(Contents()) && items == old(items)[1..] && Taken() == old(Taken()) && Front() == old(Front())
      ensures gone == old(gone) + [old(items)[0]]
    {
      hide Tiles, Laid, Window, Index, Holds, RingOk, Behind, StartOf;
      FrontItem(buf[..], head, tail, items);
      DropHead(buf[..], head, tail, FramesOf(items));
      SkippedBehind(buf[..], claimed, gone, head, tail, items);
      MessagesAppend(gone, [items[0]]);
      FramesAt(items);
      gone := gone + [items[0]];
      head := head + len;
      items := items[1..];
    }

    /** A message is in front, and its frame starts at index `at`. */
    ghost predicate Fronted(at: nat)
      reads this, buf
    {
      Valid() && items != [] && items[0].Message? && at == Index(head, buf.Length) && Reads(buf[..], at, items[0].m)
    }

    /** The length of the message in front, without taking it. */
    method PeekLen() returns (rc: int, len: nat)
      requires Valid()
      modifies this`head, this`items, this`gone
      ensures Valid() && Contents() == old(Contents()) && Taken() == old(Taken())
      ensures rc == if Contents() == [] then -5 else 0
      ensures rc == 0 ==> len == |Contents()[0].data|
      ensures head == old(Front())
      ensures forall from, m :: old(IsLoan(from, m)) ==> IsLoan(from, m)
    {
      var found, at := SkipPadding();
      if !found {
        return -5, 0;
      }
      len := Word(at, 4);
      rc := 0;
    }

    /** Takes the message in front, unless the caller's buffer is too small for it.  Without a buffer the
        message is dropped. */
    method TryPop(room: Room) returns (rc: int, len: nat, out: Msg)
      requires Valid()
      modifies this`head, this`items, this`gone, buf
      ensures Valid()
      ensures old(Contents()) == [] ==> rc == -5 && Contents() == []
      ensures old(Contents()) != [] ==> len == |old(Contents())[0].data|
      ensures old(Contents()) != [] && room.Bytes? && room.cap < len ==> rc == -1 && Contents() == old(Contents())
      ensures old(Contents()) != [] && !(room.Bytes? && room.cap < len) ==>
        rc == 0 && Contents() == old(Contents())[1..] &&
        out == old(Contents())[0].(data := if room.Bytes? then old(Contents())[0].data else [])
      ensures Taken() == old(Taken()) + (if rc == 0 then 1 else 0)
      ensures head == old(Front()) + if rc == 0 then Needs(old(Contents())[0]) else 0
      ensures forall from, m :: old(IsLoan(from, m)) ==> IsLoan(from, m)
    {
      hide Behind, RingOk, Index, FromLE, ToLE, AllFit, FramesOf, StartOf, Needs, Patch;
      len, out := 0, Msg([], 0, 0, 0);
      var found, at := SkipPadding();
      if !found {
        return -5, len, out;
      }
      len := Word(at, 4);
      if room.Bytes? && room.cap < len {
        return -1, len, out;
      }
      var id, flags, priority := Word(at + 8, 8), Word(at + 16, 4), Word(at + 20, 4);
      out := Msg(if room.Bytes? then buf[at + HDR..at + HDR + len] else [], id, flags, priority);
      Retire(head, at, len);
      rc := 0;
    }

    /** Marks the frame in front as consumed and moves the head past it. */
    method Retire(from: nat, at: nat, len: nat)
      requires Fronted(at) && from == head && len == |items[0].m.data|
      modifies this`head, this`items, this`gone, buf
      ensures Valid() && Contents() == old(Contents())[1..] && Taken() == old(Taken()) + 1
      ensures head == from + Needs(old(items)[0].m) && buf[..] == Patch(old(buf[..]), at + 4, ToLE(FRAME_EMPTY, 4))
      ensures forall from, m :: old(IsLoan(from, m)) ==> IsLoan(from, m)
    {
      hide Tiles, Laid, Window, Index, Holds, RingOk, Behind, FromLE, ToLE;
      ghost var mem, waiting := buf[..], items;
      Store(at + 4, ToLE(FRAME_EMPTY, 4));
      head := from + Align8(HDR + len);
      assert waiting[0] in waiting && ItemFits(waiting[0]);
      Retired(mem, buf[..], from, tail, waiting);
      RetiredBehind(mem, buf[..], claimed, gone, from, tail, waiting);
      MessagesAppend(gone, [Consumed(waiting[0])]);
      gone := gone + [Consumed(waiting[0])];
      items := waiting[1..];
    }

    /** Lends the message in front: the caller may read `len` bytes of the buffer at `at` until it releases them. */
    method TryClaim() returns (rc: int, at: nat, len: nat, id: nat, flags: nat, priority: nat, from: nat)
      requires Valid()
      modifies this`head, this`items, this`gone, this`claimed
      ensures Valid() && Contents() == old(Contents())
      ensures rc == if Contents() == [] then -5 else 0
      ensures head == old(Front())
      ensures rc == 0 ==> from == head && at + len <= buf.Length && Contents()[0] == Msg(buf[at..at + len], id, flags, priority)
      ensures rc == 0 ==> IsLoan(from, Contents()[0]) && at == Index(from, buf.Length) + HDR && Taken() == 0
      ensures rc != 0 ==> Taken() == old(Taken()) && forall from, m :: old(IsLoan(from, m)) ==> IsLoan(from, m)
    {
      hide Behind, RingOk, Index, FromLE, AllFit, FramesOf, StartOf;
      at, len, id, flags, priority, from := 0, 0, 0, 0, 0, 0;
      var found, start := SkipPadding();
      if !found {
        return -5, at, len, id, flags, priority, from;
      }
      len := Word(start, 4);
      id, flags, priority := Word(start + 8, 8), Word(start + 16, 4), Word(start + 20, 4);
      at, from, rc := start + HDR, head, 0;
      claimed, gone := head, [];
      NothingBehind(buf[..], head, tail, items);
    }

    /** The bytes of a loan are those of its message, as long as the producer has not come round to them again. */
    lemma LoanReads(from: nat, m: Msg)
      requires Valid() && IsLoan(from, m) && tail <= from + buf.Length
      ensures var at := Index(from, buf.Length) + HDR; at + |m.data| <= buf.Length && buf[at..at + |m.data|] == m.data
    {
      hide Tiles, Laid, Window, Index, Holds, RingOk, FromLE;
      FramesAppend(gone, items);
      if gone == [] {
        assert items[0] in items && ItemFits(items[0]);
      } else {
        assert gone[0] in gone && IsSpent(gone[0]);
      }
      MessageReads(buf[..], claimed, tail, gone + items);
    }

    /** Sets the head behind the frame at `from`, marking it as consumed; nothing is checked.  If that is the loan of the last
        claim, and the producer has not come round to it: when nothing was taken since, the message is gone; when only that
        message was, by a pop or an earlier release, nothing changes; and when more was taken, the ring is out of order. */
    method ReleaseClaim(from: nat, len: nat, ghost m: Msg)
      requires Valid() && from % 8 == 0
      modifies this`head, this`items, this`gone, buf
      ensures head == from + Align8(HDR + len) && Index(from, buf.Length) + 8 <= buf.Length
      ensures buf[..] == Patch(old(buf[..]), Index(from, buf.Length) + 4, ToLE(FRAME_EMPTY, 4))
      ensures old(IsLoan(from, m)) && len == |m.data| && old(Taken()) == 0 ==>
        Valid() && Contents() == old(Contents())[1..] && IsLoan(from, m) && Taken() == 1
      ensures old(IsLoan(from, m)) && len == |m.data| && old(Taken()) == 1 && tail <= from + buf.Length ==>
        Valid() && Contents() == old(Contents()) && IsLoan(from, m) && Taken() == 1
      ensures old(IsLoan(from, m)) && len == |m.data| && old(Taken()) > 1 && tail <= from + buf.Length ==>
        !exists items: seq<Item> :: AllFit(items) && RingOk(buf[..], head, tail, FramesOf(items))
    {
      hide Tiles, Laid, Window, Index, RingOk, Behind, FromLE, ToLE, FramesOf, AllFit, Patch;
      ghost var mem, left, waiting, end := buf[..], gone, items, head;
      RingFacts();
      AlignedIndex(from, buf.Length);
      IndexIsModulo(from, buf.Length);
      Store(from % buf.Length + 4, ToLE(FRAME_EMPTY, 4));
      head := from + Align8(HDR + len);
      if IsLoan(from, m) && (left == [] || tail <= from + buf.Length) {
        Released(mem, buf[..], from, end, tail, left, waiting);
        items, gone := (left + waiting)[1..], [Consumed((left + waiting)[0])];
      }
    }

    /** Any operation, on any ring. */
    method Perform(op: Op, hold: Hold) returns (out: Out, after: Hold)
      requires Valid() && Keeps(hold) && (op.Push? ==> Pushable(op.m))
      modifies this`head, this`tail, this`items, this`gone, this`claimed, this`overran, buf
      ensures Answers(old(State(hold)), op, out)
      ensures out.intact ==> Valid() && Keeps(after) && State(after) == After(old(State(hold)), op, out)
      ensures (op.Push? ==> Align8(HDR + |op.m.data|) % HDR == 0) && old(tail) % HDR == 0 ==>
        tail % HDR == 0 && overran == old(overran)
    {
      hide Valid, Answers, After, Keeps, State;
      out, after := Out(-1, 0, Msg([], 0, 0, 0), true), hold;
      match op {
        case Push(m) => out, after := Put(m, hold);
        case Peek => out := Look(hold);
        case Pop(room) => out, after := Take(room, hold);
        case Claim => out, after := Lend(hold);
        case Release =>
          if hold.Holding? {
            out, after := GiveBack(hold);
          } else {
            NothingToRelease(hold, out);
          }
      }
    }

    lemma NothingToRelease(hold: Hold, out: Out)
      requires hold.Free? && out.rc == -1 && out.intact
      ensures Answers(State(hold), Release, out) && State(hold) == After(State(hold), Release, out)
    {
    }

    method Put(m: Msg, hold: Hold) returns (out: Out, after: Hold)
      requires Valid() && Keeps(hold) && Pushable(m)
      modifies this`tail, this`items, this`overran, buf
      ensures Answers(old(State(hold)), Push(m), out) && out.intact
      ensures Valid() && Keeps(after) && State(after) == After(old(State(hold)), Push(m), out)
      ensures Align8(HDR + |m.data|) % HDR == 0 && old(tail) % HDR == 0 ==> tail % HDR == 0 && overran == old(overran)
    {
      hide RingOk, Index, FromLE, ToLE, Behind, AllFit, Accepts, StartOf, PadFor, Overruns, FramesOf;
      var cap := buf.Length;
      RingFacts();
      RoomForPadding(head, tail, Align8(HDR + |m.data|), cap);
      if Align8(HDR + |m.data|) % HDR == 0 && tail % HDR == 0 { NeverOverruns(tail, Align8(HDR + |m.data|), cap); }
      var rc := TryPush(m.data, m.id, m.flags, m.priority);
      out, after := Out(rc, 0, m, true), hold;
    }

    /** The producer does not come round to a loan of which nothing was taken. */
    lemma LoanInReach(from: nat, m: Msg)
      requires Valid() && IsLoan(from, m) && Taken() == 0
      ensures tail <= from + buf.Length
    {
      hide Index, Tiles, Laid, FromLE;
      RingFacts();
    }

    lemma RingFacts()
      requires Valid()
      ensures head <= tail <= head + buf.Length && head % 8 == 0 && claimed % 8 == 0 && buf.Length % 8 == 0
      ensures gone == [] ==> claimed == head
    {
      hide Index, Tiles, Laid, FromLE;
    }

    method Look(hold: Hold) returns (out: Out)
      requires Valid() && Keeps(hold)
      modifies this`head, this`items, this`gone
      ensures Answers(old(State(hold)), Peek, out) && out.intact
      ensures Valid() && Keeps(hold) && State(hold) == After(old(State(hold)), Peek, out)
    {
      hide RingOk, Index, FromLE, Behind, AllFit, StartOf, Needs, FramesOf;
      var rc, len := PeekLen();
      out := Out(rc, len, Msg([], 0, 0, 0), true);
    }

    method Take(room: Room, hold: Hold) returns (out: Out, after: Hold)
      requires Valid() && Keeps(hold)
      modifies this`head, this`items, this`gone, buf
      ensures Answers(old(State(hold)), Pop(room), out) && out.intact
      ensures Valid() && Keeps(after) && State(after) == After(old(State(hold)), Pop(room), out)
    {
      hide RingOk, Index, FromLE, Behind, AllFit, StartOf, Needs, FramesOf;
      var rc, len, m := TryPop(room);
      out, after := Out(rc, len, m, true), hold;
      if rc == 0 && hold.Holding? {
        after := hold.(taken := hold.taken + 1);
      }
    }

    method Lend(hold: Hold) returns (out: Out, after: Hold)
      requires Valid() && Keeps(hold)
      modifies this`head, this`items, this`gone, this`claimed
      ensures Answers(old(State(hold)), Claim, out) && out.intact
      ensures Valid() && Keeps(after) && State(after) == After(old(State(hold)), Claim, out)
    {
      hide RingOk, Index, FromLE, Behind, AllFit, StartOf, Needs, FramesOf;
      var rc, at, len, id, flags, priority, from := TryClaim();
      out, after := Out(rc, len, Msg([], 0, 0, 0), true), hold;
      if rc == 0 {
        RingFacts();
        var m := Msg(buf[at..at + len], id, flags, priority);
        out, after := Out(rc, len, m, true), Holding(from, at, m, 0);
      }
    }

    /** A consumer reads the bytes of its loan once more right before it releases it. */
    method GiveBack(hold: Hold) returns (out: Out, after: Hold)
      requires Valid() && hold.Holding? && Keeps(hold)
      modifies this`head, this`items, this`gone, buf
      ensures Answers(old(State(hold)), Release, out)
      ensures out.intact ==> Valid() && Keeps(after) && State(after) == After(old(State(hold)), Release, out)
    {
      hide RingOk, Index, FromLE, ToLE, Behind, AllFit, StartOf, FramesOf, Patch;
      var len := |hold.m.data|;
      var intact := hold.taken == 0 || (hold.taken == 1 && tail <= hold.from + buf.Length);
      if hold.taken == 0 { LoanInReach(hold.from, hold.m); }
      if intact { LoanReads(hold.from, hold.m); }
      out := Out(0, len, hold.m.(data := buf[hold.at..hold.at + len]), intact);
      RingFacts();
      ReleaseClaim(hold.from, len, hold.m);
      after := hold.(taken := 1);
    }

    /** What the consumer holds is the loan. */
    ghost predicate Keeps(hold: Hold)
      reads this, buf
    {
      hold.Holding? ==>
        IsLoan(hold.from, hold.m) && hold.taken == Taken() && buf.Length > 0 &&
        hold.at == Index(hold.from, buf.Length) + HDR && hold.at + |hold.m.data| <= buf.Length
    }

    ghost function State(hold: Hold): Queue
      reads this, buf
    {
      Queue(Contents(), if hold.Holding? then Lent(hold.m, hold.from, hold.taken) else Nothing, head, tail, buf.Length)
    }

    /** The ring refines a queue with loans over every history of operations, up to a release that is not harmless. */
    method Replay(ops: seq<Op>, hold: Hold) returns (outs: seq<Out>)
      requires Valid() && Keeps(hold) && forall op :: op in ops && op.Push? ==> Pushable(op.m)
      modifies this`head, this`tail, this`items, this`gone, this`claimed, this`overran, buf
      ensures Explains(old(State(hold)), ops, outs)
      ensures AllIntact(outs) ==> Valid() && Contents() == AtEnd(old(State(hold)), ops, outs).waiting
      ensures (forall op :: op in ops && op.Push? ==> Align8(HDR + |op.m.data|) % HDR == 0) && old(tail) % HDR == 0 ==>
        overran == old(overran)
    {
      hide RingOk, Index, Behind, AllFit, Answers, After, Keeps;
      if ops == [] {
        return [];
      }
      var out, after := Perform(ops[0], hold);
      if !out.intact {
        return [out];
      }
      var rest := Replay(ops[1..], after);
      outs := [out] + rest;
    }
  }

  /** An input that overruns: in a ring of 4096 bytes, a message of 4048 bytes is pushed and popped, and then an empty one
      is pushed.  16 bytes of padding are left at the end, and the header written there ends 16 bytes beyond it. */
  method OverrunExample() returns (ring: Ring)
    ensures ring.Valid() && ring.buf.Length == 4096 && ring.overran && ring.tail == 4096 + HDR
    ensures PadFor(Index(4080, 4096), HDR, 4096) == 16
  {
    hide RingOk, Behind, FramesOf, AllFit;
    SmallIndex(0, 4096);
    SmallIndex(4080, 4096);
    ring := new Ring(0, true);
    var rc := ring.TryPush(seq(4048, _ => 0), 0, 0, 0);
    var taken, len, m := ring.TryPop(Nowhere);
    rc := ring.TryPush([], 0, 0, 0);
  }

  /** The caller's buffer of a pop: none at all, or so many bytes. */
  datatype Room = Nowhere | Bytes(cap: nat)

  /** What a consumer has of its last claim: where it is, the message it read there, and how many messages were taken since. */
  datatype Hold = Free | Holding(from: nat, at: nat, m: Msg, taken: nat)

  // ---- the queue the ring stands for ----

  datatype Op = Push(m: Msg) | Peek | Pop(room: Room) | Claim | Release

  /** `intact` says that the ring is still in order. */
  datatype Out = Out(rc: int, len: nat, m: Msg, intact: bool)

  /** A loan: the message, where its frame starts, and how many messages were taken since the claim. */
  datatype Loan = Nothing | Lent(m: Msg, from: nat, taken: nat)

  /** The messages waiting, and the positions of head and tail in a buffer of `cap` bytes. */
  datatype Queue = Queue(waiting: seq<Msg>, loan: Loan, head: nat, tail: nat, cap: nat)

  /** The bytes that a message takes in the ring. */
  function Needs(m: Msg): nat {
    Align8(HDR + |m.data|)
  }

  /** Where the frame of the message in front starts. */
  function FrontAt(q: Queue): nat {
    if q.waiting == [] then q.head else StartOf(q.head, Needs(q.waiting[0]), q.cap)
  }

  /** A pop finds the caller's buffer too small. */
  predicate TooSmall(op: Op, m: Msg) {
    op.Pop? && op.room.Bytes? && op.room.cap < |m.data|
  }

  /** What a caller receives of a message. */
  function Received(op: Op, m: Msg): Msg {
    if op.Pop? && op.room.Nowhere? then m.(data := []) else m
  }

  /** The answers of a queue with a loan.  A push is refused exactly when there is no room for its frame.  A release, which
      may come late or more than once, hands back what was lent; it is harmless if nothing was taken since the claim, or only
      that message and the producer has not come round to it, and else it is not. */
  predicate Answers(q: Queue, op: Op, out: Out) {
    match op
    case Push(m) => out.intact && out.rc == if Accepts(q.head, q.tail, Needs(m), q.cap) then 0 else -4
    case Release =>
      if q.loan.Nothing? then out.intact && out.rc == -1
      else
        out.rc == 0 && (out.intact <==> q.loan.taken == 0 || (q.loan.taken == 1 && q.tail <= q.loan.from + q.cap)) &&
        (out.intact ==> out.m == q.loan.m)
    case _ =>
      out.intact &&
      if q.waiting == [] then out.rc == -5
      else
        var m := q.waiting[0];
        out.len == |m.data| &&
        if op.Peek? then out.rc == 0
        else if TooSmall(op, m) then out.rc == -1
        else out.rc == 0 && out.m == Received(op, m)
  }

  function Gained(op: Op, out: Out): seq<Msg> {
    if op.Push? && out.rc == 0 then [op.m] else []
  }

  /** A message leaves the queue when it is popped, or released before anything else was taken. */
  predicate Removes(q: Queue, op: Op, out: Out) {
    out.rc == 0 && q.waiting != [] && (op.Pop? || (op.Release? && q.loan.Lent? && q.loan.taken == 0))
  }

  function Lost(q: Queue, op: Op, out: Out): seq<Msg> {
    if Removes(q, op, out) then [q.waiting[0]] else []
  }

  function LoanAfter(q: Queue, op: Op, out: Out): Loan {
    if out.rc != 0 then q.loan
    else match op
      case Push(_) => q.loan
      case Peek => q.loan
      case Pop(_) => if q.loan.Lent? then q.loan.(taken := q.loan.taken + 1) else q.loan
      case Claim => if q.waiting == [] then q.loan else Lent(q.waiting[0], FrontAt(q), 0)
      case Release => if q.loan.Lent? then q.loan.(taken := 1) else q.loan
  }

  /** Looking at the message in front moves the head over padding, and taking it moves it over its frame. */
  function HeadAfter(q: Queue, op: Op, out: Out): nat {
    match op
    case Push(_) => q.head
    case Peek => FrontAt(q)
    case Pop(_) => FrontAt(q) + if out.rc == 0 && q.waiting != [] then Needs(q.waiting[0]) else 0
    case Claim => FrontAt(q)
    case Release => if q.loan.Lent? then q.loan.from + Needs(q.loan.m) else q.head
  }

  function TailAfter(q: Queue, op: Op, out: Out): nat {
    if op.Push? && out.rc == 0 then StartOf(q.tail, Needs(op.m), q.cap) + Needs(op.m) else q.tail
  }

  function After(q: Queue, op: Op, out: Out): Queue {
    Queue(q.waiting[|Lost(q, op, out)|..] + Gained(op, out), LoanAfter(q, op, out), HeadAfter(q, op, out), TailAfter(q, op, out), q.cap)
  }

  predicate AllIntact(outs: seq<Out>) {
    forall out :: out in outs ==> out.intact
  }

  /** All answers of a run are answers of the queue.  It ends with a release that is not harmless. */
  predicate Explains(q: Queue, ops: seq<Op>, outs: seq<Out>)
    decreases |ops|
  {
    if ops == [] then outs == []
    else
      outs != [] && Answers(q, ops[0], outs[0]) &&
      if outs[0].intact then Explains(After(q, ops[0], outs[0]), ops[1..], outs[1..]) else |outs| == 1
  }

  function AtEnd(q: Queue, ops: seq<Op>, outs: seq<Out>): Queue
    decreases |ops|
  {
    if ops == [] || outs == [] then q else AtEnd(After(q, ops[0], outs[0]), ops[1..], outs[1..])
  }

  function Accepted(ops: seq<Op>, outs: seq<Out>): seq<Msg>
    decreases |ops|
  {
    if ops == [] || outs == [] then [] else Gained(ops[0], outs[0]) + Accepted(ops[1..], outs[1..])
  }

  /** What the callers of a run have received of messages that they removed, in order. */
  function Delivered(q: Queue, ops: seq<Op>, outs: seq<Out>): seq<(Op, Msg)>
    decreases |ops|
  {
    if ops == [] || outs == [] then []
    else
      (if Removes(q, ops[0], outs[0]) then [(ops[0], outs[0].m)] else []) +
      Delivered(After(q, ops[0], outs[0]), ops[1..], outs[1..])
  }

  /** The messages that leave the queue in the course of a run, in order. */
  function Removed(q: Queue, ops: seq<Op>, outs: seq<Out>): seq<Msg>
    decreases |ops|
  {
    if ops == [] || outs == [] then [] else Lost(q, ops[0], outs[0]) + Removed(After(q, ops[0], outs[0]), ops[1..], outs[1..])
  }

  /** First in, first out, over any run: the messages that were waiting and the ones accepted are, in that
      order, the ones removed and the ones still waiting. */
  lemma {:induction false} FirstInFirstOut(q: Queue, ops: seq<Op>, outs: seq<Out>)
    requires Explains(q, ops, outs)
    ensures q.waiting + Accepted(ops, outs) == Removed(q, ops, outs) + AtEnd(q, ops, outs).waiting
    decreases |ops|
  {
    hide Answers, LoanAfter;
    if ops != [] {
      var q' := After(q, ops[0], outs[0]);
      if outs[0].intact {
        FirstInFirstOut(q', ops[1..], outs[1..]);
      } else {
        assert outs[1..] == [];
      }
      assert q.waiting + Gained(ops[0], outs[0]) == Lost(q, ops[0], outs[0]) + q'.waiting;
      Shuffle(q.waiting, Gained(ops[0], outs[0]), Accepted(ops[1..], outs[1..]), Lost(q, ops[0], outs[0]), q'.waiting,
              Removed(q', ops[1..], outs[1..]), AtEnd(q', ops[1..], outs[1..]).waiting);
    }
  }

  lemma Shuffle(q: seq<Msg>, gained: seq<Msg>, accepted: seq<Msg>, lost: seq<Msg>, q': seq<Msg>, removed: seq<Msg>, end: seq<Msg>)
    requires q + gained == lost + q' && q' + accepted == removed + end
    ensures q + (gained + accepted) == lost + removed + end
  {
    assert q + (gained + accepted) == (q + gained) + accepted == lost + (q' + accepted) == lost + (removed + end);
  }

  /** The bytes that the pushes among these operations need. */
  function PushedBytes(ops: seq<Op>): nat {
    if ops == [] then 0 else (if ops[0].Push? then Needs(ops[0].m) else 0) + PushedBytes(ops[1..])
  }

  /** From a tail at position 0 on, whatever else happens, no push is refused as long as the frames pushed so far add up to
      at most the capacity. */
  lemma {:induction false} NoRefusalInFirstLap(q: Queue, ops: seq<Op>, outs: seq<Out>, k: nat)
    requires Explains(q, ops, outs) && k < |outs| && k < |ops| && ops[k].Push? && q.tail + PushedBytes(ops[..k + 1]) <= q.cap
    ensures outs[k].rc == 0
    decreases k
  {
    hide Accepts, StartOf, LoanAfter, HeadAfter;
    assert ops[..k + 1][1..] == ops[1..][..k];
    if ops[0].Push? { FirstLapAccepts(q.head, q.tail, Needs(ops[0].m), q.cap); }
    if k > 0 { NoRefusalInFirstLap(After(q, ops[0], outs[0]), ops[1..], outs[1..], k - 1); }
  }

  /** A loan of which nothing was taken yet is the message in front. */
  predicate LoanInFront(q: Queue) {
    q.loan.Lent? && q.loan.taken == 0 ==> q.waiting != [] && q.waiting[0] == q.loan.m
  }

  /** The messages removed are the ones the callers received, each once and in that order. */
  lemma {:induction false} RemovedIsDelivered(q: Queue, ops: seq<Op>, outs: seq<Out>)
    requires Explains(q, ops, outs) && LoanInFront(q)
    ensures |Delivered(q, ops, outs)| == |Removed(q, ops, outs)|
    ensures forall i :: 0 <= i < |Delivered(q, ops, outs)| ==>
      Delivered(q, ops, outs)[i].1 == Received(Delivered(q, ops, outs)[i].0, Removed(q, ops, outs)[i])
    decreases |ops|
  {
    if ops != [] {
      if outs[0].intact {
        RemovedIsDelivered(After(q, ops[0], outs[0]), ops[1..], outs[1..]);
      } else {
        assert outs[1..] == [];
      }
    }
  }

  /** A loan is stable: what a consumer reads when it releases a message is what it read when it claimed it, whatever was
      pushed, peeked at or popped in between, as long as the release is harmless; and it is if nothing was popped. */
  lemma {:induction false} LoanIsStable(q: Queue, ops: seq<Op>, outs: seq<Out>, k: nat)
    requires Explains(q, ops, outs) && q.loan.Lent? && k < |outs| <= |ops| && ops[k].Release?
    requires forall i :: 0 <= i < k ==> !ops[i].Claim? && !ops[i].Release?
    ensures outs[k].rc == 0 && (outs[k].intact ==> outs[k].m == q.loan.m)
    ensures q.loan.taken == 0 && (forall i :: 0 <= i < k ==> !ops[i].Pop?) ==> outs[k].intact
    decreases k
  {
    hide Answers, After;
    if k == 0 {
      LoanEnds(q, outs[0]);
    } else {
      LoanStays(q, ops[0], outs[0]);
      assert forall i :: 0 <= i < k - 1 ==> ops[1..][i] == ops[i + 1];
      LoanIsStable(After(q, ops[0], outs[0]), ops[1..], outs[1..], k - 1);
    }
  }

  lemma LoanStays(q: Queue, op: Op, out: Out)
    requires Answers(q, op, out) && q.loan.Lent? && !op.Claim? && !op.Release?
    ensures out.intact && After(q, op, out).loan.Lent? && After(q, op, out).loan.m == q.loan.m
    ensures !op.Pop? ==> After(q, op, out).loan.taken == q.loan.taken
  {
  }

  lemma LoanEnds(q: Queue, out: Out)
    requires Answers(q, Release, out) && q.loan.Lent?
    ensures out.rc == 0 && (out.intact ==> out.m == q.loan.m) && (q.loan.taken == 0 ==> out.intact)
  {
  }

  /** The item in front of the ring lies in one piece and reads as what it is. */
  lemma HeadItem(mem: bytes, head: nat, tail: nat, items: seq<Item>, f: Frame, fs: seq<Frame>)
    requires 0 < |mem| && items != [] && fs == FramesOf(items) && f == FrameOf(items[0])
    requires RingOk(mem, head, tail, fs)
    ensures head + Total(f) <= tail && Index(head, |mem|) + Total(f) <= |mem| && Total(f) >= 8
    ensures Holds(mem[Index(head, |mem|)..Index(head, |mem|) + Total(f)], f)
    ensures items[0].Gap? ==> |items| > 1 && items[1].Message?
  {
    hide *;
    FramesAt(items);
    HeadFrame(mem, head, tail, fs);
  }

  lemma FramesAt(items: seq<Item>)
    requires items != []
    ensures FramesOf(items) != [] && FramesOf(items)[0] == FrameOf(items[0]) && FramesOf(items)[1..] == FramesOf(items[1..])
    ensures FrameOf(items[0]).Pad? == items[0].Gap?
    ensures |FramesOf(items)| > 1 ==> |items| > 1 && FramesOf(items)[1].Data? == items[1].Message?
  {
  }

  lemma MessageTotal(it: Item)
    requires it.Message? && ItemFits(it)
    ensures Total(FrameOf(it)) == Needs(it.m)
  {
    hide FromLE;
  }

  lemma FirstMessage(items: seq<Item>)
    requires items != []
    ensures items[0].Message? ==> Messages(items) != [] && Messages(items)[0] == items[0].m
    ensures items[0].Gap? ==> Messages(items) == Messages(items[1..])
  {
  }

  /** The frame of the message in front starts at the head, or behind the padding there. */
  lemma FrontItem(mem: bytes, head: nat, tail: nat, items: seq<Item>)
    requires 0 < |mem| && AllFit(items) && RingOk(mem, head, tail, FramesOf(items)) && items != []
    ensures items[0].Message? ==> Messages(items) != [] && StartOf(head, Needs(Messages(items)[0]), |mem|) == head
    ensures items[0].Gap? ==>
      Messages(items[1..]) == Messages(items) != [] &&
      StartOf(head, Needs(Messages(items)[0]), |mem|) == head + items[0].len == StartOf(head + items[0].len, Needs(Messages(items)[0]), |mem|)
  {
    hide RingOk, StartOf, Index, ItemFits, FramesOf, Messages, FrameOf, Total;
    FramesAt(items);
    FirstMessage(items);
    FrontStart(mem, head, tail, FramesOf(items));
    if items[0].Message? {
      MessageTotal(items[0]);
    } else {
      FramesAt(items[1..]);
      FirstMessage(items[1..]);
      assert items[1..][0] == items[1] && items[1] in items;
      MessageTotal(items[1]);
      GapTotal(items[0]);
      GapLength(items[0]);
    }
  }

  lemma GapLength(it: Item)
    requires it.Gap?
    ensures FrameOf(it).Pad? && FrameOf(it).len == it.len
  {
  }

  /** What the first two words of the item in front say. */
  lemma HeadWords(mem: bytes, head: nat, tail: nat, items: seq<Item>, at: nat)
    requires 0 < |mem| && AllFit(items) && RingOk(mem, head, tail, FramesOf(items)) && items != [] && at == Index(head, |mem|)
    ensures at + 8 <= |mem| && FromLE(mem[at + 4..at + 8]) == COMMITTED
    ensures FromLE(mem[at..at + 4]) == if items[0].Message? then |items[0].m.data| else U32 - items[0].len
    ensures items[0].Message? ==> Reads(mem, at, items[0].m)
  {
    hide RingOk, FramesOf, FromLE, Total, FrameOf, Index, Holds;
    HeadItem(mem, head, tail, items, FrameOf(items[0]), FramesOf(items));
    assert items[0] in items && ItemFits(items[0]);
    ItemWords(mem, at, Total(FrameOf(items[0])), items[0], FrameOf(items[0]));
  }

  lemma ItemWords(mem: bytes, at: nat, n: nat, it: Item, f: Frame)
    requires ItemFits(it) && f == FrameOf(it) && n == Total(f) && 8 <= n && at + n <= |mem| && Holds(mem[at..at + n], f)
    ensures FromLE(mem[at + 4..at + 8]) == COMMITTED
    ensures FromLE(mem[at..at + 4]) == if it.Message? then |it.m.data| else U32 - it.len
    ensures it.Message? ==> Reads(mem, at, it.m)
  {
    hide FromLE;
    match it {
      case Message(m, header) => ReadMessage(mem, at, n, m, header);
      case Gap(len, mark) => ReadGap(mem, at, len, mark);
    }
  }

  lemma ReadGap(mem: bytes, at: nat, len: nat, mark: bytes)
    requires 8 <= len && at + len <= |mem| && IsMark(mark, len) && Holds(mem[at..at + len], Pad(mark, len))
    ensures FromLE(mem[at..at + 4]) == U32 - len && FromLE(mem[at + 4..at + 8]) == COMMITTED
  {
    SliceOfSlice(mem, at, len, 0, 8);
    SliceOfSlice(mem, at, 8, 0, 4);
    SliceOfSlice(mem, at, 8, 4, 4);
  }

  /** The frame at index `at` reads as the message. */
  predicate Reads(mem: bytes, at: nat, m: Msg) {
    at + HDR + |m.data| <= |mem| &&
    FromLE(mem[at..at + 4]) == |m.data| && FromLE(mem[at + 4..at + 8]) == COMMITTED &&
    FromLE(mem[at + 8..at + 16]) == m.id && FromLE(mem[at + 16..at + 20]) == m.flags &&
    FromLE(mem[at + 20..at + 24]) == m.priority &&
    mem[at + HDR..at + HDR + |m.data|] == m.data
  }

  lemma ReadMessage(mem: bytes, at: nat, n: nat, m: Msg, header: bytes)
    requires IsHeader(header, m) && n == Total(Data(header, 0, m.data)) && at + n <= |mem|
    requires Holds(mem[at..at + n], Data(header, 0, m.data))
    ensures Reads(mem, at, m)
  {
    SliceOfSlice(mem, at, n, 0, HDR);
    SliceOfSlice(mem, at, n, HDR, |m.data|);
    SliceOfSlice(mem, at, HDR, 0, 4);
    SliceOfSlice(mem, at, HDR, 4, 4);
    SliceOfSlice(mem, at, HDR, 8, 8);
    SliceOfSlice(mem, at, HDR, 16, 4);
    SliceOfSlice(mem, at, HDR, 20, 4);
  }

  /** Marking the message in front as consumed and moving past it leaves the others. */
  lemma Retired(mem: bytes, mem': bytes, head: nat, tail: nat, items: seq<Item>)
    requires |mem| > 0 && AllFit(items) && RingOk(mem, head, tail, FramesOf(items)) && items != [] && items[0].Message?
    requires Index(head, |mem|) + 8 <= |mem| && SameOutside(mem, mem', Index(head, |mem|), 8)
    ensures RingOk(mem', head + Align8(HDR + |items[0].m.data|), tail, FramesOf(items[1..]))
    ensures AllFit(items[1..]) && Messages(items[1..]) == Messages(items)[1..]
  {
    var n := Align8(HDR + |items[0].m.data|);
    assert items[0] in items && ItemFits(items[0]) && Total(FrameOf(items[0])) == n;
    assert AllFit(items[1..]);
    FramesAt(items);
    HeadItem(mem, head, tail, items, FrameOf(items[0]), FramesOf(items));
    DropHeadRewritten(mem, mem', head, tail, n, FramesOf(items), FramesOf(items)[1..]);
  }

  /** The bytes written by a push append one message to the ring, and leave the rest of the window alone. */
  lemma PushedFrame(mem: bytes, marked: bytes, mem': bytes, head: nat, end: nat, tail': nat,
                    items: seq<Item>, gap: seq<Item>, it: Item)
    requires 0 < |mem| && AllFit(items) && AllFit(gap) && ItemFits(it) && it.Message? && Messages(gap) == []
    requires RingOk(mem, head, end, FramesOf(items))
    requires Accepts(head, end, Total(FrameOf(it)), |mem|)
    requires IsGap(FramesOf(gap), PadFor(Index(end, |mem|), Total(FrameOf(it)), |mem|))
    requires Marked(mem, marked, end, FramesOf(gap))
    requires var pad := PadFor(Index(end, |mem|), Total(FrameOf(it)), |mem|);
             tail' == end + pad + Total(FrameOf(it)) && Written(marked, mem', Index(end + pad, |mem|), FrameOf(it))
    ensures AllFit(items + gap + [it])
    ensures RingOk(mem', head, tail', FramesOf(items + gap + [it]))
    ensures Messages(items + gap + [it]) == Messages(items) + [it.m]
    ensures Window(mem', head, end) == Window(mem, head, end)
  {
    hide *;
    PushedItems(items, gap, it);
    AppendFrame(mem, marked, mem', head, end, FramesOf(items), PadFor(Index(end, |mem|), Total(FrameOf(it)), |mem|), FramesOf(gap), FrameOf(it));
  }

  lemma PushedItems(items: seq<Item>, gap: seq<Item>, it: Item)
    requires it.Message? && Messages(gap) == []
    ensures AllFit(items) && AllFit(gap) && ItemFits(it) ==> AllFit(items + gap + [it])
    ensures FramesOf(items + gap + [it]) == FramesOf(items) + FramesOf(gap) + [FrameOf(it)]
    ensures Messages(items + gap + [it]) == Messages(items) + [it.m]
    ensures FrameOf(it).Data? && (ItemFits(it) ==> Total(FrameOf(it)) > 0)
  {
    FramesAppend(items, gap);
    FramesAppend(items + gap, [it]);
    MessagesAppend(items, gap);
    MessagesAppend(items + gap, [it]);
    assert FramesOf([it]) == [FrameOf(it)] && Messages([it]) == [it.m];
  }

  // ---- what has left the ring since the last claim ----

  /** Until the producer comes round, the frames that left are still where they were, in front of the others. */
  ghost predicate Behind(mem: bytes, claimed: nat, gone: seq<Item>, head: nat, tail: nat, items: seq<Item>) {
    claimed % 8 == 0 && Spent(gone) && head == claimed + TotalOf(FramesOf(gone)) &&
    (tail <= claimed + |mem| ==> RingOk(mem, claimed, tail, FramesOf(gone) + FramesOf(items)))
  }

  lemma NothingInRing(mem: bytes)
    requires |mem| > 0 && |mem| % 8 == 0
    ensures RingOk(mem, 0, 0, FramesOf([])) && Behind(mem, 0, [], 0, 0, [])
  {
    hide RingOk, Behind;
    EmptyRing(mem);
    NothingBehind(mem, 0, 0, []);
  }

  lemma NothingBehind(mem: bytes, head: nat, tail: nat, items: seq<Item>)
    ensures RingOk(mem, head, tail, FramesOf(items)) ==> Behind(mem, head, [], head, tail, items)
  {
    assert FramesOf([]) + FramesOf(items) == FramesOf(items);
  }

  lemma {:induction false} TotalAppend(a: seq<Frame>, b: seq<Frame>)
    ensures TotalOf(a + b) == TotalOf(a) + TotalOf(b)
  {
    if a == [] {
      assert a + b == b;
    } else {
      assert (a + b)[1..] == a[1..] + b;
      TotalAppend(a[1..], b);
    }
  }

  lemma FramesOne(it: Item)
    ensures FramesOf([it]) == [FrameOf(it)] && TotalOf([FrameOf(it)]) == Total(FrameOf(it))
  {
    assert [it][1..] == [] && [FrameOf(it)][1..] == [];
  }

  lemma SkippedBehind(mem: bytes, claimed: nat, gone: seq<Item>, head: nat, tail: nat, items: seq<Item>)
    requires Behind(mem, claimed, gone, head, tail, items) && AllFit(items) && items != [] && items[0].Gap?
    ensures Behind(mem, claimed, gone + [items[0]], head + items[0].len, tail, items[1..])
  {
    hide RingOk, FrameOf, FramesOf, TotalOf, Total, FromLE;
    assert ItemFits(items[0]);
    FramesAppend(gone, [items[0]]);
    FramesOne(items[0]);
    FramesAt(items);
    TotalAppend(FramesOf(gone), [FrameOf(items[0])]);
    GapTotal(items[0]);
    assert FramesOf(gone) + FramesOf(items) == (FramesOf(gone) + [FrameOf(items[0])]) + FramesOf(items[1..]) by {
      assert FramesOf(items) == [FrameOf(items[0])] + FramesOf(items[1..]);
    }
  }

  lemma GapTotal(it: Item)
    requires it.Gap?
    ensures Total(FrameOf(it)) == it.len
  {
  }

  /** An empty ring takes every frame of at most half its capacity. */
  lemma EmptyAccepts(mem: bytes, head: nat, tail: nat, items: seq<Item>, need: nat)
    requires RingOk(mem, head, tail, FramesOf(items)) && |mem| % HDR == 0 && need % 8 == 0 && need > 0
    ensures Messages(items) == [] && need <= |mem| / 2 ==> Accepts(head, tail, need, |mem|)
  {
    hide Tiles, Laid, Window, Index, Holds;
    if Messages(items) == [] && need <= |mem| / 2 {
      if items != [] {
        HeadItem(mem, head, tail, items, FrameOf(items[0]), FramesOf(items));
        SomeMessage(items);
        assert false;
      }
      EmptyWindow(mem, head, tail, FramesOf(items));
      HalfAccepted(tail, need, |mem| / 2);
    }
  }

  lemma SomeMessage(items: seq<Item>)
    requires items != [] && (items[0].Gap? ==> |items| > 1 && items[1].Message?)
    ensures Messages(items) != []
  {
    if items[0].Gap? { assert Messages(items) == Messages(items[1..]); }
  }

  lemma PushedBehind(mem: bytes, marked: bytes, mem': bytes, claimed: nat, gone: seq<Item>, head: nat, end: nat, tail': nat,
                     items: seq<Item>, gap: seq<Item>, it: Item)
    requires 0 < |mem| == |mem'| && ItemFits(it) && it.Message? && Messages(gap) == []
    requires Behind(mem, claimed, gone, head, end, items) && head <= end
    requires Accepts(head, end, Total(FrameOf(it)), |mem|)
    requires IsGap(FramesOf(gap), PadFor(Index(end, |mem|), Total(FrameOf(it)), |mem|))
    requires Marked(mem, marked, end, FramesOf(gap))
    requires var pad := PadFor(Index(end, |mem|), Total(FrameOf(it)), |mem|);
             tail' == end + pad + Total(FrameOf(it)) && Written(marked, mem', Index(end + pad, |mem|), FrameOf(it))
    ensures Behind(mem', claimed, gone, head, tail', items + gap + [it])
  {
    hide RingOk, Index, FramesOf, FrameOf, Written, Marked, IsGap, Total, TotalOf, Messages, Spent, FromLE;
    PushedItems(items, gap, it);
    if tail' <= claimed + |mem| {
      AppendFrame(mem, marked, mem', claimed, end, FramesOf(gone) + FramesOf(items),
                  PadFor(Index(end, |mem|), Total(FrameOf(it)), |mem|), FramesOf(gap), FrameOf(it));
      assert FramesOf(gone) + FramesOf(items) + FramesOf(gap) + [FrameOf(it)] ==
             FramesOf(gone) + (FramesOf(items) + FramesOf(gap) + [FrameOf(it)]);
    }
  }

  /** The status of a frame that is marked as consumed is all that changes of it. */
  lemma FrameConsumed(mem: bytes, mem': bytes, at: nat, n: nat, it: Item)
    requires it.Message? && |it.header| == HDR && n == Total(FrameOf(it)) && at + n <= |mem|
    requires Holds(mem[at..at + n], FrameOf(it)) && mem' == Patch(mem, at + 4, ToLE(FRAME_EMPTY, 4))
    ensures Holds(mem'[at..at + n], FrameOf(Consumed(it))) && SameOutside(mem, mem', at, n)
    ensures Total(FrameOf(Consumed(it))) == n && IsSpent(Consumed(it))
  {
    hide FromLE, ToLE;
    RangeValues();
    FromToLE(FRAME_EMPTY, 4);
    var w, w', s := mem[at..at + n], mem'[at..at + n], ToLE(FRAME_EMPTY, 4);
    assert it.header == w[..HDR];
    forall i | 0 <= i < HDR
      ensures w'[..HDR][i] == Consumed(it).header[i]
    {
      assert w'[i] == mem'[at + i] && it.header[i] == w[i] == mem[at + i];
    }
    SliceOfSlice(mem, at, n, HDR, |it.m.data|);
    SliceOfSlice(mem', at, n, HDR, |it.m.data|);
    assert mem'[at + HDR..at + HDR + |it.m.data|] == mem[at + HDR..at + HDR + |it.m.data|];
    assert Consumed(it).header[4..8] == s;
  }

  lemma RetiredBehind(mem: bytes, mem': bytes, claimed: nat, gone: seq<Item>, head: nat, tail: nat, items: seq<Item>)
    requires |mem| > 0 && Behind(mem, claimed, gone, head, tail, items) && RingOk(mem, head, tail, FramesOf(items))
    requires items != [] && items[0].Message? && |items[0].header| == HDR && Index(head, |mem|) + 8 <= |mem|
    requires mem' == Patch(mem, Index(head, |mem|) + 4, ToLE(FRAME_EMPTY, 4))
    ensures Behind(mem', claimed, gone + [Consumed(items[0])], head + Align8(HDR + |items[0].m.data|), tail, items[1..])
  {
    hide RingOk, Index, FramesOf, TotalOf, Holds, FromLE, ToLE;
    var it, f, f' := items[0], FrameOf(items[0]), FrameOf(Consumed(items[0]));
    var n := Total(f);
    HeadItem(mem, head, tail, items, f, FramesOf(items));
    FrameConsumed(mem, mem', Index(head, |mem|), n, it);
    FramesAppend(gone, [Consumed(it)]);
    FramesOne(Consumed(it));
    FramesAt(items);
    TotalAppend(FramesOf(gone), [f']);
    if tail <= claimed + |mem| {
      assert FramesOf(gone) + FramesOf(items) == FramesOf(gone) + [f] + FramesOf(items[1..]);
      RewriteInPlace(mem, mem', claimed, head, tail, n, FramesOf(gone), f, FramesOf(items[1..]), f');
    }
  }

  /** The bytes of the message in front of a ring. */
  lemma MessageReads(mem: bytes, head: nat, tail: nat, items: seq<Item>)
    requires |mem| > 0 && RingOk(mem, head, tail, FramesOf(items))
    requires items != [] && items[0].Message? && |items[0].header| == HDR
    ensures var at := Index(head, |mem|) + HDR;
            at + |items[0].m.data| <= |mem| && mem[at..at + |items[0].m.data|] == items[0].m.data
  {
    hide RingOk, Index, FramesOf;
    var n := Total(FrameOf(items[0]));
    HeadItem(mem, head, tail, items, FrameOf(items[0]), FramesOf(items));
    SliceOfSlice(mem, Index(head, |mem|), n, HDR, |items[0].m.data|);
  }

  /** After a release the ring has what left behind the loan, and what was waiting. */
  lemma Released(mem: bytes, mem': bytes, from: nat, head: nat, tail: nat, left: seq<Item>, waiting: seq<Item>)
    requires |mem| > 0 && Behind(mem, from, left, head, tail, waiting) && RingOk(mem, head, tail, FramesOf(waiting)) && AllFit(waiting)
    requires left == [] || tail <= from + |mem|
    requires if left == [] then waiting != [] && waiting[0].Message? else left[0].Message?
    requires Index(from, |mem|) + 8 <= |mem| && mem' == Patch(mem, Index(from, |mem|) + 4, ToLE(FRAME_EMPTY, 4))
    ensures var all := left + waiting;
            all[0].Message? && |all[0].header| == HDR &&
            var head' := from + Align8(HDR + |all[0].m.data|);
            RingOk(mem', head', tail, FramesOf(all[1..])) && Behind(mem', from, [Consumed(all[0])], head', tail, all[1..]) &&
            Messages([Consumed(all[0])]) == [all[0].m] &&
            (left == [] ==> AllFit(all[1..]) && Messages(all[1..]) == Messages(waiting)[1..]) &&
            (left != [] && |Messages(left)| == 1 ==> AllFit(all[1..]) && Messages(all[1..]) == Messages(waiting)) &&
            (left != [] && |Messages(left)| > 1 ==>
              !exists items: seq<Item> :: AllFit(items) && RingOk(mem', head', tail, FramesOf(items)))
  {
    hide Tiles, Laid, Window, Index, Holds, RingOk, FromLE, ToLE, Behind, FramesOf;
    var all := left + waiting;
    InOneRing(mem, from, head, tail, left, waiting);
    var head' := from + Align8(HDR + |all[0].m.data|);
    SetBack(mem, mem', from, tail, all);
    NothingBehind(mem, from, tail, all);
    RetiredBehind(mem, mem', from, [], from, tail, all);
    assert [] + [Consumed(all[0])] == [Consumed(all[0])];
    if left == [] {
      assert all == waiting && AllFit(all[1..]);
    } else {
      SpentTail(mem, from, head, tail, left, waiting);
      LeftMessages(left, waiting);
      assert all[1..] == left[1..] + waiting;
      if |Messages(left)| > 1 {
        forall items: seq<Item> | AllFit(items) && RingOk(mem', head', tail, FramesOf(items))
          ensures false
        {
          Stuck(mem', head', tail, left[1..], waiting, items);
        }
      }
    }
  }

  lemma InOneRing(mem: bytes, from: nat, head: nat, tail: nat, left: seq<Item>, waiting: seq<Item>)
    requires Behind(mem, from, left, head, tail, waiting) && RingOk(mem, head, tail, FramesOf(waiting)) && AllFit(waiting)
    requires left == [] || tail <= from + |mem|
    requires if left == [] then waiting != [] && waiting[0].Message? else left[0].Message?
    ensures RingOk(mem, from, tail, FramesOf(left + waiting)) && |(left + waiting)[0].header| == HDR
  {
    hide RingOk, FromLE;
    FramesAppend(left, waiting);
    if left == [] {
      assert left + waiting == waiting && waiting[0] in waiting && ItemFits(waiting[0]);
    } else {
      assert left[0] in left && IsSpent(left[0]);
    }
  }

  lemma SpentTail(mem: bytes, from: nat, head: nat, tail: nat, left: seq<Item>, waiting: seq<Item>)
    requires Behind(mem, from, left, head, tail, waiting) && left != []
    ensures Spent(left) && IsSpent(left[0]) && Spent(left[1..])
  {
    hide RingOk, FromLE;
  }

  lemma SetBack(mem: bytes, mem': bytes, from: nat, tail: nat, all: seq<Item>)
    requires |mem| > 0 && RingOk(mem, from, tail, FramesOf(all)) && all != [] && all[0].Message? && |all[0].header| == HDR
    requires Index(from, |mem|) + 8 <= |mem| && mem' == Patch(mem, Index(from, |mem|) + 4, ToLE(FRAME_EMPTY, 4))
    ensures RingOk(mem', from + Align8(HDR + |all[0].m.data|), tail, FramesOf(all[1..]))
  {
    hide RingOk, Index, FromLE, ToLE, FramesOf;
    FramesAt(all);
    assert Total(FrameOf(all[0])) == Align8(HDR + |all[0].m.data|);
    DropHeadRewritten(mem, mem', from, tail, Total(FrameOf(all[0])), FramesOf(all), FramesOf(all[1..]));
  }

  lemma LeftMessages(left: seq<Item>, waiting: seq<Item>)
    requires left != [] && left[0].Message? && Spent(left) && AllFit(waiting)
    ensures |Messages(left)| == 1 + |Messages(left[1..])|
    ensures |Messages(left)| == 1 ==> AllFit(left[1..] + waiting) && Messages(left[1..] + waiting) == Messages(waiting)
  {
    hide FromLE;
    MessagesAppend(left[1..], waiting);
    if |Messages(left)| == 1 { OnlyGaps(left[1..]); }
  }

  lemma {:induction false} OnlyGaps(left: seq<Item>)
    requires Spent(left) && Messages(left) == []
    ensures AllFit(left)
  {
    if left != [] { OnlyGaps(left[1..]); }
  }

  /** A message that is marked as consumed cannot be in front of a ring in order, nor behind padding in front of it. */
  lemma {:induction false} Stuck(mem: bytes, head: nat, tail: nat, left: seq<Item>, waiting: seq<Item>, items: seq<Item>)
    requires |mem| > 0 && RingOk(mem, head, tail, FramesOf(left + waiting)) && Spent(left) && Messages(left) != []
    requires AllFit(items) && RingOk(mem, head, tail, FramesOf(items))
    ensures false
    decreases |left|
  {
    hide RingOk, Index, Holds, FromLE, FramesOf, FrameOf, Total;
    var all, at := left + waiting, Index(head, |mem|);
    HeadItem(mem, head, tail, all, FrameOf(all[0]), FramesOf(all));
    EmptyWindow(mem, head, tail, FramesOf(items));
    FramesOfNone();
    HeadWords(mem, head, tail, items, at);
    assert left[0] in left && IsSpent(left[0]) && items[0] in items && ItemFits(items[0]);
    SpentWords(mem, at, Total(FrameOf(left[0])), left[0]);
    if left[0].Gap? {
      FramesAt(all);
      FramesAt(items);
      GapTotal(left[0]);
      GapTotal(items[0]);
      DropHead(mem, head, tail, FramesOf(all));
      DropHead(mem, head, tail, FramesOf(items));
      assert all[1..] == left[1..] + waiting;
      Stuck(mem, head + left[0].len, tail, left[1..], waiting, items[1..]);
    }
  }

  lemma FramesOfNone()
    ensures FramesOf([]) == []
  {
  }

  lemma SpentWords(mem: bytes, at: nat, n: nat, it: Item)
    requires IsSpent(it) && n == Total(FrameOf(it)) && 8 <= n && at + n <= |mem| && Holds(mem[at..at + n], FrameOf(it))
    ensures it.Message? ==> FromLE(mem[at + 4..at + 8]) == FRAME_EMPTY
    ensures it.Gap? ==> FromLE(mem[at..at + 4]) == U32 - it.len
  {
    hide FromLE;
    match it {
      case Message(m, header) =>
        SliceOfSlice(mem, at, n, 0, HDR);
        SliceOfSlice(mem, at, HDR, 4, 4);
      case Gap(len, mark) => ReadGap(mem, at, len, mark);
    }
  }
}
