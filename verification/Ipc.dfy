/** The shared-memory ring between processes: variable-length frames that are lent to the consumer in place.

    Operations are atomic; the shared header's head and tail are fields of the segment.  A loan is a view of the
    buffer, not a copy: what this module proves is that nothing but its release disturbs it.
  */
module Ipc {
  import opened Arith
  import opened Bytes
  import opened FrameRing

  const EMPTY: nat := 0
  const CLAIMED: nat := 1
  const COMMITTED: nat := 2
  const HDR: nat := 16

  const OK: int := 0
  const ERR_INVALID: int := -1
  const ERR_FULL: int := -4
  const ERR_EMPTY: int := -5
  const ERR_BUSY: int := -10

  /** What lies between head and tail.  Of the 16 header bytes of a message only length and status are written. */
  datatype Item = Message(data: bytes, held: bool, header: bytes) | Gap(len: nat, mark: bytes)

  /** The two words say the length and the status. */
  predicate IsHeader(h: bytes, len: nat, status: nat) {
    |h| == 8 && FromLE(h[0..4]) == len && FromLE(h[4..8]) == status
  }

  predicate ItemFits(it: Item) {
    match it
    case Message(data, held, header) => |data| < U32 / 2 && IsHeader(header, |data|, if held then CLAIMED else COMMITTED)
    case Gap(len, mark) => 0 < len < U32 / 2 && IsHeader(mark, U32 - len, COMMITTED)
  }

  predicate AllFit(items: seq<Item>) {
    forall it :: it in items ==> ItemFits(it)
  }

  /** Only the message in front can be lent. */
  predicate NoneHeld(items: seq<Item>) {
    forall it :: it in items && it.Message? ==> !it.held
  }

  function FrameOf(it: Item): Frame {
    match it
    case Message(data, held, header) => Data(header, 8, data)
    case Gap(len, mark) => Pad(mark, len)
  }

  function FramesOf(items: seq<Item>): seq<Frame> {
    if items == [] then [] else [FrameOf(items[0])] + FramesOf(items[1..])
  }

  /** The messages among the items, oldest first. */
  function Messages(items: seq<Item>): seq<bytes> {
    if items == [] then []
    else (if items[0].Message? then [items[0].data] else []) + Messages(items[1..])
  }

  lemma {:induction false} FramesAppend(a: seq<Item>, b: seq<Item>)
    ensures FramesOf(a + b) == FramesOf(a) + FramesOf(b)
  {
    hide FrameOf;
    if a == [] {
      assert a + b == b;
    } else {
      assert (a + b)[1..] == a[1..] + b;
      FramesAppend(a[1..], b);
      Associate([FrameOf(a[0])], FramesOf(a[1..]), FramesOf(b));
    }
  }

  lemma {:induction false} MessagesAppend(a: seq<Item>, b: seq<Item>)
    ensures Messages(a + b) == Messages(a) + Messages(b)
  {
    if a == [] {
      assert a + b == b;
    } else {
      assert (a + b)[1..] == a[1..] + b;
      MessagesAppend(a[1..], b);
      Associate(if a[0].Message? then [a[0].data] else [], Messages(a[1..]), Messages(b));
    }
  }

  /** A view of the ring: `size` bytes at index `at`, of the frame that starts at position `frameHead`.  A
      released loan is zeroed. */
  datatype Loan = Zeroed | Loan(at: nat, size: nat, frameHead: nat)

  class Segment {
    const ring: array<byte>
    var head: nat
    var tail: nat
    ghost var items: seq<Item>

    ghost predicate Valid()
      reads this, ring
    {
      ring.Length % 32 == 0 && ring.Length % 8 == 0 && 4096 <= ring.Length <= U32 / 2 &&
      AllFit(items) && NoneHeld(Rest(items)) &&
      RingOk(ring[..], head, tail, FramesOf(items))
    }

    /** The queue of messages, oldest first; a message that is lent is still the first of them. */
    ghost function Contents(): seq<bytes>
      reads this
    {
      Messages(items)
    }

    /** The first message is lent out. */
    ghost predicate Lent()
      reads this
    {
      items != [] && items[0].Message? && items[0].held
    }

    /** `loan` is the view of the message that is lent out. */
    ghost predicate IsLoan(loan: Loan)
      reads this, ring
    {
      Views(ring[..], head, items, loan)
    }

    /** A view of a frame that has left the ring, and whose place the producer has not come round to yet. */
    ghost predicate Gone(loan: Loan)
      reads this, ring
    {
      LeftBehind(ring[..], head, tail, loan)
    }

    constructor (capacity: nat)
      requires 0 < capacity <= U32 / 2
      ensures Valid() && Contents() == [] && !Lent() && fresh(ring)
      ensures head == tail == 0 && (ring.Length == 4096 || ring.Length < 2 * capacity)
    {
      hide RingOk, Pow2;
      var c := RoundUpPow2(capacity);
      ring := new byte[c](i => 0);
      head, tail, items := 0, 0, [];
      new;
      EmptyRing(ring[..]);
    }

    /** Copies `data` into the buffer. */
    method Store(at: nat, data: bytes)
      requires at + |data| <= ring.Length
      modifies ring
      ensures ring[..] == Patch(old(ring[..]), at, data)
    {
      var i := 0;
      while i < |data|
        invariant 0 <= i <= |data|
        invariant ring[..] == Patch(old(ring[..]), at, data[..i])
      {
        ring[at + i] := data[i];
        i := i + 1;
      }
      assert data[..i] == data;
    }

    function Word(at: nat): (w: nat)
      requires at + 4 <= ring.Length
      reads ring
      ensures w < U32
    {
      RangeValues();
      FromLE(ring[at..at + 4])
    }

    method Reserve(need: nat) returns (rc: int, offset: nat, ghost gap: seq<Item>)
      requires Valid() && 0 < need <= ring.Length && need % 8 == 0
      modifies this`tail, ring
      ensures rc == if Accepts(head, old(tail), need, ring.Length) then OK else ERR_FULL
      ensures rc != OK ==> tail == old(tail) && ring[..] == old(ring[..])
      ensures rc == OK ==> offset == old(tail) + PadFor(Index(old(tail), ring.Length), need, ring.Length) && tail == offset + need
      ensures rc == OK ==> AllFit(gap) && NoneHeld(gap) && Messages(gap) == [] && IsGap(FramesOf(gap), offset - old(tail))
      ensures rc == OK ==> Marked(old(ring[..]), ring[..], old(tail), FramesOf(gap))
    {
      hide Tiles, Laid, Window, Index, Holds, FromLE;
      var cap := ring.Length;
      Bounds(ring[..], head, tail, FramesOf(items));
      RoomForPadding(head, tail, need, cap);
      IndexIsModulo(tail, cap);
      var idx := tail % cap;
      var pad, claim := 0, need;
      offset, gap := tail, [];
      if idx + need > cap {
        pad := cap - idx;
        claim := pad + need;
      }
      if tail - head + claim > cap {
        return ERR_FULL, tail, [];
      }
      offset := tail + pad;
      if pad > 0 {
        gap := WritePadding(idx, pad);
      }
      tail := tail + claim;
      rc := OK;
    }

    method WritePadding(idx: nat, pad: nat) returns (ghost gap: seq<Item>)
      requires Valid() && idx == Index(tail, ring.Length) && 0 < pad == ring.Length - idx < U32 / 2
      modifies ring
      ensures AllFit(gap) && NoneHeld(gap) && Messages(gap) == [] && IsGap(FramesOf(gap), pad)
      ensures Marked(old(ring[..]), ring[..], tail, FramesOf(gap))
    {
      hide Tiles, Laid, Window, Index, Holds, FromLE, ToLE;
      TailAligned(ring[..], head, tail, FramesOf(items));
      HeaderReads(U32 - pad, COMMITTED);
      var mark := ToLE(U32 - pad, 4) + ToLE(COMMITTED, 4);
      gap := [Gap(pad, mark)];
      Store(idx, ToLE(U32 - pad, 4));
      Store(idx + 4, ToLE(COMMITTED, 4));
      assert SameOutside(old(ring[..]), ring[..], idx, 8) && ring[idx..idx + 8] == mark;
    }

    /** Appends a message, or refuses it when there is no room for its frame. */
    method Publish(data: bytes) returns (rc: int)
      requires Valid() && |data| + HDR + 7 < U32
      modifies this`tail, this`items, ring
      ensures Valid()
      ensures rc == if Accepts(head, old(tail), Align8(HDR + |data|), ring.Length) then OK else ERR_FULL
      ensures old(Contents()) == [] && Align8(HDR + |data|) <= ring.Length / 2 ==> rc == OK
      ensures Contents() == old(Contents()) + (if rc == OK then [data] else [])
      ensures tail == if rc == OK then StartOf(old(tail), Align8(HDR + |data|), ring.Length) + Align8(HDR + |data|) else old(tail)
      ensures Lent() == old(Lent())
      ensures forall loan :: old(Gone(loan)) && tail <= loan.frameHead + ring.Length ==> Gone(loan)
      ensures forall loan :: old(IsLoan(loan)) ==> IsLoan(loan) && ring[loan.at..loan.at + loan.size] == old(ring[loan.at..loan.at + loan.size])
    {
      hide Tiles, Laid, Window, Index, Holds, FromLE, Views, LeftBehind, NoneHeld, FramesOf, Accepts, StartOf;
      var total := Align8(HDR + |data|);
      RoomForPadding(head, tail, total, ring.Length);
      EmptyAccepts(ring[..], head, tail, items, total);
      if total > ring.Length {
        return ERR_FULL;
      }
      ghost var mem, end, waiting := ring[..], tail, items;
      var offset;
      ghost var gap;
      rc, offset, gap := Reserve(total);
      if rc != OK {
        return;
      }
      Commit(mem, end, offset, gap, data);
      StillBehind(mem, ring[..], head, end, tail);
      LoansKept(mem, ring[..], head, end, waiting, items);
    }

    /** Fills in a reserved frame. */
    method Commit(ghost mem: bytes, ghost end: nat, offset: nat, ghost gap: seq<Item>, data: bytes)
      requires ring.Length == |mem| && 4096 <= ring.Length <= U32 / 2 && ring.Length % 8 == 0 && ring.Length % 32 == 0
      requires |data| < U32 / 2 && AllFit(items) && NoneHeld(Rest(items)) && RingOk(mem, head, end, FramesOf(items))
      requires Accepts(head, end, Align8(HDR + |data|), |mem|)
      requires offset == end + PadFor(Index(end, |mem|), Align8(HDR + |data|), |mem|)
      requires tail == offset + Align8(HDR + |data|)
      requires AllFit(gap) && NoneHeld(gap) && Messages(gap) == []
      requires IsGap(FramesOf(gap), offset - end) && Marked(mem, ring[..], end, FramesOf(gap))
      modifies this`items, ring
      ensures Valid() && Contents() == old(Contents()) + [data]
      ensures old(items) <= items && (old(items) == [] ==> !Lent())
      ensures Window(ring[..], head, end) == Window(mem, head, end)
      ensures forall p: nat :: p <= end && tail <= p + |mem| ==> Window(ring[..], p, end) == Window(mem, p, end)
    {
      hide Tiles, Laid, Window, Index, Holds, FramesOf, Messages, RingOk;
      ghost var marked, waiting := ring[..], items;
      Bounds(mem, head, end, FramesOf(items));
      RoomForPadding(head, end, Align8(HDR + |data|), ring.Length);
      FrameStart(end, Align8(HDR + |data|), ring.Length);
      IndexIsModulo(offset, ring.Length);
      ghost var it := WriteFrame(offset % ring.Length, data);
      items := items + gap + [it];
      PublishedFrame(mem, marked, ring[..], head, end, tail, waiting, gap, it);
      OlderKept(mem, marked, ring[..], head, end, tail, waiting, gap, it);
    }

    /** The frame is marked committed only after its bytes are in place. */
    method WriteFrame(at: nat, data: bytes) returns (ghost it: Item)
      requires |data| < U32 / 2 && at + Align8(HDR + |data|) <= ring.Length
      modifies ring
      ensures it.Message? && it.data == data && !it.held && ItemFits(it)
      ensures Written(old(ring[..]), ring[..], at, FrameOf(it))
    {
      hide FromLE, ToLE, Written, Patch;
      it := Message(data, false, ToLE(|data|, 4) + ToLE(COMMITTED, 4));
      HeaderReads(|data|, COMMITTED);
      Store(at, ToLE(|data|, 4));
      Store(at + 4, ToLE(EMPTY, 4));
      Store(at + HDR, data);
      Store(at + 4, ToLE(COMMITTED, 4));
      WroteFrame(old(ring[..]), ring[..], at, ToLE(|data|, 4), ToLE(EMPTY, 4), ToLE(COMMITTED, 4), data);
    }

    /** Where the frame of the message in front starts. */
    ghost function Front(): nat
      reads this
    {
      if Contents() == [] then head else StartOf(head, Needs(Contents()[0]), ring.Length)
    }

    /** Lends the message in front, unless it is lent already. */
    method Claim() returns (rc: int, loan: Loan)
      requires Valid()
      modifies this`head, this`items, ring
      ensures Valid() && Contents() == old(Contents())
      ensures rc == if old(Lent()) then ERR_BUSY else if old(Contents()) == [] then ERR_EMPTY else OK
      ensures rc == OK ==> IsLoan(loan) && ring[loan.at..loan.at + loan.size] == old(Contents())[0]
      ensures rc != OK ==> Lent() == old(Lent()) && loan == Zeroed && ring[..] == old(ring[..])
      ensures old(Lent()) ==> head == old(head) && items == old(items)
      ensures old(head) <= head && forall stale :: old(Gone(stale)) ==> Gone(stale)
      ensures head == if rc == OK then old(Front()) else old(head)
    {
      hide Tiles, Laid, Window, Index, Holds, FromLE, FramesOf, StartOf;
      loan := Zeroed;
      while true
        invariant Valid() && Contents() == old(Contents()) && Lent() == old(Lent()) && ring[..] == old(ring[..]) && loan == Zeroed
        invariant old(Lent()) ==> head == old(head) && items == old(items)
        invariant old(head) <= head && forall stale :: old(Gone(stale)) ==> Gone(stale)
        invariant Front() == old(Front())
        decreases |items|
      {
        EmptyWindow(ring[..], head, tail, FramesOf(items));
        FramesEmpty(items);
        if head >= tail {
          return ERR_EMPTY, loan;
        }
        HeadWords(ring[..], head, tail, items, Index(head, ring.Length));
        FrontItem(ring[..], head, tail, items);
        IndexIsModulo(head, ring.Length);
        var at := head % ring.Length;
        if Word(at + 4) != COMMITTED {
          return ERR_BUSY, loan;
        }
        var len := Word(at);
        if len >= U32 / 2 {
          SkipPadding(U32 - len);
        } else {
          Hold(at);
          loan := Loan(at + HDR, len, head);
          return OK, loan;
        }
      }
    }

    method SkipPadding(len: nat)
      requires Valid() && items != [] && items[0].Gap? && items[0].len == len
      modifies this`head, this`items
      ensures Valid() && Contents() == old(Contents()) && items == old(items)[1..] && !Lent() && head == old(head) + len
      ensures Front() == old(Front())
    {
      hide StartOf, Tiles, Laid, Window, Index, Holds, FromLE, RingOk;
      FrontItem(ring[..], head, tail, items);
      DropHead(ring[..], head, tail, FramesOf(items));
      head := head + len;
      items := items[1..];
    }

    method Hold(at: nat)
      requires Valid() && items != [] && items[0].Message? && !items[0].held && at == Index(head, ring.Length)
      modifies this`items, ring
      ensures Valid() && Contents() == old(Contents()) && Lent()
      ensures IsLoan(Loan(at + HDR, |items[0].data|, head))
      ensures forall stale :: old(Gone(stale)) ==> Gone(stale)
    {
      hide Tiles, Laid, Window, Index, Holds, FromLE, RingOk, FramesOf, FrameOf, Total;
      ghost var mem, waiting := ring[..], items;
      HeadWords(mem, head, tail, waiting, at);
      HeadBound(mem, head, tail, waiting);
      assert waiting[0] in waiting && ItemFits(waiting[0]);
      Store(at + 4, ToLE(CLAIMED, 4));
      items := [Claimed(waiting[0])] + waiting[1..];
      HeldFrame(mem, ring[..], head, tail, waiting, items, at);
      StayBehind(mem, ring[..], head, head, tail);
    }

    /** Where a frame starts in the buffer. */
    method FrameAt(pos: nat) returns (at: nat)
      requires ring.Length > 0 && ring.Length % 8 == 0 && pos % 8 == 0
      ensures at == Index(pos, ring.Length) && at + 8 <= ring.Length
    {
      hide Index;
      AlignedIndex(pos, ring.Length);
      IndexIsModulo(pos, ring.Length);
      at := pos % ring.Length;
    }

    /** Ends a loan: it is refused exactly if it is zeroed, or the status at its place does not say that the frame is lent.
        The loan of the message in front is accepted, and the message is gone; a copy of a loan that was released before is
        refused as long as the producer has not come round to its place. */
    method Release(loan: Loan) returns (rc: int, after: Loan)
      requires Valid() && (loan.Loan? ==> loan.frameHead % 8 == 0)
      modifies this`head, this`items, ring
      ensures loan.Loan? ==> Index(loan.frameHead, ring.Length) + 8 <= ring.Length
      ensures rc == if loan.Loan? && old(Word(Index(loan.frameHead, ring.Length) + 4)) == CLAIMED then OK else ERR_INVALID
      ensures rc != OK ==> after == loan && head == old(head) && items == old(items) && ring[..] == old(ring[..])
      ensures rc == OK ==> after == Zeroed && head == loan.frameHead + FrameTotal(old(Word(Index(loan.frameHead, ring.Length))))
      ensures old(IsLoan(loan)) ==>
        rc == OK && Valid() && !Lent() && old(Contents()) != [] && Contents() == old(Contents())[1..] && Gone(loan) &&
        head == old(head) + Needs(old(Contents())[0]) &&
        forall stale :: old(Gone(stale)) ==> Gone(stale)
      ensures old(Gone(loan)) ==> rc == ERR_INVALID
    {
      hide Tiles, Laid, Window, Index, Holds, FromLE, RingOk, FramesOf, FrameOf, NoneHeld, AllFit, Messages, FrameTotal;
      if loan.Zeroed? {
        return ERR_INVALID, loan;
      }
      var at := FrameAt(loan.frameHead);
      ghost var own := IsLoan(loan);
      if own {
        HeadWords(ring[..], head, tail, items, at);
        FrameTotalOfMessage(|items[0].data|);
        FirstMessage(items);
      }
      if Word(at + 4) != CLAIMED {
        return ERR_INVALID, loan;
      }
      Retire(loan.frameHead, at, FrameTotal(Word(at)), own);
      return OK, Zeroed;
    }

    method Retire(from: nat, at: nat, total: nat, ghost own: bool)
      requires ring.Length > 0 && at == Index(from, ring.Length) && at + 8 <= ring.Length
      requires own ==> Valid() && Lent() && from == head && total == Align8(HDR + |items[0].data|)
      modifies this`head, this`items, ring
      ensures head == from + total
      ensures own ==>
        Valid() && !Lent() && Contents() == old(Contents())[1..] && Gone(Loan(at + HDR, |old(items)[0].data|, from)) &&
        forall stale :: old(Gone(stale)) ==> Gone(stale)
    {
      hide Tiles, Laid, Window, Index, Holds, FromLE, ToLE, RingOk, FramesOf, FrameOf;
      ghost var mem, waiting := ring[..], items;
      Store(at + 4, ToLE(EMPTY, 4));
      head := from + total;
      if own {
        items := waiting[1..];
        Released(mem, ring[..], from, tail, waiting);
        HeadBound(mem, from, tail, waiting);
        StatusWritten(ring[..], at, EMPTY);
        StayBehind(mem, ring[..], from, head, tail);
      }
    }

    /** One operation of the producer or of the consumer, which holds at most one loan.  A consumer reads the
        bytes of its loan when it claims it, and once more right before it releases it. */
    method Perform(op: Op, loan: Loan) returns (out: Out, after: Loan)
      requires Valid() && HoldsLoan(loan) && (op.Publish? ==> |op.data| + HDR + 7 < U32)
      modifies this`head, this`tail, this`items, ring
      ensures Valid() && HoldsLoan(after)
      ensures Answers(old(State()), op, out) && State() == After(old(State()), op, out)
    {
      hide RingOk, AllFit, NoneHeld, FramesOf, Index, FrameOf;
      FramesEmpty(items);
      after := loan;
      match op {
        case Publish(data) =>
          var rc := Publish(data);
          out := Out(rc, []);
          FramesEmpty(items);
        case Claim =>
          var rc, claimed := Claim();
          out := Out(rc, []);
          if rc == OK {
            out := Out(OK, ring[claimed.at..claimed.at + claimed.size]);
            after := claimed;
          }
        case Release =>
          var view := if loan.Loan? then ring[loan.at..loan.at + loan.size] else [];
          HeadAligned();
          var rc;
          rc, after := Release(loan);
          out := Out(rc, view);
      }
    }

    lemma EmptyIsLevel()
      requires Valid() && Contents() == []
      ensures head == tail
    {
      hide RingOk, Index, FramesOf;
      EmptyAccepts(ring[..], head, tail, items, 8);
    }

    /** The frame of an open loan lies in the ring, and its words say what it is. */
    lemma LoanBounds(loan: Loan)
      requires Valid() && IsLoan(loan)
      ensures loan.frameHead + Align8(HDR + loan.size) <= tail && Index(head, ring.Length) + 8 <= ring.Length
      ensures Word(Index(head, ring.Length)) == loan.size < U32 / 2 && Word(Index(head, ring.Length) + 4) == CLAIMED
      ensures |Contents()| > 0 && Contents()[0] == items[0].data
    {
      hide RingOk, Index, FramesOf, FromLE;
      assert items[0] in items && ItemFits(items[0]);
      HeadWords(ring[..], head, tail, items, Index(head, ring.Length));
      HeadBound(ring[..], head, tail, items);
    }

    lemma HeadAligned()
      requires Valid()
      ensures head % 8 == 0
    {
      hide Index, Tiles, Laid, Window;
    }

    /** The consumer holds the loan of the message in front, or a zeroed one if no message is lent. */
    ghost predicate HoldsLoan(loan: Loan)
      reads this, ring
    {
      if Lent() then IsLoan(loan) else loan == Zeroed
    }

    ghost function State(): Queue
      reads this
    {
      Queue(Contents(), Lent(), head, tail, ring.Length)
    }

    /** The segment refines a queue with loans over every history of operations. */
    method Replay(ops: seq<Op>, loan: Loan) returns (outs: seq<Out>)
      requires Valid() && HoldsLoan(loan) && forall op :: op in ops && op.Publish? ==> |op.data| + HDR + 7 < U32
      modifies this`head, this`tail, this`items, ring
      ensures Valid() && Explains(old(State()), ops, outs) && State() == AtEnd(old(State()), ops, outs)
    {
      hide RingOk, AllFit, NoneHeld, Contents, Answers, After;
      if ops == [] {
        return [];
      }
      var out, after := Perform(ops[0], loan);
      var rest := Replay(ops[1..], after);
      outs := [out] + rest;
    }
  }

  /** One message is published, claimed and released. */
  method PassOne(seg: Segment, data: bytes) returns (loan: Loan)
    requires seg.Valid() && seg.Contents() == [] && !seg.Lent() && |data| == 2032 && seg.head == seg.tail
    requires seg.ring.Length == 4096 && Index(seg.tail, 4096) <= 2048
    modifies seg`head, seg`tail, seg`items, seg.ring
    ensures seg.Valid() && seg.Contents() == [] && !seg.Lent() && seg.head == seg.tail == old(seg.tail) + 2048
    ensures loan == Loan(Index(old(seg.tail), 4096) + HDR, 2032, old(seg.tail))
  {
    hide RingOk, Index, FramesOf, AllFit, NoneHeld;
    var rc := seg.Publish(data);
    rc, loan := seg.Claim();
    seg.LoanBounds(loan);
    seg.HeadAligned();
    var released, after := seg.Release(loan);
    seg.EmptyIsLevel();
  }

  /** An input for which a loan that was released is accepted again: the producer has come round to its place, with a frame
      that is lent.  The head moves back by a lap. */
  method StaleExample() returns (seg: Segment, rc: int)
    ensures rc == OK && seg.ring.Length == 4096 && seg.head == 2048 && seg.tail == 6144
  {
    hide RingOk, FramesOf, AllFit, NoneHeld, LeftBehind, FromLE, Messages;
    seg := new Segment(1);
    var data := seq(2032, _ => 0);
    var stale := PassOne(seg, data);
    var second := PassOne(seg, data);
    assert Index(4096, 4096) == 0 == Index(0, 4096);
    rc := seg.Publish(data);
    var loan, after;
    rc, loan := seg.Claim();
    seg.LoanBounds(loan);
    rc, after := seg.Release(stale);
  }

  // ---- the queue the segment stands for ----

  datatype Op = Publish(data: bytes) | Claim | Release

  datatype Out = Out(rc: int, data: bytes)

  /** The messages waiting, whether the first is lent, and the positions of head and tail in a ring of `cap` bytes. */
  datatype Queue = Queue(waiting: seq<bytes>, lent: bool, head: nat, tail: nat, cap: nat)

  /** The bytes that a message takes in the ring. */
  function Needs(data: bytes): nat {
    Align8(HDR + |data|)
  }

  /** The answers of a queue with loans.  A publish is refused exactly when there is no room for its frame; a claim is refused
      while a message is lent; a release hands back the very bytes that were lent. */
  predicate Answers(q: Queue, op: Op, out: Out) {
    match op
    case Publish(data) => out.rc == if Accepts(q.head, q.tail, Needs(data), q.cap) then OK else ERR_FULL
    case Claim =>
      if q.lent then out.rc == ERR_BUSY
      else if q.waiting == [] then out.rc == ERR_EMPTY
      else out == Out(OK, q.waiting[0])
    case Release =>
      if q.lent && q.waiting != [] then out == Out(OK, q.waiting[0]) else out.rc == ERR_INVALID
  }

  function After(q: Queue, op: Op, out: Out): Queue {
    if out.rc != OK then q
    else match op
      case Publish(data) => q.(waiting := q.waiting + [data], tail := StartOf(q.tail, Needs(data), q.cap) + Needs(data))
      case Claim => q.(lent := true, head := if q.waiting == [] then q.head else StartOf(q.head, Needs(q.waiting[0]), q.cap))
      case Release =>
        if q.waiting == [] then q.(lent := false)
        else q.(waiting := q.waiting[1..], lent := false, head := q.head + Needs(q.waiting[0]))
  }

  /** All answers of a run are answers of the queue. */
  predicate Explains(q: Queue, ops: seq<Op>, outs: seq<Out>)
    decreases |ops|
  {
    |outs| == |ops| &&
    (ops == [] || (Answers(q, ops[0], outs[0]) && Explains(After(q, ops[0], outs[0]), ops[1..], outs[1..])))
  }

  function AtEnd(q: Queue, ops: seq<Op>, outs: seq<Out>): Queue
    requires |outs| == |ops|
    decreases |ops|
  {
    if ops == [] then q else AtEnd(After(q, ops[0], outs[0]), ops[1..], outs[1..])
  }

  /** The bytes that the publishes among these operations need. */
  function PublishedBytes(ops: seq<Op>): nat {
    if ops == [] then 0 else (if ops[0].Publish? then Needs(ops[0].data) else 0) + PublishedBytes(ops[1..])
  }

  /** From a tail at position 0 on, whatever else happens, no publish is refused as long as the frames published so far add
      up to at most the capacity. */
  lemma {:induction false} NoRefusalInFirstLap(q: Queue, ops: seq<Op>, outs: seq<Out>, k: nat)
    requires Explains(q, ops, outs) && k < |ops| && ops[k].Publish? && q.tail + PublishedBytes(ops[..k + 1]) <= q.cap
    ensures outs[k].rc == OK
    decreases k
  {
    hide Accepts, StartOf;
    assert ops[..k + 1][1..] == ops[1..][..k];
    if ops[0].Publish? { FirstLapAccepts(q.head, q.tail, Needs(ops[0].data), q.cap); }
    if k > 0 { NoRefusalInFirstLap(After(q, ops[0], outs[0]), ops[1..], outs[1..], k - 1); }
  }

  function PublishedBy(op: Op, out: Out): seq<bytes> {
    if op.Publish? && out.rc == OK then [op.data] else []
  }

  /** The messages that were accepted in the course of a run. */
  function Published(ops: seq<Op>, outs: seq<Out>): seq<bytes>
    requires |outs| == |ops|
  {
    if ops == [] then [] else PublishedBy(ops[0], outs[0]) + Published(ops[1..], outs[1..])
  }

  /** The bytes a consumer reads: when it claims, or when it releases. */
  function ReadBy(releases: bool, op: Op, out: Out): seq<bytes> {
    if (if releases then op.Release? else op.Claim?) && out.rc == OK then [out.data] else []
  }

  function Read(releases: bool, ops: seq<Op>, outs: seq<Out>): seq<bytes>
    requires |outs| == |ops|
  {
    if ops == [] then [] else ReadBy(releases, ops[0], outs[0]) + Read(releases, ops[1..], outs[1..])
  }

  /** First in, first out, over any run: the messages that were waiting and the ones published are, in that order,
      the ones released and the ones still waiting. */
  lemma {:induction false} FirstInFirstOut(q: Queue, ops: seq<Op>, outs: seq<Out>)
    requires Explains(q, ops, outs)
    ensures q.waiting + Published(ops, outs) == Read(true, ops, outs) + AtEnd(q, ops, outs).waiting
    decreases |ops|
  {
    hide Answers, After, ReadBy, PublishedBy, OpenLoan;
    if ops != [] {
      var op, out, q' := ops[0], outs[0], After(q, ops[0], outs[0]);
      FirstInFirstOut(q', ops[1..], outs[1..]);
      QueueStep(q, op, out);
      Associate(q.waiting, PublishedBy(op, out), Published(ops[1..], outs[1..]));
      Associate(ReadBy(true, op, out), q'.waiting, Published(ops[1..], outs[1..]));
      Associate(ReadBy(true, op, out), Read(true, ops[1..], outs[1..]), AtEnd(q, ops, outs).waiting);
    }
  }

  lemma QueueStep(q: Queue, op: Op, out: Out)
    requires Answers(q, op, out)
    ensures q.waiting + PublishedBy(op, out) == ReadBy(true, op, out) + After(q, op, out).waiting
  {
  }

  /** The message that is lent out, if any. */
  function OpenLoan(q: Queue): seq<bytes> {
    if q.lent && q.waiting != [] then [q.waiting[0]] else []
  }

  /** A loan is stable: what a consumer reads when it claims a message is what it reads when it releases it,
      whatever was published in between.  The claims of a run are its releases, plus the loan still open. */
  lemma {:induction false} LoansAreStable(q: Queue, ops: seq<Op>, outs: seq<Out>)
    requires Explains(q, ops, outs) && (q.lent ==> q.waiting != [])
    ensures AtEnd(q, ops, outs).lent ==> AtEnd(q, ops, outs).waiting != []
    ensures OpenLoan(q) + Read(false, ops, outs) == Read(true, ops, outs) + OpenLoan(AtEnd(q, ops, outs))
    decreases |ops|
  {
    hide Answers, After, ReadBy, PublishedBy, OpenLoan;
    if ops != [] {
      var op, out, q' := ops[0], outs[0], After(q, ops[0], outs[0]);
      var claims, releases := Read(false, ops[1..], outs[1..]), Read(true, ops[1..], outs[1..]);
      LoanStep(q, op, out);
      LoansAreStable(q', ops[1..], outs[1..]);
      Associate(OpenLoan(q), ReadBy(false, op, out), claims);
      Associate(ReadBy(true, op, out), OpenLoan(q'), claims);
      Associate(ReadBy(true, op, out), releases, OpenLoan(AtEnd(q, ops, outs)));
    }
  }

  lemma LoanStep(q: Queue, op: Op, out: Out)
    requires Answers(q, op, out) && (q.lent ==> q.waiting != [])
    ensures After(q, op, out).lent ==> After(q, op, out).waiting != []
    ensures OpenLoan(q) + ReadBy(false, op, out) == ReadBy(true, op, out) + OpenLoan(After(q, op, out))
  {
  }

  /** The items behind the one in front. */
  function Rest(items: seq<Item>): seq<Item> {
    if items == [] then [] else items[1..]
  }

  lemma HeaderReads(len: nat, status: nat)
    requires len < U32 && status < U32
    ensures IsHeader(ToLE(len, 4) + ToLE(status, 4), len, status)
  {
    hide FromLE, ToLE, Range;
    RangeValues();
    FromToLE(len, 4);
    FromToLE(status, 4);
    var h := ToLE(len, 4) + ToLE(status, 4);
    assert h[0..4] == ToLE(len, 4) && h[4..8] == ToLE(status, 4);
  }

  lemma WroteFrame(mem: bytes, mem': bytes, at: nat, len: bytes, open: bytes, done: bytes, data: bytes)
    requires |len| == |open| == |done| == 4 && at + HDR + |data| <= |mem|
    requires mem' == Patch(Patch(Patch(Patch(mem, at, len), at + 4, open), at + HDR, data), at + 4, done)
    requires at + Align8(HDR + |data|) <= |mem|
    ensures Written(mem, mem', at, Data(len + done, 8, data))
  {
    assert mem'[at..at + 8] == len + done;
    assert mem'[at + HDR..at + HDR + |data|] == data;
  }

  lemma FramesEmpty(items: seq<Item>)
    ensures FramesOf(items) == [] <==> items == []
    ensures items == [] ==> Messages(items) == []
    ensures items != [] && items[0].Message? ==> Messages(items) != [] && Messages(items)[0] == items[0].data
  {
  }

  lemma FramesAt(items: seq<Item>)
    requires items != []
    ensures FramesOf(items) != [] && FramesOf(items)[0] == FrameOf(items[0]) && FramesOf(items)[1..] == FramesOf(items[1..])
    ensures FrameOf(items[0]).Pad? == items[0].Gap?
    ensures |FramesOf(items)| > 1 ==> |items| > 1 && FramesOf(items)[1].Data? == items[1].Message?
  {
  }

  /** The item in front of the ring lies in one piece. */
  lemma HeadItem(mem: bytes, head: nat, tail: nat, items: seq<Item>, f: Frame, fs: seq<Frame>)
    requires 0 < |mem| && items != [] && fs == FramesOf(items) && f == FrameOf(items[0])
    requires RingOk(mem, head, tail, fs)
    ensures head + Total(f) <= tail && Index(head, |mem|) + Total(f) <= |mem| && Total(f) >= 8
    ensures Holds(mem[Index(head, |mem|)..Index(head, |mem|) + Total(f)], f)
    ensures items[0].Gap? ==> |items| > 1 && items[1].Message?
  {
    hide *;
    FramesAt(items);
    HeadFrame(mem, head, tail, fs);
  }

  lemma MessageTotal(it: Item)
    requires it.Message? && ItemFits(it)
    ensures Total(FrameOf(it)) == Needs(it.data)
  {
    hide FromLE;
  }

  lemma FirstMessage(items: seq<Item>)
    requires items != []
    ensures items[0].Message? ==> Messages(items) != [] && Messages(items)[0] == items[0].data
    ensures items[0].Gap? ==> Messages(items) == Messages(items[1..])
  {
  }

  /** The frame of the message in front starts at the head, or behind the padding there. */
  lemma FrontItem(mem: bytes, head: nat, tail: nat, items: seq<Item>)
    requires 0 < |mem| && AllFit(items) && RingOk(mem, head, tail, FramesOf(items)) && items != []
    ensures items[0].Message? ==> Messages(items) != [] && StartOf(head, Needs(Messages(items)[0]), |mem|) == head
    ensures items[0].Gap? ==>
      Messages(items[1..]) == Messages(items) != [] &&
      StartOf(head, Needs(Messages(items)[0]), |mem|) == head + items[0].len == StartOf(head + items[0].len, Needs(Messages(items)[0]), |mem|)
  {
    hide RingOk, StartOf, Index, ItemFits, FramesOf, Messages, FrameOf, Total;
    FramesAt(items);
    FirstMessage(items);
    FrontStart(mem, head, tail, FramesOf(items));
    if items[0].Message? {
      MessageTotal(items[0]);
    } else {
      FramesAt(items[1..]);
      FirstMessage(items[1..]);
      assert items[1..][0] == items[1] && items[1] in items;
      MessageTotal(items[1]);
      GapLength(items[0]);
    }
  }

  lemma GapLength(it: Item)
    requires it.Gap?
    ensures FrameOf(it).Pad? && FrameOf(it).len == it.len
  {
  }

  /** What the words of the item in front say. */
  lemma HeadWords(mem: bytes, head: nat, tail: nat, items: seq<Item>, at: nat)
    requires 0 < |mem| && AllFit(items) && RingOk(mem, head, tail, FramesOf(items)) && items != [] && at == Index(head, |mem|)
    ensures at + 8 <= |mem|
    ensures Reads(mem, at, items[0])
  {
    hide RingOk, FramesOf, FromLE, Total, FrameOf, Index, Holds, Reads;
    HeadItem(mem, head, tail, items, FrameOf(items[0]), FramesOf(items));
    assert items[0] in items && ItemFits(items[0]);
    ItemWords(mem, at, Total(FrameOf(items[0])), items[0], FrameOf(items[0]));
  }

  /** The bytes at index `at` read as the item. */
  predicate Reads(mem: bytes, at: nat, it: Item) {
    at + 8 <= |mem| &&
    match it
    case Message(data, held, header) =>
      FromLE(mem[at..at + 4]) == |data| < U32 / 2 && FromLE(mem[at + 4..at + 8]) == (if held then CLAIMED else COMMITTED) &&
      at + HDR + |data| <= |mem| && mem[at + HDR..at + HDR + |data|] == data
    case Gap(len, mark) => FromLE(mem[at..at + 4]) == U32 - len > U32 / 2 && FromLE(mem[at + 4..at + 8]) == COMMITTED
  }

  lemma ItemWords(mem: bytes, at: nat, n: nat, it: Item, f: Frame)
    requires ItemFits(it) && f == FrameOf(it) && n == Total(f) && 8 <= n && at + n <= |mem| && Holds(mem[at..at + n], f)
    ensures Reads(mem, at, it)
  {
    hide FromLE;
    SliceOfSlice(mem, at, n, 0, 8);
    SliceOfSlice(mem, at, 8, 0, 4);
    SliceOfSlice(mem, at, 8, 4, 4);
    if it.Message? { SliceOfSlice(mem, at, n, HDR, |it.data|); }
  }

  /** `loan` is the view of the message that is lent out. */
  predicate Views(mem: bytes, head: nat, items: seq<Item>, loan: Loan) {
    loan.Loan? && |mem| > 0 && items != [] && items[0].Message? && items[0].held && loan.frameHead == head &&
    loan.size == |items[0].data| && loan.at == Index(head, |mem|) + HDR && loan.at + loan.size <= |mem| &&
    mem[loan.at..loan.at + loan.size] == items[0].data
  }

  lemma LoansKept(mem: bytes, mem': bytes, head: nat, end: nat, items: seq<Item>, items': seq<Item>)
    requires 0 < |mem| == |mem'| && AllFit(items) && items <= items' && RingOk(mem, head, end, FramesOf(items))
    requires Window(mem', head, end) == Window(mem, head, end)
    ensures forall loan :: Views(mem, head, items, loan) ==>
      Views(mem', head, items', loan) && mem'[loan.at..loan.at + loan.size] == mem[loan.at..loan.at + loan.size]
  {
    hide RingOk, Index, Window, FramesOf, FromLE;
    if items != [] && items[0].Message? {
      assert items[0] in items && ItemFits(items[0]);
      LoanKept(mem, mem', head, end, items);
    }
  }

  /** A publish leaves the message in front where it was. */
  lemma LoanKept(mem: bytes, mem': bytes, head: nat, end: nat, items: seq<Item>)
    requires 0 < |mem| == |mem'| && items != [] && items[0].Message? && |items[0].header| == 8
    requires RingOk(mem, head, end, FramesOf(items))
    requires Window(mem', head, end) == Window(mem, head, end)
    ensures var at := Index(head, |mem|) + HDR;
            at + |items[0].data| <= |mem| &&
            mem'[at..at + |items[0].data|] == mem[at..at + |items[0].data|]
  {
    hide RingOk, FramesOf, Index, Holds, Window;
    var f, idx := FrameOf(items[0]), Index(head, |mem|);
    HeadItem(mem, head, end, items, f, FramesOf(items));
    WindowSplit(mem, head, head + Total(f), end);
    WindowSplit(mem', head, head + Total(f), end);
    WindowInOnePiece(mem, head, Total(f));
    WindowInOnePiece(mem', head, Total(f));
    assert mem[idx..idx + Total(f)] == Window(mem, head, end)[..Total(f)] == mem'[idx..idx + Total(f)];
    SliceOfSlice(mem, idx, Total(f), HDR, |items[0].data|);
    SliceOfSlice(mem', idx, Total(f), HDR, |items[0].data|);
  }

  /** The bytes written by a publish append one message to the ring, and leave the rest of the window alone. */
  lemma PublishedFrame(mem: bytes, marked: bytes, mem': bytes, head: nat, end: nat, tail': nat,
                       items: seq<Item>, gap: seq<Item>, it: Item)
    requires 0 < |mem| && AllFit(items) && AllFit(gap) && ItemFits(it) && it.Message? && Messages(gap) == []
    requires NoneHeld(Rest(items)) && NoneHeld(gap) && !it.held
    requires RingOk(mem, head, end, FramesOf(items))
    requires Accepts(head, end, Total(FrameOf(it)), |mem|)
    requires IsGap(FramesOf(gap), PadFor(Index(end, |mem|), Total(FrameOf(it)), |mem|))
    requires Marked(mem, marked, end, FramesOf(gap))
    requires var pad := PadFor(Index(end, |mem|), Total(FrameOf(it)), |mem|);
             tail' == end + pad + Total(FrameOf(it)) && Written(marked, mem', Index(end + pad, |mem|), FrameOf(it))
    ensures AllFit(items + gap + [it]) && NoneHeld(Rest(items + gap + [it]))
    ensures RingOk(mem', head, tail', FramesOf(items + gap + [it]))
    ensures Messages(items + gap + [it]) == Messages(items) + [it.data]
    ensures Window(mem', head, end) == Window(mem, head, end)
  {
    hide *;
    PublishedItems(items, gap, it);
    StillFree(items, gap, it);
    AppendFrame(mem, marked, mem', head, end, FramesOf(items), PadFor(Index(end, |mem|), Total(FrameOf(it)), |mem|), FramesOf(gap), FrameOf(it));
  }

  lemma StillFree(items: seq<Item>, gap: seq<Item>, it: Item)
    requires NoneHeld(Rest(items)) && NoneHeld(gap) && it.Message? && !it.held
    ensures NoneHeld(Rest(items + gap + [it]))
  {
    var rest := Rest(items + gap + [it]);
    if items == [] {
      assert forall x :: x in rest ==> x in gap || x == it;
    } else {
      assert rest == items[1..] + gap + [it];
    }
  }

  lemma PublishedItems(items: seq<Item>, gap: seq<Item>, it: Item)
    requires it.Message? && Messages(gap) == []
    ensures AllFit(items) && AllFit(gap) && ItemFits(it) ==> AllFit(items + gap + [it])
    ensures FramesOf(items + gap + [it]) == FramesOf(items) + FramesOf(gap) + [FrameOf(it)]
    ensures Messages(items + gap + [it]) == Messages(items) + [it.data]
    ensures FrameOf(it).Data? && (ItemFits(it) ==> Total(FrameOf(it)) > 0)
  {
    hide FromLE;
    FramesAppend(items, gap);
    FramesAppend(items + gap, [it]);
    MessagesAppend(items, gap);
    MessagesAppend(items + gap, [it]);
    assert FramesOf([it]) == [FrameOf(it)] && Messages([it]) == [it.data];
  }

  function Claimed(it: Item): Item
    requires it.Message? && |it.header| == 8
  {
    it.(held := true, header := it.header[..4] + ToLE(CLAIMED, 4))
  }

  /** Marking the message in front as lent. */
  lemma HeldFrame(mem: bytes, mem': bytes, head: nat, tail: nat, items: seq<Item>, items': seq<Item>, at: nat)
    requires 0 < |mem| && AllFit(items) && NoneHeld(Rest(items)) && RingOk(mem, head, tail, FramesOf(items))
    requires items != [] && items[0].Message? && at == Index(head, |mem|) && at + 8 <= |mem|
    requires mem' == Patch(mem, at + 4, ToLE(CLAIMED, 4))
    requires |items[0].header| == 8 && items' == [Claimed(items[0])] + items[1..]
    ensures AllFit(items') && NoneHeld(Rest(items')) && RingOk(mem', head, tail, FramesOf(items'))
    ensures Messages(items') == Messages(items)
    ensures at + HDR + |items[0].data| <= |mem'| && mem'[at + HDR..at + HDR + |items[0].data|] == items[0].data
  {
    hide *;
    HeldItems(items, items');
    var f, n := FrameOf(items[0]), Total(FrameOf(items[0]));
    HeadItem(mem, head, tail, items, f, FramesOf(items));
    FrameMarked(mem, mem', at, n, items[0].header, ToLE(CLAIMED, 4), items[0].data);
    RewriteHead(mem, mem', head, tail, n, FramesOf(items), FramesOf(items)[1..], FrameOf(items'[0]));
  }

  lemma HeldItems(items: seq<Item>, items': seq<Item>)
    requires AllFit(items) && NoneHeld(Rest(items)) && items != [] && items[0].Message?
    requires |items[0].header| == 8 && items' == [Claimed(items[0])] + items[1..]
    ensures AllFit(items') && NoneHeld(Rest(items')) && Messages(items') == Messages(items)
    ensures FramesOf(items) != [] && FramesOf(items)[0] == FrameOf(items[0]) == Data(items[0].header, 8, items[0].data)
    ensures FrameOf(items'[0]) == Data(items[0].header[..4] + ToLE(CLAIMED, 4), 8, items[0].data)
    ensures FramesOf(items') == [FrameOf(items'[0])] + FramesOf(items)[1..]
    ensures Total(FrameOf(items'[0])) == Total(FrameOf(items[0]))
  {
    hide FromLE, ToLE, Range;
    assert items[0] in items && ItemFits(items[0]);
    HeaderMarked(items[0].header, |items[0].data|, CLAIMED);
    assert items'[1..] == items[1..];
  }

  lemma HeaderMarked(h: bytes, len: nat, status: nat)
    requires |h| == 8 && FromLE(h[0..4]) == len && status < U32
    ensures IsHeader(h[..4] + ToLE(status, 4), len, status)
  {
    hide FromLE, ToLE, Range;
    RangeValues();
    FromToLE(status, 4);
    var h' := h[..4] + ToLE(status, 4);
    assert h'[0..4] == h[0..4] && h'[4..8] == ToLE(status, 4);
  }

  lemma FrameMarked(mem: bytes, mem': bytes, at: nat, n: nat, header: bytes, status: bytes, data: bytes)
    requires |header| == 8 && |status| == 4 && n == Total(Data(header, 8, data)) && at + n <= |mem|
    requires Holds(mem[at..at + n], Data(header, 8, data)) && mem' == Patch(mem, at + 4, status)
    ensures Holds(mem'[at..at + n], Data(header[..4] + status, 8, data))
    ensures SameOutside(mem, mem', at, n)
    ensures at + HDR + |data| <= |mem'| && mem'[at + HDR..at + HDR + |data|] == data
  {
    var w, w' := mem[at..at + n], mem'[at..at + n];
    assert w'[..8] == w[..4] + status;
    assert w[..8][..4] == w[..4];
    SliceOfSlice(mem, at, n, HDR, |data|);
    SliceOfSlice(mem', at, n, HDR, |data|);
    assert mem'[at + HDR..at + HDR + |data|] == mem[at + HDR..at + HDR + |data|];
  }

  /** Moving past the message that was lent leaves the others. */
  lemma Released(mem: bytes, mem': bytes, head: nat, tail: nat, items: seq<Item>)
    requires |mem| > 0 && AllFit(items) && NoneHeld(Rest(items)) && RingOk(mem, head, tail, FramesOf(items))
    requires items != [] && items[0].Message?
    requires Index(head, |mem|) + 8 <= |mem| && SameOutside(mem, mem', Index(head, |mem|), 8)
    ensures RingOk(mem', head + Align8(HDR + |items[0].data|), tail, FramesOf(items[1..]))
    ensures AllFit(items[1..]) && NoneHeld(items[1..]) && NoneHeld(Rest(items[1..])) && Messages(items[1..]) == Messages(items)[1..]
  {
    hide RingOk, Index, FromLE;
    var n := Align8(HDR + |items[0].data|);
    assert items[0] in items && ItemFits(items[0]) && Total(FrameOf(items[0])) == n;
    FramesAt(items);
    DropHeadRewritten(mem, mem', head, tail, n, FramesOf(items), FramesOf(items)[1..]);
  }

  /** The size of a frame, in the 32 bits of the source. */
  function FrameTotal(len: nat): nat {
    (HDR + len + 7) % U32 / 8 * 8
  }

  lemma FrameTotalOfMessage(len: nat)
    requires len < U32 / 2
    ensures FrameTotal(len) == Align8(HDR + len)
  {
  }

  /** An empty segment takes every frame of at most half its capacity. */
  lemma EmptyAccepts(mem: bytes, head: nat, tail: nat, items: seq<Item>, need: nat)
    requires RingOk(mem, head, tail, FramesOf(items)) && |mem| % 32 == 0 && need % 8 == 0 && need > 0
    ensures Messages(items) == [] ==> head == tail
    ensures Messages(items) == [] && need <= |mem| / 2 ==> Accepts(head, tail, need, |mem|)
  {
    hide Tiles, Laid, Window, Index, Holds;
    if Messages(items) == [] {
      if items != [] {
        HeadItem(mem, head, tail, items, FrameOf(items[0]), FramesOf(items));
        SomeMessage(items);
        assert false;
      }
      EmptyWindow(mem, head, tail, FramesOf(items));
      if need <= |mem| / 2 { HalfAccepted(tail, need, |mem| / 2); }
    }
  }

  lemma SomeMessage(items: seq<Item>)
    requires items != [] && (items[0].Gap? ==> |items| > 1 && items[1].Message?)
    ensures Messages(items) != []
  {
    if items[0].Gap? { assert Messages(items) == Messages(items[1..]); }
  }

  /** The status word at a place that was not written. */
  lemma StatusKept(mem: bytes, mem': bytes, p: nat, end: nat)
    requires 0 < |mem| == |mem'| && p + 8 <= end && Index(p, |mem|) + 8 <= |mem| && Window(mem', p, end) == Window(mem, p, end)
    ensures mem'[Index(p, |mem|) + 4..Index(p, |mem|) + 8] == mem[Index(p, |mem|) + 4..Index(p, |mem|) + 8]
  {
    hide Window, Index;
    var at := Index(p, |mem|);
    WindowSplit(mem, p, p + 8, end);
    WindowSplit(mem', p, p + 8, end);
    WindowInOnePiece(mem, p, 8);
    WindowInOnePiece(mem', p, 8);
    assert Window(mem, p, p + 8) == Window(mem, p, end)[..8] == Window(mem', p, p + 8);
    assert mem[at..at + 8][4..8] == mem'[at..at + 8][4..8];
    SliceOfSlice(mem, at, 8, 4, 4);
    SliceOfSlice(mem', at, 8, 4, 4);
  }

  /** Writing the status of a later frame leaves that of an earlier one. */
  lemma StatusUntouched(mem: bytes, mem': bytes, p: nat, pos: nat)
    requires 0 < |mem| && p + 8 <= pos && pos + 8 <= p + |mem| && Index(p, |mem|) + 8 <= |mem| && Index(pos, |mem|) + 8 <= |mem|
    requires SameOutside(mem, mem', Index(pos, |mem|), 8)
    ensures mem'[Index(p, |mem|) + 4..Index(p, |mem|) + 8] == mem[Index(p, |mem|) + 4..Index(p, |mem|) + 8]
  {
    hide Window, Index;
    WindowUntouched(mem, mem', p, p + 8, pos, 8);
    StatusKept(mem, mem', p, p + 8);
  }

  /** The frame has left the ring, and the producer has not come round to it. */
  predicate LeftBehind(mem: bytes, head: nat, tail: nat, loan: Loan) {
    loan.Loan? && |mem| > 0 && loan.frameHead + 8 <= head && tail <= loan.frameHead + |mem| &&
    Index(loan.frameHead, |mem|) + 8 <= |mem| && FromLE(mem[Index(loan.frameHead, |mem|) + 4..Index(loan.frameHead, |mem|) + 8]) == EMPTY
  }

  /** Writing the status of the frame at `from`, and moving the head on. */
  lemma StayBehind(mem: bytes, mem': bytes, from: nat, head: nat, tail: nat)
    requires 0 < |mem| && from <= head && from + 8 <= tail && Index(from, |mem|) + 8 <= |mem|
    requires SameOutside(mem, mem', Index(from, |mem|), 8)
    ensures forall loan :: LeftBehind(mem, from, tail, loan) ==> LeftBehind(mem', head, tail, loan)
  {
    hide Index, FromLE;
    forall loan | LeftBehind(mem, from, tail, loan)
      ensures LeftBehind(mem', head, tail, loan)
    {
      StatusUntouched(mem, mem', loan.frameHead, from);
    }
  }

  lemma StillBehind(mem: bytes, mem': bytes, head: nat, end: nat, tail: nat)
    requires 0 < |mem| == |mem'| && head <= end <= tail
    requires forall p: nat :: p <= end && tail <= p + |mem| ==> Window(mem', p, end) == Window(mem, p, end)
    ensures forall loan :: LeftBehind(mem, head, end, loan) && tail <= loan.frameHead + |mem| ==> LeftBehind(mem', head, tail, loan)
  {
    hide Index, FromLE, Window;
    forall loan | LeftBehind(mem, head, end, loan) && tail <= loan.frameHead + |mem|
      ensures LeftBehind(mem', head, tail, loan)
    {
      StatusKept(mem, mem', loan.frameHead, end);
    }
  }

  lemma StatusWritten(mem: bytes, at: nat, status: nat)
    requires at + 8 <= |mem| && status < U32 && mem[at + 4..at + 8] == ToLE(status, 4)
    ensures FromLE(mem[at + 4..at + 8]) == status
  {
    hide FromLE, ToLE;
    RangeValues();
    FromToLE(status, 4);
  }

  lemma HeadBound(mem: bytes, head: nat, tail: nat, items: seq<Item>)
    requires 0 < |mem| && items != [] && RingOk(mem, head, tail, FramesOf(items))
    ensures head + Total(FrameOf(items[0])) <= tail <= head + |mem| && Total(FrameOf(items[0])) >= 8 && head % 8 == 0
  {
    hide Index, Holds, Tiles, Laid, FramesOf, FrameOf;
    HeadItem(mem, head, tail, items, FrameOf(items[0]), FramesOf(items));
  }

  /** Nothing from a lap before the new tail on is touched by a publish. */
  lemma OlderKept(mem: bytes, marked: bytes, mem': bytes, head: nat, end: nat, tail': nat, items: seq<Item>, gap: seq<Item>, it: Item)
    requires 0 < |mem| == |mem'| && it.Message? && ItemFits(it)
    requires RingOk(mem, head, end, FramesOf(items)) && Accepts(head, end, Total(FrameOf(it)), |mem|)
    requires IsGap(FramesOf(gap), PadFor(Index(end, |mem|), Total(FrameOf(it)), |mem|))
    requires Marked(mem, marked, end, FramesOf(gap))
    requires var pad := PadFor(Index(end, |mem|), Total(FrameOf(it)), |mem|);
             tail' == end + pad + Total(FrameOf(it)) && Written(marked, mem', Index(end + pad, |mem|), FrameOf(it))
    ensures forall p: nat :: p <= end && tail' <= p + |mem| ==> Window(mem', p, end) == Window(mem, p, end)
  {
    hide Window, Index, Tiles, Laid, FramesOf, FromLE, Written, Marked;
    TailAligned(mem, head, end, FramesOf(items));
    forall p: nat | p <= end && tail' <= p + |mem|
      ensures Window(mem', p, end) == Window(mem, p, end)
    {
      WindowKept(mem, marked, mem', p, end, [], PadFor(Index(end, |mem|), Total(FrameOf(it)), |mem|), FramesOf(gap), FrameOf(it));
    }
  }
}
