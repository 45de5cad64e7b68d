/** The bounded multi-producer multi-consumer ring as interleaved atomic steps.

    Any number of threads run push and pop.  Every load, compare-and-swap and store of the two loops is a
    step of its own, and steps of different threads interleave arbitrarily (sequentially consistent memory,
    unbounded tickets).  The fields `turn`, `pushed` and `popped` are history: they record which ticket a slot
    serves, the item of every enqueue ticket, and what the consumer of every ticket returned.
  */
module Mpmc {
  import opened Arith
  import opened Optional

  datatype Slot = Slot(seqNo: nat, item: Option<int>)

  /** Where a thread is inside push or pop. */
  datatype Pc =
    | Idle
    | PushLoaded(pos: nat, item: int)   // has loaded enqueue_pos
    | PushReady(pos: nat, item: int)    // has seen seq == pos, about to compare-and-swap
    | PushWon(pos: nat, item: int)      // owns ticket pos
    | PushWrote(pos: nat, item: int)    // has stored the item, about to publish
    | PopLoaded(pos: nat)
    | PopReady(pos: nat)
    | PopWon(pos: nat)
    | PopCopied(pos: nat, item: int)
    | PopCleared(pos: nat, item: int)

  datatype State = State(
    slots: seq<Slot>, enq: nat, deq: nat, threads: map<nat, Pc>,
    turn: seq<nat>, pushed: seq<int>, popped: map<nat, int>)
  {
    function Cap(): nat { |slots| }
    function At(pos: nat): (i: nat)
      requires Cap() > 0
      ensures i < Cap()
    {
      pos % Cap()
    }
    function WithPc(t: nat, pc: Pc): State {
      this.(threads := threads[t := pc])
    }
    function WithSlot(i: nat, slot: Slot): State
      requires i < Cap()
    {
      this.(slots := slots[i := slot])
    }
  }

  datatype Action =
    | StartPush(x: int) | PushSee | PushCas(weakFailure: bool) | PushStore | PushPublish
    | StartPop | PopSee | PopCas(weakFailure: bool) | PopCopy | PopClear | PopRelease

  /** Room is rounded up to a power of two, at least two; absurd capacities are refused. */
  method Create(capacity: nat) returns (q: Option<State>)
    ensures q.None? <==> capacity > 0x80000000
    ensures q.Some? ==> Init(q.value) && IsPowerOfTwo(q.value.Cap()) && capacity <= q.value.Cap()
    ensures q.Some? ==> q.value.Cap() == 2 || q.value.Cap() < 2 * capacity
  {
    var cap := if capacity < 2 then 2 else capacity;
    if cap > 0x80000000 {
      return None;
    }
    var c := 1;
    ghost var k: nat := 0;
    while c < cap
      invariant c == Pow2(k) && (c == 1 || c < 2 * cap)
      invariant c < cap ==> c <= 0x80000000
      decreases cap - c
    {
      c := c * 2;
      k := k + 1;
    }
    var slots := seq(c, i requires 0 <= i < c => Slot(i, None));
    q := Some(State(slots, 0, 0, map[], seq(c, i requires 0 <= i < c => i), [], map[]));
  }

  ghost predicate Init(s: State) {
    s.Cap() >= 2 && s.enq == 0 && s.deq == 0 && s.threads == map[] && s.pushed == [] && s.popped == map[] &&
    |s.turn| == s.Cap() &&
    forall i :: 0 <= i < s.Cap() ==> s.turn[i] == i && s.slots[i] == Slot(i, None)
  }

  function PcOf(s: State, t: nat): Pc {
    if t in s.threads then s.threads[t] else Idle
  }

  /** The slot is handed to the ticket one lap later, and the consumer's call is over. */
  function Released(s: State, t: nat, pos: nat, item: int): State
    requires s.Cap() >= 2
  {
    var i := s.At(pos);
    var next := pos + s.Cap();
    s.WithSlot(i, s.slots[i].(seqNo := next))
     .(turn := if i < |s.turn| then s.turn[i := next] else s.turn, popped := s.popped[pos := item])
     .WithPc(t, Idle)
  }

  /** One atomic step of thread `t`; a step that ends a call also says what the call returns, and by which ticket. */
  datatype Outcome = Running | Pushed | Full | Popped(ticket: nat, item: int) | Empty

  ghost predicate Step(s: State, t: nat, a: Action, s': State, out: Outcome)
    requires s.Cap() >= 2
  {
    var pc := PcOf(s, t);
    match a
    case StartPush(x) => pc.Idle? && s' == s.WithPc(t, PushLoaded(s.enq, x)) && out == Running
    case PushSee => pc.PushLoaded? &&
      (var seen := s.slots[s.At(pc.pos)].seqNo;
       if seen == pc.pos then s' == s.WithPc(t, PushReady(pc.pos, pc.item)) && out == Running
       else if seen < pc.pos then s' == s.WithPc(t, Idle) && out == Full
       else s' == s.WithPc(t, PushLoaded(s.enq, pc.item)) && out == Running)
    case PushCas(weakFailure) => pc.PushReady? && out == Running &&
      if s.enq == pc.pos && !weakFailure
      then s' == s.(enq := pc.pos + 1, pushed := s.pushed + [pc.item]).WithPc(t, PushWon(pc.pos, pc.item))
      else s' == s.WithPc(t, PushLoaded(s.enq, pc.item))
    case PushStore => pc.PushWon? && out == Running &&
      (var i := s.At(pc.pos);
       s' == s.WithSlot(i, s.slots[i].(item := Some(pc.item))).WithPc(t, PushWrote(pc.pos, pc.item)))
    case PushPublish => pc.PushWrote? && out == Pushed &&
      (var i := s.At(pc.pos);
       s' == s.WithSlot(i, s.slots[i].(seqNo := pc.pos + 1)).WithPc(t, Idle))
    case StartPop => pc.Idle? && s' == s.WithPc(t, PopLoaded(s.deq)) && out == Running
    case PopSee => pc.PopLoaded? &&
      (var seen := s.slots[s.At(pc.pos)].seqNo;
       if seen == pc.pos + 1 then s' == s.WithPc(t, PopReady(pc.pos)) && out == Running
       else if seen < pc.pos + 1 then s' == s.WithPc(t, Idle) && out == Empty
       else s' == s.WithPc(t, PopLoaded(s.deq)) && out == Running)
    case PopCas(weakFailure) => pc.PopReady? && out == Running &&
      if s.deq == pc.pos && !weakFailure
      then s' == s.(deq := pc.pos + 1).WithPc(t, PopWon(pc.pos))
      else s' == s.WithPc(t, PopLoaded(s.deq))
    case PopCopy => pc.PopWon? && out == Running &&
      (var got := s.slots[s.At(pc.pos)].item;
       s' == s.WithPc(t, PopCopied(pc.pos, if got.Some? then got.value else 0)))
    case PopClear => pc.PopCopied? && out == Running &&
      (var i := s.At(pc.pos);
       s' == s.WithSlot(i, s.slots[i].(item := None)).WithPc(t, PopCleared(pc.pos, pc.item)))
    case PopRelease => pc.PopCleared? && out == Popped(pc.pos, pc.item) && s' == Released(s, t, pc.pos, pc.item)
  }

  /** Ticket `pos` may be written: its slot is free for exactly this ticket. */
  ghost predicate FreeFor(s: State, pos: nat)
    requires s.Cap() > 0 && |s.turn| == s.Cap()
  {
    s.turn[s.At(pos)] == pos && s.slots[s.At(pos)].seqNo == pos
  }

  /** Ticket `pos` may be read: its slot holds exactly this ticket's item. */
  ghost predicate FullOf(s: State, pos: nat)
    requires s.Cap() > 0 && |s.turn| == s.Cap()
  {
    s.turn[s.At(pos)] == pos && s.slots[s.At(pos)].seqNo == pos + 1
  }

  ghost predicate SlotsOk(s: State) {
    s.Cap() >= 2 && |s.turn| == s.Cap() && |s.pushed| == s.enq && s.deq <= s.enq <= s.deq + s.Cap() &&
    forall i :: 0 <= i < s.Cap() ==> SlotOk(s, i)
  }

  ghost predicate SlotOk(s: State, i: nat)
    requires s.Cap() >= 2 && |s.turn| == s.Cap() && |s.pushed| == s.enq && i < s.Cap()
  {
    var n := s.turn[i];
    n % s.Cap() == i && n < s.deq + s.Cap() && s.deq <= n + s.Cap() &&
    (s.slots[i].seqNo == n || s.slots[i].seqNo == n + 1) &&
    (s.slots[i].seqNo == n ==> s.deq <= n) &&
    (s.slots[i].seqNo == n && s.enq <= n ==> s.slots[i].item == None) &&
    (s.slots[i].seqNo == n + 1 ==> n < s.enq) &&
    (s.slots[i].seqNo == n + 1 && s.deq <= n ==> s.slots[i].item == Some(s.pushed[n]))
  }

  ghost predicate PcOk(s: State, pc: Pc)
    requires SlotsOk(s)
  {
    match pc
    case Idle => true
    case PushLoaded(pos, _) => pos <= s.enq
    case PushReady(pos, _) => pos <= s.enq && (pos == s.enq ==> FreeFor(s, pos))
    case PushWon(pos, x) => pos < s.enq && s.pushed[pos] == x && FreeFor(s, pos) && s.slots[s.At(pos)].item == None
    case PushWrote(pos, x) => pos < s.enq && s.pushed[pos] == x && FreeFor(s, pos) && s.slots[s.At(pos)].item == Some(x)
    case PopLoaded(pos) => pos <= s.deq
    case PopReady(pos) => pos <= s.deq && (pos == s.deq ==> FullOf(s, pos))
    case PopWon(pos) => pos < s.deq && FullOf(s, pos) && s.slots[s.At(pos)].item == Some(s.pushed[pos])
    case PopCopied(pos, x) => pos < s.deq && FullOf(s, pos) && s.slots[s.At(pos)].item == Some(x) && s.pushed[pos] == x
    case PopCleared(pos, x) => pos < s.deq && FullOf(s, pos) && s.slots[s.At(pos)].item == None && s.pushed[pos] == x
  }

  predicate Producing(pc: Pc) { pc.PushWon? || pc.PushWrote? }

  predicate Consuming(pc: Pc) { pc.PopWon? || pc.PopCopied? || pc.PopCleared? }

  /** No ticket is held by two threads at once. */
  ghost predicate Exclusive(s: State) {
    forall t, u :: t in s.threads && u in s.threads && t != u ==>
      var a, b := s.threads[t], s.threads[u];
      ((Producing(a) && Producing(b)) || (Consuming(a) && Consuming(b))) ==> a.pos != b.pos
  }

  /** Every ticket that has been returned carried its producer's item, and its slot has moved on. */
  ghost predicate ReturnsOk(s: State)
    requires SlotsOk(s)
  {
    forall n :: n in s.popped ==> n < s.deq && s.popped[n] == s.pushed[n] && n < s.turn[s.At(n)]
  }

  ghost predicate Inv(s: State) {
    SlotsOk(s) && Exclusive(s) && ReturnsOk(s) && forall t :: t in s.threads ==> PcOk(s, s.threads[t])
  }

  lemma InitInv(s: State)
    requires Init(s)
    ensures Inv(s)
  {
    forall i | 0 <= i < s.Cap()
      ensures SlotOk(s, i)
    {
      assert i % s.Cap() == i;
    }
  }

  /** Ticket n and ticket n + 1 never share a slot. */
  lemma NextSlotDiffers(n: nat, c: nat)
    requires c >= 2
    ensures (n + 1) % c != n % c
  {
    ModSucc(n, c);
  }

  /** Steps that touch neither slots nor positions. */
  lemma LocalStep(s: State, t: nat, pc: Pc, s': State)
    requires Inv(s) && s' == s.WithPc(t, pc)
    requires PcOk(s, pc) && !Producing(pc) && !Producing(PcOf(s, t))
    requires Consuming(pc) ==> Consuming(PcOf(s, t)) && pc.pos == PcOf(s, t).pos
    requires Consuming(PcOf(s, t)) ==> Consuming(pc)
    ensures Inv(s')
  {
    forall i | 0 <= i < s'.Cap()
      ensures SlotOk(s', i)
    {
      assert SlotOk(s, i);
    }
    forall u | u in s'.threads
      ensures PcOk(s', s'.threads[u])
    {
      if u != t { assert PcOk(s, s.threads[u]); }
    }
  }

  /** The winning compare-and-swap of a producer. */
  ghost predicate WinsPush(s: State, t: nat, s': State) {
    Inv(s) && PcOf(s, t).PushReady? && s.enq == PcOf(s, t).pos && Step(s, t, PushCas(false), s', Running)
  }

  lemma CasPush(s: State, t: nat, s': State)
    requires WinsPush(s, t, s')
    ensures Inv(s')
  {
    hide WinsPush, SlotOk, PcOk, Exclusive, ReturnsOk;
    CasPushSlots(s, t, s');
    CasPushAlone(s, t, s');
    forall u | u in s'.threads
      ensures PcOk(s', s'.threads[u])
    {
      CasPushThread(s, t, s', u);
    }
  }

  lemma CasPushSlots(s: State, t: nat, s': State)
    requires WinsPush(s, t, s')
    ensures SlotsOk(s') && ReturnsOk(s')
  {
    hide Exclusive;
    assert PcOk(s, PcOf(s, t)) && SlotOk(s, s.At(PcOf(s, t).pos));
    forall i | 0 <= i < s'.Cap()
      ensures SlotOk(s', i)
    {
      assert SlotOk(s, i);
    }
  }

  lemma CasPushThread(s: State, t: nat, s': State, u: nat)
    requires WinsPush(s, t, s') && SlotsOk(s') && u in s'.threads
    ensures PcOk(s', s'.threads[u])
  {
    hide Exclusive, ReturnsOk;
    assert PcOk(s, PcOf(s, t)) && SlotOk(s, s.At(PcOf(s, t).pos));
    if u != t { assert PcOk(s, s.threads[u]); }
  }

  lemma CasPushAlone(s: State, t: nat, s': State)
    requires WinsPush(s, t, s')
    ensures Exclusive(s')
  {
    hide SlotOk, ReturnsOk;
    forall u | u in s.threads && u != t && Producing(s.threads[u])
      ensures s.threads[u].pos != PcOf(s, t).pos
    {
      assert PcOk(s, s.threads[u]);
    }
  }

  /** The winning compare-and-swap of a consumer. */
  ghost predicate WinsPop(s: State, t: nat, s': State) {
    Inv(s) && PcOf(s, t).PopReady? && s.deq == PcOf(s, t).pos && Step(s, t, PopCas(false), s', Running)
  }

  lemma CasPop(s: State, t: nat, s': State)
    requires WinsPop(s, t, s')
    ensures Inv(s')
  {
    hide WinsPop, SlotOk, PcOk, Exclusive, ReturnsOk;
    CasPopSlots(s, t, s');
    CasPopAlone(s, t, s');
    forall u | u in s'.threads
      ensures PcOk(s', s'.threads[u])
    {
      CasPopThread(s, t, s', u);
    }
  }

  lemma CasPopSlots(s: State, t: nat, s': State)
    requires WinsPop(s, t, s')
    ensures SlotsOk(s') && ReturnsOk(s')
  {
    hide Exclusive;
    assert PcOk(s, PcOf(s, t)) && SlotOk(s, s.At(PcOf(s, t).pos));
    forall i | 0 <= i < s'.Cap()
      ensures SlotOk(s', i)
    {
      assert SlotOk(s, i);
      if s.deq == s.turn[i] + s.Cap() {
        ModAdd(s.turn[i], s.Cap());
      }
    }
  }

  lemma CasPopThread(s: State, t: nat, s': State, u: nat)
    requires WinsPop(s, t, s') && SlotsOk(s') && u in s'.threads
    ensures PcOk(s', s'.threads[u])
  {
    hide Exclusive, ReturnsOk;
    assert PcOk(s, PcOf(s, t)) && SlotOk(s, s.At(PcOf(s, t).pos));
    if u != t { assert PcOk(s, s.threads[u]); }
  }

  lemma CasPopAlone(s: State, t: nat, s': State)
    requires WinsPop(s, t, s')
    ensures Exclusive(s')
  {
    hide SlotOk, ReturnsOk;
    forall u | u in s.threads && u != t && Consuming(s.threads[u])
      ensures s.threads[u].pos != PcOf(s, t).pos
    {
      assert PcOk(s, s.threads[u]);
    }
  }

  predicate Owner(pc: Pc) { Producing(pc) || Consuming(pc) }

  /** The thread relies on what its slot says right now. */
  predicate Relies(s: State, pc: Pc) {
    Owner(pc) || (pc.PushReady? && pc.pos == s.enq) || (pc.PopReady? && pc.pos == s.deq)
  }

  /** While a thread owns the ticket of a slot, no other thread relies on that slot. */
  lemma OwnsAlone(s: State, t: nat, u: nat)
    requires Inv(s) && Owner(PcOf(s, t)) && u in s.threads && u != t && Relies(s, s.threads[u])
    ensures s.At(s.threads[u].pos) != s.At(PcOf(s, t).pos)
  {
    assert PcOk(s, PcOf(s, t)) && PcOk(s, s.threads[u]);
  }

  /** A thread that does not rely on slot `i` does not notice a change to it. */
  lemma NotNoticed(s: State, s': State, i: nat, pc: Pc)
    requires SlotsOk(s) && SlotsOk(s') && s'.Cap() == s.Cap() && i < s.Cap()
    requires s'.enq == s.enq && s'.deq == s.deq && s'.pushed == s.pushed
    requires forall j :: 0 <= j < s.Cap() && j != i ==> s'.slots[j] == s.slots[j] && s'.turn[j] == s.turn[j]
    requires PcOk(s, pc) && (Relies(s, pc) ==> s.At(pc.pos) != i)
    ensures PcOk(s', pc)
  {
  }

  /** The owner of a slot may change it, as long as the new contents suit the owner itself. */
  lemma OwnerStep(s: State, t: nat, pc': Pc, s': State)
    requires Inv(s) && Owner(PcOf(s, t)) && s'.Cap() == s.Cap() && |s'.turn| == s.Cap()
    requires var i := s.At(PcOf(s, t).pos);
             forall j :: 0 <= j < s.Cap() && j != i ==> s'.slots[j] == s.slots[j] && s'.turn[j] == s.turn[j]
    requires s'.enq == s.enq && s'.deq == s.deq && s'.pushed == s.pushed
    requires s'.threads == s.threads[t := pc']
    requires SlotOk(s', s.At(PcOf(s, t).pos))
    requires pc'.Idle? || (Producing(pc') == Producing(PcOf(s, t)) && Consuming(pc') == Consuming(PcOf(s, t)) && pc'.pos == PcOf(s, t).pos)
    ensures SlotsOk(s') && Exclusive(s')
    ensures PcOk(s', pc') ==> forall u :: u in s'.threads ==> PcOk(s', s'.threads[u])
  {
    var i := s.At(PcOf(s, t).pos);
    forall j | 0 <= j < s'.Cap()
      ensures SlotOk(s', j)
    {
      if j != i { assert SlotOk(s, j); }
    }
    if PcOk(s', pc') {
      forall u | u in s'.threads
        ensures PcOk(s', s'.threads[u])
      {
        if u != t {
          if Relies(s, s.threads[u]) { OwnsAlone(s, t, u); }
          NotNoticed(s, s', i, s.threads[u]);
        }
      }
    }
  }

  /** A producer writes into an empty slot, never over an item. */
  lemma StoreSlot(s: State, t: nat, s': State, out: Outcome)
    requires Inv(s) && Step(s, t, PushStore, s', out)
    ensures Inv(s')
    ensures s.slots[s.At(PcOf(s, t).pos)].item == None
  {
    var pc := PcOf(s, t);
    assert PcOk(s, pc) && SlotOk(s, s.At(pc.pos));
    OwnerStep(s, t, PushWrote(pc.pos, pc.item), s');
  }

  /** Publishing makes the slot readable for this ticket. */
  lemma PublishSlot(s: State, t: nat, s': State, out: Outcome)
    requires Inv(s) && Step(s, t, PushPublish, s', out)
    ensures Inv(s')
  {
    var pc := PcOf(s, t);
    assert PcOk(s, pc) && SlotOk(s, s.At(pc.pos));
    OwnerStep(s, t, Idle, s');
  }

  lemma ClearSlot(s: State, t: nat, s': State)
    requires Inv(s) && Step(s, t, PopClear, s', Running)
    ensures Inv(s')
  {
    var pc := PcOf(s, t);
    assert PcOk(s, pc) && SlotOk(s, s.At(pc.pos));
    OwnerStep(s, t, PopCleared(pc.pos, pc.item), s');
  }

  /** Handing the slot to the ticket of the next lap ends a consumption. */
  lemma ReleaseSlot(s: State, t: nat, s': State, out: Outcome)
    requires Inv(s) && Step(s, t, PopRelease, s', out)
    ensures Inv(s')
    ensures PcOf(s, t).pos !in s.popped && out == Popped(PcOf(s, t).pos, s.pushed[PcOf(s, t).pos])
  {
    var pc := PcOf(s, t);
    assert PcOk(s, pc) && SlotOk(s, s.At(pc.pos));
    ModAdd(pc.pos, s.Cap());
    assert SlotOk(s', s.At(pc.pos));
    OwnerStep(s, t, Idle, s');
  }

  /** Every step of every thread keeps the ring consistent; and what a call returns is justified. */
  lemma StepInv(s: State, t: nat, a: Action, s': State, out: Outcome)
    requires Inv(s) && Step(s, t, a, s', out)
    ensures Inv(s') && s'.Cap() == s.Cap()
    ensures ReturnIsJustified(s, t, s', out)
  {
    var pc := PcOf(s, t);
    assert PcOk(s, pc);
    match a {
      case StartPush(x) => LocalStep(s, t, PushLoaded(s.enq, x), s');
      case PushSee => SeeStep(s, t, a, s', out);
      case PushCas(weakFailure) =>
        if s.enq == pc.pos && !weakFailure { CasPush(s, t, s'); } else { LocalStep(s, t, PushLoaded(s.enq, pc.item), s'); }
      case PushStore => StoreSlot(s, t, s', out);
      case PushPublish => PublishSlot(s, t, s', out);
      case StartPop => LocalStep(s, t, PopLoaded(s.deq), s');
      case PopSee => SeeStep(s, t, a, s', out);
      case PopCas(weakFailure) =>
        if s.deq == pc.pos && !weakFailure { CasPop(s, t, s'); } else { LocalStep(s, t, PopLoaded(s.deq), s'); }
      case PopCopy => LocalStep(s, t, PopCopied(pc.pos, s.pushed[pc.pos]), s');
      case PopClear => ClearSlot(s, t, s');
      case PopRelease => ReleaseSlot(s, t, s', out);
    }
  }

  /** "Full" is only said while the ticket one lap back has not been returned, "empty" only while the ticket
      to be read is not yet published; a value returned is the item of a ticket nobody returned before. */
  ghost predicate ReturnIsJustified(s: State, t: nat, s': State, out: Outcome) {
    var pc := PcOf(s, t);
    s.Cap() >= 2 &&
    match out
    case Running => s'.popped == s.popped
    case Pushed => pc.PushWrote? && pc.pos < |s.pushed| && s.pushed[pc.pos] == pc.item && s'.popped == s.popped
    case Full => pc.PushLoaded? && pc.pos >= s.Cap() && (pc.pos - s.Cap()) !in s.popped && s'.popped == s.popped
    case Empty => pc.PopLoaded? && pc.pos !in s.popped && (|s.turn| == s.Cap() ==> !FullOf(s, pc.pos)) && s'.popped == s.popped
    case Popped(n, item) => n !in s.popped && n < |s.pushed| && s.pushed[n] == item && s'.popped == s.popped[n := item]
  }

  /** What a look at the slot of ticket `pos` reveals, for a position that is not ahead of the counters. */
  lemma Look(s: State, pos: nat)
    requires Inv(s) && pos <= s.enq
    ensures s.slots[s.At(pos)].seqNo == pos ==> FreeFor(s, pos)
    ensures s.slots[s.At(pos)].seqNo == pos + 1 ==> FullOf(s, pos)
    ensures s.slots[s.At(pos)].seqNo < pos ==> pos >= s.Cap() && (pos - s.Cap()) !in s.popped
    ensures s.slots[s.At(pos)].seqNo <= pos ==> pos !in s.popped && !FullOf(s, pos)
  {
    var i := s.At(pos);
    assert SlotOk(s, i);
    var n, seen := s.turn[i], s.slots[i].seqNo;
    if seen == n + 1 && n + 1 == pos { NextSlotDiffers(n, s.Cap()); }
    if seen == n && n == pos + 1 { NextSlotDiffers(pos, s.Cap()); }
    if n < pos {
      ModGap(n, pos, s.Cap());
      ModAdd(pos - s.Cap(), s.Cap());
      assert s.At(pos - s.Cap()) == i;
    }
  }

  lemma SeeStep(s: State, t: nat, a: Action, s': State, out: Outcome)
    requires Inv(s) && (a.PushSee? || a.PopSee?) && Step(s, t, a, s', out)
    ensures Inv(s') && s'.Cap() == s.Cap()
    ensures ReturnIsJustified(s, t, s', out)
  {
    assert PcOk(s, PcOf(s, t));
    Look(s, PcOf(s, t).pos);
    LocalStep(s, t, PcOf(s', t), s');
  }

  // ---- runs ----

  /** Any number of steps by any threads in any order. */
  ghost predicate Run(states: seq<State>, who: seq<nat>, acts: seq<Action>, outs: seq<Outcome>) {
    |states| == |acts| + 1 && |who| == |acts| && |outs| == |acts| && Init(states[0]) &&
    forall i :: 0 <= i < |acts| ==> StepAt(states, who, acts, outs, i)
  }

  ghost predicate StepAt(states: seq<State>, who: seq<nat>, acts: seq<Action>, outs: seq<Outcome>, i: nat)
    requires |states| == |acts| + 1 && |who| == |acts| && |outs| == |acts| && i < |acts|
  {
    states[i].Cap() >= 2 && Step(states[i], who[i], acts[i], states[i + 1], outs[i])
  }

  lemma {:induction false} RunInv(states: seq<State>, who: seq<nat>, acts: seq<Action>, outs: seq<Outcome>, k: nat)
    requires Run(states, who, acts, outs) && k <= |acts|
    ensures Inv(states[k]) && Accounted(states[k]) && states[k].Cap() == states[0].Cap()
  {
    if k == 0 {
      InitInv(states[0]);
    } else {
      RunInv(states, who, acts, outs, k - 1);
      assert StepAt(states, who, acts, outs, k - 1);
      StepInv(states[k - 1], who[k - 1], acts[k - 1], states[k], outs[k - 1]);
      StepAccounted(states[k - 1], who[k - 1], acts[k - 1], states[k], outs[k - 1]);
    }
  }

  /** Under every interleaving the counters stay within one lap of each other and every return is justified. */
  lemma EveryRunIsSafe(states: seq<State>, who: seq<nat>, acts: seq<Action>, outs: seq<Outcome>, k: nat)
    requires Run(states, who, acts, outs) && k < |acts|
    ensures states[k].deq <= states[k].enq <= states[k].deq + states[0].Cap()
    ensures ReturnIsJustified(states[k], who[k], states[k + 1], outs[k])
  {
    RunInv(states, who, acts, outs, k);
    assert StepAt(states, who, acts, outs, k);
    StepInv(states[k], who[k], acts[k], states[k + 1], outs[k]);
  }

  /** The consumer of a ticket returns the item of its producer, in whatever order the calls finish; and the
      tickets of two calls that return a value are different. */
  lemma TicketsMatch(states: seq<State>, who: seq<nat>, acts: seq<Action>, outs: seq<Outcome>, i: nat, j: nat)
    requires Run(states, who, acts, outs) && i < j < |acts|
    requires outs[i].Popped? && outs[j].Popped?
    ensures outs[i].ticket != outs[j].ticket
    ensures outs[i].ticket < |states[i].pushed| && outs[i].item == states[i].pushed[outs[i].ticket]
  {
    EveryRunIsSafe(states, who, acts, outs, i);
    EveryRunIsSafe(states, who, acts, outs, j);
    ReturnsStay(states, who, acts, outs, outs[i].ticket, i + 1, j);
  }

  lemma {:induction false} ReturnsStay(states: seq<State>, who: seq<nat>, acts: seq<Action>, outs: seq<Outcome>, n: nat, i: nat, j: nat)
    requires Run(states, who, acts, outs) && i <= j <= |acts|
    requires n in states[i].popped
    ensures n in states[j].popped && states[j].popped[n] == states[i].popped[n]
    decreases j - i
  {
    if i < j {
      ReturnsStay(states, who, acts, outs, n, i, j - 1);
      RunInv(states, who, acts, outs, j - 1);
      EveryRunIsSafe(states, who, acts, outs, j - 1);
      ReturnStays(states[j - 1], who[j - 1], states[j], outs[j - 1], n);
    }
  }

  lemma ReturnStays(s: State, t: nat, s': State, out: Outcome, n: nat)
    requires ReturnIsJustified(s, t, s', out) && n in s.popped
    ensures n in s'.popped && s'.popped[n] == s.popped[n]
  {
  }

  // ---- nothing is lost ----

  ghost predicate ConsumerHolds(s: State, n: nat) {
    exists t :: t in s.threads && Consuming(s.threads[t]) && s.threads[t].pos == n
  }

  ghost predicate ProducerHolds(s: State, n: nat) {
    exists t :: t in s.threads && Producing(s.threads[t]) && s.threads[t].pos == n
  }

  /** A consumed ticket has been returned or is being copied out by some thread; a produced ticket that is not
      consumed waits in its slot or is being written by some thread. */
  ghost predicate Accounted(s: State) {
    s.Cap() >= 2 && |s.turn| == s.Cap() &&
    (forall n :: 0 <= n < s.deq && n !in s.popped ==> ConsumerHolds(s, n)) &&
    (forall n :: s.deq <= n < s.enq && !FullOf(s, n) ==> ProducerHolds(s, n) && s.turn[s.At(n)] == n)
  }

  lemma HoldersStay(s: State, t: nat, s': State, n: nat)
    requires s'.threads == s.threads[t := PcOf(s', t)]
    ensures ConsumerHolds(s, n) && !(Consuming(PcOf(s, t)) && PcOf(s, t).pos == n) ==> ConsumerHolds(s', n)
    ensures ProducerHolds(s, n) && !(Producing(PcOf(s, t)) && PcOf(s, t).pos == n) ==> ProducerHolds(s', n)
    ensures Consuming(PcOf(s', t)) ==> ConsumerHolds(s', PcOf(s', t).pos)
    ensures Producing(PcOf(s', t)) ==> ProducerHolds(s', PcOf(s', t).pos)
  {
    if ConsumerHolds(s, n) && !(Consuming(PcOf(s, t)) && PcOf(s, t).pos == n) {
      var u :| u in s.threads && Consuming(s.threads[u]) && s.threads[u].pos == n;
      assert u in s'.threads && Consuming(s'.threads[u]) && s'.threads[u].pos == n;
    }
    if ProducerHolds(s, n) && !(Producing(PcOf(s, t)) && PcOf(s, t).pos == n) {
      var u :| u in s.threads && Producing(s.threads[u]) && s.threads[u].pos == n;
      assert u in s'.threads && Producing(s'.threads[u]) && s'.threads[u].pos == n;
    }
  }

  lemma ConsumedAccounted(s: State, t: nat, a: Action, s': State, out: Outcome, n: nat)
    requires Inv(s) && Accounted(s) && Step(s, t, a, s', out)
    requires n < s'.deq && n !in s'.popped
    ensures ConsumerHolds(s', n)
  {
    HoldersStay(s, t, s', n);
    assert n < s.deq ==> ConsumerHolds(s, n);
  }

  lemma ProducedAccounted(s: State, t: nat, a: Action, s': State, out: Outcome, n: nat)
    requires Inv(s) && Accounted(s) && Step(s, t, a, s', out)
    requires Inv(s') && s'.Cap() == s.Cap()
    requires s'.deq <= n < s'.enq && !FullOf(s', n)
    ensures ProducerHolds(s', n) && s'.turn[s'.At(n)] == n
  {
    if n >= s.enq {
      NewTicket(s, t, a, s', out, n);
    } else if FullOf(s, n) {
      FullStays(s, t, a, s', out, n);
    } else {
      HoldersStay(s, t, s', n);
      WriterStays(s, t, a, s', out, n);
    }
  }

  lemma NewTicket(s: State, t: nat, a: Action, s': State, out: Outcome, n: nat)
    requires Inv(s) && Inv(s') && Step(s, t, a, s', out)
    requires s.enq <= n < s'.enq
    ensures ProducerHolds(s', n) && s'.turn[s'.At(n)] == n
  {
    assert PcOk(s', PcOf(s', t));
    assert t in s'.threads && Producing(s'.threads[t]) && s'.threads[t].pos == n;
  }

  /** A ticket in the hands of its producer keeps its slot, and its producer, until it is published. */
  lemma WriterStays(s: State, t: nat, a: Action, s': State, out: Outcome, n: nat)
    requires Inv(s) && Step(s, t, a, s', out) && s'.Cap() == s.Cap()
    requires s.deq <= n && s.turn[s.At(n)] == n && (|s'.turn| == s.Cap() ==> !FullOf(s', n))
    ensures |s'.turn| == s.Cap() && s'.turn[s'.At(n)] == n
    ensures s'.threads == s.threads[t := PcOf(s', t)]
    ensures Producing(PcOf(s, t)) && PcOf(s, t).pos == n ==> Producing(PcOf(s', t)) && PcOf(s', t).pos == n
  {
    assert PcOk(s, PcOf(s, t));
  }

  /** An item that waits to be consumed stays where it is until its consumer comes. */
  lemma FullStays(s: State, t: nat, a: Action, s': State, out: Outcome, n: nat)
    requires Inv(s) && Step(s, t, a, s', out) && s'.Cap() == s.Cap()
    requires s.deq <= n && FullOf(s, n)
    ensures |s'.turn| == |s.turn| && FullOf(s', n)
  {
    assert PcOk(s, PcOf(s, t));
  }

  lemma StepAccounted(s: State, t: nat, a: Action, s': State, out: Outcome)
    requires Inv(s) && Accounted(s) && Step(s, t, a, s', out)
    requires Inv(s') && s'.Cap() == s.Cap()
    ensures Accounted(s')
  {
    forall n | 0 <= n < s'.deq && n !in s'.popped
      ensures ConsumerHolds(s', n)
    {
      ConsumedAccounted(s, t, a, s', out, n);
    }
    forall n | s'.deq <= n < s'.enq && !FullOf(s', n)
      ensures ProducerHolds(s', n) && s'.turn[s'.At(n)] == n
    {
      ProducedAccounted(s, t, a, s', out, n);
    }
  }

  /** When every call has returned, exactly the tickets below dequeue_pos have been delivered, each with its own
      item, and the rest wait in the ring, in order, intact. */
  lemma QuiescentRing(s: State)
    requires Inv(s) && Accounted(s)
    requires forall t :: t in s.threads ==> s.threads[t].Idle?
    ensures forall n: nat :: n in s.popped <==> n < s.deq
    ensures forall n :: n in s.popped ==> s.popped[n] == s.pushed[n]
    ensures forall n :: s.deq <= n < s.enq ==> s.slots[s.At(n)] == Slot(n + 1, Some(s.pushed[n]))
  {
    assert forall n :: !ConsumerHolds(s, n) && !ProducerHolds(s, n);
    forall n | s.deq <= n < s.enq
      ensures s.slots[s.At(n)] == Slot(n + 1, Some(s.pushed[n]))
    {
      assert FullOf(s, n);
      assert SlotOk(s, s.At(n));
    }
  }

  // ---- calls get through ----

  /** The run goes on with steps of one thread only, and only the last of them ends a call. */
  ghost predicate GoesOnAlone(states: seq<State>, who: seq<nat>, acts: seq<Action>, outs: seq<Outcome>, t: nat,
                              states': seq<State>, who': seq<nat>, acts': seq<Action>, outs': seq<Outcome>) {
    Run(states', who', acts', outs') && |acts| < |acts'| <= |acts| + 6 &&
    states <= states' && who <= who' && acts <= acts' && outs <= outs' &&
    (forall k :: |who| <= k < |who'| ==> who'[k] == t) && (forall k :: |outs| <= k < |outs'| - 1 ==> outs'[k] == Running)
  }

  /** One more step of a run. */
  lemma RunAppend(states: seq<State>, who: seq<nat>, acts: seq<Action>, outs: seq<Outcome>, t: nat, a: Action, s': State, out: Outcome)
    requires Run(states, who, acts, outs) && states[|acts|].Cap() >= 2 && Step(states[|acts|], t, a, s', out)
    ensures Run(states + [s'], who + [t], acts + [a], outs + [out])
  {
    hide Step, Init;
    forall i | 0 <= i < |acts| + 1
      ensures StepAt(states + [s'], who + [t], acts + [a], outs + [out], i)
    {
      if i < |acts| { assert StepAt(states, who, acts, outs, i); }
    }
  }

  /** Steps of one thread, from a state on. */
  ghost predicate Path(s: State, t: nat, acts: seq<Action>, states: seq<State>, outs: seq<Outcome>) {
    |states| == |acts| == |outs| &&
    forall i :: 0 <= i < |acts| ==> PathStep(s, t, acts, states, outs, i)
  }

  ghost predicate PathStep(s: State, t: nat, acts: seq<Action>, states: seq<State>, outs: seq<Outcome>, i: nat)
    requires |states| == |acts| == |outs| && i < |acts|
  {
    var before := if i == 0 then s else states[i - 1];
    before.Cap() >= 2 && Step(before, t, acts[i], states[i], outs[i])
  }

  lemma {:induction false} RunGoesOn(states: seq<State>, who: seq<nat>, acts: seq<Action>, outs: seq<Outcome>,
                                     t: nat, more: seq<Action>, after: seq<State>, out: seq<Outcome>)
    requires Run(states, who, acts, outs) && Path(states[|acts|], t, more, after, out)
    ensures Run(states + after, who + seq(|more|, _ => t), acts + more, outs + out)
    decreases |more|
  {
    hide Step, Init;
    if more == [] {
      assert states + after == states && who + seq(0, _ => t) == who && acts + more == acts && outs + out == outs;
    } else {
      var n := |more| - 1;
      forall i | 0 <= i < n
        ensures PathStep(states[|acts|], t, more[..n], after[..n], out[..n], i)
      {
        assert PathStep(states[|acts|], t, more, after, out, i);
      }
      assert PathStep(states[|acts|], t, more, after, out, n);
      RunGoesOn(states, who, acts, outs, t, more[..n], after[..n], out[..n]);
      RunAppend(states + after[..n], who + seq(n, _ => t), acts + more[..n], outs + out[..n], t, more[n], after[n], out[n]);
      assert after[..n] + [after[n]] == after && more[..n] + [more[n]] == more && out[..n] + [out[n]] == out;
      assert seq(n, _ => t) + [t] == seq(|more|, _ => t);
      Append3(states, after[..n], [after[n]]);
      Append3(who, seq(n, _ => t), [t]);
      Append3(acts, more[..n], [more[n]]);
      Append3(outs, out[..n], [out[n]]);
    }
  }

  lemma Append3<T>(a: seq<T>, b: seq<T>, c: seq<T>)
    ensures (a + b) + c == a + (b + c)
  {
  }

  /** There is room for the next ticket if and only if it is one of the first lap, or the ticket one lap back was returned. */
  lemma RoomIff(s: State)
    requires Inv(s) && Accounted(s)
    ensures s.slots[s.At(s.enq)].seqNo == s.enq <==> s.enq < s.Cap() || (s.enq - s.Cap()) in s.popped
    ensures s.slots[s.At(s.enq)].seqNo <= s.enq
  {
    hide PcOk, Exclusive;
    var i := s.At(s.enq);
    assert SlotOk(s, i);
    var n := s.turn[i];
    if n > s.enq { ModGap(s.enq, n, s.Cap()); }
    if n < s.enq { ModGap(n, s.enq, s.Cap()); }
    if s.enq >= s.Cap() {
      ModAdd(s.enq - s.Cap(), s.Cap());
      if n > s.enq - s.Cap() { ModGap(s.enq - s.Cap(), n, s.Cap()); }
      if n == s.enq { LapBackReturned(s, s.enq - s.Cap()); }
    }
  }

  /** A ticket whose slot has moved on was returned. */
  lemma LapBackReturned(s: State, n: nat)
    requires Inv(s) && Accounted(s) && n < s.deq && s.turn[s.At(n)] != n
    ensures n in s.popped
  {
    hide Exclusive, SlotOk;
    forall t | t in s.threads && Consuming(s.threads[t])
      ensures s.threads[t].pos != n
    {
      assert PcOk(s, s.threads[t]);
    }
    assert !ConsumerHolds(s, n);
  }

  /** The next ticket can be read if and only if there is one and its producer is done. */
  lemma ReadableIff(s: State)
    requires Inv(s) && Accounted(s)
    ensures s.slots[s.At(s.deq)].seqNo <= s.deq + 1
    ensures s.slots[s.At(s.deq)].seqNo == s.deq + 1 <==> s.deq < s.enq && !ProducerHolds(s, s.deq)
    ensures s.slots[s.At(s.deq)].seqNo == s.deq + 1 ==> s.slots[s.At(s.deq)].item == Some(s.pushed[s.deq])
  {
    hide Exclusive;
    var i := s.At(s.deq);
    assert SlotOk(s, i);
    var n := s.turn[i];
    Look(s, s.deq);
    if n > s.deq { ModGap(s.deq, n, s.Cap()); }
    forall t | t in s.threads && Producing(s.threads[t]) && s.threads[t].pos == s.deq
      ensures s.slots[i].seqNo == s.deq
    {
      assert PcOk(s, s.threads[t]);
    }
  }

  /** What a push that runs alone does: it gets the next ticket, unless the one a lap back was not returned yet. */
  ghost predicate PushedAlone(s: State, t: nat, x: int, s': State, out: Outcome)
    requires s.Cap() >= 2
  {
    s'.threads == s.threads[t := Idle] && s'.deq == s.deq && s'.popped == s.popped && s'.Cap() == s.Cap() &&
    if s.enq < s.Cap() || (s.enq - s.Cap()) in s.popped
    then out == Pushed && s'.enq == s.enq + 1 && s'.pushed == s.pushed + [x] &&
         s'.slots == s.slots[s.At(s.enq) := Slot(s.enq + 1, Some(x))]
    else out == Full && s'.enq == s.enq && s'.pushed == s.pushed && s'.slots == s.slots
  }

  /** What a pop that runs alone does: the next ticket, if there is one and its producer is done with it, is returned, and
      its slot handed on. */
  ghost predicate PoppedAlone(s: State, t: nat, s': State, out: Outcome)
    requires s.Cap() >= 2
  {
    s'.threads == s.threads[t := Idle] && s'.enq == s.enq && s'.pushed == s.pushed && s'.Cap() == s.Cap() &&
    if s.deq < s.enq == |s.pushed| && !ProducerHolds(s, s.deq)
    then out == Popped(s.deq, s.pushed[s.deq]) && s'.deq == s.deq + 1 &&
         s'.popped == s.popped[s.deq := s.pushed[s.deq]] && s'.slots == s.slots[s.At(s.deq) := Slot(s.deq + s.Cap(), None)]
    else out == Empty && s'.deq == s.deq && s'.popped == s.popped && s'.slots == s.slots
  }

  lemma InvBasics(s: State)
    requires Inv(s)
    ensures s.Cap() >= 2 && |s.pushed| == s.enq
  {
  }

  /** The steps of a push that runs alone. */
  lemma PushPath(s: State, t: nat, x: int) returns (acts: seq<Action>, states: seq<State>, outs: seq<Outcome>)
    requires Inv(s) && Accounted(s) && PcOf(s, t).Idle?
    ensures 0 < |acts| <= 5 && acts[0] == StartPush(x) && Path(s, t, acts, states, outs)
    ensures PushedAlone(s, t, x, states[|acts| - 1], outs[|acts| - 1]) && forall k :: 0 <= k < |acts| - 1 ==> outs[k] == Running
  {
    hide Inv, Accounted, Path, Step;
    InvBasics(s);
    RoomIff(s);
    if s.slots[s.At(s.enq)].seqNo == s.enq {
      acts, states, outs := PushInFive(s, t, x);
    } else {
      acts, states, outs := PushInTwo(s, t, x);
    }
  }

  lemma PushInTwo(s: State, t: nat, x: int) returns (acts: seq<Action>, states: seq<State>, outs: seq<Outcome>)
    requires s.Cap() >= 2 && PcOf(s, t).Idle? && s.slots[s.At(s.enq)].seqNo < s.enq
    ensures |acts| == 2 && acts[0] == StartPush(x) && Path(s, t, acts, states, outs) && outs == [Running, Full]
    ensures states[1] == s.WithPc(t, Idle)
  {
    hide Path;
    var loaded := s.WithPc(t, PushLoaded(s.enq, x));
    acts, states, outs := [StartPush(x), PushSee], [loaded, loaded.WithPc(t, Idle)], [Running, Full];
    TwoSteps(s, t, acts, states, outs);
    assert s.threads[t := PushLoaded(s.enq, x)][t := Idle] == s.threads[t := Idle];
  }

  lemma PushInFive(s: State, t: nat, x: int) returns (acts: seq<Action>, states: seq<State>, outs: seq<Outcome>)
    requires s.Cap() >= 2 && PcOf(s, t).Idle? && s.slots[s.At(s.enq)].seqNo == s.enq
    ensures |acts| == 5 && acts[0] == StartPush(x) && Path(s, t, acts, states, outs)
    ensures outs == [Running, Running, Running, Running, Pushed]
    ensures states[4] == s.(enq := s.enq + 1, pushed := s.pushed + [x], slots := s.slots[s.At(s.enq) := Slot(s.enq + 1, Some(x))])
                          .WithPc(t, Idle)
  {
    hide Path;
    var i, pos := s.At(s.enq), s.enq;
    var loaded := s.WithPc(t, PushLoaded(pos, x));
    var ready := loaded.WithPc(t, PushReady(pos, x));
    var won := ready.(enq := pos + 1, pushed := ready.pushed + [x]).WithPc(t, PushWon(pos, x));
    var wrote := won.WithSlot(i, won.slots[i].(item := Some(x))).WithPc(t, PushWrote(pos, x));
    var done := wrote.WithSlot(i, wrote.slots[i].(seqNo := pos + 1)).WithPc(t, Idle);
    acts, outs := [StartPush(x), PushSee, PushCas(false), PushStore, PushPublish], [Running, Running, Running, Running, Pushed];
    states := [loaded, ready, won, wrote, done];
    FiveSteps(s, t, acts, states, outs);
    assert done.threads == s.threads[t := Idle];
    assert done.slots == s.slots[i := Slot(pos + 1, Some(x))];
  }

  lemma TwoSteps(s: State, t: nat, acts: seq<Action>, states: seq<State>, outs: seq<Outcome>)
    requires |acts| == |states| == |outs| == 2 && s.Cap() >= 2 && states[0].Cap() >= 2
    requires Step(s, t, acts[0], states[0], outs[0]) && Step(states[0], t, acts[1], states[1], outs[1])
    ensures Path(s, t, acts, states, outs)
  {
    hide Step;
  }

  lemma FiveSteps(s: State, t: nat, acts: seq<Action>, states: seq<State>, outs: seq<Outcome>)
    requires |acts| == |states| == |outs| == 5 && s.Cap() >= 2 && forall k :: 0 <= k < 5 ==> states[k].Cap() >= 2
    requires Step(s, t, acts[0], states[0], outs[0]) && Step(states[0], t, acts[1], states[1], outs[1])
    requires Step(states[1], t, acts[2], states[2], outs[2]) && Step(states[2], t, acts[3], states[3], outs[3])
    requires Step(states[3], t, acts[4], states[4], outs[4])
    ensures Path(s, t, acts, states, outs)
  {
    hide Step;
    forall k | 0 <= k < 5
      ensures PathStep(s, t, acts, states, outs, k)
    {
      assert k == 0 || k == 1 || k == 2 || k == 3 || k == 4;
    }
  }

  lemma SixSteps(s: State, t: nat, acts: seq<Action>, states: seq<State>, outs: seq<Outcome>)
    requires |acts| == |states| == |outs| == 6 && s.Cap() >= 2 && forall k :: 0 <= k < 6 ==> states[k].Cap() >= 2
    requires Step(s, t, acts[0], states[0], outs[0]) && Step(states[0], t, acts[1], states[1], outs[1])
    requires Step(states[1], t, acts[2], states[2], outs[2]) && Step(states[2], t, acts[3], states[3], outs[3])
    requires Step(states[3], t, acts[4], states[4], outs[4]) && Step(states[4], t, acts[5], states[5], outs[5])
    ensures Path(s, t, acts, states, outs)
  {
    hide Step;
    forall k | 0 <= k < 6
      ensures PathStep(s, t, acts, states, outs, k)
    {
      assert k == 0 || k == 1 || k == 2 || k == 3 || k == 4 || k == 5;
    }
  }

  /** The steps of a pop that runs alone. */
  lemma PopPath(s: State, t: nat) returns (acts: seq<Action>, states: seq<State>, outs: seq<Outcome>)
    requires Inv(s) && Accounted(s) && PcOf(s, t).Idle?
    ensures 0 < |acts| <= 6 && acts[0] == StartPop && Path(s, t, acts, states, outs)
    ensures s.Cap() >= 2 && PoppedAlone(s, t, states[|acts| - 1], outs[|acts| - 1]) && forall k :: 0 <= k < |acts| - 1 ==> outs[k] == Running
  {
    hide Inv, Accounted, Path, Step, ProducerHolds;
    InvBasics(s);
    ReadableIff(s);
    if s.slots[s.At(s.deq)].seqNo == s.deq + 1 {
      acts, states, outs := PopInSix(s, t, s.pushed[s.deq]);
    } else {
      acts, states, outs := PopInTwo(s, t);
    }
  }

  lemma PopInTwo(s: State, t: nat) returns (acts: seq<Action>, states: seq<State>, outs: seq<Outcome>)
    requires s.Cap() >= 2 && PcOf(s, t).Idle? && s.slots[s.At(s.deq)].seqNo < s.deq + 1
    ensures |acts| == 2 && acts[0] == StartPop && Path(s, t, acts, states, outs) && outs == [Running, Empty]
    ensures states[1] == s.WithPc(t, Idle)
  {
    hide Path;
    var loaded := s.WithPc(t, PopLoaded(s.deq));
    acts, states, outs := [StartPop, PopSee], [loaded, loaded.WithPc(t, Idle)], [Running, Empty];
    TwoSteps(s, t, acts, states, outs);
    assert s.threads[t := PopLoaded(s.deq)][t := Idle] == s.threads[t := Idle];
  }

  lemma PopInSix(s: State, t: nat, x: int) returns (acts: seq<Action>, states: seq<State>, outs: seq<Outcome>)
    requires s.Cap() >= 2 && PcOf(s, t).Idle? && s.slots[s.At(s.deq)] == Slot(s.deq + 1, Some(x))
    ensures |acts| == 6 && acts[0] == StartPop && Path(s, t, acts, states, outs)
    ensures outs == [Running, Running, Running, Running, Running, Popped(s.deq, x)]
    ensures states[5] == s.(deq := s.deq + 1, popped := s.popped[s.deq := x], turn := states[5].turn,
                            slots := s.slots[s.At(s.deq) := Slot(s.deq + s.Cap(), None)]).WithPc(t, Idle)
  {
    hide Path, Step;
    PopTakes(s, t);
    var i, pos := s.At(s.deq), s.deq;
    var loaded := s.WithPc(t, PopLoaded(pos));
    var ready := loaded.WithPc(t, PopReady(pos));
    var won := ready.(deq := pos + 1).WithPc(t, PopWon(pos));
    var copied := won.WithPc(t, PopCopied(pos, x));
    var cleared := copied.WithSlot(i, copied.slots[i].(item := None)).WithPc(t, PopCleared(pos, x));
    var done := Released(cleared, t, pos, x);
    acts, outs := [StartPop, PopSee, PopCas(false), PopCopy, PopClear, PopRelease],
      [Running, Running, Running, Running, Running, Popped(pos, x)];
    states := [loaded, ready, won, copied, cleared, done];
    PopReturns(won, t, pos, x);
    SixSteps(s, t, acts, states, outs);
    assert done.threads == s.threads[t := Idle];
    assert done.slots == s.slots[i := Slot(pos + s.Cap(), None)];
  }

  /** The three steps by which it gets it. */
  lemma PopTakes(s: State, t: nat)
    requires s.Cap() >= 2 && PcOf(s, t).Idle? && s.slots[s.At(s.deq)].seqNo == s.deq + 1
    ensures var loaded := s.WithPc(t, PopLoaded(s.deq));
            var ready := loaded.WithPc(t, PopReady(s.deq));
            Step(s, t, StartPop, loaded, Running) && Step(loaded, t, PopSee, ready, Running) &&
            Step(ready, t, PopCas(false), ready.(deq := s.deq + 1).WithPc(t, PopWon(s.deq)), Running)
  {
  }

  /** The three steps of a consumer that owns its ticket. */
  lemma PopReturns(s: State, t: nat, pos: nat, x: int)
    requires s.Cap() >= 2 && PcOf(s, t) == PopWon(pos) && s.slots[s.At(pos)].item == Some(x)
    ensures var copied := s.WithPc(t, PopCopied(pos, x));
            var cleared := copied.WithSlot(s.At(pos), s.slots[s.At(pos)].(item := None)).WithPc(t, PopCleared(pos, x));
            Step(s, t, PopCopy, copied, Running) && Step(copied, t, PopClear, cleared, Running) &&
            Step(cleared, t, PopRelease, Released(cleared, t, pos, x), Popped(pos, x))
  {
  }

  lemma Goes(states: seq<State>, who: seq<nat>, acts: seq<Action>, outs: seq<Outcome>, t: nat,
             more: seq<Action>, after: seq<State>, out: seq<Outcome>)
    requires Run(states, who, acts, outs) && Path(states[|acts|], t, more, after, out) && 0 < |more| <= 6
    requires forall k :: 0 <= k < |more| - 1 ==> out[k] == Running
    ensures GoesOnAlone(states, who, acts, outs, t, states + after, who + seq(|more|, _ => t), acts + more, outs + out)
  {
    hide Step, Init;
    RunGoesOn(states, who, acts, outs, t, more, after, out);
  }

  /** After any run, a push that runs alone from then on returns after at most five steps; it gets in unless the ticket a
      lap back was not returned yet. */
  lemma PushGetsThrough(states: seq<State>, who: seq<nat>, acts: seq<Action>, outs: seq<Outcome>, t: nat, x: int)
    returns (states': seq<State>, who': seq<nat>, acts': seq<Action>, outs': seq<Outcome>)
    requires Run(states, who, acts, outs) && PcOf(states[|acts|], t).Idle?
    ensures states[|acts|].Cap() >= 2 && GoesOnAlone(states, who, acts, outs, t, states', who', acts', outs') && acts'[|acts|] == StartPush(x)
    ensures PushedAlone(states[|acts|], t, x, states'[|acts'|], outs'[|acts'| - 1])
  {
    hide Run, Path, GoesOnAlone, PushedAlone, Inv, Accounted;
    RunLengths(states, who, acts, outs);
    RunInv(states, who, acts, outs, |acts|);
    InvBasics(states[|acts|]);
    var more, after, out := PushPath(states[|acts|], t, x);
    PathLengths(states[|acts|], t, more, after, out);
    Goes(states, who, acts, outs, t, more, after, out);
    states', who', acts', outs' := states + after, who + seq(|more|, _ => t), acts + more, outs + out;
  }

  /** The same of a pop: it gets the next ticket and its item, unless there is none or its producer is not done with it. */
  lemma PopGetsThrough(states: seq<State>, who: seq<nat>, acts: seq<Action>, outs: seq<Outcome>, t: nat)
    returns (states': seq<State>, who': seq<nat>, acts': seq<Action>, outs': seq<Outcome>)
    requires Run(states, who, acts, outs) && PcOf(states[|acts|], t).Idle?
    ensures states[|acts|].Cap() >= 2 && GoesOnAlone(states, who, acts, outs, t, states', who', acts', outs') && acts'[|acts|] == StartPop
    ensures PoppedAlone(states[|acts|], t, states'[|acts'|], outs'[|acts'| - 1])
  {
    hide Run, Path, GoesOnAlone, PoppedAlone, Inv, Accounted;
    RunLengths(states, who, acts, outs);
    RunInv(states, who, acts, outs, |acts|);
    InvBasics(states[|acts|]);
    var more, after, out := PopPath(states[|acts|], t);
    PathLengths(states[|acts|], t, more, after, out);
    Goes(states, who, acts, outs, t, more, after, out);
    states', who', acts', outs' := states + after, who + seq(|more|, _ => t), acts + more, outs + out;
  }

  lemma RunLengths(states: seq<State>, who: seq<nat>, acts: seq<Action>, outs: seq<Outcome>)
    requires Run(states, who, acts, outs)
    ensures |states| == |acts| + 1 && |who| == |acts| && |outs| == |acts|
  {
  }

  lemma PathLengths(s: State, t: nat, acts: seq<Action>, states: seq<State>, outs: seq<Outcome>)
    requires Path(s, t, acts, states, outs)
    ensures |states| == |acts| == |outs|
  {
  }

  // ---- calls that compete ----

  /** The thread is looking for a ticket. */
  predicate Trying(pc: Pc) { pc.PushLoaded? || pc.PushReady? || pc.PopLoaded? || pc.PopReady? }

  predicate Weak(a: Action) { (a.PushCas? || a.PopCas?) && a.weakFailure }

  /** A push has to start over only because others took tickets, and a pop likewise. */
  lemma RetryMeansProgress(s: State, t: nat, a: Action, s': State, out: Outcome)
    requires Inv(s) && Step(s, t, a, s', out) && !Weak(a)
    ensures (PcOf(s, t).PushLoaded? || PcOf(s, t).PushReady?) && PcOf(s', t).PushLoaded? ==> PcOf(s, t).pos < PcOf(s', t).pos == s.enq
    ensures (PcOf(s, t).PopLoaded? || PcOf(s, t).PopReady?) && PcOf(s', t).PopLoaded? ==> PcOf(s, t).pos < PcOf(s', t).pos == s.deq
  {
    assert PcOk(s, PcOf(s, t));
    if a.PushSee? || a.PopSee? {
      assert SlotOk(s, s.At(PcOf(s, t).pos));
      var n := s.turn[s.At(PcOf(s, t).pos)];
      if n > PcOf(s, t).pos { ModGap(PcOf(s, t).pos, n, s.Cap()); }
    }
  }

  /** Every step of a thread that looks for a ticket raises this. */
  function Effort(pc: Pc): nat
    requires Trying(pc)
  {
    2 * pc.pos + if pc.PushReady? || pc.PopReady? then 1 else 0
  }

  function StepsBy(who: seq<nat>, t: nat, i: nat, j: nat): nat
    requires i <= j <= |who|
  {
    if i == j then 0 else StepsBy(who, t, i, j - 1) + if who[j - 1] == t then 1 else 0
  }

  lemma StepsRaiseEffort(s: State, u: nat, a: Action, s': State, out: Outcome, t: nat)
    requires Inv(s) && Step(s, u, a, s', out) && Trying(PcOf(s, t)) && Trying(PcOf(s', t)) && (u == t ==> !Weak(a))
    ensures Effort(PcOf(s', t)) >= Effort(PcOf(s, t)) + if u == t then 1 else 0
    ensures (PcOf(s, t).PushLoaded? || PcOf(s, t).PushReady?) <==> (PcOf(s', t).PushLoaded? || PcOf(s', t).PushReady?)
  {
    if u == t { RetryMeansProgress(s, t, a, s', out); }
  }

  /** No thread is kept from its ticket but by others that get theirs: while a call looks for one, it takes at most two
      steps for every ticket given to others, and one more. */
  lemma {:induction false} TriesAreBounded(states: seq<State>, who: seq<nat>, acts: seq<Action>, outs: seq<Outcome>, t: nat, i: nat, j: nat)
    requires Run(states, who, acts, outs) && i <= j <= |acts|
    requires forall k :: i <= k <= j ==> Trying(PcOf(states[k], t))
    requires forall k :: i <= k < j && who[k] == t ==> !Weak(acts[k])
    ensures (PcOf(states[i], t).PushLoaded? || PcOf(states[i], t).PushReady?) <==> (PcOf(states[j], t).PushLoaded? || PcOf(states[j], t).PushReady?)
    ensures Effort(PcOf(states[i], t)) + StepsBy(who, t, i, j) <= Effort(PcOf(states[j], t))
    ensures StepsBy(who, t, i, j) <=
      2 * ((if PcOf(states[i], t).PushLoaded? || PcOf(states[i], t).PushReady? then states[j].enq else states[j].deq) - PcOf(states[i], t).pos) + 1
    decreases j - i
  {
    hide Step, Inv, Accounted, SlotOk;
    RunInv(states, who, acts, outs, j);
    PositionIsPast(states[j], t);
    if i < j {
      TriesAreBounded(states, who, acts, outs, t, i, j - 1);
      RunInv(states, who, acts, outs, j - 1);
      assert StepAt(states, who, acts, outs, j - 1);
      StepsRaiseEffort(states[j - 1], who[j - 1], acts[j - 1], states[j], outs[j - 1], t);
    }
  }

  lemma PositionIsPast(s: State, t: nat)
    requires Inv(s) && Trying(PcOf(s, t))
    ensures PcOf(s, t).pos <= if PcOf(s, t).PushLoaded? || PcOf(s, t).PushReady? then s.enq else s.deq
  {
    assert PcOk(s, PcOf(s, t));
  }
}
