/** Delivery of the messages of a queue: at least once, with acknowledgement and redelivery, or at most once. */
module Delivery {
  import opened Bytes
  import opened Optional
  import opened Inflight
  import opened DeliveryModel
  import opened Seqs

  const MAYBE_LATER: int := -5

  /** A queue over a log.  Of the log only its contract is used: it holds the messages from `logStart` on, hands them
      out by offset, and forgets those before a given offset when asked to. */
  class Queue {
    const policy: Policy
    const atLeastOnce: bool
    const visibility: nat
    const table: Table
    var retained: seq<Msg>
    var logStart: nat
    var read: nat
    ghost var s: S
    ghost var reserved: map<nat, Slot>

    ghost function Maps(): Inflight.Maps
      reads this`s, this`reserved
    {
      Inflight.Maps(s.active, s.consumed, s.ttl, reserved)
    }

    ghost predicate LogOk()
      reads this`retained, this`logStart, this`read, this`s
    {
      s.read == read && s.start == logStart <= |s.pushed| && retained == s.pushed[logStart..]
    }

    /** Table, log and history agree; nothing is lost. */
    ghost predicate Valid()
      reads this, table, table.slots
    {
      table.Valid() && RepAll(table.slots[..], Maps()) && LogOk() && Inv(s) && (policy.Fifo? ==> s.consumed == map[])
    }

    constructor (p: Policy, atLeast: bool, visibilityNs: nat)
      ensures Valid() && s == S([], 0, 0, map[], map[], map[], {}, {}, {}, {}) && reserved == map[]
      ensures policy == p && atLeastOnce == atLeast && fresh(table) && fresh(table.slots)
    {
      policy, atLeastOnce, visibility := p, atLeast, visibilityNs;
      table := new Table();
      retained, logStart, read := [], 0, 0;
      s, reserved := S([], 0, 0, map[], map[], map[], {}, {}, {}, {}), map[];
      new;
      ClearRep(table.slots[..]);
    }

    function Next(): nat
      reads this`logStart, this`retained
    {
      logStart + |retained|
    }

    /** Reads a message from the log. */
    function ReadLog(o: nat): Option<Msg>
      reads this`logStart, this`retained
    {
      if logStart <= o < logStart + |retained| then Some(retained[o - logStart]) else None
    }

    lemma ReadWorks(o: nat)
      requires LogOk() && s.start <= o < |s.pushed|
      ensures ReadLog(o) == Some(s.pushed[o]) && Next() == |s.pushed|
    {
    }

    /** Whether the message is dead; if so, its expiry time is forgotten. */
    method EntryExpired(o: nat, m: Msg, now: nat) returns (dead: bool)
      requires Valid() && o < |s.pushed| && m == s.pushed[o]
      modifies this`s, table, table.slots
      ensures Valid() && table.slots == old(table.slots) && Thinned(old(table.slots[..]), table.slots[..])
      ensures forall k :: 0 <= k < table.slots.Length && old(table.slots[k]).state != Ttl ==> table.slots[k] == old(table.slots[k])
      ensures dead == Dead(old(s), o, now)
      ensures s == if dead then old(s).(ttl := old(s).ttl - {o}) else old(s)
    {
      hide Inv, RepAll;
      var i := table.Lookup(Ttl, o, Maps());
      if i < table.slots.Length {
        if table.slots[i].visibleAt > now {
          return false;
        }
        ForgetTtlInv(s, o);
        table.Clear(i, Maps());
        s := s.(ttl := s.ttl - {o});
        dead := true;
      } else {
        assert s.ttl - {o} == s.ttl;
        dead := m.ttl != 0 && OwnExpiry(m) <= now;
      }
    }

    /** Takes a waiting message out of the queue: it is dropped, or it is now in hand. */
    method MarkConsumed(o: nat, m: Msg, ghost dies: bool)
      requires Valid() && Waiting(s, o) && m == s.pushed[o] && !policy.Fifo? && (dies ==> o !in s.ttl)
      modifies this`s, table, table.slots
      ensures Valid() && (table.slots == old(table.slots) || fresh(table.slots))
      ensures s == Goes(Consume(old(s), o, Slot(Consumed, m.id, o, 0)), o, dies)
    {
      hide Inv, RepAll;
      var i := table.Lookup(Consumed, o, Maps());
      if i < table.slots.Length {
        return;
      }
      var x := Slot(Consumed, m.id, o, 0);
      ConsumeInv(s, o, x, dies);
      table.Enter(x, Maps());
      s := Goes(Consume(s, o, x), o, dies);
    }

    /** The log forgets the messages before `newStart`. */
    method TrimFront(newStart: nat)
      requires LogOk()
      modifies this`retained, this`logStart, this`s
      ensures LogOk() && s == old(s).(start := logStart) && old(logStart) <= logStart
      ensures logStart <= newStart || logStart == old(logStart)
      ensures newStart <= |s.pushed| ==> newStart <= logStart
    {
      while |retained| > 0 && logStart < newStart
        invariant LogOk() && s == old(s).(start := logStart) && old(logStart) <= logStart
        invariant logStart <= newStart || logStart == old(logStart)
        decreases |retained|
      {
        retained := retained[1..];
        logStart := logStart + 1;
        s := s.(start := logStart);
      }
    }

    /** Moves the read position over what was consumed beyond it, and lets the log forget what nobody needs: nothing,
        as long as a pop holds a reservation. */
    method CompactConsumed(ghost now: nat)
      requires Valid()
      modifies this`retained, this`logStart, this`read, this`s, table, table.slots
      ensures Valid() && table.slots == old(table.slots) && Thinned(old(table.slots[..]), table.slots[..])
      ensures Advanced(old(s), s, now) && s.expired == old(s.expired) && s.active == old(s.active) && s.ttl == old(s.ttl)
      ensures reserved != map[] ==> s.start == old(s.start)
      ensures old(s.read) <= s.read && s.read !in s.consumed && (reserved == map[] ==> Tight(s))
    {
      hide Inv, RepAll, Advanced, Tight;
      SkipConsumed(now);
      var r := table.Find(Reserved, 0, None);
      NoneReserved(table.slots[..], Maps(), r);
      if r < table.slots.Length {
        return;
      }
      var trimTo := Oldest();
      TrimmedIsTight(s, trimTo);
      if trimTo == 0 {
        assert s.(start := trimTo) == s;
      } else {
        ghost var s0 := s;
        TrimFront(trimTo);
        TrimKeeps(s0, trimTo, logStart);
        AdvancedTrim(s0, logStart, now);
        AdvancedTrans(old(s), s0, s, now);
      }
    }

    method SkipConsumed(ghost now: nat)
      requires Valid()
      modifies this`read, this`s, table.slots
      ensures Valid() && Advanced(old(s), s, now) && s.expired == old(s.expired) && s.active == old(s.active) && s.ttl == old(s.ttl)
      ensures s.start == old(s.start) && old(s.read) <= s.read && Thinned(old(table.slots[..]), table.slots[..])
      ensures s.read !in s.consumed
    {
      hide Inv, RepAll, Advanced;
      AdvancedSame(s, now);
      while true
        invariant Valid() && Advanced(old(s), s, now) && s.expired == old(s.expired) && s.active == old(s.active) && s.ttl == old(s.ttl)
        invariant s.start == old(s.start) && old(s.read) <= s.read && table.slots == old(table.slots)
        invariant Thinned(old(table.slots[..]), table.slots[..])
        decreases |s.pushed| - s.read
      {
        var i := table.Lookup(Consumed, read, Maps());
        if i == table.slots.Length {
          break;
        }
        ReadBound(s);
        SkipOneInv(s);
        AdvancedSkip(s, now);
        AdvancedTrans(old(s), s, SkipOne(s), now);
        table.Clear(i, Maps());
        read := read + 1;
        s := SkipOne(s);
      }
    }

    /** The read position, or the first offset in flight if that is older. */
    method Oldest() returns (trimTo: nat)
      requires Valid()
      ensures Keeps(s, trimTo) && (trimTo == s.read || trimTo in s.active)
    {
      hide Inv;
      trimTo := read;
      for i := 0 to table.slots.Length
        invariant trimTo <= read && (trimTo == read || trimTo in s.active)
        invariant forall k :: 0 <= k < i && Is(table.slots[..], k, Active) ==> trimTo <= table.slots[k].offset
      {
        if table.slots[i].state == Active && table.slots[i].offset < trimTo {
          ActiveAt(table.slots[..], Maps(), i);
          trimTo := table.slots[i].offset;
        }
      }
      OldestActive(table.slots[..], s.active, trimTo);
    }

    /** Takes the message in front; a queue that is not first in, first out never does this. */
    method Advance(ghost dies: bool)
      requires Valid() && policy.Fifo? && Waiting(s, s.read) && (dies ==> s.read !in s.ttl)
      modifies this`read, this`s
      ensures Valid() && s == Goes(TakeFront(old(s)), old(s.read), dies)
    {
      hide Inv, RepAll;
      TakeFrontInv(s, dies);
      read := read + 1;
      s := Goes(TakeFront(s), s.read, dies);
    }

    /** Takes the message in front in hand, and compacts. */
    method TakeFirst(o: nat, ghost a: S, ghost now: nat)
      requires Valid() && policy.Fifo? && Waiting(s, s.read) && o == read && Inv(a) && a.hand == {}
      requires Advanced(a, s, now) && s.active == a.active
      modifies this`retained, this`logStart, this`read, this`s, table, table.slots
      ensures Valid() && table.slots == old(table.slots)
      ensures Taken(a, s, o, now) && (reserved != map[] ==> s.start == old(s.start)) && s.read !in s.consumed
    {
      hide Inv, RepAll, Advanced, Taken, Dead, Tight;
      TakeAfter(a, s, Goes(TakeFront(s), s.read, false), o, CLEAR, now);
      Advance(false);
      ghost var s1 := s;
      CompactConsumed(now);
      TakenThenAdvanced(a, s1, s, o, now);
    }

    const DROPPED: int := 1

    /** Drops the message in front if it is dead, takes it if it is due. */
    method FifoTry(o: nat, now: nat, ghost a: S) returns (rc: int)
      requires Valid() && policy.Fifo? && o == read < |s.pushed| && Inv(a) && a.hand == {} && Advanced(a, s, now) && s.active == a.active
      requires forall p: nat :: Waiting(a, p) && p < o ==> Dead(a, p, now)
      modifies this`retained, this`logStart, this`read, this`s, table, table.slots
      ensures Valid() && table.slots == old(table.slots) && (rc == 0 || rc == MAYBE_LATER || rc == DROPPED)
      ensures rc == 0 ==> Taken(a, s, o, now) && Best(Fifo, a, o, now) && s.read !in s.consumed
      ensures rc == MAYBE_LATER ==> Nothing(Fifo, a, now) && Waiting(s, s.read)
      ensures rc == DROPPED ==> read == o + 1 && forall p: nat :: Waiting(a, p) && p < o + 1 ==> Dead(a, p, now)
      ensures rc != 0 ==> Advanced(a, s, now) && s.active == a.active
      ensures (rc != 0 ==> s.pushed == old(s.pushed)) && (rc != 0 || reserved != map[] ==> s.start == old(s.start))
    {
      hide Inv, RepAll, Advanced, Taken, Dead, Tight;
      FrontIsReadable(s);
      ReadWorks(o);
      var m := ReadLog(o).value;
      ghost var s0 := s;
      WasWaiting(a, s, o, now);
      var dead := EntryExpired(o, m, now);
      if dead {
        AdvancedDrop(s0, Goes(TakeFront(s), s.read, true), o, CLEAR, now);
        AdvancedTrans(a, s0, Goes(TakeFront(s), s.read, true), now);
        Advance(true);
        rc := DROPPED;
      } else if m.deliverAt > now {
        FrontNotDue(a, o, now);
        rc := MAYBE_LATER;
      } else {
        TakeFirst(o, a, now);
        rc := 0;
      }
    }

    /** First in, first out: drops dead messages in front, and takes the first that is alive if it is due. */
    method FifoPop(now: nat) returns (rc: int, o: nat)
      requires Valid() && policy.Fifo? && s.hand == {}
      modifies this`retained, this`logStart, this`read, this`s, table, table.slots
      ensures Valid() && (table.slots == old(table.slots) || fresh(table.slots))
      ensures rc == 0 ==> Taken(old(s), s, o, now) && Best(Fifo, old(s), o, now) && s.read !in s.consumed
      ensures rc != 0 ==> rc == MAYBE_LATER && Advanced(old(s), s, now) && s.active == old(s.active) && Nothing(Fifo, old(s), now)
      ensures reserved != map[] ==> s.start == old(s.start)
      ensures rc != 0 && reserved == map[] ==> Compacted(old(s), s)
    {
      hide Inv, RepAll, Advanced, Taken, Dead, Best, Nothing, Tight;
      AdvancedSame(s, now);
      o := read;
      while o < Next()
        invariant Valid() && o == read && Advanced(old(s), s, now) && s.active == old(s.active) && s.start == old(s.start)
        invariant table.slots == old(table.slots)
        invariant forall p: nat :: Waiting(old(s), p) && p < o ==> Dead(old(s), p, now)
        decreases |s.pushed| - o
      {
        FrontIsReadable(s);
        rc := FifoTry(o, now, old(s));
        if rc != DROPPED {
          return;
        }
        o := o + 1;
      }
      NothingWaiting(old(s), s, now);
      ghost var s2 := s;
      CompactConsumed(now);
      AdvancedTrans(old(s), s2, s, now);
      return MAYBE_LATER, o;
    }

    /** Whether a message was taken from the queue. */
    method OffsetTaken(o: nat) returns (taken: bool)
      requires Valid()
      ensures taken <==> o in s.consumed || o in s.active
    {
      hide Inv, RepAll;
      var i := table.Lookup(Consumed, o, Maps());
      if i < table.slots.Length {
        return true;
      }
      i := table.Lookup(Active, o, Maps());
      taken := i < table.slots.Length;
    }

    /** Drops a waiting message that is dead, beyond the front if need be. */
    method Drop(o: nat, m: Msg, ghost s0: S, ghost now: nat)
      requires Valid() && !policy.Fifo? && Inv(s0) && Waiting(s0, o) && Dead(s0, o, now)
      requires s == s0.(ttl := s0.ttl - {o}) && m == s0.pushed[o]
      modifies this`s, table, table.slots
      ensures Valid() && (table.slots == old(table.slots) || fresh(table.slots))
      ensures Advanced(s0, s, now) && s.active == s0.active && s.start == s0.start && s.read == s0.read
    {
      hide Inv, RepAll, Advanced, Dead;
      AdvancedDrop(s0, Goes(Consume(s, o, Slot(Consumed, m.id, o, 0)), o, true), o, Slot(Consumed, m.id, o, 0), now);
      MarkConsumed(o, m, true);
    }

    /** Delivers the message at this offset if it is eligible, and drops it if it is dead. */
    method LifoTry(o: nat, now: nat, ghost a: S) returns (hit: bool)
      requires Valid() && policy.Lifo? && read <= o < |s.pushed| && Inv(a) && a.hand == {}
      requires Advanced(a, s, now) && s.active == a.active
      modifies this`retained, this`logStart, this`read, this`s, table, table.slots
      ensures Valid() && (table.slots == old(table.slots) || fresh(table.slots))
      ensures hit ==> Taken(a, s, o, now) && Eligible(a, o, now) && s.read !in s.consumed
      ensures !hit ==> Advanced(a, s, now) && s.active == a.active && !Eligible(a, o, now)
      ensures reserved != map[] ==> s.start == old(s.start)
      ensures !hit && reserved == map[] ==> s == old(s) || Tight(s)
    {
      hide Inv, RepAll, Advanced, Taken, Dead, Tight;
      var taken := OffsetTaken(o);
      if taken {
        TakenIsNotEligible(a, s, o, now);
        return false;
      }
      FrontIsReadable(s);
      ReadWorks(o);
      var m := ReadLog(o).value;
      ghost var s0 := s;
      WasWaiting(a, s, o, now);
      var dead := EntryExpired(o, m, now);
      if dead {
        Drop(o, m, s0, now);
        AdvancedTrans(a, s0, s, now);
        ghost var s1 := s;
        CompactConsumed(now);
        AdvancedTrans(a, s1, s, now);
        return false;
      }
      if m.deliverAt > now {
        return false;
      }
      Take(o, m, a, now);
      return true;
    }

    /** Takes a waiting message in hand, and compacts. */
    method Take(o: nat, m: Msg, ghost a: S, ghost now: nat)
      requires Valid() && !policy.Fifo? && Waiting(s, o) && m == s.pushed[o] && Inv(a) && a.hand == {}
      requires Advanced(a, s, now) && s.active == a.active
      modifies this`retained, this`logStart, this`read, this`s, table, table.slots
      ensures Valid() && (table.slots == old(table.slots) || fresh(table.slots))
      ensures Taken(a, s, o, now) && (reserved != map[] ==> s.start == old(s.start)) && s.read !in s.consumed
    {
      hide Inv, RepAll, Advanced, Taken, Dead, Tight;
      var x := Slot(Consumed, m.id, o, 0);
      TakeAfter(a, s, Goes(Consume(s, o, x), o, false), o, x, now);
      MarkConsumed(o, m, false);
      ghost var s1 := s;
      CompactConsumed(now);
      TakenThenAdvanced(a, s1, s, o, now);
    }

    /** Last in, first out: scans from the newest message down. */
    method LifoPop(now: nat) returns (rc: int, o: nat)
      requires Valid() && policy.Lifo? && s.hand == {}
      modifies this`retained, this`logStart, this`read, this`s, table, table.slots
      ensures Valid() && (table.slots == old(table.slots) || fresh(table.slots))
      ensures rc == 0 ==> Taken(old(s), s, o, now) && Best(Lifo, old(s), o, now) && s.read !in s.consumed
      ensures rc != 0 ==> rc == MAYBE_LATER && Advanced(old(s), s, now) && s.active == old(s.active) && Nothing(Lifo, old(s), now)
      ensures reserved != map[] ==> s.start == old(s.start)
      ensures rc != 0 && reserved == map[] ==> Compacted(old(s), s)
    {
      hide Inv, RepAll, Advanced, Taken, Dead, Tight;
      AdvancedSame(s, now);
      FrontIsReadable(s);
      var next := Next();
      o := 0;
      if next == 0 || read >= next {
        NothingWaiting(old(s), s, now);
        return MAYBE_LATER, o;
      }
      o := next - 1;
      while o >= read
        invariant Valid() && o < |old(s).pushed| && Advanced(old(s), s, now) && s.active == old(s.active)
        invariant table.slots == old(table.slots) || fresh(table.slots)
        invariant reserved != map[] ==> s.start == old(s.start)
        invariant reserved == map[] ==> s == old(s) || Tight(s)
        invariant forall p: nat :: Eligible(old(s), p, now) ==> p <= o
        decreases o
      {
        SamePushed(old(s), s, now);
        var hit := LifoTry(o, now, old(s));
        if hit {
          return 0, o;
        }
        if o == 0 {
          break;
        }
        o := o - 1;
      }
      NoneBelow(old(s), s, o, now);
      return MAYBE_LATER, o;
    }

    /** Highest priority first, and of the same priority the oldest. */
    method PriorityPop(now: nat) returns (rc: int, o: nat)
      requires Valid() && policy.Priority? && s.hand == {}
      modifies this`retained, this`logStart, this`read, this`s, table, table.slots
      ensures Valid() && (table.slots == old(table.slots) || fresh(table.slots))
      ensures rc == 0 ==> Taken(old(s), s, o, now) && Best(Priority, old(s), o, now) && s.read !in s.consumed
      ensures rc != 0 ==> rc == MAYBE_LATER && Advanced(old(s), s, now) && s.active == old(s.active) && Nothing(Priority, old(s), now)
      ensures reserved != map[] ==> s.start == old(s.start)
      ensures rc != 0 && reserved == map[] ==> Compacted(old(s), s)
    {
      hide Inv, RepAll, Advanced, Taken, Dead, Tight;
      AdvancedSame(s, now);
      FrontIsReadable(s);
      var found, bestPriority := false, 0;
      o := 0;
      var off := read;
      while off < Next()
        invariant Valid() && read <= off && Advanced(old(s), s, now) && s.active == old(s.active)
        invariant table.slots == old(table.slots) || fresh(table.slots)
        invariant s.start == old(s.start) && s.read == old(s.read)
        invariant found ==> o < off && o < |old(s).pushed| && Eligible(old(s), o, now) && bestPriority == old(s).pushed[o].priority
        invariant forall p: nat :: Eligible(old(s), p, now) && p < off ==> found && Outranks(old(s), o, p)
        decreases Next() - off
      {
        SamePushed(old(s), s, now);
        var eligible, m := PriorityTry(off, now, old(s));
        if eligible && (!found || m.priority > bestPriority || (m.priority == bestPriority && off < o)) {
          o, bestPriority, found := off, m.priority, true;
        }
        off := off + 1;
      }
      SamePushed(old(s), s, now);
      ghost var s1 := s;
      CompactConsumed(now);
      AdvancedTrans(old(s), s1, s, now);
      EligibleStays(old(s), s, now);
      SamePushed(old(s), s, now);
      if !found {
        return MAYBE_LATER, o;
      }
      FrontIsReadable(s);
      ReadWorks(o);
      Take(o, ReadLog(o).value, old(s), now);
      rc := 0;
    }

    /** Whether the message at this offset is eligible; it is dropped if it is dead. */
    method PriorityTry(o: nat, now: nat, ghost a: S) returns (eligible: bool, m: Msg)
      requires Valid() && policy.Priority? && read <= o < |s.pushed| && Inv(a) && Advanced(a, s, now) && s.active == a.active
      modifies this`s, table, table.slots
      ensures Valid() && (table.slots == old(table.slots) || fresh(table.slots))
      ensures Advanced(a, s, now) && s.active == a.active && s.start == old(s.start) && s.read == old(s.read)
      ensures eligible == Eligible(a, o, now) && (eligible ==> m == a.pushed[o])
    {
      hide Inv, RepAll, Advanced, Dead;
      m := Msg(0, 0, 0, 0, 0);
      var taken := OffsetTaken(o);
      if taken {
        TakenIsNotEligible(a, s, o, now);
        return false, m;
      }
      FrontIsReadable(s);
      ReadWorks(o);
      m := ReadLog(o).value;
      ghost var s0 := s;
      WasWaiting(a, s, o, now);
      var dead := EntryExpired(o, m, now);
      if dead {
        Drop(o, m, s0, now);
        AdvancedTrans(a, s0, s, now);
        return false, m;
      }
      eligible := m.deliverAt <= now;
    }

    /** Delivers the message of an active slot again, or drops it if it is dead. */
    method RedeliverTry(i: nat, now: nat, ghost a: S) returns (hit: bool, o: nat)
      requires Valid() && Is(table.slots[..], i, Active) && table.slots[i].visibleAt <= now && Inv(a) && Advanced(a, s, now)
      modifies this`retained, this`logStart, this`read, this`s, table.slots, table
      ensures Valid() && table.slots == old(table.slots)
      ensures hit ==> Redelivered(a, s, o, now, now + visibility)
      ensures !hit ==> Advanced(a, s, now) && Thinned(old(table.slots[..]), table.slots[..]) && table.slots[i] == CLEAR
    {
      hide Inv, RepAll, Advanced, Dead;
      var x := table.slots[i];
      o := x.offset;
      ActiveAt(table.slots[..], Maps(), i);
      ActiveReadable(s, o);
      ReadWorks(o);
      ghost var s0 := s;
      var dead := EntryExpired(o, ReadLog(o).value, now);
      if dead {
        SettleAdvanced(s0, o, now);
        AdvancedTrans(a, s0, Settle(s, o, false), now);
        ClearActive(i, x, false);
        ghost var s1 := s;
        CompactConsumed(now);
        AdvancedTrans(a, s1, s, now);
        return false, o;
      }
      ActiveAt(table.slots[..], Maps(), i);
      RedeliveredAfter(a, s, o, now, now + visibility);
      PostponeInv(s, o, x.(visibleAt := now + visibility));
      table.Change(i, x.(visibleAt := now + visibility), Maps());
      s := s.(active := s.active[o := x.(visibleAt := now + visibility)]);
      hit := true;
    }

    /** Settles a message in flight. */
    method ClearActive(i: nat, x: Slot, ghost ack: bool)
      requires Valid() && i < table.slots.Length && table.slots[i] == x && x.state == Active && x.offset !in s.ttl
      modifies this`s, table.slots
      ensures Valid() && s == Settle(old(s), x.offset, ack) && x.offset in old(s).active
      ensures table.slots[..] == old(table.slots[..])[i := CLEAR]
    {
      hide Inv, RepAll;
      ActiveAt(table.slots[..], Maps(), i);
      SettleInv(s, x.offset, ack);
      table.Clear(i, Maps());
      s := Settle(s, x.offset, ack);
    }

    /** Delivers a message in flight again whose time is up; those found dead are dropped. */
    method Redeliver(now: nat) returns (rc: int, o: nat)
      requires Valid()
      modifies this`retained, this`logStart, this`read, this`s, table, table.slots
      ensures Valid() && table.slots == old(table.slots)
      ensures rc == 0 ==> Redelivered(old(s), s, o, now, now + visibility)
      ensures rc != 0 ==> rc == MAYBE_LATER && Advanced(old(s), s, now) && NoneDue(old(s), now)
    {
      hide Inv, RepAll, Advanced, Dead, Redelivered;
      AdvancedSame(s, now);
      o := 0;
      var i := 0;
      while i < table.slots.Length
        invariant Valid() && table.slots == old(table.slots) && i <= table.slots.Length && Advanced(old(s), s, now)
        invariant forall k :: 0 <= k < i && Is(table.slots[..], k, Active) ==> table.slots[k].visibleAt > now
        decreases table.slots.Length - i
      {
        if table.slots[i].state == Active && table.slots[i].visibleAt <= now {
          var hit;
          hit, o := RedeliverTry(i, now, old(s));
          if hit {
            return 0, o;
          }
        }
        i := i + 1;
      }
      RepOf(table.slots[..], Maps(), Active);
      AllLater(table.slots[..], s.active, now);
      NoneDueBefore(old(s), s, now);
      return MAYBE_LATER, o;
    }

    /** No pop is in progress. */
    ghost predicate AtRest()
      reads this, table, table.slots
    {
      Valid() && s.hand == {} && reserved == map[]
    }

    /** Takes the next message as the policy has it. */
    method PopByPolicy(now: nat) returns (rc: int, o: nat)
      requires Valid() && s.hand == {}
      modifies this`retained, this`logStart, this`read, this`s, table, table.slots
      ensures Valid() && (table.slots == old(table.slots) || fresh(table.slots))
      ensures rc == 0 ==> Taken(old(s), s, o, now) && Best(policy, old(s), o, now) && s.read !in s.consumed
      ensures rc != 0 ==> rc == MAYBE_LATER && Advanced(old(s), s, now) && s.active == old(s.active) && Nothing(policy, old(s), now)
      ensures reserved != map[] ==> s.start == old(s.start)
      ensures rc != 0 && reserved == map[] ==> Compacted(old(s), s)
    {
      hide Inv, RepAll, Advanced, Taken, Best, Nothing, Compacted;
      match policy {
        case Fifo => rc, o := FifoPop(now);
        case Lifo => rc, o := LifoPop(now);
        case Priority => rc, o := PriorityPop(now);
      }
    }

    /** Delivers a message.  A queue that delivers at least once first looks for one in flight that was not acknowledged
        in time; then it takes a fresh one, which stays in flight until it is acknowledged. */
    method Pop(now: nat) returns (rc: int, o: nat)
      requires AtRest()
      modifies this`retained, this`logStart, this`read, this`s, this`reserved, table, table.slots
      ensures AtRest() && (table.slots == old(table.slots) || fresh(table.slots))
      ensures rc == 0 && atLeastOnce ==> Redelivered(old(s), s, o, now, now + visibility) ||
                                         (Delivered(policy, old(s), s, o, now, now + visibility) && s.read !in s.consumed)
      ensures rc == 0 && !atLeastOnce ==> GivenAway(policy, old(s), s, o, now)
      ensures rc != 0 ==> rc == MAYBE_LATER && Advanced(old(s), s, now) && Nothing(policy, old(s), now)
      ensures rc != 0 && atLeastOnce ==> NoneDue(old(s), now)
      ensures rc != 0 ==> if atLeastOnce then Tight(s) else Compacted(old(s), s)
      ensures rc == 0 && !atLeastOnce ==> Tight(s)
    {
      hide Tight, Compacted, Inv, RepAll, Advanced, Taken, Best, Nothing, Delivered, Redelivered, GivenAway, Popped, NoneDue;
      if !atLeastOnce {
        rc, o := PopForGood(now);
        return;
      }
      rc, o := Redeliver(now);
      if rc == 0 {
        RedeliveredHand(old(s), s, o, now, now + visibility);
        return;
      }
      AdvancedHand(old(s), s, now);
      ghost var m := s;
      table.Enter(RESERVATION, Maps());
      reserved := map[0 := RESERVATION];
      rc, o := PopByPolicy(now);
      var r := table.Find(Reserved, 0, None);
      NoneReserved(table.slots[..], Maps(), r);
      if rc == 0 {
        TakenStart(m, s, o, now);
        Keep(r, o, now + visibility, old(s), m, now);
      } else {
        AdvancedHand(m, s, now);
        ghost var s1 := s;
        AdvancedTrans(old(s), m, s1, now);
        Release(r, now);
        AdvancedTrans(old(s), s1, s, now);
        NothingStays(policy, old(s), m, now);
      }
    }

    /** The reservation becomes the message in flight. */
    method Keep(r: nat, o: nat, until: nat, ghost s0: S, ghost m: S, ghost now: nat)
      requires Valid() && reserved == map[0 := RESERVATION] && Is(table.slots[..], r, Reserved) && table.slots[r] == RESERVATION
      requires Inv(s0) && Inv(m) && Advanced(s0, m, now) && NoneDue(s0, now) && Taken(m, s, o, now) && Best(policy, m, o, now)
      requires s.start <= o < |s.pushed| && o !in s.active && s.pushed == s0.pushed
      modifies this`s, this`reserved, table, table.slots
      ensures AtRest() && table.slots == old(table.slots) && Delivered(policy, s0, s, o, now, until)
      ensures s.read == old(s.read) && s.consumed == old(s.consumed)
    {
      hide Inv, RepAll, Advanced, Best, Delivered, NoneDue, Popped;
      ReadWorks(o);
      var x := Slot(Active, ReadLog(o).value.id, o, until);
      HandOverInv(s, o, x);
      DeliveredAfter(policy, s0, m, s, o, x, now);
      table.Change(r, x, Maps());
      s := HandOver(s, o, x);
      reserved := map[];
    }

    /** The reservation is given up. */
    method Release(r: nat, ghost now: nat)
      requires Valid() && reserved == map[0 := RESERVATION] && Is(table.slots[..], r, Reserved) && table.slots[r] == RESERVATION
      requires s.hand == {}
      modifies this`retained, this`logStart, this`read, this`s, this`reserved, table, table.slots
      ensures AtRest() && table.slots == old(table.slots) && Advanced(old(s), s, now) && Tight(s)
    {
      hide Inv, RepAll, Advanced, Tight;
      table.Clear(r, Maps());
      reserved := map[];
      CompactConsumed(now);
      AdvancedHand(old(s), s, now);
    }

    method PopForGood(now: nat) returns (rc: int, o: nat)
      requires AtRest()
      modifies this`retained, this`logStart, this`read, this`s, table, table.slots
      ensures AtRest() && (table.slots == old(table.slots) || fresh(table.slots))
      ensures rc == 0 ==> GivenAway(policy, old(s), s, o, now)
      ensures rc != 0 ==> rc == MAYBE_LATER && Advanced(old(s), s, now) && Nothing(policy, old(s), now)
      ensures if rc == 0 then Tight(s) else Compacted(old(s), s)
    {
      hide Inv, RepAll, Advanced, Best, Nothing, GivenAway, Popped, Tight, Compacted;
      rc, o := PopByPolicy(now);
      if rc != 0 {
        AdvancedHand(old(s), s, now);
        return;
      }
      ghost var t := s;
      ForgetTtl(o);
      GiveInv(s, o);
      s := Give(s, o);
      GivenAfter(policy, old(s), t, s, o, now);
      ghost var m := s;
      CompactConsumed(now);
      AdvancedHand(m, s, now);
      GivenThenAdvanced(policy, old(s), m, s, o, now);
    }

    /** Appends a message; the expiry time of one with a time to live is noted. */
    method Push(m: Msg, now: nat)
      requires AtRest() && m.id != 0 && (forall o :: 0 <= o < |s.pushed| ==> s.pushed[o].id != m.id)
      requires m.timestamp <= now < U64
      modifies this`retained, this`s, table, table.slots
      ensures AtRest() && (table.slots == old(table.slots) || fresh(table.slots))
      ensures s.pushed == old(s.pushed) + [m]
      ensures s == old(s).(pushed := s.pushed, ttl := s.ttl)
      ensures s.ttl == if m.ttl == 0 then old(s.ttl)
                       else old(s.ttl)[|old(s.pushed)| := Slot(Ttl, m.id, |old(s.pushed)|, if now + m.ttl >= U64 then U64 - 1 else now + m.ttl)]
    {
      hide Inv, RepAll;
      var o := Next();
      NoTtlYet(s);
      PushInv(s, m);
      retained := retained + [m];
      s := s.(pushed := s.pushed + [m]);
      if m.ttl != 0 {
        var x := Slot(Ttl, m.id, o, if now + m.ttl >= U64 then U64 - 1 else now + m.ttl);
        TrackTtlInv(s, o, x);
        table.Enter(x, Maps());
        s := s.(ttl := s.ttl[o := x]);
      }
    }

    /** Forgets the expiry time of a message. */
    method ForgetTtl(o: nat)
      requires Valid()
      modifies this`s, table.slots
      ensures Valid() && s == old(s).(ttl := old(s).ttl - {o})
      ensures forall k :: 0 <= k < table.slots.Length && old(table.slots[k]).state != Ttl ==> table.slots[k] == old(table.slots[k])
    {
      hide Inv, RepAll;
      var i := table.Lookup(Ttl, o, Maps());
      if i < table.slots.Length {
        ForgetTtlInv(s, o);
        table.Clear(i, Maps());
        s := s.(ttl := s.ttl - {o});
      } else {
        assert s.ttl - {o} == s.ttl;
      }
    }

    /** The active slot of the message with this id. */
    method FindActive(id: nat) returns (i: nat, ghost o: nat)
      requires Valid() && id != 0
      ensures i <= table.slots.Length
      ensures i < table.slots.Length ==> Is(table.slots[..], i, Active) && table.slots[i].offset == o && o in s.active && HasId(s, o, id)
      ensures i == table.slots.Length ==> forall p :: p in s.active ==> !HasId(s, p, id)
    {
      hide Inv, RepAll;
      i := table.Find(Active, id, None);
      o := 0;
      if i < table.slots.Length {
        o := table.slots[i].offset;
        ActiveAt(table.slots[..], Maps(), i);
        ActiveReadable(s, o);
      } else {
        NotActive(table.slots[..], Maps(), s, id);
      }
    }

    /** Settles the message of an active slot as acknowledged. */
    method Acknowledge(i: nat)
      requires Valid() && Is(table.slots[..], i, Active)
      modifies this`s, table.slots
      ensures Valid() && old(table.slots[i]).offset in old(s).active
      ensures s == Acked(old(s), old(table.slots[i]).offset)
    {
      hide Inv, RepAll;
      var x := table.slots[i];
      ForgetTtl(x.offset);
      ClearActive(i, x, true);
    }

    /** Acknowledges a message in flight. */
    method Ack(id: nat, ghost now: nat) returns (rc: int)
      requires AtRest() && id != 0
      modifies this`retained, this`logStart, this`read, this`s, table, table.slots
      ensures AtRest() && table.slots == old(table.slots)
      ensures rc == 0 <==> InFlight(old(s), id)
      ensures rc == 0 ==> exists o :: o in old(s).active && HasId(old(s), o, id) && Advanced(Acked(old(s), o), s, now) && s.expired == old(s.expired)
      ensures rc != 0 ==> rc == -3 && s == old(s)
      ensures rc == 0 ==> Tight(s)
    {
      hide Inv, RepAll, Advanced, Tight;
      var i;
      ghost var o;
      i, o := FindActive(id);
      if i == table.slots.Length {
        return -3;
      }
      Acknowledge(i);
      ghost var s1 := s;
      CompactConsumed(now);
      AdvancedHand(s1, s, now);
      assert o in old(s).active && HasId(old(s), o, id) && Advanced(Acked(old(s), o), s, now) && s.expired == old(s.expired);
      rc := 0;
    }

    /** Gives a message in flight back, to be delivered again at a given time. */
    method Nack(id: nat, when: nat) returns (rc: int)
      requires AtRest() && id != 0
      modifies this`s, table, table.slots
      ensures AtRest() && table.slots == old(table.slots)
      ensures rc == 0 <==> InFlight(old(s), id)
      ensures rc == 0 ==> exists o :: o in old(s).active && HasId(old(s), o, id) &&
                                      s == old(s).(active := old(s).active[o := old(s).active[o].(visibleAt := when)])
      ensures rc != 0 ==> rc == -3 && s == old(s)
    {
      hide Inv, RepAll;
      var i;
      ghost var o;
      i, o := FindActive(id);
      if i == table.slots.Length {
        return -3;
      }
      var x := table.slots[i];
      ActiveAt(table.slots[..], Maps(), i);
      PostponeInv(s, o, x.(visibleAt := when));
      table.Change(i, x.(visibleAt := when), Maps());
      s := s.(active := s.active[o := x.(visibleAt := when)]);
      rc := 0;
    }

    /** Acknowledges several messages at once, or none of them. */
    method AckBatch(ids: seq<nat>, ghost now: nat) returns (rc: int)
      requires AtRest() && 0 !in ids
      modifies this`retained, this`logStart, this`read, this`s, table, table.slots
      ensures AtRest() && table.slots == old(table.slots)
      ensures rc == 0 <==> (forall id :: id in ids ==> InFlight(old(s), id)) && Distinct(ids)
      ensures rc == 0 ==> exists m :: BatchAcked(old(s), m, ids) && Advanced(m, s, now) && s.expired == m.expired && s.active == m.active
      ensures rc != 0 ==> (rc == -3 || rc == -1) && s == old(s)
      ensures rc == 0 ==> Tight(s)
    {
      hide Inv, RepAll, Advanced, BatchAcked, Tight;
      rc := CheckBatch(ids);
      if rc != 0 {
        return;
      }
      BatchStart(s);
      var i := 0;
      while i < |ids|
        invariant Valid() && table.slots == old(table.slots) && i <= |ids| && BatchAcked(old(s), s, ids[..i])
        invariant reserved == map[] && s.hand == old(s).hand
      {
        BatchGoesOn(old(s), s, ids, i);
        var k;
        ghost var o;
        k, o := FindActive(ids[i]);
        BatchNext(old(s), s, ids, i, o);
        Acknowledge(k);
        i := i + 1;
      }
      assert ids[..i] == ids;
      ghost var m := s;
      CompactConsumed(now);
      AdvancedHand(m, s, now);
    }

    method CheckBatch(ids: seq<nat>) returns (rc: int)
      requires Valid() && 0 !in ids
      ensures rc == 0 || rc == -1 || rc == -3
      ensures rc == 0 <==> (forall id :: id in ids ==> InFlight(s, id)) && Distinct(ids)
    {
      hide Inv, RepAll;
      var i := 0;
      while i < |ids|
        invariant i <= |ids| && (forall k :: 0 <= k < i ==> InFlight(s, ids[k])) && (forall k, l :: 0 <= k < l < i ==> ids[k] != ids[l])
      {
        var k;
        ghost var o;
        k, o := FindActive(ids[i]);
        if k == table.slots.Length {
          assert !InFlight(s, ids[i]);
          return -3;
        }
        assert InFlight(s, ids[i]);
        var j := 0;
        while j < i
          invariant j <= i && forall k :: 0 <= k < j ==> ids[k] != ids[i]
        {
          if ids[j] == ids[i] {
            return -1;
          }
          j := j + 1;
        }
        i := i + 1;
      }
      rc := 0;
    }

    lemma InvAtRest()
      requires AtRest()
      ensures Inv(s) && s.hand == {}
    {
    }

    /** Any operation. */
    method Perform(op: Op) returns (rc: int, o: nat)
      requires AtRest() && OpOk(s.pushed, op)
      modifies this`retained, this`logStart, this`read, this`s, this`reserved, table, table.slots
      ensures AtRest() && (table.slots == old(table.slots) || fresh(table.slots))
      ensures StepOf(policy, atLeastOnce, visibility, old(s), op, rc, o, s) && Forward(old(s), s)
      ensures s.pushed == old(s).pushed + PushedBy(op)
    {
      hide Valid, Delivered, GivenAway, Redelivered, Nothing, Advanced, BatchAcked, HasId, NoneDue, InFlight, Inv;
      o := 0;
      rc := 0;
      InvAtRest();
      match op {
        case Push(m, now) => Push(m, now);
        case Pop(now) => rc, o := Pop(now);
        case Ack(id, now) => rc := Ack(id, now);
        case Nack(id, when) => rc := Nack(id, when);
        case AckBatch(ids, now) => rc := AckBatch(ids, now);
      }
      StepPushes(policy, atLeastOnce, visibility, old(s), op, rc, o, s);
      InvAtRest();
      StepForward(policy, atLeastOnce, visibility, old(s), op, rc, o, s);
    }

    /** A run of operations; the history of the queue is recorded. */
    method Replay(ops: seq<Op>) returns (outs: seq<(int, nat)>, ghost states: seq<S>)
      requires AtRest() && OpsOk(s.pushed, ops)
      modifies this`retained, this`logStart, this`read, this`s, this`reserved, table, table.slots
      ensures AtRest() && (table.slots == old(table.slots) || fresh(table.slots))
      ensures |states| == |ops| + 1 && |outs| == |ops| && states[0] == old(s) && states[|ops|] == s
      ensures IsRun(policy, atLeastOnce, visibility, states, ops, outs)
    {
      hide RepAll, StepOf, Inv, OpOk, Forward;
      states := [s];
      if ops == [] {
        return [], states;
      }
      var rc, o := Perform(ops[0]);
      var outs1;
      ghost var states1;
      outs1, states1 := Replay(ops[1..]);
      states := states + states1;
      outs := [(rc, o)] + outs1;
      RunExtends(policy, atLeastOnce, visibility, states, ops, outs);
    }
  }

  ghost predicate InFlight(s: S, id: nat) {
    exists o :: o in s.active && HasId(s, o, id)
  }

  /** Exactly the messages in flight with these ids were acknowledged. */
  ghost predicate BatchAcked(s: S, s': S, ids: seq<nat>) {
    s'.pushed == s.pushed && s'.expired == s.expired && s'.given == s.given && s'.hand == s.hand && s'.read == s.read &&
    (forall o :: Waiting(s', o) <==> Waiting(s, o)) &&
    (forall o :: o in s'.ttl <==> o in s.ttl && o !in s'.acked) && (forall o :: o in s'.ttl ==> s'.ttl[o] == s.ttl[o]) &&
    (forall o :: o in s'.active <==> o in s.active && !(o < |s.pushed| && s.pushed[o].id in ids)) &&
    (forall o :: o in s'.active ==> s'.active[o] == s.active[o]) &&
    (forall o :: o in s'.acked <==> o in s.acked || (o in s.active && o < |s.pushed| && s.pushed[o].id in ids))
  }

  lemma BatchStart(s: S)
    requires Inv(s)
    ensures BatchAcked(s, s, [])
  {
  }

  lemma BatchGoesOn(s: S, m: S, ids: seq<nat>, i: nat)
    requires i < |ids| && BatchAcked(s, m, ids[..i]) && Distinct(ids) && InFlight(s, ids[i])
    ensures InFlight(m, ids[i])
  {
    var o :| o in s.active && HasId(s, o, ids[i]);
    assert ids[i] !in ids[..i];
    assert o in m.active && HasId(m, o, ids[i]);
  }

  lemma BatchNext(s: S, m: S, ids: seq<nat>, i: nat, o: nat)
    requires i < |ids| && Inv(s) && Inv(m) && BatchAcked(s, m, ids[..i]) && o in m.active && HasId(m, o, ids[i])
    ensures BatchAcked(s, Acked(m, o), ids[..i + 1])
  {
    assert ids[..i + 1] == ids[..i] + [ids[i]];
    forall p: nat | p < |s.pushed| && s.pushed[p].id == ids[i]
      ensures p == o
    {
      SameId(s, p, o, ids[i]);
    }
  }

  function Acked(s: S, o: nat): S {
    Settle(s.(ttl := s.ttl - {o}), o, true)
  }

  lemma NotActive(slots: seq<Slot>, m: Inflight.Maps, s: S, id: nat)
    requires RepAll(slots, m) && m.active == s.active && Inv(s) && id != 0
    requires forall k :: 0 <= k < |slots| ==> !Matches(slots[k], Active, id, None)
    ensures forall p :: p in s.active ==> !HasId(s, p, id)
  {
    forall p | p in s.active
      ensures !HasId(s, p, id)
    {
      assert Occurs(slots, Active, p);
      var k :| Is(slots, k, Active) && slots[k].offset == p;
      assert !Matches(slots[k], Active, id, None);
    }
  }

  const RESERVATION: Slot := Slot(Reserved, 0, 0, 0)

  lemma AdvancedHand(a: S, b: S, now: nat)
    requires Advanced(a, b, now)
    ensures b.hand == a.hand && b.pushed == a.pushed
  {
  }

  lemma RedeliveredHand(a: S, b: S, o: nat, now: nat, until: nat)
    requires Redelivered(a, b, o, now, until)
    ensures b.hand == a.hand
  {
  }

  lemma NoTtlYet(s: S)
    requires Inv(s)
    ensures |s.pushed| !in s.ttl && s.start <= |s.pushed|
  {
  }

  /** Some slots were cleared, and nothing else changed. */
  predicate Thinned(slots: seq<Slot>, slots': seq<Slot>) {
    |slots'| == |slots| && forall i :: 0 <= i < |slots| ==> slots'[i] == slots[i] || slots'[i] == CLEAR
  }

  lemma ActiveAt(slots: seq<Slot>, m: Inflight.Maps, i: nat)
    requires RepAll(slots, m) && Is(slots, i, Active)
    ensures slots[i].offset in m.active && m.active[slots[i].offset] == slots[i]
  {
  }

  lemma ActiveReadable(s: S, o: nat)
    requires Inv(s) && o in s.active
    ensures s.start <= o < |s.pushed| && s.active[o].msgId == s.pushed[o].id
  {
  }

  lemma AllLater(slots: seq<Slot>, active: map<nat, Slot>, now: nat)
    requires Rep(slots, Active, active)
    requires forall k :: Is(slots, k, Active) ==> slots[k].visibleAt > now
    ensures forall o :: o in active ==> active[o].visibleAt > now
  {
    forall o | o in active
      ensures active[o].visibleAt > now
    {
      assert Occurs(slots, Active, o);
    }
  }

  lemma OldestActive(slots: seq<Slot>, active: map<nat, Slot>, trimTo: nat)
    requires Rep(slots, Active, active)
    requires forall k :: Is(slots, k, Active) ==> trimTo <= slots[k].offset
    ensures forall o :: o in active ==> trimTo <= o
  {
    forall o | o in active
      ensures trimTo <= o
    {
      assert Occurs(slots, Active, o);
    }
  }

  lemma NoneReserved(slots: seq<Slot>, m: Inflight.Maps, i: nat)
    requires RepAll(slots, m) && i <= |slots| && (i < |slots| ==> Matches(slots[i], Reserved, 0, None))
    requires forall k :: 0 <= k < i ==> !Matches(slots[k], Reserved, 0, None)
    ensures i < |slots| <==> m.reserved != map[]
    ensures i < |slots| ==> Is(slots, i, Reserved) && slots[i].offset in m.reserved && m.reserved[slots[i].offset] == slots[i]
  {
    if i < |slots| {
      assert Is(slots, i, Reserved);
    } else {
      assert forall k :: Is(slots, k, Reserved) ==> !Matches(slots[k], Reserved, 0, None);
      NoSlots(slots, Reserved, m.reserved);
    }
  }

  lemma ReadBound(s: S)
    requires Inv(s) && s.read in s.consumed
    ensures s.read < |s.pushed|
  {
  }

  lemma TrimKeeps(s: S, trimTo: nat, start: nat)
    requires Inv(s) && Keeps(s, trimTo) && (start <= trimTo || start == s.start)
    ensures Inv(s.(start := start))
  {
    hide Conserved, Bookkeeping, Ids;
    assert Keeps(s, start);
    TrimInv(s, start);
  }

  lemma SamePushed(a: S, b: S, now: nat)
    requires Advanced(a, b, now)
    ensures b.pushed == a.pushed
  {
  }

  lemma FrontIsReadable(s: S)
    requires Inv(s)
    ensures s.start <= s.read <= |s.pushed|
  {
  }

  lemma WasWaiting(a: S, b: S, o: nat, now: nat)
    requires Inv(b) && Advanced(a, b, now) && Waiting(b, o)
    ensures Waiting(a, o) && Dead(a, o, now) == Dead(b, o, now) && a.pushed == b.pushed
  {
    assert o !in b.expired;
    DeadStays(a, b, now, o);
  }

  lemma FrontNotDue(s: S, o: nat, now: nat)
    requires Waiting(s, o) && !Dead(s, o, now) && !Due(s, o, now) && forall p: nat :: Waiting(s, p) && p < o ==> Dead(s, p, now)
    ensures Nothing(Fifo, s, now)
  {
  }

  lemma NothingWaiting(a: S, b: S, now: nat)
    requires Inv(a) && Advanced(a, b, now) && b.read >= |b.pushed|
    ensures Nothing(Fifo, a, now)
  {
    EligibleStays(a, b, now);
  }

  /** What was taken is not waiting. */
  lemma TakenIsNotEligible(a: S, b: S, o: nat, now: nat)
    requires Inv(a) && Inv(b) && Advanced(a, b, now) && (o in b.consumed || o in b.active)
    ensures !Eligible(a, o, now)
  {
    EligibleStays(a, b, now);
  }

  /** Nothing that is eligible lies before the read position. */
  lemma NoneBelow(a: S, b: S, o: nat, now: nat)
    requires Inv(a) && Advanced(a, b, now) && (o < b.read || o == 0)
    requires forall p: nat :: Eligible(a, p, now) ==> p <= o
    requires o == 0 && o >= b.read ==> !Eligible(a, o, now)
    ensures Nothing(Lifo, a, now)
  {
    EligibleStays(a, b, now);
  }

  // ---- runs ----

  datatype Op = Push(m: Msg, now: nat) | Pop(now: nat) | Ack(id: nat, now: nat) | Nack(id: nat, when: nat) | AckBatch(ids: seq<nat>, now: nat)

  /** Ids are distinct and not zero, and a message is stamped before it is pushed. */
  predicate OpOk(pushed: seq<Msg>, op: Op) {
    match op
    case Push(m, now) => m.id != 0 && (forall o :: 0 <= o < |pushed| ==> pushed[o].id != m.id) && m.timestamp <= now < U64
    case Pop(now) => true
    case Ack(id, now) => id != 0
    case Nack(id, when) => id != 0
    case AckBatch(ids, now) => 0 !in ids
  }

  function PushedBy(op: Op): seq<Msg> {
    if op.Push? then [op.m] else []
  }

  predicate OpsOk(pushed: seq<Msg>, ops: seq<Op>)
    decreases |ops|
  {
    ops == [] || (OpOk(pushed, ops[0]) && OpsOk(pushed + PushedBy(ops[0]), ops[1..]))
  }

  /** The expiry time that a push notes. */
  function Noted(m: Msg, o: nat, now: nat): Slot {
    Slot(Ttl, m.id, o, if now + m.ttl >= U64 then U64 - 1 else now + m.ttl)
  }

  /** What a pop that finds nothing leaves: the log is compacted, or the message in front waits for its time, or there was
      nothing to do. */
  ghost predicate Compacted(s: S, s': S) {
    Tight(s') || Waiting(s', s'.read) || s' == s
  }

  /** What an operation may do. */
  ghost predicate StepOf(policy: Policy, atLeastOnce: bool, visibility: nat, s: S, op: Op, rc: int, o: nat, s': S) {
    match op
    case Push(m, now) =>
      rc == 0 && s'.pushed == s.pushed + [m] && s' == s.(pushed := s'.pushed, ttl := s'.ttl) &&
      s'.ttl == if m.ttl == 0 then s.ttl else s.ttl[|s.pushed| := Noted(m, |s.pushed|, now)]
    case Pop(now) =>
      if rc != 0 then
        Advanced(s, s', now) && Nothing(policy, s, now) && if atLeastOnce then NoneDue(s, now) && Tight(s') else Compacted(s, s')
      else if !atLeastOnce then GivenAway(policy, s, s', o, now) && Tight(s')
      else Redelivered(s, s', o, now, now + visibility) ||
           (Delivered(policy, s, s', o, now, now + visibility) && s'.read !in s'.consumed)
    case Ack(id, now) =>
      (rc == 0 <==> InFlight(s, id)) &&
      if rc != 0 then s' == s
      else Tight(s') && exists p :: p in s.active && HasId(s, p, id) && Advanced(Acked(s, p), s', now) && s'.expired == s.expired
    case Nack(id, when) =>
      (rc == 0 <==> InFlight(s, id)) &&
      if rc != 0 then s' == s
      else exists p :: p in s.active && HasId(s, p, id) && s' == s.(active := s.active[p := s.active[p].(visibleAt := when)])
    case AckBatch(ids, now) =>
      (rc == 0 <==> (forall id :: id in ids ==> InFlight(s, id)) && Distinct(ids)) &&
      if rc != 0 then s' == s
      else Tight(s') && exists m :: BatchAcked(s, m, ids) && Advanced(m, s', now) && s'.expired == m.expired && s'.active == m.active
  }

  /** What an operation may do to the log and the read position: both only move forward; the log is trimmed no further
      than the read position and the oldest message in flight allow, and only what was taken is marked as taken. */
  ghost predicate Forward(s: S, s': S) {
    s.read <= s'.read <= |s'.pushed| && (s'.start == s.start || Keeps(s', s'.start)) &&
    forall o :: o in s'.consumed ==> s'.read <= o && (o in s.consumed || Waiting(s, o))
  }

  ghost predicate StepAt(policy: Policy, atLeastOnce: bool, visibility: nat, states: seq<S>, ops: seq<Op>, outs: seq<(int, nat)>, i: nat)
    requires |states| == |ops| + 1 == |outs| + 1
  {
    i < |ops| && OpOk(states[i].pushed, ops[i]) && Forward(states[i], states[i + 1]) &&
    StepOf(policy, atLeastOnce, visibility, states[i], ops[i], outs[i].0, outs[i].1, states[i + 1])
  }

  /** A run starts in good order, for instance with an empty queue; every step does what its operation may do. */
  ghost predicate IsRun(policy: Policy, atLeastOnce: bool, visibility: nat, states: seq<S>, ops: seq<Op>, outs: seq<(int, nat)>) {
    |states| == |ops| + 1 == |outs| + 1 && Inv(states[0]) && states[0].hand == {} &&
    forall i: nat :: i < |ops| ==> StepAt(policy, atLeastOnce, visibility, states, ops, outs, i)
  }

  lemma RunExtends(policy: Policy, atLeastOnce: bool, visibility: nat, states: seq<S>, ops: seq<Op>, outs: seq<(int, nat)>)
    requires |states| == |ops| + 1 == |outs| + 1 && ops != []
    requires IsRun(policy, atLeastOnce, visibility, states[1..], ops[1..], outs[1..])
    requires Inv(states[0]) && states[0].hand == {} && OpOk(states[0].pushed, ops[0]) && Forward(states[0], states[1])
    requires StepOf(policy, atLeastOnce, visibility, states[0], ops[0], outs[0].0, outs[0].1, states[1])
    ensures IsRun(policy, atLeastOnce, visibility, states, ops, outs)
  {
    hide StepOf, Inv, Forward, OpOk;
    forall i: nat | i < |ops|
      ensures StepAt(policy, atLeastOnce, visibility, states, ops, outs, i)
    {
      if i > 0 { assert StepAt(policy, atLeastOnce, visibility, states[1..], ops[1..], outs[1..], i - 1); }
    }
  }

  /** What the tables and the log show before and after. */
  lemma StepForward(policy: Policy, atLeastOnce: bool, visibility: nat, s: S, op: Op, rc: int, o: nat, s': S)
    requires Inv(s) && Inv(s') && StepOf(policy, atLeastOnce, visibility, s, op, rc, o, s')
    ensures Forward(s, s')
  {
    hide Dead, Nothing, NoneDue, Best, Waiting, Conserved, Ids;
    assert s.read <= s'.read;
    assert op.Push? || s'.pushed == s.pushed;
    ConsumedWasWaiting(s, s');
  }

  lemma ConsumedWasWaiting(s: S, s': S)
    requires Bookkeeping(s') && s.read <= s'.read && (s'.pushed == s.pushed || (s'.consumed == s.consumed && s'.read == s.read))
    ensures forall o :: o in s'.consumed ==> o in s.consumed || Waiting(s, o)
  {
  }

  // ---- every step keeps the invariant ----

  lemma PushKeeps(s: S, m: Msg, now: nat, s': S)
    requires Inv(s) && OpOk(s.pushed, Push(m, now)) && s'.pushed == s.pushed + [m]
    requires s' == s.(pushed := s'.pushed, ttl := if m.ttl == 0 then s.ttl else s.ttl[|s.pushed| := Noted(m, |s.pushed|, now)])
    ensures Inv(s')
  {
    PushInv(s, m);
    if m.ttl != 0 { TrackTtlInv(s.(pushed := s.pushed + [m]), |s.pushed|, Noted(m, |s.pushed|, now)); }
  }

  lemma AdvancedKeeps(s: S, s': S, now: nat)
    requires Inv(s) && s.hand == {} && Advanced(s, s', now) && Forward(s, s')
    ensures Inv(s') && s'.hand == {}
  {
  }

  lemma RedeliveredKeeps(s: S, s': S, o: nat, now: nat, until: nat)
    requires Inv(s) && s.hand == {} && Redelivered(s, s', o, now, until) && Forward(s, s')
    ensures Inv(s') && s'.hand == {}
  {
    var m := s'.(active := s'.active[o := s.active[o]]);
    AdvancedKeeps(s, m, now);
    PostponeInv(m, o, s'.active[o]);
    assert m.active[o := s'.active[o]] == s'.active;
    assert m.(active := s'.active) == s';
  }

  lemma DeliveredKeeps(policy: Policy, s: S, s': S, o: nat, now: nat, until: nat)
    requires Inv(s) && s.hand == {} && Delivered(policy, s, s', o, now, until) && Forward(s, s')
    ensures Inv(s') && s'.hand == {}
  {
    hide Dead, Conserved, NoneDue;
    DeliveredConserved(policy, s, s', o, now, until);
  }

  lemma DeliveredConserved(policy: Policy, s: S, s': S, o: nat, now: nat, until: nat)
    requires Inv(s) && s.hand == {} && Delivered(policy, s, s', o, now, until)
    ensures Conserved(s')
  {
    hide Dead, Ids, NoneDue;
  }

  lemma GivenKeeps(policy: Policy, s: S, s': S, o: nat, now: nat)
    requires Inv(s) && s.hand == {} && GivenAway(policy, s, s', o, now) && Forward(s, s')
    ensures Inv(s') && s'.hand == {}
  {
    hide Dead;
  }

  lemma NackKeeps(s: S, s': S, p: nat, when: nat)
    requires Inv(s) && s.hand == {} && p in s.active && s' == s.(active := s.active[p := s.active[p].(visibleAt := when)])
    ensures Inv(s') && s'.hand == {}
  {
    PostponeInv(s, p, s.active[p].(visibleAt := when));
  }

  lemma AckKeeps(s: S, s': S, p: nat, now: nat)
    requires Inv(s) && s.hand == {} && p in s.active && Advanced(Acked(s, p), s', now) && Forward(s, s')
    ensures Inv(s') && s'.hand == {}
  {
    ForgetTtlInv(s, p);
    SettleInv(s.(ttl := s.ttl - {p}), p, true);
    AdvancedKeeps(Acked(s, p), s', now);
  }

  lemma BatchKeeps(s: S, m: S, s': S, ids: seq<nat>, now: nat)
    requires Inv(s) && s.hand == {} && BatchAcked(s, m, ids) && Advanced(m, s', now) && Forward(s, s')
    requires s'.expired == m.expired && s'.active == m.active
    ensures Inv(s') && s'.hand == {}
  {
    hide Dead, Conserved;
    BatchConserved(s, m, s', ids, now);
  }

  lemma BatchConserved(s: S, m: S, s': S, ids: seq<nat>, now: nat)
    requires Inv(s) && BatchAcked(s, m, ids) && Advanced(m, s', now) && s'.expired == m.expired && s'.active == m.active
    ensures Conserved(s')
  {
    hide Dead, Ids;
  }

  lemma StepKeeps(policy: Policy, atLeastOnce: bool, visibility: nat, s: S, op: Op, rc: int, o: nat, s': S)
    requires Inv(s) && s.hand == {} && OpOk(s.pushed, op) && Forward(s, s')
    requires StepOf(policy, atLeastOnce, visibility, s, op, rc, o, s')
    ensures Inv(s') && s'.hand == {}
  {
    hide Inv, Advanced, Redelivered, Delivered, GivenAway, BatchAcked, Forward, Nothing, NoneDue, InFlight, HasId;
    match op {
      case Push(m, now) => PushKeeps(s, m, now, s');
      case Pop(now) =>
        if rc != 0 {
          AdvancedKeeps(s, s', now);
        } else if !atLeastOnce {
          GivenKeeps(policy, s, s', o, now);
        } else if Redelivered(s, s', o, now, now + visibility) {
          RedeliveredKeeps(s, s', o, now, now + visibility);
        } else {
          DeliveredKeeps(policy, s, s', o, now, now + visibility);
        }
      case Ack(id, now) =>
        if rc == 0 {
          var p :| p in s.active && HasId(s, p, id) && Advanced(Acked(s, p), s', now) && s'.expired == s.expired;
          AckKeeps(s, s', p, now);
        }
      case Nack(id, when) =>
        if rc == 0 {
          var p :| p in s.active && HasId(s, p, id) && s' == s.(active := s.active[p := s.active[p].(visibleAt := when)]);
          NackKeeps(s, s', p, when);
        }
      case AckBatch(ids, now) =>
        if rc == 0 {
          var m :| BatchAcked(s, m, ids) && Advanced(m, s', now) && s'.expired == m.expired && s'.active == m.active;
          BatchKeeps(s, m, s', ids, now);
        }
    }
  }

  /** The invariant holds in every state of every run. */
  lemma {:induction false} InvOfRun(policy: Policy, atLeastOnce: bool, visibility: nat, states: seq<S>, ops: seq<Op>, outs: seq<(int, nat)>, i: nat)
    requires IsRun(policy, atLeastOnce, visibility, states, ops, outs) && i <= |ops|
    ensures Inv(states[i]) && states[i].hand == {}
  {
    hide StepOf, Inv, Forward, OpOk;
    if i > 0 {
      InvOfRun(policy, atLeastOnce, visibility, states, ops, outs, i - 1);
      assert StepAt(policy, atLeastOnce, visibility, states, ops, outs, i - 1);
      StepKeeps(policy, atLeastOnce, visibility, states[i - 1], ops[i - 1], outs[i - 1].0, outs[i - 1].1, states[i]);
    }
  }

  // ---- what holds of every run ----

  lemma StepPushes(policy: Policy, atLeastOnce: bool, visibility: nat, s: S, op: Op, rc: int, o: nat, s': S)
    requires StepOf(policy, atLeastOnce, visibility, s, op, rc, o, s')
    ensures s'.pushed == s.pushed + PushedBy(op)
  {
    hide Waiting, Dead, Best, Nothing, NoneDue;
    if op.Push? {
    } else {
      assert s'.pushed == s.pushed;
    }
  }

  /** History only grows, and what is settled is not delivered. */
  lemma HistoryGrows(policy: Policy, atLeastOnce: bool, visibility: nat, s: S, op: Op, rc: int, o: nat, s': S)
    requires Inv(s) && Inv(s') && StepOf(policy, atLeastOnce, visibility, s, op, rc, o, s')
    ensures s.acked <= s'.acked && s.expired <= s'.expired && s.given <= s'.given
    ensures op.Pop? && rc == 0 ==> !Settled(s, o) && (if atLeastOnce then o in s'.active else o in s'.given)
  {
    hide Dead, Nothing, NoneDue;
  }

  lemma {:induction false} HistoryOfRun(policy: Policy, atLeastOnce: bool, visibility: nat, states: seq<S>, ops: seq<Op>, outs: seq<(int, nat)>,
                                        i: nat, j: nat)
    requires IsRun(policy, atLeastOnce, visibility, states, ops, outs) && i <= j <= |ops|
    ensures states[i].acked <= states[j].acked && states[i].expired <= states[j].expired && states[i].given <= states[j].given
    decreases j - i
  {
    hide StepOf, Inv;
    if i < j {
      InvOfRun(policy, atLeastOnce, visibility, states, ops, outs, i);
      InvOfRun(policy, atLeastOnce, visibility, states, ops, outs, i + 1);
      assert StepAt(policy, atLeastOnce, visibility, states, ops, outs, i);
      HistoryGrows(policy, atLeastOnce, visibility, states[i], ops[i], outs[i].0, outs[i].1, states[i + 1]);
      HistoryOfRun(policy, atLeastOnce, visibility, states, ops, outs, i + 1, j);
    }
  }

  /** In every run, nothing that was acknowledged, found expired or given away for good is ever delivered again. */
  lemma NeverAgain(policy: Policy, atLeastOnce: bool, visibility: nat, states: seq<S>, ops: seq<Op>, outs: seq<(int, nat)>, i: nat, j: nat)
    requires IsRun(policy, atLeastOnce, visibility, states, ops, outs) && i <= j < |ops| && ops[j].Pop? && outs[j].0 == 0
    ensures !Settled(states[i], outs[j].1)
  {
    hide StepOf, Inv;
    InvOfRun(policy, atLeastOnce, visibility, states, ops, outs, j);
    InvOfRun(policy, atLeastOnce, visibility, states, ops, outs, j + 1);
    assert StepAt(policy, atLeastOnce, visibility, states, ops, outs, j);
    HistoryGrows(policy, atLeastOnce, visibility, states[j], ops[j], outs[j].0, outs[j].1, states[j + 1]);
    HistoryOfRun(policy, atLeastOnce, visibility, states, ops, outs, i, j);
  }

  /** A queue that delivers at most once delivers no message twice. */
  lemma AtMostOnce(policy: Policy, visibility: nat, states: seq<S>, ops: seq<Op>, outs: seq<(int, nat)>, i: nat, j: nat)
    requires IsRun(policy, false, visibility, states, ops, outs) && i < j < |ops|
    requires ops[i].Pop? && outs[i].0 == 0 && ops[j].Pop? && outs[j].0 == 0
    ensures outs[i].1 != outs[j].1
  {
    hide StepOf, Inv;
    InvOfRun(policy, false, visibility, states, ops, outs, i);
    InvOfRun(policy, false, visibility, states, ops, outs, i + 1);
    assert StepAt(policy, false, visibility, states, ops, outs, i);
    HistoryGrows(policy, false, visibility, states[i], ops[i], outs[i].0, outs[i].1, states[i + 1]);
    NeverAgain(policy, false, visibility, states, ops, outs, i + 1, j);
  }

  /** In every state of every run each message is in exactly one place: waiting, in flight, acknowledged, dropped
      because it expired, or given away; and the log still has the first two kinds. */
  lemma NothingIsLost(policy: Policy, atLeastOnce: bool, visibility: nat, states: seq<S>, ops: seq<Op>, outs: seq<(int, nat)>, i: nat, o: nat)
    requires IsRun(policy, atLeastOnce, visibility, states, ops, outs) && i <= |ops| && o < |states[i].pushed|
    ensures var s := states[i];
            var places := [Waiting(s, o), o in s.active, o in s.acked, o in s.expired, o in s.given];
            (exists k :: 0 <= k < 5 && places[k]) && (forall k, l :: 0 <= k < l < 5 ==> !(places[k] && places[l])) &&
            (places[0] || places[1] ==> s.start <= o)
  {
    hide StepOf, Ids, Bookkeeping, Forward, OpOk;
    InvOfRun(policy, atLeastOnce, visibility, states, ops, outs, i);
    var s := states[i];
    var places := [Waiting(s, o), o in s.active, o in s.acked, o in s.expired, o in s.given];
    assert places[0] || places[1] || places[2] || places[3] || places[4];
  }

  /** Only pops drop messages, and none before its time to live has passed since it was stamped. */
  lemma DroppedIsOld(policy: Policy, atLeastOnce: bool, visibility: nat, s: S, op: Op, rc: int, o: nat, s': S, p: nat)
    requires Inv(s) && StepOf(policy, atLeastOnce, visibility, s, op, rc, o, s') && p in s'.expired && p !in s.expired
    ensures op.Pop? && p < |s.pushed| && s.pushed[p].ttl != 0 && OwnExpiry(s.pushed[p]) <= op.now
  {
    hide Inv, Nothing, NoneDue, Best, Waiting, InFlight, OwnExpiry;
    assert op.Pop?;
    assert p < |s.pushed| && Dead(s, p, op.now);
    DeadIsOld(s, p, op.now);
  }

  /** In every run, a message that was dropped had outlived its time to live at the time of some pop. */
  lemma {:induction false} NoneExpiresEarly(policy: Policy, atLeastOnce: bool, visibility: nat, states: seq<S>, ops: seq<Op>, outs: seq<(int, nat)>,
                                            j: nat, p: nat)
    requires IsRun(policy, atLeastOnce, visibility, states, ops, outs) && j <= |ops| && p in states[j].expired && p !in states[0].expired
    ensures exists i :: 0 <= i < j && ops[i].Pop? && p < |states[i].pushed| && states[i].pushed[p].ttl != 0 &&
                        OwnExpiry(states[i].pushed[p]) <= ops[i].now
  {
    hide StepOf, Inv, Forward, OpOk, OwnExpiry;
    if p in states[j - 1].expired {
      NoneExpiresEarly(policy, atLeastOnce, visibility, states, ops, outs, j - 1, p);
    } else {
      InvOfRun(policy, atLeastOnce, visibility, states, ops, outs, j - 1);
      assert StepAt(policy, atLeastOnce, visibility, states, ops, outs, j - 1);
      DroppedIsOld(policy, atLeastOnce, visibility, states[j - 1], ops[j - 1], outs[j - 1].0, outs[j - 1].1, states[j], p);
    }
  }

  /** The log does not grow for ever: in every run from an empty queue, whenever nothing waits and nothing is in flight, the
      log holds no message and the table no mark and no expiry time. */
  lemma {:induction false} NothingIsKept(policy: Policy, atLeastOnce: bool, visibility: nat, states: seq<S>, ops: seq<Op>, outs: seq<(int, nat)>, i: nat)
    requires IsRun(policy, atLeastOnce, visibility, states, ops, outs) && i <= |ops|
    requires Idle(states[0]) ==> Emptied(states[0])
    ensures Idle(states[i]) ==> Emptied(states[i])
  {
    hide StepOf, Inv, Forward, OpOk, Idle, Emptied;
    if i > 0 {
      NothingIsKept(policy, atLeastOnce, visibility, states, ops, outs, i - 1);
      InvOfRun(policy, atLeastOnce, visibility, states, ops, outs, i - 1);
      InvOfRun(policy, atLeastOnce, visibility, states, ops, outs, i);
      assert StepAt(policy, atLeastOnce, visibility, states, ops, outs, i - 1);
      StepClears(policy, atLeastOnce, visibility, states[i - 1], ops[i - 1], outs[i - 1].0, outs[i - 1].1, states[i]);
    }
  }

  lemma StepClears(policy: Policy, atLeastOnce: bool, visibility: nat, s: S, op: Op, rc: int, o: nat, s': S)
    requires Inv(s) && Inv(s') && s'.hand == {} && StepOf(policy, atLeastOnce, visibility, s, op, rc, o, s') && (Idle(s) ==> Emptied(s))
    ensures Idle(s') ==> Emptied(s')
  {
    hide Inv, Advanced, GivenAway, BatchAcked, Nothing, NoneDue, InFlight, HasId, Emptied;
    if Idle(s') {
      if Tight(s') {
        TightIsEmptied(s');
      } else {
        assert !Waiting(s', s'.read);
        if op.Push? {
          PushedWaits(s, s');
          assert false;
        } else {
          assert s' == s;
        }
      }
    }
  }

  lemma PushedWaits(s: S, s': S)
    requires Inv(s) && |s'.pushed| > |s.pushed| && s'.read == s.read && s'.consumed == s.consumed
    ensures Waiting(s', |s.pushed|)
  {
  }
}
