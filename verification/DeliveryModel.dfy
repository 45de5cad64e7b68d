/** What delivery is about, without the tables: every message pushed is waiting, in flight, or settled, and is one of
    these only. */
module DeliveryModel {
  import opened Bytes
  import opened Inflight

  /** A message of the log; the log keeps it until it is trimmed. */
  datatype Msg = Msg(id: nat, priority: nat, deliverAt: nat, timestamp: nat, ttl: nat)

  datatype Policy = Fifo | Lifo | Priority

  /** `pushed`: all messages, by offset.  `start`: the first offset still in the log.  `read`: everything before it was
      taken from the queue.  `consumed`: what was taken beyond.  `active`: in flight, not yet acknowledged.  `ttl`:
      expiry times.  `acked`, `expired` and `given` are history: what was acknowledged, found expired, or given away
      for good.  `hand` is the message that a pop in progress has taken. */
  datatype S = S(pushed: seq<Msg>, start: nat, read: nat,
                 consumed: map<nat, Slot>, active: map<nat, Slot>, ttl: map<nat, Slot>,
                 acked: set<nat>, expired: set<nat>, given: set<nat>, hand: set<nat>)

  /** Not yet taken from the queue. */
  predicate Waiting(s: S, o: nat) {
    s.read <= o < |s.pushed| && o !in s.consumed
  }

  predicate Settled(s: S, o: nat) {
    o in s.acked || o in s.expired || o in s.given
  }

  /** The time at which a message without a slot of its own expires; never, if it has no time to live. */
  function OwnExpiry(m: Msg): nat {
    if m.timestamp + m.ttl >= U64 then U64 - 1 else m.timestamp + m.ttl
  }

  /** The message is to be dropped instead of delivered. */
  predicate Dead(s: S, o: nat, now: nat)
    requires o < |s.pushed|
  {
    if o in s.ttl then s.ttl[o].visibleAt <= now
    else s.pushed[o].ttl != 0 && OwnExpiry(s.pushed[o]) <= now
  }

  /** That is, once the noted time has come, or, without a note, once the time to live has passed since the time stamp or the
      64-bit clock is at its end. */
  lemma DeadMeans(s: S, o: nat, now: nat)
    requires o < |s.pushed|
    ensures Dead(s, o, now) <==>
      if o in s.ttl then s.ttl[o].visibleAt <= now
      else s.pushed[o].ttl != 0 && (s.pushed[o].timestamp + s.pushed[o].ttl <= now || 0xFFFF_FFFF_FFFF_FFFF <= now)
  {
  }

  predicate Due(s: S, o: nat, now: nat)
    requires o < |s.pushed|
  {
    s.pushed[o].deliverAt <= now
  }

  /** Free to be delivered. */
  predicate Eligible(s: S, o: nat, now: nat) {
    Waiting(s, o) && !Dead(s, o, now) && Due(s, o, now)
  }

  /** Every message is in exactly one place. */
  ghost predicate Conserved(s: S) {
    forall o: nat :: o < |s.pushed| ==>
      (Waiting(s, o) ==> o !in s.active && !Settled(s, o) && o !in s.hand) &&
      (o in s.active ==> !Settled(s, o) && o !in s.hand) && (Settled(s, o) ==> o !in s.hand) &&
      !(o in s.acked && o in s.expired) && !(o in s.acked && o in s.given) && !(o in s.expired && o in s.given) &&
      (Waiting(s, o) || o in s.active || Settled(s, o) || o in s.hand)
  }

  /** Nothing that is waiting or in flight was trimmed. */
  ghost predicate Readable(s: S) {
    s.start <= s.read <= |s.pushed| &&
    forall o :: o in s.active ==> s.start <= o < |s.pushed| && s.active[o].msgId == s.pushed[o].id
  }

  ghost predicate Bookkeeping(s: S) {
    (forall o :: o in s.consumed ==> s.read <= o < |s.pushed|) &&
    (forall o :: o in s.acked || o in s.expired || o in s.given || o in s.hand ==> o < |s.pushed|) &&
    (forall o :: o in s.ttl ==> o < |s.pushed| && s.ttl[o].msgId == s.pushed[o].id &&
                                OwnExpiry(s.pushed[o]) <= s.ttl[o].visibleAt && s.pushed[o].ttl != 0)
  }

  /** Ids are distinct, and none is the wildcard 0. */
  ghost predicate Ids(s: S) {
    (forall o :: 0 <= o < |s.pushed| ==> s.pushed[o].id != 0) &&
    forall o, p :: 0 <= o < |s.pushed| && 0 <= p < |s.pushed| && s.pushed[o].id == s.pushed[p].id ==> o == p
  }

  /** Expiry times are kept only of messages that are not settled yet. */
  ghost predicate NotesLive(s: S) {
    forall o :: o in s.ttl ==> !Settled(s, o)
  }

  ghost predicate Inv(s: S) {
    Conserved(s) && Readable(s) && Bookkeeping(s) && NotesLive(s) && Ids(s)
  }

  // ---- the elementary changes ----

  /** The front of the queue was consumed before; its mark is no longer needed. */
  function SkipOne(s: S): S
    requires s.read in s.consumed
  {
    s.(consumed := s.consumed - {s.read}, read := s.read + 1)
  }

  lemma SkipOneInv(s: S)
    requires Inv(s) && s.read in s.consumed
    ensures Inv(SkipOne(s)) && forall o :: Waiting(SkipOne(s), o) <==> Waiting(s, o)
  {
  }

  /** The oldest offset that must stay in the log. */
  ghost predicate Keeps(s: S, start: nat) {
    start <= s.read && forall o :: o in s.active ==> start <= o
  }

  /** The queue has skipped what was consumed in front, and the log starts with a message that is still needed, or is
      empty. */
  ghost predicate Tight(s: S) {
    s.read !in s.consumed && (s.start == |s.pushed| || Waiting(s, s.start) || s.start in s.active)
  }

  /** Once trimmed up to the oldest message needed, it is. */
  lemma TrimmedIsTight(s: S, start: nat)
    requires Inv(s) && s.read !in s.consumed && Keeps(s, start) && (start == s.read || start in s.active)
    ensures s.start <= start <= |s.pushed| && Tight(s.(start := start))
  {
  }

  /** Nothing waits and nothing is in flight. */
  ghost predicate Idle(s: S) {
    s.active == map[] && forall o :: !Waiting(s, o)
  }

  /** The log holds no message, and no message has a mark or an expiry time. */
  ghost predicate Emptied(s: S) {
    s.start == s.read == |s.pushed| && s.consumed == map[] && s.ttl == map[]
  }

  lemma TightIsEmptied(s: S)
    requires Inv(s) && Tight(s) && Idle(s) && s.hand == {}
    ensures Emptied(s)
  {
    assert forall o: nat :: o < |s.pushed| ==> Settled(s, o);
    assert s.read < |s.pushed| ==> Waiting(s, s.read);
  }

  lemma TrimInv(s: S, start: nat)
    requires Inv(s) && Keeps(s, start)
    ensures Inv(s.(start := start))
  {
  }

  /** A message is taken out of the waiting ones, at the front or beyond it. */
  function TakeFront(s: S): S {
    s.(read := s.read + 1)
  }

  function Consume(s: S, o: nat, x: Slot): S {
    s.(consumed := s.consumed[o := x])
  }

  /** What becomes of a message that was taken out: it is dropped, or delivered. */
  function Goes(s: S, o: nat, dies: bool): S {
    if dies then s.(expired := s.expired + {o}) else s.(hand := s.hand + {o})
  }

  lemma TakeFrontInv(s: S, dies: bool)
    requires Inv(s) && Waiting(s, s.read) && (dies ==> s.read !in s.ttl)
    ensures Inv(Goes(TakeFront(s), s.read, dies))
  {
  }

  lemma ConsumeInv(s: S, o: nat, x: Slot, dies: bool)
    requires Inv(s) && Waiting(s, o) && (dies ==> o !in s.ttl)
    ensures Inv(Goes(Consume(s, o, x), o, dies))
  {
  }

  /** The message in hand goes to the consumer: to be acknowledged, or for good. */
  function HandOver(s: S, o: nat, x: Slot): S {
    s.(active := s.active[o := x], hand := s.hand - {o})
  }

  function Give(s: S, o: nat): S {
    s.(given := s.given + {o}, hand := s.hand - {o})
  }

  lemma HandOverInv(s: S, o: nat, x: Slot)
    requires Inv(s) && o in s.hand && s.start <= o && x.msgId == s.pushed[o].id
    ensures Inv(HandOver(s, o, x))
  {
  }

  lemma GiveInv(s: S, o: nat)
    requires Inv(s) && o in s.hand && o !in s.ttl
    ensures Inv(Give(s, o))
  {
  }

  /** A message in flight is acknowledged, or found expired. */
  function Settle(s: S, o: nat, ack: bool): S {
    if ack then s.(active := s.active - {o}, acked := s.acked + {o})
    else s.(active := s.active - {o}, expired := s.expired + {o})
  }

  lemma SettleInv(s: S, o: nat, ack: bool)
    requires Inv(s) && o in s.active && o !in s.ttl
    ensures Inv(Settle(s, o, ack))
  {
  }

  lemma ForgetTtlInv(s: S, o: nat)
    requires Inv(s)
    ensures Inv(s.(ttl := s.ttl - {o}))
  {
  }

  lemma PostponeInv(s: S, o: nat, x: Slot)
    requires Inv(s) && o in s.active && x.msgId == s.active[o].msgId
    ensures Inv(s.(active := s.active[o := x]))
  {
  }

  lemma PushInv(s: S, m: Msg)
    requires Inv(s) && m.id != 0 && forall o :: 0 <= o < |s.pushed| ==> s.pushed[o].id != m.id
    ensures Inv(s.(pushed := s.pushed + [m])) && !Settled(s, |s.pushed|)
  {
    var s' := s.(pushed := s.pushed + [m]);
    forall o: nat | o < |s'.pushed|
      ensures Waiting(s', o) <==> Waiting(s, o) || o == |s.pushed|
    {
    }
  }

  lemma TrackTtlInv(s: S, o: nat, x: Slot)
    requires Inv(s) && o < |s.pushed| && !Settled(s, o) && x.msgId == s.pushed[o].id && s.pushed[o].ttl != 0 && OwnExpiry(s.pushed[o]) <= x.visibleAt
    ensures Inv(s.(ttl := s.ttl[o := x]))
  {
  }

  // ---- what may happen while a message is looked for ----

  /** From `s` to `s'` nothing was delivered: messages found dead were dropped, waiting ones or ones in flight that
      were due again, and nothing else changed but bookkeeping. */
  ghost predicate Advanced(s: S, s': S, now: nat) {
    s'.pushed == s.pushed && s'.acked == s.acked && s'.given == s.given && s'.hand == s.hand && s.expired <= s'.expired &&
    s.read <= s'.read &&
    (forall o :: o in s'.expired && o !in s.expired ==>
      o < |s.pushed| && (Waiting(s, o) || (o in s.active && s.active[o].visibleAt <= now)) && Dead(s, o, now)) &&
    (forall o :: Waiting(s', o) <==> Waiting(s, o) && o !in s'.expired) &&
    (forall o :: o in s'.active <==> o in s.active && o !in s'.expired) &&
    (forall o :: o in s'.active ==> s'.active[o] == s.active[o]) &&
    SameTtl(s, s')
  }

  /** Expiry times are forgotten of messages that are dropped, and of no others. */
  ghost predicate SameTtl(s: S, s': S) {
    (forall o :: o in s'.ttl <==> o in s.ttl && o !in s'.expired) && (forall o :: o in s'.ttl ==> s'.ttl[o] == s.ttl[o])
  }

  /** A message that is dead has outlived its time to live. */
  lemma DeadIsOld(s: S, o: nat, now: nat)
    requires Inv(s) && o < |s.pushed| && Dead(s, o, now)
    ensures s.pushed[o].ttl != 0 && OwnExpiry(s.pushed[o]) <= now
  {
  }

  lemma AdvancedSame(s: S, now: nat)
    requires Inv(s)
    ensures Advanced(s, s, now)
  {
  }

  lemma DeadStays(s: S, s': S, now: nat, o: nat)
    requires Advanced(s, s', now) && o < |s.pushed| && o !in s'.expired
    ensures Dead(s', o, now) == Dead(s, o, now)
  {
  }

  lemma AdvancedTrans(a: S, b: S, c: S, now: nat)
    requires Advanced(a, b, now) && Advanced(b, c, now) && Inv(b)
    ensures Advanced(a, c, now)
  {
    forall o | o in c.expired && o !in b.expired
      ensures o < |a.pushed| && (Waiting(a, o) || (o in a.active && a.active[o].visibleAt <= now)) && Dead(a, o, now)
    {
      assert o !in b.expired;
      DeadStays(a, b, now, o);
    }
  }

  /** Skipping and trimming are bookkeeping. */
  lemma AdvancedSkip(s: S, now: nat)
    requires Inv(s) && s.read in s.consumed
    ensures Advanced(s, SkipOne(s), now)
  {
  }

  lemma AdvancedTrim(s: S, start: nat, now: nat)
    requires Inv(s)
    ensures Advanced(s, s.(start := start), now)
  {
  }

  /** A waiting message is dropped because it is dead. */
  lemma AdvancedDrop(s: S, s': S, o: nat, x: Slot, now: nat)
    requires Inv(s) && Waiting(s, o) && Dead(s, o, now)
    requires s' == Goes(Consume(s.(ttl := s.ttl - {o}), o, x), o, true) ||
             (o == s.read && s' == Goes(TakeFront(s.(ttl := s.ttl - {o})), o, true))
    ensures Advanced(s, s', now)
  {
  }

  // ---- taking a message ----

  /** From `s` to `s'` one waiting message was taken in hand, and dead ones were dropped. */
  ghost predicate Taken(s: S, s': S, o: nat, now: nat) {
    Waiting(s, o) && s.hand == {} && s'.hand == {o} && o !in s'.expired &&
    s'.pushed == s.pushed && s'.acked == s.acked && s'.given == s.given && s.expired <= s'.expired && s.read <= s'.read &&
    (forall p :: p in s'.expired && p !in s.expired ==> Waiting(s, p) && Dead(s, p, now)) &&
    (forall p :: Waiting(s', p) <==> Waiting(s, p) && p !in s'.expired && p != o) &&
    s'.active == s.active && SameTtl(s, s')
  }

  lemma TakeAfter(s: S, m: S, s': S, o: nat, x: Slot, now: nat)
    requires Inv(m) && Advanced(s, m, now) && m.active == s.active && s.hand == {} && Waiting(m, o)
    requires s' == Goes(Consume(m, o, x), o, false) || (o == m.read && s' == Goes(TakeFront(m), o, false))
    ensures Taken(s, s', o, now)
  {
    forall p | p in s'.expired && p !in s.expired
      ensures Waiting(s, p)
    {
      assert p !in s.active;
    }
  }

  lemma TakenThenAdvanced(s: S, m: S, s': S, o: nat, now: nat)
    requires Inv(m) && Taken(s, m, o, now) && Advanced(m, s', now) && s'.expired == m.expired && s'.active == m.active && s'.ttl == m.ttl
    ensures Taken(s, s', o, now)
  {
  }

  /** The first message in the queue that is not dead. */
  ghost predicate FirstAlive(s: S, o: nat, now: nat) {
    Waiting(s, o) && !Dead(s, o, now) && forall p: nat :: Waiting(s, p) && p < o ==> Dead(s, p, now)
  }

  /** Higher priority goes first, and of the same priority the older message. */
  predicate Outranks(s: S, o: nat, p: nat)
    requires o < |s.pushed| && p < |s.pushed|
  {
    s.pushed[p].priority < s.pushed[o].priority || (s.pushed[p].priority == s.pushed[o].priority && o <= p)
  }

  /** What each policy is to deliver. */
  ghost predicate Best(policy: Policy, s: S, o: nat, now: nat) {
    Eligible(s, o, now) &&
    match policy
    case Fifo => FirstAlive(s, o, now)
    case Lifo => forall p: nat :: Eligible(s, p, now) ==> p <= o
    case Priority => forall p: nat :: Eligible(s, p, now) ==> Outranks(s, o, p)
  }

  /** There is nothing to deliver: first in, first out waits for the message in front to become due. */
  ghost predicate Nothing(policy: Policy, s: S, now: nat) {
    forall o :: Eligible(s, o, now) ==> policy.Fifo? && !FirstAlive(s, o, now)
  }

  lemma EligibleStays(s: S, s': S, now: nat)
    requires Inv(s) && Advanced(s, s', now)
    ensures forall o: nat :: Waiting(s, o) && !Waiting(s', o) ==> Dead(s, o, now)
    ensures forall o: nat :: Eligible(s', o, now) <==> Eligible(s, o, now)
  {
    forall o: nat | Waiting(s, o)
      ensures !Waiting(s', o) ==> o in s'.expired && o !in s.expired
      ensures o !in s'.expired ==> Dead(s', o, now) == Dead(s, o, now)
    {
      if o !in s'.expired { DeadStays(s, s', now, o); }
    }
  }

  // ---- in flight again ----

  lemma SettleAdvanced(s: S, o: nat, now: nat)
    requires Inv(s) && o in s.active && s.active[o].visibleAt <= now && Dead(s, o, now)
    ensures Advanced(s, Settle(s.(ttl := s.ttl - {o}), o, false), now)
  {
  }

  /** A message in flight that nobody acknowledged in time is delivered once more, and invisible until `until`. */
  ghost predicate Redelivered(s: S, s': S, o: nat, now: nat, until: nat) {
    o in s.active && s.active[o].visibleAt <= now && o < |s.pushed| && !Dead(s, o, now) &&
    o in s'.active && s'.active[o] == s.active[o].(visibleAt := until) &&
    Advanced(s, s'.(active := s'.active[o := s.active[o]]), now)
  }

  lemma RedeliveredAfter(s: S, m: S, o: nat, now: nat, until: nat)
    requires Inv(s) && Inv(m) && Advanced(s, m, now) && o in m.active && m.active[o].visibleAt <= now && !Dead(m, o, now)
    ensures Redelivered(s, m.(active := m.active[o := m.active[o].(visibleAt := until)]), o, now, until)
  {
    DeadStays(s, m, now, o);
    var s' := m.(active := m.active[o := m.active[o].(visibleAt := until)]);
    assert s'.active[o := s.active[o]] == m.active;
    assert s'.(active := m.active) == m;
  }

  /** Nothing in flight is to be delivered again. */
  ghost predicate NoneDue(s: S, now: nat) {
    forall o :: o in s.active && s.active[o].visibleAt <= now ==> o < |s.pushed| && Dead(s, o, now)
  }

  lemma NoneDueBefore(s: S, s': S, now: nat)
    requires Inv(s) && Advanced(s, s', now) && forall o :: o in s'.active ==> s'.active[o].visibleAt > now
    ensures NoneDue(s, now)
  {
    forall o | o in s.active && s.active[o].visibleAt <= now
      ensures o < |s.pushed| && Dead(s, o, now)
    {
      assert o in s'.expired && o !in s.expired;
    }
  }

  // ---- the whole of a pop ----

  /** What a pop does besides delivering `o`: dead messages are dropped, and nothing else changes. */
  ghost predicate Popped(s: S, s': S, o: nat, now: nat) {
    s'.pushed == s.pushed && s'.acked == s.acked && s'.hand == {} && s.expired <= s'.expired && o !in s'.expired &&
    s.read <= s'.read && (forall p :: p in s'.ttl <==> p in s.ttl && !Settled(s', p)) &&
    (forall p :: p in s'.ttl ==> s'.ttl[p] == s.ttl[p]) &&
    (forall p :: p in s'.expired && p !in s.expired ==>
      p < |s.pushed| && (Waiting(s, p) || (p in s.active && s.active[p].visibleAt <= now)) && Dead(s, p, now)) &&
    (forall p :: Waiting(s', p) <==> Waiting(s, p) && p !in s'.expired && p != o) &&
    (forall p :: p != o ==> (p in s'.active <==> p in s.active && p !in s'.expired) && (p in s'.active ==> s'.active[p] == s.active[p]))
  }

  /** A message fresh from the queue goes to a consumer who will acknowledge it. */
  ghost predicate Delivered(policy: Policy, s: S, s': S, o: nat, now: nat, until: nat) {
    Popped(s, s', o, now) && Best(policy, s, o, now) && NoneDue(s, now) && s'.given == s.given &&
    o !in s.active && o in s'.active && s'.active[o] == Slot(Active, s.pushed[o].id, o, until)
  }

  /** A message goes to its consumer for good. */
  ghost predicate GivenAway(policy: Policy, s: S, s': S, o: nat, now: nat) {
    Popped(s, s', o, now) && Best(policy, s, o, now) && s'.given == s.given + {o} && o !in s.given && s'.active == s.active
  }

  /** Messages that are not dead keep their rank. */
  lemma BestStays(policy: Policy, s: S, m: S, o: nat, now: nat)
    requires Inv(s) && Advanced(s, m, now) && Best(policy, m, o, now)
    ensures Best(policy, s, o, now)
  {
    EligibleStays(s, m, now);
    if policy.Fifo? {
      forall p: nat | Waiting(s, p) && p < o
        ensures Dead(s, p, now)
      {
        if Waiting(m, p) { DeadStays(s, m, now, p); }
      }
    }
  }

  lemma NothingStays(policy: Policy, s: S, m: S, now: nat)
    requires Inv(s) && Advanced(s, m, now) && Nothing(policy, m, now)
    ensures Nothing(policy, s, now)
  {
    EligibleStays(s, m, now);
    forall o | Eligible(s, o, now)
      ensures policy.Fifo? && !FirstAlive(s, o, now)
    {
      assert Eligible(m, o, now);
      if FirstAlive(s, o, now) {
        forall p: nat | Waiting(m, p) && p < o
          ensures Dead(m, p, now)
        {
          DeadStays(s, m, now, p);
        }
        assert FirstAlive(m, o, now);
      }
    }
  }

  lemma DeliveredAfter(policy: Policy, s: S, m: S, t: S, o: nat, x: Slot, now: nat)
    requires Inv(s) && Inv(m) && Inv(t) && Advanced(s, m, now) && NoneDue(s, now) && Taken(m, t, o, now) && Best(policy, m, o, now)
    requires x == Slot(Active, s.pushed[o].id, o, x.visibleAt)
    ensures Delivered(policy, s, HandOver(t, o, x), o, now, x.visibleAt)
  {
    BestStays(policy, s, m, o, now);
    TakenIsPopped(s, m, t, HandOver(t, o, x), o, now);
  }

  lemma TakenIsPopped(s: S, m: S, t: S, s': S, o: nat, now: nat)
    requires Inv(s) && Inv(m) && Advanced(s, m, now) && Taken(m, t, o, now)
    requires s'.pushed == t.pushed && s'.acked == t.acked && s'.expired == t.expired && s'.hand == {}
    requires s'.read == t.read && s'.consumed == t.consumed
    requires (s'.given == t.given && s'.ttl == t.ttl) || (s'.given == t.given + {o} && s'.ttl == t.ttl - {o})
    requires forall p :: p != o ==> (p in s'.active <==> p in t.active) && (p in s'.active ==> s'.active[p] == t.active[p])
    ensures Popped(s, s', o, now)
  {
    hide Waiting, Dead, Conserved, Readable, Bookkeeping, Ids, SameTtl;
    assert forall p :: Waiting(s', p) <==> Waiting(t, p) by { SameWaiting(s', t); }
    TtlShrinks(s, m, t);
    forall p | p in t.expired && p !in m.expired
      ensures p !in m.active
    {
      WaitingIsPushed(m, p);
    }
    forall p | p in s'.expired && p !in s.expired
      ensures p < |s.pushed| && (Waiting(s, p) || (p in s.active && s.active[p].visibleAt <= now)) && Dead(s, p, now)
    {
      if p !in m.expired {
        WaitingIsPushed(m, p);
        DeadStays(s, m, now, p);
      }
    }
  }

  lemma SameWaiting(s: S, t: S)
    requires s.read == t.read && s.consumed == t.consumed && s.pushed == t.pushed
    ensures forall p :: Waiting(s, p) <==> Waiting(t, p)
  {
  }

  lemma WaitingIsPushed(s: S, p: nat)
    requires Inv(s) && Waiting(s, p)
    ensures p < |s.pushed| && p !in s.active
  {
  }

  lemma TtlShrinks(s: S, m: S, t: S)
    requires SameTtl(s, m) && SameTtl(m, t) && m.expired <= t.expired
    ensures forall p :: p in t.ttl <==> p in s.ttl && p !in t.expired
    ensures forall p :: p in t.ttl ==> t.ttl[p] == s.ttl[p]
  {
  }

  lemma GivenAfter(policy: Policy, s: S, t: S, s': S, o: nat, now: nat)
    requires Inv(s) && Inv(t) && Taken(s, t, o, now) && Best(policy, s, o, now)
    requires s' == Give(t, o).(ttl := t.ttl - {o})
    ensures GivenAway(policy, s, s', o, now)
  {
    AdvancedSame(s, now);
    TakenIsPopped(s, s, t, s', o, now);
  }

  lemma GivenThenAdvanced(policy: Policy, s: S, m: S, s': S, o: nat, now: nat)
    requires Inv(m) && GivenAway(policy, s, m, o, now) && Advanced(m, s', now) && s'.expired == m.expired && s'.active == m.active
    ensures GivenAway(policy, s, s', o, now)
  {
  }

  /** The message with this id. */
  ghost predicate HasId(s: S, o: nat, id: nat) {
    o < |s.pushed| && s.pushed[o].id == id
  }

  lemma SameId(s: S, o: nat, p: nat, id: nat)
    requires Inv(s) && HasId(s, o, id) && HasId(s, p, id)
    ensures o == p
  {
  }

  lemma TakenStart(s: S, t: S, o: nat, now: nat)
    requires Inv(s) && Inv(t) && Taken(s, t, o, now) && t.start == s.start
    ensures t.start <= o < |t.pushed| && t.pushed == s.pushed && o !in t.active
  {
  }
}
