/** Multisets of the timers that lie in the slots of a wheel. */
module TimerBags {
  datatype Timer = Timer(deadline: nat, cookie: int)

  type Row = seq<seq<Timer>>

  ghost function RowBag(row: Row): multiset<Timer> {
    if row == [] then multiset{} else multiset(row[0]) + RowBag(row[1..])
  }

  ghost function Bag(rows: seq<Row>): multiset<Timer> {
    if rows == [] then multiset{} else RowBag(rows[0]) + Bag(rows[1..])
  }

  lemma SwapAround(a: multiset<Timer>, b: multiset<Timer>, c: multiset<Timer>, d: multiset<Timer>, e: multiset<Timer>)
    requires a + b == c + d
    ensures (e + a) + b == (e + c) + d
  {
    calc {
      (e + a) + b;
      e + (a + b);
      e + (c + d);
      (e + c) + d;
    }
  }

  lemma Difference(a: multiset<Timer>, b: multiset<Timer>, c: multiset<Timer>)
    requires a + b == c + multiset{}
    ensures a == c - b
  {
    forall t
      ensures a[t] == (c - b)[t]
    {
      assert (a + b)[t] == (c + multiset{})[t];
    }
  }

  lemma CancelCommon(a: multiset<Timer>, b: multiset<Timer>, c: multiset<Timer>, common: multiset<Timer>)
    requires a + common == b + (c + common)
    ensures a == b + c
  {
    forall t
      ensures a[t] == (b + c)[t]
    {
      assert (a + common)[t] == (b + (c + common))[t];
    }
  }

  lemma {:induction false} RowBagUpdate(row: Row, i: nat, list: seq<Timer>)
    requires i < |row|
    ensures RowBag(row[i := list]) + multiset(row[i]) == RowBag(row) + multiset(list)
  {
    var row' := row[i := list];
    if i == 0 {
      assert row'[1..] == row[1..];
    } else {
      RowBagUpdate(row[1..], i - 1, list);
      assert row'[1..] == row[1..][i - 1 := list];
      SwapAround(RowBag(row'[1..]), multiset(row[i]), RowBag(row[1..]), multiset(list), multiset(row[0]));
    }
  }

  /** Replacing one slot changes the bag by exactly the difference of the two lists. */
  lemma {:induction false} BagUpdate(rows: seq<Row>, level: nat, i: nat, list: seq<Timer>)
    requires level < |rows| && i < |rows[level]|
    ensures Bag(rows[level := rows[level][i := list]]) + multiset(rows[level][i]) == Bag(rows) + multiset(list)
  {
    var rows' := rows[level := rows[level][i := list]];
    if level == 0 {
      RowBagUpdate(rows[0], i, list);
      assert rows'[1..] == rows[1..];
      SwapAround(RowBag(rows'[0]), multiset(rows[0][i]), RowBag(rows[0]), multiset(list), Bag(rows[1..]));
      assert Bag(rows') == Bag(rows[1..]) + RowBag(rows'[0]);
      assert Bag(rows) == Bag(rows[1..]) + RowBag(rows[0]);
    } else {
      BagUpdate(rows[1..], level - 1, i, list);
      assert rows'[1..] == rows[1..][level - 1 := rows[1..][level - 1][i := list]];
      SwapAround(Bag(rows'[1..]), multiset(rows[level][i]), Bag(rows[1..]), multiset(list), RowBag(rows[0]));
    }
  }

  lemma {:induction false} RowBagMember(row: Row, t: Timer)
    ensures t in RowBag(row) <==> exists i :: 0 <= i < |row| && t in row[i]
  {
    if row != [] {
      RowBagMember(row[1..], t);
      if t in RowBag(row[1..]) {
        var i :| 0 <= i < |row[1..]| && t in row[1..][i];
        assert t in row[i + 1];
      }
      if i :| 0 < i < |row| && t in row[i] {
        assert t in row[1..][i - 1];
      }
    }
  }

  /** A timer is in the bag exactly when it is in some slot. */
  lemma {:induction false} BagMember(rows: seq<Row>, t: Timer)
    ensures t in Bag(rows) <==> exists l, i :: 0 <= l < |rows| && 0 <= i < |rows[l]| && t in rows[l][i]
  {
    if rows != [] {
      RowBagMember(rows[0], t);
      BagMember(rows[1..], t);
      if t in Bag(rows[1..]) {
        var l, i :| 0 <= l < |rows[1..]| && 0 <= i < |rows[1..][l]| && t in rows[1..][l][i];
        assert t in rows[l + 1][i];
      }
      if l, i :| 0 < l < |rows| && 0 <= i < |rows[l]| && t in rows[l][i] {
        assert t in rows[1..][l - 1][i];
      }
    }
  }

  lemma {:induction false} EmptyRowBag(row: Row)
    requires forall i :: 0 <= i < |row| ==> row[i] == []
    ensures RowBag(row) == multiset{}
  {
    if row != [] {
      EmptyRowBag(row[1..]);
    }
  }

  lemma {:induction false} EmptyBag(rows: seq<Row>)
    requires forall l, i :: 0 <= l < |rows| && 0 <= i < |rows[l]| ==> rows[l][i] == []
    ensures Bag(rows) == multiset{}
  {
    if rows != [] {
      EmptyRowBag(rows[0]);
      EmptyBag(rows[1..]);
    }
  }

  /** The list without the timers that carry `cookie`. */
  function Drop(list: seq<Timer>, cookie: int): seq<Timer> {
    if list == [] then []
    else if list[0].cookie == cookie then Drop(list[1..], cookie)
    else [list[0]] + Drop(list[1..], cookie)
  }

  lemma {:induction false} DropIsWithout(list: seq<Timer>, cookie: int)
    ensures IsWithout(multiset(Drop(list, cookie)), multiset(list), cookie)
    ensures Drop(list, cookie) == list <==> forall t :: t in list ==> t.cookie != cookie
  {
    if list != [] {
      assert list == [list[0]] + list[1..];
      DropIsWithout(list[1..], cookie);
    }
  }

  lemma {:induction false} DropIsShort(list: seq<Timer>, cookie: int)
    ensures |Drop(list, cookie)| <= |list|
  {
    if list != [] { DropIsShort(list[1..], cookie); }
  }

  lemma {:induction false} SameLengthMeansUntouched(list: seq<Timer>, cookie: int)
    ensures |Drop(list, cookie)| == |list| <==> Drop(list, cookie) == list
  {
    if list != [] {
      SameLengthMeansUntouched(list[1..], cookie);
      DropIsShort(list[1..], cookie);
    }
  }

  lemma {:induction false} DropAppend(list: seq<Timer>, t: Timer, cookie: int)
    ensures Drop(list + [t], cookie) == if t.cookie == cookie then Drop(list, cookie) else Drop(list, cookie) + [t]
  {
    if list == [] {
      assert list + [t] == [t];
    } else {
      DropAppend(list[1..], t, cookie);
      assert (list + [t])[1..] == list[1..] + [t];
    }
  }

  /** The part of a bag that `cancel(cookie)` leaves behind: the rest of the bag, timer by timer. */
  ghost predicate IsWithout(after: multiset<Timer>, before: multiset<Timer>, cookie: int) {
    forall t :: after[t] == if t.cookie == cookie then 0 else before[t]
  }

  /** One of the first `n` slots of the row holds a timer with the cookie. */
  ghost predicate RowHit(row: Row, n: nat, cookie: int) {
    exists i :: 0 <= i < n && i < |row| && Drop(row[i], cookie) != row[i]
  }

  /** One of the first `n` levels holds a timer with the cookie. */
  ghost predicate Hit(rows: seq<Row>, n: nat, cookie: int) {
    exists l :: 0 <= l < n && l < |rows| && RowHit(rows[l], |rows[l]|, cookie)
  }

  /** Some slot holds a timer with the cookie exactly when the bag does. */
  lemma HitMeansMember(rows: seq<Row>, cookie: int)
    ensures Hit(rows, |rows|, cookie) <==> exists t :: t in Bag(rows) && t.cookie == cookie
  {
    if Hit(rows, |rows|, cookie) {
      var l :| 0 <= l < |rows| && RowHit(rows[l], |rows[l]|, cookie);
      var i :| 0 <= i < |rows[l]| && Drop(rows[l][i], cookie) != rows[l][i];
      DropIsWithout(rows[l][i], cookie);
      var t :| t in rows[l][i] && t.cookie == cookie;
      BagMember(rows, t);
    }
    if t :| t in Bag(rows) && t.cookie == cookie {
      BagMember(rows, t);
      var l, i :| 0 <= l < |rows| && 0 <= i < |rows[l]| && t in rows[l][i];
      DropIsWithout(rows[l][i], cookie);
      assert RowHit(rows[l], |rows[l]|, cookie);
    }
  }

  lemma {:induction false} RowBagDrop(row: Row, row': Row, cookie: int)
    requires |row'| == |row| && forall i :: 0 <= i < |row| ==> row'[i] == Drop(row[i], cookie)
    ensures IsWithout(RowBag(row'), RowBag(row), cookie)
  {
    if row != [] {
      DropIsWithout(row[0], cookie);
      RowBagDrop(row[1..], row'[1..], cookie);
    }
  }

  lemma {:induction false} BagDrop(rows: seq<Row>, rows': seq<Row>, cookie: int)
    requires |rows'| == |rows|
    requires forall l :: 0 <= l < |rows| ==> |rows'[l]| == |rows[l]|
    requires forall l, i :: 0 <= l < |rows| && 0 <= i < |rows[l]| ==> rows'[l][i] == Drop(rows[l][i], cookie)
    ensures IsWithout(Bag(rows'), Bag(rows), cookie)
  {
    if rows != [] {
      RowBagDrop(rows[0], rows'[0], cookie);
      BagDrop(rows[1..], rows'[1..], cookie);
    }
  }
}

/** What the wheel is for, without slots or levels: a clock and a bag of timers. */
module FlatTimers {
  import opened Arith
  import opened WheelMath
  import opened TimerBags

  datatype Flat = Flat(clock: nat, pending: multiset<Timer>)

  datatype Op = Schedule(deadline: nat, cookie: int) | Cancel(cookie: int) | Tick(now: nat)

  /** Where a clock that moves in whole ticks stands once it has caught up with `now`. */
  function ClockAfter(clock: nat, tick: nat, now: nat): nat
    requires tick > 0
  {
    if now < clock then clock else clock + ((now - clock) / tick) * tick
  }

  /** The tick, counted from `clock`, at which a timer goes off: the first one that reaches its deadline. */
  function FireTick(clock: nat, tick: nat, t: Timer): nat
    requires tick > 0
  {
    Max(DueTick(clock, tick, t.deadline), 1)
  }

  ghost predicate InFiringOrder(clock: nat, tick: nat, calls: seq<Timer>)
    requires tick > 0
  {
    forall i, j :: 0 <= i < j < |calls| ==> FireTick(clock, tick, calls[i]) <= FireTick(clock, tick, calls[j])
  }

  /** One operation on the flat set.  A tick call that advances the clock fires exactly what is due by then. */
  ghost predicate FlatStep(tick: nat, before: Flat, op: Op, after: Flat, calls: seq<Timer>)
    requires tick > 0
  {
    match op
    case Schedule(deadline, cookie) =>
      calls == [] && after.clock == before.clock && after.pending == before.pending + multiset{Timer(deadline, cookie)}
    case Cancel(cookie) =>
      calls == [] && after.clock == before.clock && IsWithout(after.pending, before.pending, cookie)
    case Tick(now) =>
      after.clock == ClockAfter(before.clock, tick, now) &&
      if after.clock == before.clock then calls == [] && after.pending == before.pending
      else multiset(calls) + after.pending == before.pending &&
           (forall t :: t in calls ==> t.deadline <= after.clock) &&
           (forall t :: t in after.pending ==> t.deadline > after.clock) &&
           InFiringOrder(before.clock, tick, calls)
  }

  ghost predicate FlatRun(tick: nat, states: seq<Flat>, ops: seq<Op>, calls: seq<seq<Timer>>)
    requires tick > 0
  {
    |states| == |ops| + 1 && |calls| == |ops| &&
    forall i :: 0 <= i < |ops| ==> FlatStepAt(tick, states, ops, calls, i)
  }

  ghost predicate FlatStepAt(tick: nat, states: seq<Flat>, ops: seq<Op>, calls: seq<seq<Timer>>, i: nat)
    requires tick > 0 && |states| == |ops| + 1 && |calls| == |ops| && i < |ops|
  {
    FlatStep(tick, states[i], ops[i], states[i + 1], calls[i])
  }

  /** A step leaves no freedom: what stays pending, and what fires, is determined. */
  lemma FlatStepIsExact(tick: nat, before: Flat, op: Op, a: Flat, callsA: seq<Timer>, b: Flat, callsB: seq<Timer>)
    requires tick > 0
    requires FlatStep(tick, before, op, a, callsA) && FlatStep(tick, before, op, b, callsB)
    ensures a == b && multiset(callsA) == multiset(callsB)
  {
    forall t
      ensures a.pending[t] == b.pending[t] && multiset(callsA)[t] == multiset(callsB)[t]
    {
      if op.Tick? && a.clock != before.clock {
        assert (multiset(callsA) + a.pending)[t] == (multiset(callsB) + b.pending)[t];
        if t.deadline <= a.clock {
          assert t !in a.pending && t !in b.pending;
        } else {
          assert t !in callsA && t !in callsB;
        }
      }
    }
    assert a.pending == b.pending;
  }

  lemma FlatRunExtends(tick: nat, states: seq<Flat>, ops: seq<Op>, calls: seq<seq<Timer>>, op: Op, after: Flat, out: seq<Timer>)
    requires tick > 0 && FlatRun(tick, states, ops, calls)
    requires FlatStep(tick, states[|ops|], op, after, out)
    ensures FlatRun(tick, states + [after], ops + [op], calls + [out])
  {
    forall i | 0 <= i <= |ops|
      ensures FlatStepAt(tick, states + [after], ops + [op], calls + [out], i)
    {
      if i < |ops| { assert FlatStepAt(tick, states, ops, calls, i); }
    }
  }

  /** What the first `k` operations scheduled, fired and cancelled. */
  ghost function Scheduled(ops: seq<Op>, k: nat): multiset<Timer>
    requires k <= |ops|
  {
    if k == 0 then multiset{}
    else Scheduled(ops, k - 1) +
         match ops[k - 1] case Schedule(deadline, cookie) => multiset{Timer(deadline, cookie)} case _ => multiset{}
  }

  ghost function Fired(calls: seq<seq<Timer>>, k: nat): multiset<Timer>
    requires k <= |calls|
  {
    if k == 0 then multiset{} else Fired(calls, k - 1) + multiset(calls[k - 1])
  }

  ghost function Cancelled(states: seq<Flat>, ops: seq<Op>, k: nat): multiset<Timer>
    requires k <= |ops| < |states|
  {
    if k == 0 then multiset{}
    else Cancelled(states, ops, k - 1) +
         if ops[k - 1].Cancel? then states[k - 1].pending - states[k].pending else multiset{}
  }

  /** Nothing is lost and nothing is invented: at every point of a run, what was scheduled has fired, was
      cancelled, or is pending. */
  lemma {:induction false} TimersAreConserved(tick: nat, states: seq<Flat>, ops: seq<Op>, calls: seq<seq<Timer>>, k: nat)
    requires tick > 0 && FlatRun(tick, states, ops, calls) && k <= |ops|
    ensures states[0].pending + Scheduled(ops, k) == states[k].pending + Fired(calls, k) + Cancelled(states, ops, k)
  {
    if k > 0 {
      TimersAreConserved(tick, states, ops, calls, k - 1);
      assert FlatStepAt(tick, states, ops, calls, k - 1);
      forall t
        ensures (states[0].pending + Scheduled(ops, k))[t] ==
                (states[k].pending + Fired(calls, k) + Cancelled(states, ops, k))[t]
      {
        assert (states[0].pending + Scheduled(ops, k - 1))[t] ==
               (states[k - 1].pending + Fired(calls, k - 1) + Cancelled(states, ops, k - 1))[t];
        if ops[k - 1].Tick? && states[k].clock != states[k - 1].clock {
          assert (multiset(calls[k - 1]) + states[k].pending)[t] == states[k - 1].pending[t];
        }
      }
    }
  }

  /** The clock never runs backwards. */
  lemma {:induction false} ClockIsMonotone(tick: nat, states: seq<Flat>, ops: seq<Op>, calls: seq<seq<Timer>>, i: nat, j: nat)
    requires tick > 0 && FlatRun(tick, states, ops, calls) && i <= j <= |ops|
    ensures states[i].clock <= states[j].clock
    decreases j - i
  {
    if i < j {
      ClockIsMonotone(tick, states, ops, calls, i, j - 1);
      assert FlatStepAt(tick, states, ops, calls, j - 1);
    }
  }

  /** Whatever happens between two tick calls, a timer that fires in the later one was not overdue when the
      earlier one moved the clock, unless it was scheduled afterwards. */
  lemma NoTimerIsLate(tick: nat, states: seq<Flat>, ops: seq<Op>, calls: seq<seq<Timer>>, i: nat, j: nat, t: Timer)
    requires tick > 0 && FlatRun(tick, states, ops, calls) && i < j < |ops|
    requires ops[i].Tick? && states[i + 1].clock != states[i].clock
    requires forall k :: i < k < j ==> ops[k] != Schedule(t.deadline, t.cookie)
    requires t in calls[j]
    ensures states[i + 1].clock < t.deadline <= states[j + 1].clock
  {
    assert FlatStepAt(tick, states, ops, calls, j);
    assert multiset(calls[j])[t] > 0;
    assert states[j].pending[t] >= multiset(calls[j])[t];
    PendingSince(tick, states, ops, calls, i + 1, j, t);
    assert FlatStepAt(tick, states, ops, calls, i);
  }

  lemma {:induction false} PendingSince(tick: nat, states: seq<Flat>, ops: seq<Op>, calls: seq<seq<Timer>>, i: nat, j: nat, t: Timer)
    requires tick > 0 && FlatRun(tick, states, ops, calls) && i <= j <= |ops|
    requires forall k :: i <= k < j ==> ops[k] != Schedule(t.deadline, t.cookie)
    requires t in states[j].pending
    ensures t in states[i].pending
    decreases j - i
  {
    if i < j {
      assert FlatStepAt(tick, states, ops, calls, j - 1);
      if ops[j - 1].Tick? && states[j].clock != states[j - 1].clock {
        assert (multiset(calls[j - 1]) + states[j].pending)[t] > 0;
      }
      assert t in states[j - 1].pending;
      PendingSince(tick, states, ops, calls, i, j - 1, t);
    }
  }
}

/** The hierarchical timing wheel, as the object it is: slot lists, cursors and a clock, updated in place. */
module TimerWheel {
  import opened Arith
  import opened WheelMath
  import opened TimerBags
  import opened FlatTimers

  const NS_PER_MS := 1000000

  class Wheel {
    const tickMs: nat
    const levels: nat
    const slots: array2<seq<Timer>>
    const cursor: array<nat>
    var currentNs: nat
    ghost const base: nat
    ghost var ticks: nat

    function TickNs(): nat {
      tickMs * NS_PER_MS
    }

    ghost predicate Shape() {
      tickMs > 0 && levels > 0 &&
      slots.Length0 == levels && slots.Length1 == SLOTS && cursor.Length == levels
    }

    ghost function Due(t: Timer): nat
      requires tickMs > 0
    {
      DueTick(base, TickNs(), t.deadline)
    }

    ghost predicate ClockAt(n: nat)
      reads this
    {
      ticks == n && currentNs == base + n * TickNs()
    }

    /** One level is consistent with a tick count: cursor and placement of every waiting timer. */
    ghost predicate LevelAt(n: nat, level: nat)
      requires Shape() && level < levels
      reads slots, cursor
    {
      cursor[level] == Digit(n, level) &&
      forall s, t :: 0 <= s < SLOTS && t in slots[level, s] ==> Placed(n, level, s, Due(t))
    }

    /** In the middle of a carry: the levels below `level` show the new tick count, the others still `n`. */
    ghost predicate Carrying(n: nat, level: nat)
      reads this, slots, cursor
    {
      Shape() && ticks == n + 1 && level <= levels &&
      (forall l :: 0 <= l < level ==> LevelAt(ticks, l)) &&
      (forall l :: level <= l < levels ==> LevelAt(n, l))
    }

    ghost predicate Valid()
      reads this, slots, cursor
    {
      Shape() && ClockAt(ticks) && forall l :: 0 <= l < levels ==> LevelAt(ticks, l)
    }

    ghost function RowAt(level: nat): Row
      requires Shape() && level < levels
      reads slots
    {
      seq(SLOTS, s requires 0 <= s < SLOTS reads slots => slots[level, s])
    }

    ghost function Rows(): seq<Row>
      requires Shape()
      reads slots
    {
      seq(levels, l requires 0 <= l < levels reads slots => RowAt(l))
    }

    /** The timers that have been scheduled and have neither fired nor been cancelled. */
    ghost function Pending(): multiset<Timer>
      requires Shape()
      reads slots
    {
      Bag(Rows())
    }

    constructor (tick: nat, levelCount: nat, now: nat)
      ensures Valid() && Pending() == multiset{}
      ensures currentNs == now && fresh(slots) && fresh(cursor)
      ensures tickMs == (if tick == 0 then 1 else tick) && levels == (if levelCount == 0 then 4 else levelCount)
    {
      var tm := if tick == 0 then 1 else tick;
      var lv := if levelCount == 0 then 4 else levelCount;
      tickMs, levels := tm, lv;
      slots := new seq<Timer>[lv, SLOTS]((l, s) => []);
      cursor := new nat[lv](l => 0);
      currentNs, base, ticks := now, now, 0;
      new;
      forall l | 0 <= l < levels
        ensures LevelAt(0, l)
      {
        ZeroPeriods(l);
      }
      EmptyBag(Rows());
    }

    /** Writing one slot is an update of the bag. */
    method SetSlot(level: nat, s: nat, list: seq<Timer>)
      requires Shape() && level < levels && s < SLOTS
      modifies slots
      ensures slots[level, s] == list
      ensures forall l, i :: 0 <= l < levels && 0 <= i < SLOTS && (l != level || i != s) ==> slots[l, i] == old(slots[l, i])
      ensures Pending() + multiset(old(slots[level, s])) == old(Pending()) + multiset(list)
    {
      ghost var rows := Rows();
      slots[level, s] := list;
      forall l | 0 <= l < levels && l != level
        ensures Rows()[l] == rows[l]
      {
        assert RowAt(l) == old(RowAt(l));
      }
      assert RowAt(level) == old(RowAt(level))[s := list];
      assert Rows() == rows[level := rows[level][s := list]];
      BagUpdate(rows, level, s, list);
    }

    method TicksUntil(deadline: nat) returns (ticksLeft: nat)
      requires Shape() && ClockAt(ticks)
      ensures ticksLeft == if DueTick(base, TickNs(), deadline) > ticks then DueTick(base, TickNs(), deadline) - ticks else 0
    {
      DueTickIsFirst(base, TickNs(), deadline, ticks);
      if deadline <= currentNs {
        return 0;
      }
      DueTickFromNow(base, TickNs(), deadline, ticks);
      var delta := deadline - currentNs;
      return 1 + (delta - 1) / TickNs();
    }

    /** Finds the slot that will be drained in time for a timer. */
    method Locate(t: Timer) returns (level: nat, slot: nat)
      requires Valid()
      ensures level < levels && slot < SLOTS && Placed(ticks, level, slot, Due(t))
    {
      var left := TicksUntil(t.deadline);
      var slotTicks: nat := left;
      level := 0;
      while level + 1 < levels && slotTicks > SLOTS
        invariant 0 <= level < levels
        invariant Narrow(level, levels, slotTicks) == Narrow(0, levels, left)
      {
        slotTicks := (slotTicks - 1) / SLOTS;
        level := level + 1;
      }
      assert LevelAt(ticks, level);
      slot := cursor[level];
      if slotTicks > 0 {
        slot := (slot + (slotTicks - 1) % SLOTS) % SLOTS;
      }
      InsertIsPlaced(ticks, levels, Due(t));
    }

    /** Puts a timer in the slot that will be drained in time for it. */
    method InsertLocked(t: Timer)
      requires Valid()
      modifies slots
      ensures Valid()
      ensures Pending() == old(Pending()) + multiset{t}
    {
      var level, slot := Locate(t);
      assert multiset([t] + slots[level, slot]) == multiset{t} + multiset(slots[level, slot]);
      ghost var waiting := multiset(slots[level, slot]);
      SetSlot(level, slot, [t] + slots[level, slot]);
      CancelCommon(Pending(), old(Pending()), multiset{t}, waiting);
      forall l | 0 <= l < levels
        ensures LevelAt(ticks, l)
      {
        assert old(LevelAt(ticks, l));
      }
    }

    method Schedule(deadline: nat, cookie: int)
      requires Valid()
      modifies slots
      ensures Valid()
      ensures Pending() == old(Pending()) + multiset{Timer(deadline, cookie)}
    {
      InsertLocked(Timer(deadline, cookie));
    }

    /** Removes every timer with the given cookie, at whatever level it is waiting. */
    method Cancel(cookie: int) returns (found: bool)
      requires Valid()
      modifies slots
      ensures Valid()
      ensures IsWithout(Pending(), old(Pending()), cookie)
      ensures found <==> exists t :: t in old(Pending()) && t.cookie == cookie
    {
      ghost var before := Rows();
      forall l | 0 <= l < levels
        ensures cursor[l] == Digit(ticks, l)
      {
        assert LevelAt(ticks, l);
      }
      forall l, s, t | 0 <= l < levels && 0 <= s < SLOTS && t in before[l][s]
        ensures Placed(ticks, l, s, Due(t))
      {
        assert LevelAt(ticks, l);
      }
      found := false;
      var level := 0;
      while level < levels
        invariant 0 <= level <= levels
        invariant Swept(before, level, cookie)
        invariant found == Hit(before, level, cookie)
      {
        assert RowAt(level) == before[level];
        var hit := CancelLevel(level, cookie);
        found := found || hit;
        level := level + 1;
      }
      CancelledEverywhere(before, cookie);
    }

    /** The levels below `level` have been filtered, the others are as they were. */
    ghost predicate Swept(before: seq<Row>, level: nat, cookie: int)
      requires Shape()
      reads slots
    {
      |before| == levels && (forall l :: 0 <= l < levels ==> |before[l]| == SLOTS) &&
      forall l, i :: 0 <= l < levels && 0 <= i < SLOTS ==>
        slots[l, i] == if l < level then Drop(before[l][i], cookie) else before[l][i]
    }

    method CancelLevel(level: nat, cookie: int) returns (found: bool)
      requires Shape() && level < levels
      modifies slots
      ensures forall i :: 0 <= i < SLOTS ==> slots[level, i] == Drop(old(slots[level, i]), cookie)
      ensures forall l, i :: 0 <= l < levels && 0 <= i < SLOTS && l != level ==> slots[l, i] == old(slots[l, i])
      ensures found == RowHit(old(RowAt(level)), SLOTS, cookie)
    {
      ghost var row := RowAt(level);
      found := false;
      var s := 0;
      while s < SLOTS
        invariant 0 <= s <= SLOTS
        invariant forall i :: 0 <= i < SLOTS ==> slots[level, i] == if i < s then Drop(row[i], cookie) else row[i]
        invariant forall l, i :: 0 <= l < levels && 0 <= i < SLOTS && l != level ==> slots[l, i] == old(slots[l, i])
        invariant found == RowHit(row, s, cookie)
      {
        var kept, hit := Filter(slots[level, s], cookie);
        slots[level, s] := kept;
        found := found || hit;
        s := s + 1;
      }
    }

    method Filter(list: seq<Timer>, cookie: int) returns (kept: seq<Timer>, hit: bool)
      ensures kept == Drop(list, cookie)
      ensures hit <==> kept != list
    {
      kept, hit := [], false;
      var i := 0;
      while i < |list|
        invariant 0 <= i <= |list|
        invariant kept == Drop(list[..i], cookie)
        invariant hit <==> |kept| != i
      {
        assert list[..i + 1] == list[..i] + [list[i]];
        DropAppend(list[..i], list[i], cookie);
        DropIsShort(list[..i], cookie);
        if list[i].cookie == cookie {
          hit := true;
        } else {
          kept := kept + [list[i]];
        }
        i := i + 1;
      }
      assert list[..i] == list;
      SameLengthMeansUntouched(list, cookie);
    }

    /** Filtering every slot filters the bag, and keeps everybody in place. */
    lemma CancelledEverywhere(before: seq<Row>, cookie: int)
      requires Shape() && ClockAt(ticks) && Swept(before, levels, cookie)
      requires forall l :: 0 <= l < levels ==> cursor[l] == Digit(ticks, l)
      requires forall l, s, t :: 0 <= l < levels && 0 <= s < SLOTS && t in before[l][s] ==> Placed(ticks, l, s, Due(t))
      ensures Valid()
      ensures IsWithout(Pending(), Bag(before), cookie)
      ensures Hit(before, levels, cookie) <==> exists t :: t in Bag(before) && t.cookie == cookie
    {
      forall l | 0 <= l < levels
        ensures LevelAt(ticks, l)
      {
        forall s, t | 0 <= s < SLOTS && t in slots[l, s]
          ensures Placed(ticks, l, s, Due(t))
        {
          DropIsWithout(before[l][s], cookie);
          assert multiset(slots[l, s])[t] > 0;
          assert t in before[l][s];
        }
      }
      BagDrop(before, Rows(), cookie);
      HitMeansMember(before, cookie);
    }

    /** Takes the list out of the slot whose period has just ended and advances that cursor.  The finer
        levels already show the new tick count, this level and the coarser ones still the old one. */
    method Drain(level: nat, ghost n: nat) returns (list: seq<Timer>)
      requires level < levels && Carrying(n, level) && Rolls(n, level)
      modifies slots, cursor
      ensures Carrying(n, level + 1)
      ensures list == old(slots[level, Digit(n, level)])
      ensures Pending() + multiset(list) == old(Pending())
    {
      assert LevelAt(n, level);
      Carry(n, level);
      var slot := cursor[level];
      list := slots[level, slot];
      SetSlot(level, slot, []);
      assert Pending() + multiset(list) == old(Pending()) + multiset{};
      cursor[level] := (slot + 1) % SLOTS;
      forall l | 0 <= l < level
        ensures LevelAt(ticks, l)
      {
        assert old(LevelAt(ticks, l));
      }
      forall l | level < l < levels
        ensures LevelAt(n, l)
      {
        assert old(LevelAt(n, l));
      }
      forall s, t | 0 <= s < SLOTS && t in slots[level, s]
        ensures Placed(ticks, level, s, Due(t))
      {
        assert s != slot;
        PlacedAfterTick(n, level, s, Due(t));
      }
    }

    /** Moves the timers of the coarser slot whose period has just ended down to finer slots.  On entry
        the levels up to `level` already reflect the new tick count; the coarser ones still show the old one. */
    method Cascade(level: nat, ghost n: nat)
      requires level < levels && Carrying(n, level + 1) && ClockAt(ticks)
      requires Rolls(n, level) && cursor[level] == 0
      modifies slots, cursor
      ensures Valid()
      ensures Pending() == old(Pending())
      decreases levels - level
    {
      if level + 1 >= levels {
        return;
      }
      var up := level + 1;
      assert LevelAt(ticks, level);
      Carry(n, level);
      ghost var all := Pending();
      var list := Drain(up, n);
      assert LevelAt(ticks, up);
      if cursor[up] == 0 {
        Cascade(up, n);
      } else {
        SettledAbove(n, up);
      }
      InsertAll(list);
    }

    method InsertAll(list: seq<Timer>)
      requires Valid()
      modifies slots
      ensures Valid()
      ensures Pending() == old(Pending()) + multiset(list)
    {
      var rest := list;
      while rest != []
        invariant Valid()
        invariant Pending() + multiset(rest) == old(Pending()) + multiset(list)
        decreases |rest|
      {
        assert rest == [rest[0]] + rest[1..];
        InsertLocked(rest[0]);
        rest := rest[1..];
      }
    }

    /** Advances the clock by one tick: the slot under the finest cursor is emptied, and coarser slots are
        cascaded where their period ends. */
    method Advance() returns (list: seq<Timer>)
      requires Valid()
      modifies this, slots, cursor
      ensures Valid() && ticks == old(ticks) + 1
      ensures multiset(list) + Pending() == old(Pending())
      ensures forall t :: t in Pending() ==> Due(t) > ticks
    {
      ghost var n := ticks;
      ghost var all := Pending();
      NothingElseIsDue();
      ticks := n + 1;
      assert Carrying(n, 0);
      list := Drain(0, n);
      Difference(Pending(), multiset(list), all);
      Turn(n);
    }

    /** The clock and the carry of one tick, after the finest slot has been emptied. */
    method Turn(ghost n: nat)
      requires Carrying(n, 1) && ClockAtPrevious(n)
      modifies `currentNs, slots, cursor
      ensures Valid()
      ensures Pending() == old(Pending())
    {
      currentNs := currentNs + TickNs();
      Distribute(n, 1, TickNs());
      assert LevelAt(ticks, 0);
      if cursor[0] == 0 {
        Cascade(0, n);
      } else {
        SettledAbove(n, 0);
      }
    }

    ghost predicate ClockAtPrevious(n: nat)
      reads this
    {
      currentNs == base + n * TickNs()
    }

    method IsDue(t: Timer) returns (due: bool)
      requires Shape() && ClockAt(ticks)
      ensures due <==> Due(t) <= ticks
    {
      DueTickIsFirst(base, TickNs(), t.deadline, ticks);
      due := t.deadline <= currentNs;
    }

    /** One turn of the wheel: what is due is handed to the callback, in list order, the rest goes back. */
    method Step() returns (calls: seq<Timer>)
      requires Valid()
      modifies this, slots, cursor
      ensures Valid() && ticks == old(ticks) + 1
      ensures multiset(calls) + Pending() == old(Pending())
      ensures forall t :: t in calls ==> Due(t) <= ticks
      ensures forall t :: t in Pending() ==> Due(t) > ticks
    {
      var list := Advance();
      calls := Deliver(list);
    }

    method Deliver(list: seq<Timer>) returns (calls: seq<Timer>)
      requires Valid()
      requires forall t :: t in Pending() ==> Due(t) > ticks
      modifies slots
      ensures Valid()
      ensures multiset(calls) + Pending() == multiset(list) + old(Pending())
      ensures forall t :: t in calls ==> Due(t) <= ticks
      ensures forall t :: t in Pending() ==> Due(t) > ticks
    {
      hide Due, Pending, LevelAt;
      calls := [];
      var rest := list;
      while rest != []
        invariant Valid()
        invariant multiset(calls) + multiset(rest) + Pending() == multiset(list) + old(Pending())
        invariant forall t :: t in calls ==> Due(t) <= ticks
        invariant forall t :: t in Pending() ==> Due(t) > ticks
        decreases |rest|
      {
        ghost var before, waiting, left := calls, Pending(), rest;
        FirstOf(rest);
        calls := DeliverOne(rest[0], calls);
        rest := rest[1..];
        Regroup(multiset(before), multiset{left[0]}, multiset(rest), waiting, multiset(calls), Pending());
      }
    }

    lemma Regroup(a: multiset<Timer>, t: multiset<Timer>, rest: multiset<Timer>, b: multiset<Timer>, a': multiset<Timer>, b': multiset<Timer>)
      requires a' + b' == a + t + b
      ensures a' + rest + b' == a + (t + rest) + b
    {
      assert a' + rest + b' == (a' + b') + rest;
    }

    lemma FirstOf(list: seq<Timer>)
      requires list != []
      ensures multiset(list) == multiset{list[0]} + multiset(list[1..])
    {
      assert list == [list[0]] + list[1..];
    }

    /** A timer that is due is handed to the callback, another goes back. */
    method DeliverOne(t: Timer, calls: seq<Timer>) returns (calls': seq<Timer>)
      requires Valid()
      requires forall t :: t in calls ==> Due(t) <= ticks
      requires forall t :: t in Pending() ==> Due(t) > ticks
      modifies slots
      ensures Valid()
      ensures multiset(calls') + Pending() == multiset(calls) + multiset{t} + old(Pending())
      ensures forall t :: t in calls' ==> Due(t) <= ticks
      ensures forall t :: t in Pending() ==> Due(t) > ticks
    {
      hide Due, Pending, LevelAt;
      calls' := calls;
      var due := IsDue(t);
      if !due {
        InsertLocked(t);
      } else {
        calls' := calls + [t];
      }
    }

    /** Everything outside the slot under the finest cursor is due after the next tick. */
    lemma NothingElseIsDue()
      requires Valid()
      ensures forall t :: t in Pending() - multiset(slots[0, Digit(ticks, 0)]) ==> Due(t) > ticks + 1
    {
      forall t | t in Pending() - multiset(slots[0, Digit(ticks, 0)])
        ensures Due(t) > ticks + 1
      {
        ghost var rows := Rows();
        ghost var now := Digit(ticks, 0);
        BagUpdate(rows, 0, now, []);
        ghost var others := rows[0 := rows[0][now := []]];
        Difference(Bag(others), multiset(slots[0, now]), Pending());
        BagMember(others, t);
        var l, s :| 0 <= l < |others| && 0 <= s < |others[l]| && t in others[l][s];
        assert LevelAt(ticks, l);
        assert t in slots[l, s];
        NotYetDue(ticks, l, s, Due(t));
      }
    }

    /** Catches up with `now`, one tick at a time. */
    method Tick(now: nat) returns (fired: nat, calls: seq<Timer>)
      requires Valid()
      modifies this, slots, cursor
      ensures Valid()
      ensures fired == |calls|
      ensures FlatStep(TickNs(), Flat(old(currentNs), old(Pending())), FlatTimers.Tick(now), Flat(currentNs, Pending()), calls)
    {
      ghost var n, before := ticks, Pending();
      fired, calls := CatchUp(now);
      Summary(old(currentNs), n, now, before, calls);
    }

    method CatchUp(now: nat) returns (fired: nat, calls: seq<Timer>)
      requires Valid()
      modifies this, slots, cursor
      ensures Valid() && CaughtUp(old(ticks), ticks, old(Pending()), Pending(), calls)
      ensures fired == |calls|
      ensures currentNs + TickNs() > now && (ticks > old(ticks) ==> currentNs <= now)
    {
      hide CaughtUp;
      fired, calls := 0, [];
      NothingFired(ticks, Pending());
      while currentNs + TickNs() <= now
        invariant Valid() && CaughtUp(old(ticks), ticks, old(Pending()), Pending(), calls)
        invariant fired == |calls|
        invariant ticks > old(ticks) ==> currentNs <= now
        decreases now - currentNs
      {
        var batch := OneTick(old(ticks), old(Pending()), calls);
        calls := calls + batch;
        fired := fired + |batch|;
      }
    }

    method OneTick(ghost n: nat, ghost before: multiset<Timer>, ghost calls: seq<Timer>) returns (batch: seq<Timer>)
      requires Valid() && CaughtUp(n, ticks, before, Pending(), calls)
      modifies this, slots, cursor
      ensures Valid() && CaughtUp(n, ticks, before, Pending(), calls + batch)
      ensures ticks == old(ticks) + 1 && currentNs == old(currentNs) + TickNs() > old(currentNs)
    {
      hide CaughtUp;
      ghost var m, waiting, clock := ticks, Pending(), currentNs;
      batch := Step();
      CatchUpOneMore(n, m, before, waiting, Pending(), calls, batch);
      assert currentNs == clock + TickNs() by { Distribute(m, 1, TickNs()); }
    }

    lemma NothingFired(n: nat, pending: multiset<Timer>)
      requires tickMs > 0
      ensures CaughtUp(n, n, pending, pending, [])
    {
    }

    /** What has been fired and what is left after catching up from tick `n` to tick `m`. */
    ghost predicate CaughtUp(n: nat, m: nat, before: multiset<Timer>, after: multiset<Timer>, calls: seq<Timer>)
      requires tickMs > 0
    {
      n <= m &&
      multiset(calls) + after == before &&
      (m == n ==> after == before && calls == []) &&
      (m > n ==> forall t :: t in after ==> Due(t) > m) &&
      (forall t :: t in calls ==> Due(t) <= m) &&
      (forall i, j :: 0 <= i < j < |calls| ==> Max(Due(calls[i]), n + 1) <= Max(Due(calls[j]), n + 1))
    }

    lemma CatchUpOneMore(n: nat, m: nat, before: multiset<Timer>, waiting: multiset<Timer>, after: multiset<Timer>,
                         calls: seq<Timer>, batch: seq<Timer>)
      requires tickMs > 0 && CaughtUp(n, m, before, waiting, calls)
      requires multiset(batch) + after == waiting
      requires (forall t :: t in batch ==> Due(t) <= m + 1) && (forall t :: t in after ==> Due(t) > m + 1)
      ensures CaughtUp(n, m + 1, before, after, calls + batch)
    {
      forall t | t in batch
        ensures Max(Due(t), n + 1) == m + 1
      {
        assert multiset(batch)[t] > 0;
        assert t in waiting;
      }
      assert multiset(calls + batch) + after == before by {
        assert multiset(calls + batch) + after == multiset(calls) + (multiset(batch) + after);
      }
      forall i, j | 0 <= i < j < |calls + batch|
        ensures Max(Due((calls + batch)[i]), n + 1) <= Max(Due((calls + batch)[j]), n + 1)
      {
        if j >= |calls| {
          assert (calls + batch)[j] in batch;
          if i >= |calls| { assert (calls + batch)[i] in batch; } else { assert calls[i] in calls; }
        }
      }
    }

    /** Reads the loop's result in terms of deadlines and the clock. */
    lemma Summary(clock: nat, n: nat, now: nat, before: multiset<Timer>, calls: seq<Timer>)
      requires Valid() && clock == base + n * TickNs()
      requires currentNs + TickNs() > now && (ticks > n ==> currentNs <= now)
      requires CaughtUp(n, ticks, before, Pending(), calls)
      ensures FlatStep(TickNs(), Flat(clock, before), FlatTimers.Tick(now), Flat(currentNs, Pending()), calls)
    {
      ElapsedTicks(clock, n, now);
      if ticks > n {
        forall t
          ensures Due(t) <= ticks <==> t.deadline <= currentNs
        {
          DueTickIsFirst(base, TickNs(), t.deadline, ticks);
        }
        forall t
          ensures Max(Due(t), n + 1) == n + FireTick(clock, TickNs(), t)
        {
          DueTickIsFirst(base, TickNs(), t.deadline, n);
          if t.deadline > clock { DueTickFromNow(base, TickNs(), t.deadline, n); }
        }
      }
    }

    lemma ElapsedTicks(clock: nat, n: nat, now: nat)
      requires Shape() && ClockAt(ticks) && clock == base + n * TickNs() && n <= ticks
      requires currentNs + TickNs() > now && (ticks > n ==> currentNs <= now)
      ensures currentNs == ClockAfter(clock, TickNs(), now)
      ensures currentNs == clock <==> ticks == n
    {
      var k := ticks - n;
      Distribute(n, k, TickNs());
      assert currentNs == clock + k * TickNs();
      if k > 0 {
        MulMono(1, k, TickNs());
        Distribute(k, 1, TickNs());
        DivUnique(now - clock, TickNs(), k);
      } else if now >= clock {
        DivUnique(now - clock, TickNs(), 0);
      }
    }

    method Perform(op: Op) returns (calls: seq<Timer>)
      requires Valid()
      modifies this, slots, cursor
      ensures Valid()
      ensures FlatStep(TickNs(), Flat(old(currentNs), old(Pending())), op, Flat(currentNs, Pending()), calls)
    {
      calls := [];
      match op {
        case Schedule(deadline, cookie) => Schedule(deadline, cookie);
        case Cancel(cookie) => var _ := Cancel(cookie);
        case Tick(now) => var fired; fired, calls := Tick(now);
      }
    }

    /** Plays a whole history: slots, levels and cascades are invisible, the wheel is the flat set. */
    method Replay(ops: seq<Op>) returns (calls: seq<seq<Timer>>, ghost states: seq<Flat>)
      requires Valid()
      modifies this, slots, cursor
      ensures Valid()
      ensures FlatRun(TickNs(), states, ops, calls)
      ensures states[0] == Flat(old(currentNs), old(Pending())) && states[|ops|] == Flat(currentNs, Pending())
    {
      calls, states := [], [Flat(currentNs, Pending())];
      var i := 0;
      while i < |ops|
        invariant 0 <= i <= |ops| && Valid()
        invariant FlatRun(TickNs(), states, ops[..i], calls)
        invariant states[0] == Flat(old(currentNs), old(Pending())) && states[i] == Flat(currentNs, Pending())
      {
        var out := Perform(ops[i]);
        ghost var after := Flat(currentNs, Pending());
        FlatRunExtends(TickNs(), states, ops[..i], calls, ops[i], after, out);
        assert ops[..i + 1] == ops[..i] + [ops[i]];
        states, calls := states + [after], calls + [out];
        i := i + 1;
      }
      assert ops[..i] == ops;
    }

    /** When the carry stops at `level`, nothing above it moves. */
    lemma SettledAbove(n: nat, level: nat)
      requires level < levels && Carrying(n, level + 1) && ClockAt(ticks)
      requires cursor[level] != 0
      ensures Valid()
    {
      forall l | level < l < levels
        ensures LevelAt(ticks, l)
      {
        assert LevelAt(ticks, level);
        Carry(n, level);
        NoCarryAbove(n, level + 1, l);
        Carry(n, l);
        assert LevelAt(n, l);
        forall s, t | 0 <= s < SLOTS && t in slots[l, s]
          ensures Placed(ticks, l, s, Due(t))
        {
          PlacedAfterTick(n, l, s, Due(t));
        }
      }
    }
  }

  lemma {:induction false} ZeroPeriods(level: nat)
    ensures Periods(0, level) == 0
  {
    if level > 0 { ZeroPeriods(level - 1); }
  }
}
