/** The arithmetic behind the hierarchical timing wheel.

    After `n` ticks the per-level cursors are the base-256 digits of `n`.  A timer that waits in slot
    `s` of level `level` is taken out of it when the period `Period(n, level, s)` of that level ends.
    Everything that follows rests on `Placed`: the slot never outlives the tick the timer is due at.
  */
module WheelMath {
  import opened Arith

  /** Slots per level. */
  const SLOTS := 256

  function Pow(level: nat): (p: nat)
    ensures p > 0
  {
    if level == 0 then 1 else SLOTS * Pow(level - 1)
  }

  /** How many whole periods of `level` have passed after `n` ticks. */
  function Periods(n: nat, level: nat): nat {
    if level == 0 then n else Periods(n, level - 1) / SLOTS
  }

  lemma {:induction false} PeriodBounds(n: nat, level: nat)
    ensures Periods(n, level) * Pow(level) <= n < (Periods(n, level) + 1) * Pow(level)
  {
    if level > 0 {
      PeriodBounds(n, level - 1);
      var q, p := Periods(n, level - 1), Pow(level - 1);
      MulMono(SLOTS * (q / SLOTS), q, p);
      MulMono(q + 1, SLOTS * (q / SLOTS) + SLOTS, p);
      Reassociate(q / SLOTS, p);
      Reassociate(q / SLOTS + 1, p);
    }
  }

  lemma Reassociate(x: nat, p: nat)
    ensures (SLOTS * x) * p == x * (SLOTS * p)
  {
  }

  /** The cursors are the base-256 digits of the tick count. */
  lemma PeriodsIsQuotient(n: nat, level: nat)
    ensures Periods(n, level) == n / Pow(level)
    ensures Digit(n, level) == (n / Pow(level)) % SLOTS
  {
    PeriodBounds(n, level);
    DivUnique(n, Pow(level), Periods(n, level));
  }

  /** The cursor of `level` after `n` ticks. */
  function Digit(n: nat, level: nat): (d: nat)
    ensures d < SLOTS
  {
    Periods(n, level) % SLOTS
  }

  /** The period of `level`, now or in the future, at whose end slot `s` is drained. */
  function Period(n: nat, level: nat, s: nat): (q: nat)
    requires s < SLOTS
    ensures Periods(n, level) <= q < Periods(n, level) + SLOTS
    ensures q == Periods(n, level) <==> s == Digit(n, level)
  {
    if s >= Digit(n, level)
    then Periods(n, level) + (s - Digit(n, level))
    else Periods(n, level) + (s + SLOTS - Digit(n, level))
  }

  /** The tick count at which slot `s` of `level` is drained next. */
  function DrainTick(n: nat, level: nat, s: nat): nat
    requires s < SLOTS
  {
    (Period(n, level, s) + 1) * Pow(level)
  }

  /** A slot is safe for a timer that is due at tick `due`: a coarse slot is drained strictly before
      that tick, a slot of level 0 at that tick or before it.  A timer that is already overdue goes off at
      the very next tick. */
  ghost predicate Placed(n: nat, level: nat, s: nat, due: nat)
    requires s < SLOTS
  {
    if level == 0
    then DrainTick(n, 0, s) <= Max(due, n + 1)
    else DrainTick(n, level, s) < due
  }

  /** The first tick count at which a clock that starts at `base` and advances by `tick` reaches `deadline`. */
  function DueTick(base: nat, tick: nat, deadline: nat): nat
    requires tick > 0
  {
    if deadline <= base then 0 else 1 + (deadline - base - 1) / tick
  }

  lemma DueTickIsFirst(base: nat, tick: nat, deadline: nat, m: nat)
    requires tick > 0
    ensures DueTick(base, tick, deadline) <= m <==> deadline <= base + m * tick
  {
    if deadline > base {
      var x := deadline - base - 1;
      var q := x / tick;
      DivBounds(x, tick);
      if m > q {
        MulMono(q + 1, m, tick);
      } else {
        MulMono(m, q, tick);
      }
    } else {
      assert m * tick >= 0;
    }
  }

  /** Counting the ticks that are left from the current time gives the same answer as counting from the start. */
  lemma DueTickFromNow(base: nat, tick: nat, deadline: nat, n: nat)
    requires tick > 0 && deadline > base + n * tick
    ensures DueTick(base, tick, deadline) == n + 1 + (deadline - (base + n * tick) - 1) / tick
  {
    var x := deadline - base - 1;
    assert n * tick >= 0;
    var y := x - n * tick;
    DivBounds(x, tick);
    DivBounds(y, tick);
    var p, q := x / tick, y / tick;
    // p * tick <= x < (p + 1) * tick and (n + q) * tick <= x < (n + q + 1) * tick
    assert (n + q) * tick == n * tick + q * tick;
    assert (n + q + 1) * tick == n * tick + (q + 1) * tick;
    if p < n + q {
      MulMono(p + 1, n + q, tick);
    } else if n + q < p {
      MulMono(n + q + 1, p, tick);
    }
  }

  /** The tick from `n` to `n + 1` ends a period of `level`. */
  predicate Rolls(n: nat, level: nat) {
    Periods(n + 1, level) != Periods(n, level)
  }

  /** A tick ends at most one period of a level, and it does so exactly on a multiple of the period length. */
  lemma {:induction false} NextPeriod(n: nat, level: nat)
    ensures Rolls(n, level) ==> Periods(n + 1, level) == Periods(n, level) + 1
    ensures Rolls(n, level) ==> (Periods(n, level) + 1) * Pow(level) == n + 1
  {
    if level > 0 {
      NextPeriod(n, level - 1);
      if Rolls(n, level) {
        Reassociate(Periods(n, level) + 1, Pow(level - 1));
      }
    }
  }

  /** The carry of the base-256 counter: a level rolls exactly when the one below rolls over to zero. */
  lemma Carry(n: nat, level: nat)
    ensures Rolls(n, level + 1) <==> Rolls(n, level) && Digit(n + 1, level) == 0
    ensures Rolls(n, level) ==> Digit(n + 1, level) == (Digit(n, level) + 1) % SLOTS
    ensures !Rolls(n, level) ==> Digit(n + 1, level) == Digit(n, level)
  {
    NextPeriod(n, level);
  }

  /** Levels above one that does not roll do not move. */
  lemma {:induction false} NoCarryAbove(n: nat, low: nat, high: nat)
    requires low <= high && !Rolls(n, low)
    ensures !Rolls(n, high)
    decreases high - low
  {
    if low < high {
      Carry(n, low);
      NoCarryAbove(n, low + 1, high);
    }
  }

  /** A slot that is not drained by a tick keeps its period, so placement survives the tick. */
  lemma PlacedAfterTick(n: nat, level: nat, s: nat, due: nat)
    requires s < SLOTS && Placed(n, level, s, due)
    requires !Rolls(n, level) || s != Digit(n, level)
    ensures Period(n + 1, level, s) == Period(n, level, s)
    ensures Placed(n + 1, level, s, due)
  {
    NextPeriod(n, level);
    if level == 0 {
      assert Pow(0) == 1;
    }
  }

  /** Anything in a coarse slot, and anything in level 0 that is not in the slot under the cursor,
      is due strictly after the next tick. */
  lemma NotYetDue(n: nat, level: nat, s: nat, due: nat)
    requires s < SLOTS && Placed(n, level, s, due)
    requires level == 0 ==> s != Digit(n, 0)
    ensures due > n + 1
  {
    var p := Pow(level);
    PeriodBounds(n, level);
    var q := Period(n, level, s);
    if level == 0 {
      assert p == 1;
      assert q >= n + 1;
    } else {
      MulMono(Periods(n, level) + 1, q + 1, p);
    }
  }

  /** What is cascaded out of a coarse slot is due strictly after the tick that drains the slot. */
  lemma CascadedIsEarly(n: nat, level: nat, due: nat)
    requires Rolls(n, level) && level > 0
    requires Placed(n, level, Digit(n, level), due)
    ensures due > n + 1
  {
    NextPeriod(n, level);
  }

  /** The level and slot distance that insertion picks for a timer that is `ticks` ticks away: the pair
      (level, remaining slot ticks) after the narrowing loop has run from `level`. */
  function Narrow(level: nat, levels: nat, k: nat): (r: (nat, nat))
    requires level < levels
    ensures level <= r.0 < levels
    ensures r.1 > 0 <==> k > 0
    decreases levels - level
  {
    if level + 1 < levels && k > SLOTS then Narrow(level + 1, levels, (k - 1) / SLOTS) else (level, k)
  }

  /** Narrowing loses time, it never gains any; and it loses strictly once a level is climbed. */
  lemma {:induction false} NarrowRoundsDown(level: nat, levels: nat, k: nat, ticks: nat)
    requires level < levels
    requires if level == 0 then k == ticks else k * Pow(level) < ticks
    ensures var r := Narrow(level, levels, k);
            if r.0 == 0 then r.1 == ticks else r.1 * Pow(r.0) < ticks
    decreases levels - level
  {
    if level + 1 < levels && k > SLOTS {
      var k' := (k - 1) / SLOTS;
      assert SLOTS * k' < k;
      var p := Pow(level);
      assert k' * Pow(level + 1) == (SLOTS * k') * p;
      MulMono(SLOTS * k' + 1, k, p);
      assert (SLOTS * k' + 1) * p == (SLOTS * k') * p + p;
      if level == 0 { assert p == 1; }
      NarrowRoundsDown(level + 1, levels, k', ticks);
    }
  }

  /** The slot that insertion picks on `level` for the remaining distance `k`. */
  function SlotAt(cursor: nat, k: nat): (s: nat)
    requires cursor < SLOTS
    ensures s < SLOTS
  {
    if k > 0 then (cursor + (k - 1) % SLOTS) % SLOTS else cursor
  }

  lemma SlotDistance(n: nat, level: nat, k: nat)
    requires k > 0
    ensures Period(n, level, SlotAt(Digit(n, level), k)) == Periods(n, level) + (k - 1) % SLOTS
  {
  }

  /** The key bound: a slot `k` ahead on a coarse level drains within `k` periods, counted from a period
      that has already begun. */
  lemma CoarseDistance(n: nat, level: nat, k: nat, due: nat)
    requires k > 0 && n + k * Pow(level) < due
    ensures DrainTick(n, level, SlotAt(Digit(n, level), k)) < due
  {
    var p := Pow(level);
    var from := Periods(n, level);
    SlotDistance(n, level, k);
    PeriodBounds(n, level);
    var q := Period(n, level, SlotAt(Digit(n, level), k));
    MulMono(q + 1, from + k, p);
    Distribute(from, k, p);
  }

  /** Insertion picks a safe slot, whatever the number of levels and however far away the deadline is. */
  lemma InsertIsPlaced(n: nat, levels: nat, due: nat)
    requires levels > 0
    ensures var ticks := if due > n then due - n else 0;
            var r := Narrow(0, levels, ticks);
            Placed(n, r.0, SlotAt(Digit(n, r.0), r.1), due)
  {
    var ticks := if due > n then due - n else 0;
    var r := Narrow(0, levels, ticks);
    NarrowRoundsDown(0, levels, ticks, ticks);
    if r.0 > 0 {
      assert r.1 > 0;
      CoarseDistance(n, r.0, r.1, due);
    } else if ticks > 0 {
      SlotDistance(n, 0, ticks);
      assert Pow(0) == 1;
    }
  }
}
