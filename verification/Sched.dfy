/** Ready queues in four bands of strict priority: a bitmap of active queues and a ring of ready ones for each band. */
module Sched {
  import opened Optional
  import opened Seqs
  import B = Bitmap

  const BANDS: nat := 4
  const READY_CAP: nat := 4096
  const CREDIT: nat := 64

  function Weight(band: nat): nat {
    if band == 0 then 8 else if band == 1 then 4 else if band == 2 then 2 else 1
  }

  datatype Pick = Pick(band: nat, id: nat)

  /** Per band, the ring of ready queues, oldest first, and the set of active ones. */
  datatype State = State(ready: seq<seq<nat>>, active: seq<set<nat>>)

  ghost predicate Bands(s: State) {
    |s.ready| == BANDS && |s.active| == BANDS
  }

  /** An active queue is in the ring of its band. */
  ghost predicate Inv(s: State) {
    Bands(s) && forall b :: 0 <= b < BANDS ==> Listed(s.ready[b], s.active[b])
  }

  ghost predicate Listed(ring: seq<nat>, active: set<nat>) {
    |ring| <= READY_CAP && forall id :: id in active ==> id in ring
  }

  /** There is nothing in the rings but active queues, each of them once. */
  ghost predicate Clean(s: State) {
    Bands(s) && forall b :: 0 <= b < BANDS ==> Exactly(s.ready[b], s.active[b])
  }

  ghost predicate Exactly(ring: seq<nat>, active: set<nat>) {
    |ring| <= READY_CAP && Distinct(ring) && forall id :: id in active <==> id in ring
  }

  predicate Refused(s: State, id: nat, band: nat)
    requires Bands(s) && band < BANDS
  {
    id !in s.active[band] && |s.ready[band]| >= READY_CAP
  }

  function Activated(s: State, id: nat, band: nat): State
    requires Bands(s) && band < BANDS
  {
    if id in s.active[band] || Refused(s, id, band) then s
    else State(s.ready[band := s.ready[band] + [id]], s.active[band := s.active[band] + {id}])
  }

  function Deactivated(s: State, id: nat, band: nat): State
    requires Bands(s) && band < BANDS
  {
    s.(active := s.active[band := s.active[band] - {id}])
  }

  /** One entry leaves each band that is looked at, until one turns out to be active. */
  function Popped(s: State, from: nat): (r: (State, Option<Pick>))
    requires Bands(s) && from <= BANDS
    ensures Bands(r.0)
    decreases BANDS - from
  {
    if from == BANDS then (s, None)
    else if s.ready[from] == [] then Popped(s, from + 1)
    else
      var id := s.ready[from][0];
      var s' := s.(ready := s.ready[from := s.ready[from][1..]]);
      if id in s.active[from] then (Deactivated(s', id, from), Some(Pick(from, id))) else Popped(s', from + 1)
  }

  function NothingReady(): State {
    State([[], [], [], []], [{}, {}, {}, {}])
  }

  lemma NothingReadyInv()
    ensures Inv(NothingReady()) && Clean(NothingReady())
  {
  }

  /** The rings after the oldest entry of a band, if there is one, has left. */
  function Polled(s: State, band: nat): (r: State)
    requires Bands(s) && band < BANDS
    ensures Bands(r)
  {
    s.(ready := s.ready[band := if s.ready[band] == [] then [] else s.ready[band][1..]])
  }

  class Sched {
    const maxQueues: nat
    const active: seq<B.Bitmap>
    ghost const words: set<object>  // those of the four bitmaps
    var ready: seq<seq<nat>>
    var deficit: seq<nat>
    var activations: nat
    var drained: nat

    static function Words(b: B.Bitmap): set<object> {
      {b.l0, b.l1, b.l2}
    }

    ghost predicate Shape() {
      && |active| == BANDS
      && (forall b :: b in active ==> b.capacity == maxQueues)
      && words == Words(active[0]) + Words(active[1]) + Words(active[2]) + Words(active[3])
      && Words(active[0]) !! Words(active[1]) !! Words(active[2]) !! Words(active[3])
    }

    /** Rings and bitmaps are in order, each on its own. */
    ghost predicate Parts()
      reads this, words
    {
      && Shape() && |ready| == |deficit| == BANDS
      && active[0].Valid() && active[1].Valid() && active[2].Valid() && active[3].Valid()
    }

    ghost predicate Valid()
      reads this, words
    {
      Parts() && Inv(St())
    }

    ghost function St(): State
      requires Shape()
      reads this`ready, words
    {
      State(ready, [active[0].Bits(), active[1].Bits(), active[2].Bits(), active[3].Bits()])
    }

    constructor (max: nat)
      requires max > 0
      ensures Valid() && St() == NothingReady() && maxQueues == max
      ensures deficit == [0, 0, 0, 0] && activations == drained == 0
      ensures fresh(words)
    {
      hide B.Bitmap.Valid, B.Bitmap.Bits, Inv;
      NothingReadyInv();
      var b0 := new B.Bitmap(max);
      var b1 := new B.Bitmap(max);
      var b2 := new B.Bitmap(max);
      var b3 := new B.Bitmap(max);
      maxQueues := max;
      active := [b0, b1, b2, b3];
      words := Words(b0) + Words(b1) + Words(b2) + Words(b3);
      ready, deficit, activations, drained := [[], [], [], []], [0, 0, 0, 0], 0, 0;
    }

    method Mark(id: nat, band: nat) returns (changed: bool)
      requires Parts() && band < BANDS && id < maxQueues
      modifies words
      ensures Parts() && changed == (id !in old(St()).active[band])
      ensures St() == old(St()).(active := old(St()).active[band := old(St()).active[band] + {id}])
    {
      hide B.Bitmap.Valid, B.Bitmap.Bits;
      changed := active[band].Set(id);
    }

    method Unmark(id: nat, band: nat)
      requires Parts() && band < BANDS
      modifies words
      ensures Parts() && St() == Deactivated(old(St()), id, band)
    {
      hide B.Bitmap.Valid, B.Bitmap.Bits;
      var _ := active[band].Clear(id);
    }

    /** Appends a queue to the ready ring of its band unless it is active already; 0, -1 or -4 when the ring is full. */
    method Activate(id: nat, band: nat) returns (rc: int)
      requires Valid()
      modifies this`ready, this`activations, words
      ensures Valid()
      ensures band >= BANDS || id >= maxQueues ==>
                rc == -1 && St() == old(St()) && activations == old(activations)
      ensures band < BANDS && id < maxQueues ==>
                && St() == Activated(old(St()), id, band)
                && rc == (if Refused(old(St()), id, band) then -4 else 0)
                && activations == old(activations) + (if St() == old(St()) then 0 else 1)
    {
      hide B.Bitmap.Valid, B.Bitmap.Bits, Listed;
      if band >= BANDS || id >= maxQueues {
        return -1;
      }
      ghost var s := St();
      ActivatedKeeps(s, id, band);
      var changed := Mark(id, band);
      if changed {
        if |ready[band]| >= READY_CAP {
          Unmark(id, band);
          assert St().active[band] == s.active[band];
          return -4;
        }
        ready := ready[band := ready[band] + [id]];
        activations := activations + 1;
        assert id in St().active[band];
      } else {
        assert s.active[band] + {id} == s.active[band];
      }
      rc := 0;
    }

    method Deactivate(id: nat, band: nat) returns (rc: int)
      requires Valid()
      modifies words
      ensures Valid()
      ensures band >= BANDS || id >= maxQueues ==> rc == -1 && St() == old(St())
      ensures band < BANDS && id < maxQueues ==> rc == 0 && St() == Deactivated(old(St()), id, band)
    {
      hide B.Bitmap.Valid, B.Bitmap.Bits;
      if band >= BANDS || id >= maxQueues {
        return -1;
      }
      Unmark(id, band);
      rc := 0;
    }

    /** Takes the oldest entry of a band; it counts only if that queue is active. */
    method PopBand(band: nat) returns (r: Option<nat>)
      requires Parts() && band < BANDS
      modifies this`ready
      ensures Parts() && St() == Polled(old(St()), band)
      ensures r == if old(ready)[band] != [] && old(ready)[band][0] in St().active[band]
                   then Some(old(ready)[band][0]) else None
    {
      if ready[band] == [] {
        return None;
      }
      var id := ready[band][0];
      ready := ready[band := ready[band][1..]];
      var live := active[band].Test(id);
      r := if live then Some(id) else None;
    }

    /** Books a queue that was taken from its ring. */
    method Grant(band: nat, id: nat) returns (credit: nat)
      requires Parts() && band < BANDS
      modifies this`deficit, this`drained, words
      ensures Parts() && St() == Deactivated(old(St()), id, band) && credit == CREDIT
      ensures drained == old(drained) + 1 && deficit == old(deficit)[band := old(deficit)[band] + Weight(band)]
    {
      hide B.Bitmap.Valid, B.Bitmap.Bits;
      deficit := deficit[band := deficit[band] + Weight(band)];
      drained := drained + 1;
      Unmark(id, band);
      credit := CREDIT;
    }

    method PopReady() returns (r: Option<Pick>, credit: nat)
      requires Valid()
      modifies this`ready, this`deficit, this`drained, words
      ensures Valid() && (St(), r) == Popped(old(St()), 0)
      ensures r.Some? ==> credit == CREDIT && drained == old(drained) + 1 && r.value.band < BANDS &&
                          deficit == old(deficit)[r.value.band := old(deficit)[r.value.band] + Weight(r.value.band)]
      ensures r.None? ==> drained == old(drained) && deficit == old(deficit)
    {
      hide B.Bitmap.Valid, B.Bitmap.Bits, Inv, Popped, Deactivated, Shape, Weight;
      PoppedKeeps(St(), 0);
      var band := 0;
      credit := 0;
      while band < BANDS
        invariant band <= BANDS && Parts()
        invariant deficit == old(deficit) && drained == old(drained)
        invariant Popped(old(St()), 0) == Popped(St(), band)
      {
        PopStep(St(), band);
        if ready[band] != [] {
          var id := PopBand(band);
          if id.Some? {
            credit := Grant(band, id.value);
            return Some(Pick(band, id.value)), credit;
          }
        }
        band := band + 1;
      }
      PopNone(St());
      r := None;
    }
  }

  lemma PopStep(s: State, band: nat)
    requires Bands(s) && band < BANDS
    ensures Popped(s, band) ==
      if s.ready[band] != [] && s.ready[band][0] in s.active[band]
      then (Deactivated(Polled(s, band), s.ready[band][0], band), Some(Pick(band, s.ready[band][0])))
      else if s.ready[band] == [] then Popped(s, band + 1) else Popped(Polled(s, band), band + 1)
  {
  }

  lemma PopNone(s: State)
    requires Bands(s)
    ensures Popped(s, BANDS) == (s, None)
  {
  }

  lemma ActivatedKeeps(s: State, id: nat, band: nat)
    requires Inv(s) && band < BANDS
    ensures Inv(Activated(s, id, band))
    ensures Clean(s) ==> Clean(Activated(s, id, band))
  {
  }

  lemma PoppedKeeps(s: State, from: nat)
    requires Inv(s) && from <= BANDS
    ensures Inv(Popped(s, from).0)
    decreases BANDS - from
  {
  }

  // ---- what a pop takes ----

  ghost predicate FirstReady(s: State, band: nat)
    requires Bands(s)
  {
    band < BANDS && s.ready[band] != [] && forall b :: 0 <= b < band ==> s.ready[b] == []
  }

  /** Whether the oldest entry of the first band that has any is taken depends on that entry alone. */
  lemma {:induction false} TakesOldestIff(s: State, band: nat, from: nat)
    requires Bands(s) && FirstReady(s, band) && from <= band
    ensures Popped(s, from).1 == Some(Pick(band, s.ready[band][0])) <==> s.ready[band][0] in s.active[band]
    decreases band - from
  {
    PopStep(s, from);
    if from < band {
      TakesOldestIff(s, band, from + 1);
    } else if s.ready[band][0] !in s.active[band] {
      LaterBand(Polled(s, band), band + 1);
    }
  }

  lemma {:induction false} LaterBand(s: State, from: nat)
    requires Bands(s) && from <= BANDS
    ensures Popped(s, from).1.Some? ==> from <= Popped(s, from).1.value.band < BANDS
    decreases BANDS - from
  {
    if from < BANDS {
      PopStep(s, from);
      LaterBand(s, from + 1);
      LaterBand(Polled(s, from), from + 1);
    }
  }

  /** When the rings hold active queues only, a pop takes the oldest one of the first band that has any. */
  lemma {:induction false} OldestFirst(s: State)
    requires Clean(s)
    ensures Popped(s, 0).1.None? <==> forall b :: 0 <= b < BANDS ==> s.active[b] == {}
    ensures forall band: nat :: FirstReady(s, band) ==> Popped(s, 0).1 == Some(Pick(band, s.ready[band][0]))
  {
    forall band: nat | FirstReady(s, band)
      ensures Popped(s, 0).1 == Some(Pick(band, s.ready[band][0]))
      ensures s.active[band] != {}
    {
      assert Exactly(s.ready[band], s.active[band]) && s.ready[band][0] in s.ready[band];
      TakesOldestIff(s, band, 0);
    }
    if exists b :: 0 <= b < BANDS && s.ready[b] != [] {
      var b :| 0 <= b < BANDS && s.ready[b] != [];
      FirstExists(s, b);
    } else {
      NothingToPop(s, 0);
      assert forall b :: 0 <= b < BANDS ==> Exactly(s.ready[b], s.active[b]);
    }
  }

  lemma FirstExists(s: State, b: nat)
    requires Bands(s) && b < BANDS && s.ready[b] != []
    ensures exists band :: FirstReady(s, band)
  {
    if !FirstReady(s, b) {
      var c :| 0 <= c < b && s.ready[c] != [];
      FirstExists(s, c);
    }
  }

  lemma NothingToPop(s: State, from: nat)
    requires Bands(s) && from <= BANDS && forall b :: from <= b < BANDS ==> s.ready[b] == []
    ensures Popped(s, from) == (s, None)
    decreases BANDS - from
  {
  }

  // ---- whole runs ----

  datatype Op = Activate(id: nat, band: nat) | Deactivate(id: nat, band: nat) | Pop

  predicate Accepted(max: nat, op: Op) {
    !op.Pop? ==> op.band < BANDS && op.id < max
  }

  function Step(max: nat, s: State, op: Op): (r: State)
    requires Bands(s)
    ensures Bands(r)
  {
    if !Accepted(max, op) then s
    else match op
      case Activate(id, band) => Activated(s, id, band)
      case Deactivate(id, band) => Deactivated(s, id, band)
      case Pop => Popped(s, 0).0
  }

  function Run(max: nat, ops: seq<Op>): (r: State)
    ensures Bands(r)
  {
    if ops == [] then NothingReady() else Step(max, Run(max, ops[..|ops| - 1]), ops[|ops| - 1])
  }

  /** The activations of a run that were put into a ring, in order. */
  function Entered(max: nat, ops: seq<Op>): seq<Pick> {
    if ops == [] then []
    else
      var s, op := Run(max, ops[..|ops| - 1]), ops[|ops| - 1];
      Entered(max, ops[..|ops| - 1]) +
      if op.Activate? && Accepted(max, op) && op.id !in s.active[op.band] && !Refused(s, op.id, op.band)
      then [Pick(op.band, op.id)] else []
  }

  /** What the pops of a run returned, in order. */
  function Taken(max: nat, ops: seq<Op>): seq<Pick> {
    if ops == [] then []
    else
      var r := Popped(Run(max, ops[..|ops| - 1]), 0).1;
      Taken(max, ops[..|ops| - 1]) + if ops[|ops| - 1].Pop? && r.Some? then [r.value] else []
  }

  function InBand(picks: seq<Pick>, band: nat): seq<nat> {
    if picks == [] then []
    else
      var last := picks[|picks| - 1];
      InBand(picks[..|picks| - 1], band) + if last.band == band then [last.id] else []
  }

  ghost predicate Below(s: State, max: nat) {
    Bands(s) && forall b, id :: 0 <= b < BANDS && id in s.ready[b] ==> id < max
  }

  /** In every run an active queue is in the ring of its band. */
  lemma {:induction false} ActiveIsReady(max: nat, ops: seq<Op>)
    ensures Inv(Run(max, ops)) && Below(Run(max, ops), max)
  {
    if ops == [] {
      NothingReadyInv();
    } else {
      var s, op := Run(max, ops[..|ops| - 1]), ops[|ops| - 1];
      ActiveIsReady(max, ops[..|ops| - 1]);
      if op.Activate? && Accepted(max, op) {
        ActivatedKeeps(s, op.id, op.band);
      }
      PoppedKeeps(s, 0);
      PoppedBelow(s, 0, max);
    }
  }

  lemma PoppedBelow(s: State, from: nat, max: nat)
    requires Below(s, max) && from <= BANDS
    ensures Below(Popped(s, from).0, max)
    decreases BANDS - from
  {
    if from < BANDS && s.ready[from] != [] {
      var ring := s.ready[from];
      forall id | id in ring[1..]
        ensures id < max
      {
        assert id in ring;
      }
      assert Below(Polled(s, from), max);
      PoppedBelow(Polled(s, from), from + 1, max);
    }
  }

  /** Per band: what went in is what came out, followed by what is still there. */
  ghost predicate InOrder(s: State, entered: seq<Pick>, taken: seq<Pick>)
    requires Bands(s)
  {
    forall b :: 0 <= b < BANDS ==> InBand(entered, b) == InBand(taken, b) + s.ready[b]
  }

  lemma EnterInOrder(s: State, entered: seq<Pick>, taken: seq<Pick>, id: nat, band: nat)
    requires Bands(s) && band < BANDS && InOrder(s, entered, taken) && id !in s.active[band] && !Refused(s, id, band)
    ensures InOrder(Activated(s, id, band), entered + [Pick(band, id)], taken)
  {
    OneMore(entered, Pick(band, id));
  }

  lemma LeaveInOrder(s: State, s': State, entered: seq<Pick>, taken: seq<Pick>, p: Pick)
    requires Bands(s) && Bands(s') && InOrder(s, entered, taken) && p.band < BANDS && s.ready[p.band] != []
    requires p.id == s.ready[p.band][0] && s'.ready == s.ready[p.band := s.ready[p.band][1..]]
    ensures InOrder(s', entered, taken + [p])
  {
    OneMore(taken, p);
  }

  /** Without deactivation every ring holds the active queues of its band, each once, and queues leave it in the order
      in which they were activated. */
  lemma {:induction false} FirstActivatedFirst(max: nat, ops: seq<Op>)
    requires forall op :: op in ops ==> !op.Deactivate?
    ensures Clean(Run(max, ops))
    ensures InOrder(Run(max, ops), Entered(max, ops), Taken(max, ops))
  {
    hide InOrder, Exactly, Listed, Popped, InBand;
    if ops == [] {
      NothingReadyInv();
      StartInOrder();
    } else {
      var before, op := ops[..|ops| - 1], ops[|ops| - 1];
      var s := Run(max, before);
      FirstActivatedFirst(max, before);
      ActiveIsReady(max, before);
      assert Entered(max, before) + [] == Entered(max, before) && Taken(max, before) + [] == Taken(max, before);
      if op.Activate? {
        if Accepted(max, op) {
          ActivatedKeeps(s, op.id, op.band);
          if op.id !in s.active[op.band] && !Refused(s, op.id, op.band) {
            EnterInOrder(s, Entered(max, before), Taken(max, before), op.id, op.band);
          }
        }
      } else {
        PopClean(s, 0);
        if Popped(s, 0).1.Some? {
          LeaveInOrder(s, Popped(s, 0).0, Entered(max, before), Taken(max, before), Popped(s, 0).1.value);
        }
      }
    }
  }

  lemma StartInOrder()
    ensures InOrder(NothingReady(), [], [])
  {
  }

  lemma OneMore(picks: seq<Pick>, p: Pick)
    ensures forall b :: InBand(picks + [p], b) == InBand(picks, b) + if p.band == b then [p.id] else []
  {
    assert (picks + [p])[..|picks|] == picks;
  }

  /** A pop from rings without stale entries. */
  lemma {:induction false} PopClean(s: State, from: nat)
    requires Clean(s) && from <= BANDS
    ensures Clean(Popped(s, from).0)
    ensures Popped(s, from).1.None? ==> Popped(s, from).0 == s
    ensures Popped(s, from).1.Some? ==>
              var p := Popped(s, from).1.value;
              p.band < BANDS && s.ready[p.band] != [] && p.id == s.ready[p.band][0] &&
              Popped(s, from).0.ready == s.ready[p.band := s.ready[p.band][1..]]
    decreases BANDS - from
  {
    if from < BANDS {
      PopStep(s, from);
      if s.ready[from] == [] {
        PopClean(s, from + 1);
      } else {
        assert Exactly(s.ready[from], s.active[from]);
        TailExactly(s.ready[from], s.active[from]);
      }
    }
  }

  lemma TailExactly(ring: seq<nat>, active: set<nat>)
    requires Exactly(ring, active) && ring != []
    ensures ring[0] in active && Exactly(ring[1..], active - {ring[0]})
  {
    assert ring == [ring[0]] + ring[1..];
    assert Distinct(ring[1..]) by { assert forall i :: 0 <= i < |ring| - 1 ==> ring[1..][i] == ring[i + 1]; }
  }

  /** As long as nothing was deactivated, a ring never runs full of at most READY_CAP queues. */
  lemma NeverRefused(max: nat, ops: seq<Op>, id: nat, band: nat)
    requires max <= READY_CAP && id < max && band < BANDS && forall op :: op in ops ==> !op.Deactivate?
    ensures !Refused(Run(max, ops), id, band)
  {
    FirstActivatedFirst(max, ops);
    ActiveIsReady(max, ops);
    var ring := Run(max, ops).ready[band];
    if id !in Run(max, ops).active[band] {
      assert Exactly(ring, Run(max, ops).active[band]);
      Pigeonhole(ring + [id], UpTo(max));
    }
  }

  function UpTo(n: nat): (r: set<nat>)
    ensures |r| == n && forall i: nat :: i in r <==> i < n
  {
    if n == 0 then {} else UpTo(n - 1) + {n - 1}
  }

  lemma {:induction false} Pigeonhole(s: seq<nat>, from: set<nat>)
    requires Distinct(s) && forall x :: x in s ==> x in from
    ensures |s| <= |from|
  {
    if s != [] {
      assert forall i :: 0 <= i < |s| - 1 ==> s[1..][i] == s[i + 1];
      Pigeonhole(s[1..], from - {s[0]});
    }
  }

  // ---- stale entries ----

  function Toggles(n: nat): seq<Op> {
    if n == 0 then [] else Toggles(n - 1) + [Activate(0, 0), Deactivate(0, 0)]
  }

  lemma RunMore(max: nat, ops: seq<Op>, op: Op)
    ensures Run(max, ops + [op]) == Step(max, Run(max, ops), op)
  {
    assert (ops + [op])[..|ops|] == ops;
  }

  /** A queue that is deactivated leaves its entry behind: entries of one queue can fill a ring, and then a queue that
      is not active is refused. */
  lemma {:induction false} StaleEntriesFill(n: nat)
    requires n <= READY_CAP
    ensures |Run(1, Toggles(n)).ready[0]| == n && Run(1, Toggles(n)).active[0] == {}
    ensures n == READY_CAP ==> Refused(Run(1, Toggles(n)), 0, 0)
  {
    if n > 0 {
      StaleEntriesFill(n - 1);
      Toggled(n - 1);
    }
  }

  lemma Toggled(n: nat)
    ensures Run(1, Toggles(n + 1)) == Deactivated(Activated(Run(1, Toggles(n)), 0, 0), 0, 0)
  {
    hide Run, Activated, Deactivated;
    var before := Toggles(n);
    assert Toggles(n + 1) == before + [Activate(0, 0)] + [Deactivate(0, 0)];
    RunMore(1, before, Activate(0, 0));
    RunMore(1, before + [Activate(0, 0)], Deactivate(0, 0));
  }

  /** And a pop that meets a stale entry returns nothing from that band, though there is an active queue behind it. */
  lemma StaleEntryHides()
    ensures var s := Run(2, [Activate(0, 0)] + [Deactivate(0, 0)] + [Activate(1, 0)]);
            IsActive(s, Pick(0, 1)) && Popped(s, 0).1.None? && Popped(Popped(s, 0).0, 0).1 == Some(Pick(0, 1))
  {
    hide Run, Popped, IsActive;
    RunMore(2, [], Activate(0, 0));
    RunMore(2, [Activate(0, 0)], Deactivate(0, 0));
    RunMore(2, [Activate(0, 0)] + [Deactivate(0, 0)], Activate(1, 0));
    Started(2);
    assert [] + [Activate(0, 0)] == [Activate(0, 0)];
    OneBehindStale();
  }

  lemma Started(max: nat)
    ensures Run(max, []) == NothingReady()
  {
  }

  lemma OneBehindStale()
    ensures var s := Activated(Deactivated(Activated(NothingReady(), 0, 0), 0, 0), 1, 0);
            IsActive(s, Pick(0, 1)) && Popped(s, 0).1.None? && Popped(Popped(s, 0).0, 0).1 == Some(Pick(0, 1))
  {
    var s1 := Activated(NothingReady(), 0, 0);
    assert s1.ready[0] == [0] && s1.active[0] == {0};
    var s2 := Deactivated(s1, 0, 0);
    assert s2.ready[0] == [0] && s2.active[0] == {};
    var s := Activated(s2, 1, 0);
    assert s.ready[0] == [0, 1] && s.active[0] == {1};
    assert s.ready == [[0, 1], [], [], []];
    PopStep(s, 0);
    assert Polled(s, 0).ready[0] == [1];
    NothingToPop(Polled(s, 0), 1);
    PopStep(Polled(s, 0), 0);
  }

  function Entries(s: State): nat
    requires Bands(s)
  {
    |s.ready[0]| + |s.ready[1]| + |s.ready[2]| + |s.ready[3]|
  }

  /** The results of `n` pops in a row, and what is left. */
  function Pops(s: State, n: nat): (r: (State, seq<Pick>))
    requires Bands(s)
    ensures Bands(r.0)
    decreases n
  {
    if n == 0 then (s, [])
    else
      var (s1, p) := Popped(s, 0);
      var (s2, ps) := Pops(s1, n - 1);
      (s2, (if p.Some? then [p.value] else []) + ps)
  }

  ghost predicate IsActive(s: State, p: Pick)
    requires Bands(s)
  {
    p.band < BANDS && p.id in s.active[p.band]
  }

  /** Stale entries cost pops but no queue: with as many pops as there are entries, every active queue is returned,
      exactly once, and nothing else is. */
  lemma {:induction false} Drained(s: State, n: nat)
    requires Inv(s) && Entries(s) <= n
    ensures Entries(Pops(s, n).0) == 0
    ensures Distinct(Pops(s, n).1) && forall p :: p in Pops(s, n).1 <==> IsActive(s, p)
    decreases n
  {
    hide Listed;
    if n == 0 {
      NothingActive(s);
    } else {
      var (s1, p) := Popped(s, 0);
      PoppedKeeps(s, 0);
      PopUses(s, 0);
      if Entries(s) == 0 { NothingToPop(s, 0); }
      Drained(s1, n - 1);
    }
  }

  lemma NothingActive(s: State)
    requires Inv(s) && Entries(s) == 0
    ensures forall p :: !IsActive(s, p)
  {
    assert forall b :: 0 <= b < BANDS ==> Listed(s.ready[b], s.active[b]);
  }

  /** A pop uses up at least one entry, and deactivates what it returns. */
  lemma {:induction false} PopUses(s: State, from: nat)
    requires Bands(s) && from <= BANDS
    ensures Entries(Popped(s, from).0) <= Entries(s)
    ensures (forall b :: 0 <= b < from ==> s.ready[b] == []) && Entries(s) > 0 ==> Entries(Popped(s, from).0) < Entries(s)
    ensures TookActive(s, Popped(s, from).0, Popped(s, from).1)
    decreases BANDS - from
  {
    hide TookActive;
    if from == BANDS {
      TookNothing(s, s);
    } else {
      PopStep(s, from);
      if s.ready[from] == [] {
        PopUses(s, from + 1);
      } else if s.ready[from][0] !in s.active[from] {
        PopUses(Polled(s, from), from + 1);
        TookAfter(s, Polled(s, from), Popped(s, from).0, Popped(s, from).1);
      } else {
        TookHead(s, from);
      }
    }
  }

  /** From `s` to `s'`, what was taken is deactivated, and nothing else. */
  ghost predicate TookActive(s: State, s': State, r: Option<Pick>)
    requires Bands(s) && Bands(s')
  {
    if r.None? then s'.active == s.active
    else IsActive(s, r.value) && forall p :: IsActive(s', p) <==> IsActive(s, p) && p != r.value
  }

  lemma TookNothing(s: State, s': State)
    requires Bands(s) && Bands(s') && s.active == s'.active
    ensures TookActive(s, s', None)
  {
  }

  lemma TookAfter(s: State, s1: State, s': State, r: Option<Pick>)
    requires Bands(s) && Bands(s1) && Bands(s') && s.active == s1.active && TookActive(s1, s', r)
    ensures TookActive(s, s', r)
  {
    assert forall p :: IsActive(s, p) <==> IsActive(s1, p);
  }

  lemma TookHead(s: State, band: nat)
    requires Bands(s) && band < BANDS && s.ready[band] != [] && s.ready[band][0] in s.active[band]
    ensures var id := s.ready[band][0];
            TookActive(s, Deactivated(Polled(s, band), id, band), Some(Pick(band, id)))
  {
  }
}
