/** The table of delivery states: a growing array of slots, searched linearly. */
module Inflight {
  import opened Optional

  datatype State = Unused | Active | Consumed | Reserved | Ttl

  /** A slot.  A cleared slot is all zeros. */
  datatype Slot = Slot(state: State, msgId: nat, offset: nat, visibleAt: nat)

  const CLEAR: Slot := Slot(Unused, 0, 0, 0)

  predicate Is(slots: seq<Slot>, i: int, st: State) {
    0 <= i < |slots| && slots[i].state == st
  }

  ghost predicate Occurs(slots: seq<Slot>, st: State, offset: nat) {
    exists i :: Is(slots, i, st) && slots[i].offset == offset
  }

  /** What occurs still does, unless its slot was changed. */
  lemma StillOccurs(slots: seq<Slot>, slots': seq<Slot>, st: State, i: int)
    requires forall k :: k != i && Is(slots, k, st) ==> Is(slots', k, st) && slots'[k] == slots[k]
    ensures forall o :: Occurs(slots, st, o) && !(Is(slots, i, st) && slots[i].offset == o) ==> Occurs(slots', st, o)
  {
    forall o | Occurs(slots, st, o) && !(Is(slots, i, st) && slots[i].offset == o)
      ensures Occurs(slots', st, o)
    {
      var k :| Is(slots, k, st) && slots[k].offset == o;
      assert Is(slots', k, st);
    }
  }

  /** The slots in state `st` are exactly the entries of `m`, each once. */
  ghost predicate Rep(slots: seq<Slot>, st: State, m: map<nat, Slot>) {
    (forall i :: Is(slots, i, st) ==> slots[i].offset in m && m[slots[i].offset] == slots[i]) &&
    (forall o :: o in m ==> m[o].state == st && m[o].offset == o && Occurs(slots, st, o)) &&
    (forall i, j :: Is(slots, i, st) && Is(slots, j, st) && slots[i].offset == slots[j].offset ==> i == j)
  }

  /** Putting a slot in state `st` where there was none. */
  lemma RepInsert(slots: seq<Slot>, st: State, m: map<nat, Slot>, i: nat, x: Slot)
    requires Rep(slots, st, m) && i < |slots| && slots[i].state != st && x.state == st && x.offset !in m
    ensures Rep(slots[i := x], st, m[x.offset := x])
  {
    var slots' := slots[i := x];
    assert Is(slots', i, st);
    assert forall k :: k != i && Is(slots, k, st) ==> Is(slots', k, st);
    assert forall k :: k != i && Is(slots', k, st) ==> Is(slots, k, st);
    StillOccurs(slots, slots', st, i);
  }

  /** Taking a slot out of state `st`. */
  lemma RepRemove(slots: seq<Slot>, st: State, m: map<nat, Slot>, i: nat, x: Slot)
    requires Rep(slots, st, m) && Is(slots, i, st) && x.state != st
    ensures slots[i].offset in m && Rep(slots[i := x], st, m - {slots[i].offset})
  {
    var slots' := slots[i := x];
    assert forall k :: k != i && Is(slots, k, st) ==> Is(slots', k, st);
    assert forall k :: Is(slots', k, st) ==> k != i && Is(slots, k, st);
    StillOccurs(slots, slots', st, i);
  }

  /** Changing a slot that stays in state `st`. */
  lemma RepUpdate(slots: seq<Slot>, st: State, m: map<nat, Slot>, i: nat, x: Slot)
    requires Rep(slots, st, m) && Is(slots, i, st) && x.state == st && x.offset == slots[i].offset
    ensures slots[i].offset in m && Rep(slots[i := x], st, m[x.offset := x])
  {
    var slots' := slots[i := x];
    assert forall k :: Is(slots, k, st) ==> Is(slots', k, st);
    assert forall k :: Is(slots', k, st) ==> Is(slots, k, st);
    StillOccurs(slots, slots', st, i);
  }

  /** Tables with the same slots in state `st`. */
  lemma RepSame(slots: seq<Slot>, slots': seq<Slot>, st: State, m: map<nat, Slot>)
    requires Rep(slots, st, m)
    requires forall k :: Is(slots, k, st) ==> Is(slots', k, st) && slots'[k] == slots[k]
    requires forall k :: Is(slots', k, st) ==> Is(slots, k, st)
    ensures Rep(slots', st, m)
  {
    StillOccurs(slots, slots', st, -1);
  }

  /** Changing a slot that is in other states before and after. */
  lemma RepOther(slots: seq<Slot>, st: State, m: map<nat, Slot>, i: nat, x: Slot)
    requires Rep(slots, st, m) && i < |slots| && slots[i].state != st && x.state != st
    ensures Rep(slots[i := x], st, m)
  {
    hide Rep;
    RepSame(slots, slots[i := x], st, m);
  }

  /** Adding cleared slots. */
  lemma RepGrow(slots: seq<Slot>, st: State, m: map<nat, Slot>, more: seq<Slot>)
    requires Rep(slots, st, m) && st != Unused && forall j :: 0 <= j < |more| ==> more[j] == CLEAR
    ensures Rep(slots + more, st, m)
  {
    hide Rep;
    RepSame(slots, slots + more, st, m);
  }

  lemma NoSlots(slots: seq<Slot>, st: State, m: map<nat, Slot>)
    requires Rep(slots, st, m) && forall k :: !Is(slots, k, st)
    ensures m == map[]
  {
    assert forall o :: o in m ==> !Occurs(slots, st, o);
  }

  // ---- all states at once ----

  /** The slots by state and offset. */
  datatype Maps = Maps(active: map<nat, Slot>, consumed: map<nat, Slot>, ttl: map<nat, Slot>, reserved: map<nat, Slot>)

  function Of(m: Maps, st: State): map<nat, Slot> {
    match st
    case Active => m.active
    case Consumed => m.consumed
    case Ttl => m.ttl
    case Reserved => m.reserved
    case Unused => map[]
  }

  function With(m: Maps, st: State, x: map<nat, Slot>): Maps {
    match st
    case Active => m.(active := x)
    case Consumed => m.(consumed := x)
    case Ttl => m.(ttl := x)
    case Reserved => m.(reserved := x)
    case Unused => m
  }

  ghost predicate RepAll(slots: seq<Slot>, m: Maps) {
    Rep(slots, Active, m.active) && Rep(slots, Consumed, m.consumed) && Rep(slots, Ttl, m.ttl) && Rep(slots, Reserved, m.reserved)
  }

  lemma RepOf(slots: seq<Slot>, m: Maps, st: State)
    requires RepAll(slots, m) && st != Unused
    ensures Rep(slots, st, Of(m, st))
  {
    hide Rep;
  }

  function Added(m: Maps, x: Slot): Maps {
    With(m, x.state, Of(m, x.state)[x.offset := x])
  }

  function Dropped(m: Maps, x: Slot): Maps {
    With(m, x.state, Of(m, x.state) - {x.offset})
  }

  /** An unused slot is put to use. */
  lemma AddAll(slots: seq<Slot>, m: Maps, i: nat, x: Slot)
    requires RepAll(slots, m) && Is(slots, i, Unused) && x.state != Unused && x.offset !in Of(m, x.state)
    ensures RepAll(slots[i := x], Added(m, x))
  {
    hide Rep;
    RepOf(slots, m, x.state);
    RepInsert(slots, x.state, Of(m, x.state), i, x);
    OthersSame(slots, m, i, x);
  }

  lemma OthersSame(slots: seq<Slot>, m: Maps, i: nat, x: Slot)
    requires RepAll(slots, m) && i < |slots|
    ensures slots[i].state != Active && x.state != Active ==> Rep(slots[i := x], Active, m.active)
    ensures slots[i].state != Consumed && x.state != Consumed ==> Rep(slots[i := x], Consumed, m.consumed)
    ensures slots[i].state != Ttl && x.state != Ttl ==> Rep(slots[i := x], Ttl, m.ttl)
    ensures slots[i].state != Reserved && x.state != Reserved ==> Rep(slots[i := x], Reserved, m.reserved)
  {
    hide Rep;
    if slots[i].state != Active && x.state != Active { RepOther(slots, Active, m.active, i, x); }
    if slots[i].state != Consumed && x.state != Consumed { RepOther(slots, Consumed, m.consumed, i, x); }
    if slots[i].state != Ttl && x.state != Ttl { RepOther(slots, Ttl, m.ttl, i, x); }
    if slots[i].state != Reserved && x.state != Reserved { RepOther(slots, Reserved, m.reserved, i, x); }
  }

  /** A slot is cleared. */
  lemma DropAll(slots: seq<Slot>, m: Maps, i: nat)
    requires RepAll(slots, m) && i < |slots| && slots[i].state != Unused
    ensures slots[i].offset in Of(m, slots[i].state) && Of(m, slots[i].state)[slots[i].offset] == slots[i]
    ensures RepAll(slots[i := CLEAR], Dropped(m, slots[i]))
  {
    var st := slots[i].state;
    RepOf(slots, m, st);
    assert Is(slots, i, st);
    DropOne(slots, m, i, st);
  }

  lemma DropOne(slots: seq<Slot>, m: Maps, i: nat, st: State)
    requires RepAll(slots, m) && Is(slots, i, st) && st != Unused
    ensures RepAll(slots[i := CLEAR], Dropped(m, slots[i]))
  {
    hide Rep;
    RepOf(slots, m, st);
    RepRemove(slots, st, Of(m, st), i, CLEAR);
    OthersSame(slots, m, i, CLEAR);
  }

  /** A slot goes from one state to another, or changes within its state. */
  lemma MoveAll(slots: seq<Slot>, m: Maps, i: nat, x: Slot)
    requires RepAll(slots, m) && i < |slots| && slots[i].state != Unused && x.state != Unused
    requires if x.state == slots[i].state then x.offset == slots[i].offset else x.offset !in Of(m, x.state)
    ensures RepAll(slots[i := x], if x.state == slots[i].state then Added(m, x) else Added(Dropped(m, slots[i]), x))
  {
    hide Rep;
    var st := slots[i].state;
    RepOf(slots, m, st);
    RepOf(slots, m, x.state);
    OthersSame(slots, m, i, x);
    if x.state == st {
      RepUpdate(slots, st, Of(m, st), i, x);
    } else {
      RepRemove(slots, st, Of(m, st), i, x);
      RepInsert(slots, x.state, Of(m, x.state), i, x);
    }
  }

  lemma GrowAll(slots: seq<Slot>, m: Maps, more: seq<Slot>)
    requires RepAll(slots, m) && forall j :: 0 <= j < |more| ==> more[j] == CLEAR
    ensures RepAll(slots + more, m)
  {
    hide Rep;
    RepGrow(slots, Active, m.active, more);
    RepGrow(slots, Consumed, m.consumed, more);
    RepGrow(slots, Ttl, m.ttl, more);
    RepGrow(slots, Reserved, m.reserved, more);
  }

  lemma ClearRep(slots: seq<Slot>)
    requires forall i :: 0 <= i < |slots| ==> slots[i] == CLEAR
    ensures RepAll(slots, Maps(map[], map[], map[], map[]))
  {
  }

  class Table {
    var slots: array<Slot>
    var hint: nat

    ghost predicate Valid()
      reads this
    {
      8 <= slots.Length
    }

    /** Allocated at the first use, with 8 slots. */
    constructor ()
      ensures Valid() && fresh(slots) && slots.Length == 8 && forall i :: 0 <= i < 8 ==> slots[i] == CLEAR
    {
      slots := new Slot[8](_ => CLEAR);
      hint := 0;
    }

    /** The first slot in this state with this id (0 stands for any) and offset (None for any). */
    method Find(st: State, msgId: nat, offset: Option<nat>) returns (i: nat)
      ensures i <= slots.Length && (i < slots.Length ==> Matches(slots[i], st, msgId, offset))
      ensures forall k :: 0 <= k < i ==> !Matches(slots[k], st, msgId, offset)
    {
      i := 0;
      while i < slots.Length
        invariant 0 <= i <= slots.Length && forall k :: 0 <= k < i ==> !Matches(slots[k], st, msgId, offset)
      {
        if Matches(slots[i], st, msgId, offset) {
          return;
        }
        i := i + 1;
      }
    }

    /** The slot of this state and offset. */
    method Lookup(st: State, offset: nat, ghost m: Maps) returns (i: nat)
      requires RepAll(slots[..], m) && st != Unused
      ensures i <= slots.Length && (i < slots.Length <==> offset in Of(m, st))
      ensures i < slots.Length ==> slots[i] == Of(m, st)[offset] && slots[i].state == st && slots[i].offset == offset
    {
      RepOf(slots[..], m, st);
      i := Find(st, 0, Some(offset));
      FoundOrNot(slots[..], st, Of(m, st), offset, i);
    }

    /** Puts a slot to use; the table doubles when all are in use. */
    method Enter(x: Slot, ghost m: Maps)
      requires Valid() && RepAll(slots[..], m) && x.state != Unused && x.offset !in Of(m, x.state)
      modifies this, slots
      ensures Valid() && RepAll(slots[..], Added(m, x)) && (slots == old(slots) || fresh(slots))
    {
      hide RepAll;
      ghost var before := slots[..];
      var i := Take();
      if slots != old(slots) { GrowAll(before, m, Cleared(slots.Length - |before|)); }
      AddAll(slots[..], m, i, x);
      slots[i] := x;
    }

    method Clear(i: nat, ghost m: Maps)
      requires RepAll(slots[..], m) && i < slots.Length && slots[i].state != Unused
      modifies slots
      ensures RepAll(slots[..], Dropped(m, old(slots[i])))
      ensures old(slots[i]).offset in Of(m, old(slots[i]).state)
      ensures slots[..] == old(slots[..])[i := CLEAR]
    {
      DropAll(slots[..], m, i);
      slots[i] := CLEAR;
    }

    method Change(i: nat, x: Slot, ghost m: Maps)
      requires RepAll(slots[..], m) && i < slots.Length && slots[i].state != Unused && x.state != Unused
      requires if x.state == slots[i].state then x.offset == slots[i].offset else x.offset !in Of(m, x.state)
      modifies slots
      ensures RepAll(slots[..], if x.state == old(slots[i]).state then Added(m, x) else Added(Dropped(m, old(slots[i])), x))
    {
      MoveAll(slots[..], m, i, x);
      slots[i] := x;
    }

    /** A slot that is not in use, searched from the hint on; the table doubles when there is none. */
    method Take() returns (i: nat)
      requires Valid()
      modifies this
      ensures Valid() && i < slots.Length && slots[i].state == Unused
      ensures slots == old(slots) || (fresh(slots) && slots[..] == old(slots[..]) + Cleared(slots.Length - old(slots.Length)))
      ensures slots == old(slots) ==> slots[..] == old(slots[..])
      ensures slots.Length >= old(slots.Length)
    {
      var start := if hint < slots.Length then hint else 0;
      var k := 0;
      while k < slots.Length
        modifies this`hint
        invariant 0 <= k <= slots.Length
      {
        var idx := start + k;
        if idx >= slots.Length {
          idx := idx - slots.Length;
        }
        if slots[idx].state == Unused {
          hint := idx + 1;
          return idx;
        }
        k := k + 1;
      }
      var oldCap := slots.Length;
      var grown := new Slot[oldCap * 2](j requires 0 <= j < oldCap * 2 reads this, slots =>
        if j < slots.Length then slots[j] else CLEAR);
      assert grown[..] == slots[..] + Cleared(oldCap);
      slots := grown;
      hint := oldCap + 1;
      i := oldCap;
    }
  }

  predicate Matches(x: Slot, st: State, msgId: nat, offset: Option<nat>) {
    x.state == st && (msgId != 0 ==> x.msgId == msgId) && (offset.Some? ==> x.offset == offset.value)
  }

  lemma FoundOrNot(slots: seq<Slot>, st: State, m: map<nat, Slot>, offset: nat, i: nat)
    requires Rep(slots, st, m) && i <= |slots| && (i < |slots| ==> slots[i].state == st && slots[i].offset == offset)
    requires forall k :: 0 <= k < i ==> !Matches(slots[k], st, 0, Some(offset))
    ensures i < |slots| <==> offset in m
    ensures i < |slots| ==> slots[i] == m[offset]
  {
    if i < |slots| {
      assert Is(slots, i, st);
    } else {
      assert forall k :: Is(slots, k, st) ==> !Matches(slots[k], st, 0, Some(offset));
    }
  }

  function Cleared(n: int): (r: seq<Slot>)
    ensures forall j :: 0 <= j < |r| ==> r[j] == CLEAR
    ensures n >= 0 ==> |r| == n
  {
    if n <= 0 then [] else seq(n, _ => CLEAR)
  }
}
