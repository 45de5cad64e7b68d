/** The handshake between push and a blocking pop on a single-producer single-consumer queue.

    The consumer takes a snapshot of the sequence word, tries to pop, registers itself as a waiter and sleeps
    on the word; the producer puts the message in the ring, bumps the word, and wakes only if it sees a waiter.
    Each of these is an atomic step and the two threads interleave freely.  A timeout, a signal, or a wake-up
    meant for an earlier message may end a sleep at any time.

    A message with a lifetime or a delivery time does not go to the ring but to the log, and the word is not bumped.
    A pop that finds the ring empty looks there too.
  */
module Wakeup {

  datatype Producer =
    | Ready            // between two pushes
    | Placed           // the message is in the ring
    | Bumped           // the sequence word has been incremented
    | SawWaiter        // waiters was not zero: about to wake

  datatype Consumer =
    | Away                       // not inside pop
    | Snapped(seen: nat)       // has read the sequence word
    | FoundEmpty(seen: nat)    // the ring was empty after that
    | Registered(seen: nat)    // counted in waiters
    | Checked(seen: nat)       // has compared the word, about to enter the kernel
    | Asleep(seen: nat)
    | Leaving                    // awake, still counted in waiters

  /** `log`: when each message in the log may be delivered. */
  datatype State = State(ring: seq<int>, seqWait: nat, waiters: nat, producer: Producer, consumer: Consumer, log: seq<nat>, now: nat)

  datatype Action =
    | Put(x: int) | PutLog(due: nat) | DropOldest | Bump | LoadWaiters | Wake | Elapse(later: nat)
    | Enter | TryPop | GiveUp | Register | Compare | FutexWait | TimedOut | Interrupted | Unregister

  const START := State([], 0, 0, Ready, Away, [], 0)

  /** The oldest message in the log may be delivered. */
  predicate InLog(s: State) {
    s.log != [] && s.log[0] <= s.now
  }

  ghost predicate Step(s: State, a: Action, s': State) {
    match a
    case Put(x) => s.producer.Ready? && s' == s.(ring := s.ring + [x], producer := Placed)
    case PutLog(due) => s.producer.Ready? && s' == s.(log := s.log + [due])
    case Elapse(later) => s.now <= later && s' == s.(now := later)
    case DropOldest => s.producer.Ready? && s.ring != [] && s' == s.(ring := s.ring[1..])
    case Bump => s.producer.Placed? && s' == s.(seqWait := s.seqWait + 1, producer := Bumped)
    case LoadWaiters => s.producer.Bumped? && s' == s.(producer := if s.waiters != 0 then SawWaiter else Ready)
    case Wake => s.producer.SawWaiter? &&
      s' == s.(producer := Ready, consumer := if s.consumer.Asleep? then Leaving else s.consumer)
    case Enter => s.consumer.Away? && s' == s.(consumer := Snapped(s.seqWait))
    case TryPop => s.consumer.Snapped? &&
      s' == if s.ring != [] then s.(ring := s.ring[1..], consumer := Away)
            else if InLog(s) then s.(log := s.log[1..], consumer := Away)
            else s.(consumer := FoundEmpty(s.consumer.seen))
    case GiveUp => s.consumer.FoundEmpty? && s' == s.(consumer := Away)
    case Register => s.consumer.FoundEmpty? && s' == s.(waiters := s.waiters + 1, consumer := Registered(s.consumer.seen))
    case Compare => s.consumer.Registered? &&
      s' == s.(consumer := if s.seqWait != s.consumer.seen then Leaving else Checked(s.consumer.seen))
    case FutexWait => s.consumer.Checked? &&
      s' == s.(consumer := if s.seqWait != s.consumer.seen then Leaving else Asleep(s.consumer.seen))
    case TimedOut => s.consumer.Asleep? && s' == s.(consumer := Leaving)
    case Interrupted => s.consumer.Asleep? &&
      s' == s.(consumer := if s.seqWait != s.consumer.seen then Leaving else Registered(s.consumer.seen))
    case Unregister => s.consumer.Leaving? && s.waiters > 0 && s' == s.(waiters := s.waiters - 1, consumer := Away)
  }

  /** The consumer sleeps although there is something to read and nobody is going to wake it. */
  predicate LostWakeup(s: State) {
    s.consumer.Asleep? && s.ring != [] && s.producer.Ready?
  }

  /** Since the consumer found the ring empty, whatever is in the ring has changed the word, or is about to. */
  predicate SnapshotOk(s: State) {
    match s.consumer
    case Away => true
    case Leaving => true
    case Snapped(seen) => seen <= s.seqWait
    case FoundEmpty(seen) => seen <= s.seqWait && (s.ring != [] ==> seen < s.seqWait || s.producer.Placed?)
    case Registered(seen) => seen <= s.seqWait && (s.ring != [] ==> seen < s.seqWait || s.producer.Placed?)
    case Checked(seen) => seen <= s.seqWait && (s.ring != [] ==> seen < s.seqWait || s.producer.Placed?)
    case Asleep(seen) => seen <= s.seqWait && (s.ring != [] ==> seen < s.seqWait || s.producer.Placed?) &&
                           (seen < s.seqWait ==> s.producer.Bumped? || s.producer.SawWaiter?)
  }

  predicate Inv(s: State) {
    SnapshotOk(s) &&
    s.waiters == if s.consumer.Registered? || s.consumer.Checked? || s.consumer.Asleep? || s.consumer.Leaving? then 1 else 0
  }

  lemma StepInv(s: State, a: Action, s': State)
    requires Inv(s) && Step(s, a, s')
    ensures Inv(s')
  {
  }

  ghost predicate Run(states: seq<State>, acts: seq<Action>) {
    |states| == |acts| + 1 && states[0] == START &&
    forall i :: 0 <= i < |acts| ==> StepAt(states, acts, i)
  }

  ghost predicate StepAt(states: seq<State>, acts: seq<Action>, i: nat)
    requires i < |acts| < |states|
  {
    Step(states[i], acts[i], states[i + 1])
  }

  /** No interleaving leads to a lost wake-up. */
  lemma {:induction false} NoLostWakeup(states: seq<State>, acts: seq<Action>, k: nat)
    requires Run(states, acts) && k <= |acts|
    ensures Inv(states[k]) && !LostWakeup(states[k])
  {
    if k > 0 {
      NoLostWakeup(states, acts, k - 1);
      assert StepAt(states, acts, k - 1);
      StepInv(states[k - 1], acts[k - 1], states[k]);
    }
  }

  predicate IsProducerStep(a: Action) {
    a.Put? || a.PutLog? || a.DropOldest? || a.Bump? || a.LoadWaiters? || a.Wake?
  }

  /** How many steps of the producer separate a sleeping consumer from its wake-up. */
  function StepsToWake(s: State): nat {
    match s.producer
    case Ready => 0
    case Placed => 3
    case Bumped => 2
    case SawWaiter => 1
  }

  /** Every step of a producer that owes a wake-up brings it closer; nothing the consumer does while it is
      asleep takes it further away. */
  lemma ProducerMakesProgress(s: State, a: Action, s': State)
    requires Inv(s) && Step(s, a, s') && s.consumer.Asleep? && s.ring != [] && s'.consumer.Asleep?
    ensures s'.ring != []
    ensures IsProducerStep(a) || a.Elapse?
    ensures StepsToWake(s') == StepsToWake(s) - (if IsProducerStep(a) then 1 else 0)
  {
  }

  ghost function ProducerSteps(acts: seq<Action>, i: nat, j: nat): nat
    requires i <= j <= |acts|
  {
    if i == j then 0 else ProducerSteps(acts, i, j - 1) + if IsProducerStep(acts[j - 1]) then 1 else 0
  }

  /** A consumer that sleeps on a non-empty ring is awake after at most three more steps of the producer. */
  lemma {:induction false} SleeperIsWoken(states: seq<State>, acts: seq<Action>, i: nat, j: nat)
    requires Run(states, acts) && i <= j <= |acts|
    requires forall k :: i <= k <= j ==> states[k].consumer.Asleep?
    requires states[i].ring != []
    ensures states[j].ring != []
    ensures ProducerSteps(acts, i, j) + StepsToWake(states[j]) == StepsToWake(states[i])
    ensures ProducerSteps(acts, i, j) < 3 && forall k :: i <= k < j ==> IsProducerStep(acts[k]) || acts[k].Elapse?
    decreases j - i
  {
    NoLostWakeup(states, acts, j);
    if i < j {
      SleeperIsWoken(states, acts, i, j - 1);
      NoLostWakeup(states, acts, j - 1);
      assert StepAt(states, acts, j - 1);
      ProducerMakesProgress(states[j - 1], acts[j - 1], states[j]);
    }
  }

  // ---- what is in the ring is read ----

  /** A step that brings the consumer closer to the message in front: the producer's, if the consumer has yet to be told. */
  function Next(s: State): (Action, State)
    requires Inv(s) && s.ring != []
  {
    match s.consumer
    case Away => (Enter, s.(consumer := Snapped(s.seqWait)))
    case Snapped(_) => (TryPop, s.(ring := s.ring[1..], consumer := Away))
    case FoundEmpty(seen) => (Register, s.(waiters := s.waiters + 1, consumer := Registered(seen)))
    case Registered(seen) =>
      if s.seqWait != seen then (Compare, s.(consumer := Leaving)) else (Bump, s.(seqWait := s.seqWait + 1, producer := Bumped))
    case Checked(seen) =>
      if s.seqWait != seen then (FutexWait, s.(consumer := Leaving)) else (Bump, s.(seqWait := s.seqWait + 1, producer := Bumped))
    case Asleep(_) =>
      if s.producer.SawWaiter? then (Wake, s.(producer := Ready, consumer := Leaving))
      else if s.producer.Bumped? then (LoadWaiters, s.(producer := SawWaiter))
      else (Bump, s.(seqWait := s.seqWait + 1, producer := Bumped))
    case Leaving => (Unregister, s.(waiters := s.waiters - 1, consumer := Away))
  }

  /** How many such steps it takes. */
  function Distance(s: State): nat {
    match s.consumer
    case Away => 2
    case Snapped(_) => 1
    case FoundEmpty(seen) => if s.seqWait != seen then 5 else 6
    case Registered(seen) => if s.seqWait != seen then 4 else 5
    case Checked(seen) => if s.seqWait != seen then 4 else 5
    case Asleep(_) => 3 + StepsToWake(s)
    case Leaving => 3
  }

  lemma NextIsCloser(s: State)
    requires Inv(s) && s.ring != []
    ensures Step(s, Next(s).0, Next(s).1)
    ensures if Next(s).0.TryPop? then Next(s).1.ring == s.ring[1..] && Next(s).1.consumer.Away? && Distance(s) == 1
            else Next(s).1.ring == s.ring && Distance(Next(s).1) < Distance(s)
    ensures !Next(s).0.GiveUp? && !Next(s).0.TimedOut? && !Next(s).0.Interrupted? && !Next(s).0.DropOldest?
  {
  }

  /** Wherever producer and consumer are, a message in the ring can be read at most six steps later, and nobody has to run
      out of patience for that. */
  lemma {:induction false} MessageIsRead(states: seq<State>, acts: seq<Action>) returns (states': seq<State>, acts': seq<Action>)
    requires Run(states, acts) && states[|acts|].ring != []
    ensures Run(states', acts') && states <= states' && acts <= acts' && |acts'| <= |acts| + Distance(states[|acts|]) <= |acts| + 6
    ensures states'[|acts'|].ring == states[|acts|].ring[1..] && states'[|acts'|].consumer.Away?
    ensures forall k :: |acts| <= k < |acts'| ==> !acts'[k].GiveUp? && !acts'[k].TimedOut? && !acts'[k].Interrupted? && !acts'[k].DropOldest?
    decreases Distance(states[|acts|])
  {
    hide Step, Next, Inv;
    var s := states[|acts|];
    NoLostWakeup(states, acts, |acts|);
    NextIsCloser(s);
    var a, s' := Next(s).0, Next(s).1;
    var longer, done := states + [s'], acts + [a];
    forall i | 0 <= i < |done|
      ensures StepAt(longer, done, i)
    {
      if i < |acts| { assert StepAt(states, acts, i); }
    }
    if a.TryPop? {
      states', acts' := longer, done;
    } else {
      states', acts' := MessageIsRead(longer, done);
    }
  }

  /** A consumer that comes while the ring is empty takes what is due in the log. */
  lemma LogIsReadToo(states: seq<State>, acts: seq<Action>) returns (states': seq<State>)
    requires Run(states, acts) && states[|acts|].ring == [] && states[|acts|].consumer.Away? && InLog(states[|acts|])
    ensures Run(states', acts + [Enter, TryPop]) && states <= states'
    ensures states'[|acts| + 2] == states[|acts|].(log := states[|acts|].log[1..])
  {
    var s := states[|acts|];
    states' := states + [s.(consumer := Snapped(s.seqWait)), s.(log := s.log[1..])];
    var all := acts + [Enter, TryPop];
    forall i | 0 <= i < |all|
      ensures StepAt(states', all, i)
    {
      if i < |acts| { assert StepAt(states, acts, i); }
    }
  }

  // ---- messages that go to the log ----

  /** The consumer sleeps although there is something to read, in the ring or in the log, and nobody is going to wake it. */
  predicate Stranded(s: State) {
    s.consumer.Asleep? && s.producer.Ready? && (s.ring != [] || InLog(s))
  }

  /** Only a message in the log can strand the consumer. */
  lemma StrandedByLog(states: seq<State>, acts: seq<Action>, k: nat)
    requires Run(states, acts) && k <= |acts|
    ensures Stranded(states[k]) <==> states[k].consumer.Asleep? && states[k].producer.Ready? && states[k].ring == [] && InLog(states[k])
  {
    NoLostWakeup(states, acts, k);
  }

  /** A consumer is never stranded by messages without a lifetime and a delivery time. */
  lemma {:induction false} NeverStranded(states: seq<State>, acts: seq<Action>, k: nat)
    requires Run(states, acts) && k <= |acts| && forall i :: 0 <= i < k ==> !acts[i].PutLog?
    ensures states[k].log == [] && !Stranded(states[k])
  {
    NoLostWakeup(states, acts, k);
    if k > 0 {
      NeverStranded(states, acts, k - 1);
      assert StepAt(states, acts, k - 1);
    }
  }

  predicate EndsSleep(a: Action) {
    a.Put? || a.TimedOut? || a.Interrupted?
  }

  /** Nothing that is pushed to the log, and no passing of time, wakes the consumer: only a push to the ring or the end of
      its own patience. */
  lemma {:induction false} LogPushWakesNobody(states: seq<State>, acts: seq<Action>, i: nat, j: nat)
    requires Run(states, acts) && i <= j <= |acts| && states[i].consumer.Asleep? && states[i].producer.Ready?
    requires forall k :: i <= k < j ==> !EndsSleep(acts[k])
    ensures states[j].consumer == states[i].consumer && states[j].producer.Ready?
    decreases j - i
  {
    if i < j {
      LogPushWakesNobody(states, acts, i, j - 1);
      assert StepAt(states, acts, j - 1);
    }
  }

  /** A run that strands the consumer: it goes to sleep on an empty queue, and a message that may be delivered at once, but
      has a lifetime, is pushed. */
  lemma StrandedExample() returns (states: seq<State>, acts: seq<Action>)
    ensures |acts| == 6 && acts[5] == PutLog(0) && Run(states, acts) && Stranded(states[6])
  {
    acts := [Enter, TryPop, Register, Compare, FutexWait, PutLog(0)];
    var s := START;
    states := [s, s.(consumer := Snapped(0)), s.(consumer := FoundEmpty(0)), s.(waiters := 1, consumer := Registered(0)),
               s.(waiters := 1, consumer := Checked(0)), s.(waiters := 1, consumer := Asleep(0)),
               s.(waiters := 1, consumer := Asleep(0), log := [0])];
    forall i | 0 <= i < |acts|
      ensures StepAt(states, acts, i)
    {
      assert i == 0 || i == 1 || i == 2 || i == 3 || i == 4 || i == 5;
    }
  }
}
