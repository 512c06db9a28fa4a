/**
 The event flags of one task (src/linux/base_event.c): any number of senders OR bits into its
 mask and signal, and the owner, the receiver, waits for bits of its choice and takes them.

 Each call is cut at its lock, its updates, its signal, its wait and its unlock; a run is any
 list of such steps, so any interleaving.  A mask is the set of its one bits.  `log` records
 what was sent, delivered and refused, in the order in which it happened.
 */
module EventFlags {

  type Mask = set<nat>

  datatype Owner = Nobody | Sender(id: nat) | Receiver

  /** Where a sender is: before the lock, before the OR, before the signal, before the unlock. */
  datatype SendPc = SendWants(m: Mask) | SendHolds(m: Mask) | SendStored | SendSignalled

  /** Where the receiver is; `Asleep` is inside pthread_cond_wait with the mutex released,
      `Woken` is still inside it, about to take the mutex again. */
  datatype RecvPc =
    | Idle
    | RecvWants(m: Mask, wait: bool)
    | RecvHolds(m: Mask, wait: bool)
    | Looping(m: Mask)
    | Asleep(m: Mask)
    | Woken(m: Mask)
    | Took(got: Mask)
    | Refusing

  datatype Event = Sent(bits: Mask) | Delivered(m: Mask, bits: Mask) | Refused(m: Mask)

  datatype State = State(pending: Mask, owner: Owner, senders: map<nat, SendPc>, recv: RecvPc, log: seq<Event>)

  datatype Step =
    | SendCall(i: nat, bits: Mask) | SendLock(i: nat) | SendOr(i: nat) | SendSignal(i: nat) | SendUnlock(i: nat)
    | RecvCall(mask: Mask, wait: bool) | RecvLock | RecvCheck | RecvTest | RecvRelock | RecvUnlock
    | SpuriousWakeUp

  predicate At(s: State, i: nat, pc: SendPc) {
    i in s.senders && s.senders[i] == pc
  }

  predicate Enabled(s: State, step: Step) {
    match step
    case SendCall(i, bits) => i !in s.senders
    case SendLock(i) => s.owner == Nobody && i in s.senders && s.senders[i].SendWants?
    case SendOr(i) => i in s.senders && s.senders[i].SendHolds?
    case SendSignal(i) => At(s, i, SendStored)
    case SendUnlock(i) => At(s, i, SendSignalled)
    case RecvCall(mask, wait) => s.recv == Idle
    case RecvLock => s.owner == Nobody && s.recv.RecvWants?
    case RecvCheck => s.recv.RecvHolds?
    case RecvTest => s.recv.Looping?
    case RecvRelock => s.owner == Nobody && s.recv.Woken?
    case RecvUnlock => s.recv.Took? || s.recv == Refusing
    case SpuriousWakeUp => s.recv.Asleep?
  }

  function Next(s: State, step: Step): State
    requires Enabled(s, step)
  {
    match step
    case SendCall(i, bits) => s.(senders := s.senders[i := SendWants(bits)])
    case SendLock(i) => s.(owner := Sender(i), senders := s.senders[i := SendHolds(s.senders[i].m)])
    case SendOr(i) =>
      var m := s.senders[i].m;
      s.(pending := s.pending + m, senders := s.senders[i := SendStored], log := s.log + [Sent(m)])
    case SendSignal(i) =>
      s.(senders := s.senders[i := SendSignalled],
         recv := if s.recv.Asleep? then Woken(s.recv.m) else s.recv)
    case SendUnlock(i) => s.(owner := Nobody, senders := s.senders - {i})
    case RecvCall(mask, wait) => s.(recv := RecvWants(mask, wait))
    case RecvLock => s.(owner := Receiver, recv := RecvHolds(s.recv.m, s.recv.wait))
    case RecvCheck =>
      if !s.recv.wait && s.pending * s.recv.m == {} then
        s.(recv := Refusing, log := s.log + [Refused(s.recv.m)])
      else s.(recv := Looping(s.recv.m))
    case RecvTest =>
      var got := s.pending * s.recv.m;
      if got != {} then
        s.(pending := s.pending - got, recv := Took(got), log := s.log + [Delivered(s.recv.m, got)])
      else s.(owner := Nobody, recv := Asleep(s.recv.m))
    case RecvRelock => s.(owner := Receiver, recv := Looping(s.recv.m))
    case RecvUnlock => s.(owner := Nobody, recv := Idle)
    case SpuriousWakeUp => s.(recv := Woken(s.recv.m))
  }

  const START: State := State({}, Nobody, map[], Idle, [])

  function Do(s: State, step: Step): State {
    if Enabled(s, step) then Next(s, step) else s
  }

  /** The state after a schedule; a step that cannot be taken is passed over. */
  function Run(steps: seq<Step>): State {
    if steps == [] then START
    else Do(Run(steps[..|steps| - 1]), steps[|steps| - 1])
  }

  // ---------------------------------------------------------------------------------------
  // The meaning of a log
  // ---------------------------------------------------------------------------------------

  /** The bits sent and not delivered since. */
  function Outstanding(log: seq<Event>): Mask {
    if log == [] then {}
    else
      var before := Outstanding(log[..|log| - 1]);
      match log[|log| - 1]
      case Sent(bits) => before + bits
      case Delivered(_, bits) => before - bits
      case Refused(_) => before
  }

  /** Every delivery takes exactly what is outstanding and asked for, and never nothing; a
      refusal means that nothing of the kind was outstanding. */
  ghost predicate Truthful(log: seq<Event>) {
    log != [] ==>
      var before := Outstanding(log[..|log| - 1]);
      && Truthful(log[..|log| - 1])
      && match log[|log| - 1]
         case Sent(_) => true
         case Delivered(m, bits) => bits == before * m && bits != {}
         case Refused(m) => before * m == {}
  }

  // ---------------------------------------------------------------------------------------
  // Invariants
  // ---------------------------------------------------------------------------------------

  predicate Critical(pc: SendPc) {
    !pc.SendWants?
  }

  predicate RecvCritical(pc: RecvPc) {
    pc.RecvHolds? || pc.Looping? || pc.Took? || pc == Refusing
  }

  /** At most one party is between its lock and its unlock: the owner. */
  ghost predicate Exclusive(s: State) {
    && (forall i | i in s.senders && Critical(s.senders[i]) :: s.owner == Sender(i))
    && (RecvCritical(s.recv) ==> s.owner == Receiver)
    && (s.owner.Sender? ==> s.owner.id in s.senders && Critical(s.senders[s.owner.id]))
    && (s.owner == Receiver ==> RecvCritical(s.recv))
  }

  /** A receiver that sleeps unsignalled has nothing to wake up for, unless a sender is just
      between storing its bits and signalling. */
  ghost predicate NoLostWakeUp(s: State) {
    s.recv.Asleep? ==>
      || s.pending * s.recv.m == {}
      || (s.owner.Sender? && At(s, s.owner.id, SendStored))
  }

  ghost predicate Inv(s: State) {
    && Exclusive(s) && NoLostWakeUp(s)
    && s.pending == Outstanding(s.log) && Truthful(s.log)
  }

  lemma StepKeepsExclusive(s: State, step: Step)
    requires Exclusive(s) && Enabled(s, step)
    ensures Exclusive(Next(s, step))
  {
  }

  lemma StepLosesNoWakeUp(s: State, step: Step)
    requires Exclusive(s) && NoLostWakeUp(s) && Enabled(s, step)
    ensures NoLostWakeUp(Next(s, step))
  {
  }

  lemma StepKeepsLog(s: State, step: Step)
    requires s.pending == Outstanding(s.log) && Truthful(s.log) && Enabled(s, step)
    ensures Next(s, step).pending == Outstanding(Next(s, step).log) && Truthful(Next(s, step).log)
  {
  }

  lemma StepKeepsInv(s: State, step: Step)
    requires Inv(s) && Enabled(s, step)
    ensures Inv(Next(s, step))
  {
    hide Next, Exclusive, NoLostWakeUp, Truthful, Outstanding;
    StepKeepsExclusive(s, step);
    StepLosesNoWakeUp(s, step);
    StepKeepsLog(s, step);
  }

  /** Every interleaving keeps the invariants. */
  lemma {:induction false} RunKeepsInv(steps: seq<Step>)
    ensures Inv(Run(steps))
  {
    if steps != [] {
      var s := Run(steps[..|steps| - 1]);
      RunKeepsInv(steps[..|steps| - 1]);
      if Enabled(s, steps[|steps| - 1]) {
        StepKeepsInv(s, steps[|steps| - 1]);
      }
    }
  }

  /** Whenever the mutex is free, a receiver that sleeps unsignalled has no pending bit it asked
      for. */
  lemma SleeperHasNothing(steps: seq<Step>)
    requires Run(steps).owner == Nobody && Run(steps).recv.Asleep?
    ensures Run(steps).pending * Run(steps).recv.m == {}
  {
    RunKeepsInv(steps);
  }

  /** If a bit that a sleeping receiver asked for is pending, the sender that holds the mutex is
      about to signal, and the receiver can then take all such bits: nothing else is needed. */
  lemma WakeUpDelivers(steps: seq<Step>) returns (more: seq<Step>)
    requires var s := Run(steps); s.recv.Asleep? && s.pending * s.recv.m != {}
    ensures var s, t := Run(steps), Run(steps + more);
      && t.recv == Took(s.pending * s.recv.m)
      && t.log == s.log + [Delivered(s.recv.m, s.pending * s.recv.m)]
      && t.pending == s.pending - s.recv.m
  {
    var s := Run(steps);
    RunKeepsInv(steps);
    var i := s.owner.id;
    var s1 := RunOne(steps, SendSignal(i));
    var s2 := RunOne(steps + [SendSignal(i)], SendUnlock(i));
    var s3 := RunOne(steps + [SendSignal(i)] + [SendUnlock(i)], RecvRelock);
    var s4 := RunOne(steps + [SendSignal(i)] + [SendUnlock(i)] + [RecvRelock], RecvTest);
    more := [SendSignal(i), SendUnlock(i), RecvRelock, RecvTest];
    assert steps + more == steps + [SendSignal(i)] + [SendUnlock(i)] + [RecvRelock] + [RecvTest];
  }

  lemma RunOne(steps: seq<Step>, step: Step) returns (s: State)
    ensures s == Run(steps + [step])
    ensures s == Do(Run(steps), step)
  {
    s := Run(steps + [step]);
    assert (steps + [step])[..|steps + [step]| - 1] == steps;
  }

  // ---------------------------------------------------------------------------------------
  // Progress
  // ---------------------------------------------------------------------------------------

  /** The receiver has called for bits of m and has not got any yet. */
  predicate Receiving(pc: RecvPc, m: Mask) {
    (pc.RecvWants? || pc.RecvHolds? || pc.Looping? || pc.Asleep? || pc.Woken?) && pc.m == m
  }

  /** The next step of whoever can take one: the sender that holds the mutex, or the receiver. */
  function Onward(s: State): Step {
    if s.owner.Sender? && s.owner.id in s.senders then
      match s.senders[s.owner.id]
      case SendStored => SendSignal(s.owner.id)
      case SendSignalled => SendUnlock(s.owner.id)
      case _ => SendOr(s.owner.id)
    else
      match s.recv
      case RecvWants(_, _) => RecvLock
      case RecvHolds(_, _) => RecvCheck
      case Woken(_) => RecvRelock
      case _ => RecvTest
  }

  /** How many such steps it takes to a delivery. */
  function StepsLeft(s: State): nat {
    (if s.owner.Sender? && s.owner.id in s.senders then
       match s.senders[s.owner.id]
       case SendStored => 2
       case SendSignalled => 1
       case _ => 3
     else 0)
    + match s.recv
      case RecvWants(_, _) => 3
      case RecvHolds(_, _) => 2
      case Asleep(_) => 2
      case Woken(_) => 2
      case _ => 1
  }

  /** A step of a party that is already under way. */
  predicate UnderWay(step: Step) {
    !step.SendCall? && !step.RecvCall? && !step.SpuriousWakeUp?
  }

  lemma OnwardStep(s: State, m: Mask)
    requires Exclusive(s) && NoLostWakeUp(s) && Receiving(s.recv, m) && s.pending * m != {}
    ensures UnderWay(Onward(s)) && Enabled(s, Onward(s))
    ensures var t := Next(s, Onward(s));
      if StepsLeft(s) == 1 then t.recv == Took(s.pending * m) && t.log == s.log + [Delivered(m, s.pending * m)]
      else Receiving(t.recv, m) && s.pending <= t.pending && StepsLeft(t) == StepsLeft(s) - 1
  {
  }

  /** Every step of `more` can be taken, one after the other, after `steps`. */
  ghost predicate Schedule(steps: seq<Step>, more: seq<Step>) {
    forall i | 0 <= i < |more| :: UnderWay(more[i]) && Enabled(Run(steps + more[..i]), more[i])
  }

  lemma ScheduleCons(steps: seq<Step>, step: Step, rest: seq<Step>)
    requires UnderWay(step) && Enabled(Run(steps), step) && Schedule(steps + [step], rest)
    ensures Schedule(steps, [step] + rest) && steps + ([step] + rest) == steps + [step] + rest
  {
    hide Run, Enabled, UnderWay;
    var more := [step] + rest;
    forall i | 0 <= i < |more| ensures UnderWay(more[i]) && Enabled(Run(steps + more[..i]), more[i]) {
      if i == 0 {
        assert steps + more[..0] == steps;
      } else {
        assert steps + more[..i] == steps + [step] + rest[..i - 1] && more[i] == rest[i - 1];
      }
    }
  }

  /** From every reachable state in which a receiver waits, in whatever stage of its call, and a
      bit that it asked for is pending, at most six steps of the parties under way deliver to
      it: all such bits, and none that it did not ask for.  So nothing can deadlock. */
  lemma {:induction false} PendingIsDelivered(steps: seq<Step>, m: Mask) returns (more: seq<Step>, got: Mask)
    requires Receiving(Run(steps).recv, m) && Run(steps).pending * m != {}
    ensures Schedule(steps, more) && |more| == StepsLeft(Run(steps)) <= 6
    ensures Run(steps + more).recv == Took(got) && Run(steps).pending * m <= got <= m
    ensures var log := Run(steps + more).log; log != [] && log[|log| - 1] == Delivered(m, got)
    decreases StepsLeft(Run(steps))
  {
    hide Next, Enabled, Exclusive, NoLostWakeUp, Truthful, Outstanding, Onward, Schedule, UnderWay;
    var s := Run(steps);
    RunKeepsInv(steps);
    OnwardStep(s, m);
    var t := RunOne(steps, Onward(s));
    if StepsLeft(s) == 1 {
      more, got := [Onward(s)] + [], s.pending * m;
      ScheduleNil(steps + [Onward(s)]);
      ScheduleCons(steps, Onward(s), []);
    } else {
      var rest;
      rest, got := PendingIsDelivered(steps + [Onward(s)], m);
      more := [Onward(s)] + rest;
      ScheduleCons(steps, Onward(s), rest);
    }
  }

  lemma ScheduleNil(steps: seq<Step>)
    ensures Schedule(steps, [])
  {
  }

  // ---------------------------------------------------------------------------------------
  // Bits
  // ---------------------------------------------------------------------------------------

  predicate DeliversBit(e: Event, b: nat) {
    e.Delivered? && b in e.bits
  }

  predicate SendsBit(e: Event, b: nat) {
    e.Sent? && b in e.bits
  }

  /** A bit is outstanding exactly when it was sent and has not been delivered since. */
  lemma {:induction false} OutstandingBit(log: seq<Event>, b: nat)
    ensures b in Outstanding(log) <==>
      exists k | 0 <= k < |log| :: SendsBit(log[k], b) && forall i | k < i < |log| :: !DeliversBit(log[i], b)
  {
    if log != [] {
      var n := |log| - 1;
      var init := log[..n];
      OutstandingBit(init, b);
      if b in Outstanding(init) {
        var k :| 0 <= k < n && SendsBit(init[k], b) && forall i | k < i < n :: !DeliversBit(init[i], b);
        if !DeliversBit(log[n], b) {
          assert SendsBit(log[k], b) && forall i | k < i < |log| :: !DeliversBit(log[i], b);
        }
      }
      if SendsBit(log[n], b) {
        assert log[n] == log[|log| - 1];
      }
      if k :| 0 <= k < |log| && SendsBit(log[k], b) && forall i | k < i < |log| :: !DeliversBit(log[i], b) {
        if k < n {
          assert SendsBit(init[k], b) && forall i | k < i < n :: !DeliversBit(init[i], b);
        }
      }
    }
  }

  lemma {:induction false} TruthfulAt(log: seq<Event>, i: nat)
    requires Truthful(log) && i < |log|
    ensures log[i].Delivered? ==> log[i].bits == Outstanding(log[..i]) * log[i].m && log[i].bits != {}
    ensures log[i].Refused? ==> Outstanding(log[..i]) * log[i].m == {}
  {
    var n := |log| - 1;
    if i < n {
      TruthfulAt(log[..n], i);
      assert log[..n][..i] == log[..i];
    }
  }

  /** What a delivery hands over: a bit exactly when it is in the mask asked for, was sent
      before, and has not been delivered since that. */
  lemma DeliveryIsExact(steps: seq<Step>, i: nat, b: nat)
    requires i < |Run(steps).log| && Run(steps).log[i].Delivered?
    ensures var log := Run(steps).log;
      b in log[i].bits <==>
        && b in log[i].m
        && exists k | 0 <= k < i :: SendsBit(log[k], b) && forall l | k < l < i :: !DeliversBit(log[l], b)
  {
    var log := Run(steps).log;
    RunKeepsInv(steps);
    TruthfulAt(log, i);
    OutstandingBit(log[..i], b);
    forall k | 0 <= k < i ensures log[..i][k] == log[k] {
    }
  }

  /** No sent bit gets lost: it is delivered later or still pending. */
  lemma NoBitLost(steps: seq<Step>, k: nat, b: nat)
    requires k < |Run(steps).log| && SendsBit(Run(steps).log[k], b)
    ensures var log := Run(steps).log;
      b in Run(steps).pending || exists i | k < i < |log| :: DeliversBit(log[i], b)
  {
    RunKeepsInv(steps);
    OutstandingBit(Run(steps).log, b);
  }

  // ---------------------------------------------------------------------------------------
  // Calls
  // ---------------------------------------------------------------------------------------

  /** The receiver is in a call for bits of m that may wait or not: a call with `wait` is never
      refused, and one without it sleeps never and loops only to take something. */
  ghost predicate Receives(s: State, m: Mask, wait: bool) {
    match s.recv
    case Idle => false
    case RecvWants(mask, w) => mask == m && w == wait
    case RecvHolds(mask, w) => mask == m && w == wait
    case Looping(mask) => mask == m && (wait || s.pending * m != {})
    case Asleep(mask) => mask == m && wait
    case Woken(mask) => mask == m && wait
    case Took(got) => Latest(s.log, Delivered(m, got))
    case Refusing => !wait && Latest(s.log, Refused(m))
  }

  /** Sender i is in a call to send the bits. */
  ghost predicate Sends(s: State, i: nat, bits: Mask) {
    && i in s.senders
    && match s.senders[i]
       case SendWants(m) => m == bits
       case SendHolds(m) => m == bits
       case SendStored => Latest(s.log, Sent(bits))
       case SendSignalled => Latest(s.log, Sent(bits))
  }

  predicate Latest(log: seq<Event>, e: Event) {
    log != [] && log[|log| - 1] == e
  }

  predicate IsCall(step: Step, who: Owner) {
    match who
    case Nobody => false
    case Sender(i) => step.SendCall? && step.i == i
    case Receiver => step.RecvCall?
  }

  predicate Busy(s: State, who: Owner) {
    match who
    case Nobody => false
    case Sender(i) => i in s.senders
    case Receiver => s.recv != Idle
  }

  ghost predicate Serves(s: State, who: Owner, call: Step)
    requires IsCall(call, who)
  {
    match who
    case Sender(i) => Sends(s, i, call.bits)
    case Receiver => Receives(s, call.mask, call.wait)
  }

  /** A call begins what it asks for, and nothing else sets an idle party to work. */
  lemma StepBegins(s: State, step: Step, who: Owner)
    requires Enabled(s, step) && !Busy(s, who)
    ensures Busy(Next(s, step), who) <==> IsCall(step, who)
    ensures IsCall(step, who) ==> Serves(Next(s, step), who, step)
  {
  }

  /** Until its unlock a party serves the call it is in, whatever the others do. */
  lemma StepKeepsServing(s: State, step: Step, who: Owner, call: Step)
    requires Enabled(s, step) && Exclusive(s) && IsCall(call, who) && Serves(s, who, call)
    ensures if step == (if who.Sender? then SendUnlock(who.id) else RecvUnlock) then !Busy(Next(s, step), who)
            else Serves(Next(s, step), who, call)
    ensures !IsCall(step, who) && Busy(s, who)
  {
  }

  /** Step k of the schedule is a call of that party, was taken, and no later one was. */
  ghost predicate LastCall(steps: seq<Step>, k: nat, who: Owner) {
    && k < |steps| && IsCall(steps[k], who) && Enabled(Run(steps[..k]), steps[k])
    && forall j | k < j < |steps| && IsCall(steps[j], who) :: !Enabled(Run(steps[..j]), steps[j])
  }

  lemma LastCallSnoc(steps: seq<Step>, step: Step, k: nat, who: Owner)
    requires LastCall(steps, k, who) && !(IsCall(step, who) && Enabled(Run(steps), step))
    ensures LastCall(steps + [step], k, who)
  {
    hide Run, Enabled, IsCall;
    var all := steps + [step];
    assert forall j | 0 <= j <= |steps| :: all[..j] == steps[..j];
    assert steps[..|steps|] == steps;
  }

  lemma CallIsLast(steps: seq<Step>, step: Step, who: Owner)
    requires IsCall(step, who) && Enabled(Run(steps), step)
    ensures LastCall(steps + [step], |steps|, who)
  {
    hide Run, Enabled, IsCall;
    assert (steps + [step])[..|steps|] == steps;
  }

  /** In every run, a party that is busy serves the last of its calls that was taken: a sender
      with the bits of that call, the receiver with its mask and its flag. */
  lemma {:induction false} RunServes(steps: seq<Step>, who: Owner) returns (k: nat)
    requires Busy(Run(steps), who)
    ensures LastCall(steps, k, who) && Serves(Run(steps), who, steps[k])
  {
    hide Next, Enabled, Exclusive, Serves, IsCall, Busy, LastCall;
    if steps == [] {
      NothingBegun(who);
    } else {
      var n := |steps| - 1;
      var init, step := steps[..n], steps[n];
      var s := Run(init);
      assert steps == init + [step];
      RunKeepsInv(init);
      if !Busy(s, who) {
        k := n;
        StepBegins(s, step, who);
        CallIsLast(init, step, who);
      } else {
        k := RunServes(init, who);
        CallOf(init, k, who);
        if Enabled(s, step) {
          StepKeepsServing(s, step, who, init[k]);
        }
        LastCallSnoc(init, step, k, who);
      }
    }
  }

  lemma NothingBegun(who: Owner)
    ensures !Busy(START, who)
  {
  }

  lemma CallOf(steps: seq<Step>, k: nat, who: Owner)
    requires LastCall(steps, k, who)
    ensures k < |steps| && IsCall(steps[k], who)
  {
  }

  /** When the receiver has the mutex, its call is decided in one check: it is refused exactly
      when it must not wait and nothing it asks for is pending, and the log says so. */
  lemma CheckDecides(steps: seq<Step>) returns (k: nat)
    requires Run(steps).recv.RecvHolds?
    ensures LastCall(steps, k, Receiver)
    ensures var s, t := Run(steps), Run(steps + [RecvCheck]); var m, wait := steps[k].mask, steps[k].wait;
      if !wait && s.pending * m == {} then t == s.(recv := Refusing, log := s.log + [Refused(m)])
      else t == s.(recv := Looping(m))
  {
    k := RunServes(steps, Receiver);
    var _ := RunOne(steps, RecvCheck);
  }

  /** Inside the loop, a call takes all the pending bits it asked for, or goes to sleep if there
      are none; only one that may wait does. */
  lemma TestDecides(steps: seq<Step>) returns (k: nat)
    requires Run(steps).recv.Looping?
    ensures LastCall(steps, k, Receiver)
    ensures var s, t := Run(steps), Run(steps + [RecvTest]); var m, wait := steps[k].mask, steps[k].wait;
      var got := s.pending * m;
      if got == {} then wait && t == s.(recv := Asleep(m), owner := Nobody)
      else t == s.(recv := Took(got), pending := s.pending - m, log := s.log + [Delivered(m, got)])
  {
    k := RunServes(steps, Receiver);
    var _ := RunOne(steps, RecvTest);
    assert Run(steps).pending - Run(steps).pending * steps[k].mask == Run(steps).pending - steps[k].mask;
  }

  /** A blocking call is never refused, and a non-blocking one never sleeps. */
  lemma FlagIsObeyed(steps: seq<Step>, k: nat)
    requires LastCall(steps, k, Receiver)
    ensures steps[k].wait ==> Run(steps).recv != Refusing
    ensures !steps[k].wait ==> !Run(steps).recv.Asleep? && !Run(steps).recv.Woken?
  {
    if Run(steps).recv != Idle {
      var i := RunServes(steps, Receiver);
      assert i == k;
    }
  }

  /** What a sender ORs into the mask are the bits of its call, and nothing else. */
  lemma OrStores(steps: seq<Step>, i: nat) returns (k: nat)
    requires i in Run(steps).senders && Run(steps).senders[i].SendHolds?
    ensures LastCall(steps, k, Sender(i))
    ensures var s, t := Run(steps), Run(steps + [SendOr(i)]);
      t == s.(senders := s.senders[i := SendStored], pending := s.pending + steps[k].bits,
              log := s.log + [Sent(steps[k].bits)])
  {
    k := RunServes(steps, Sender(i));
    var _ := RunOne(steps, SendOr(i));
  }

  lemma RunFive(steps: seq<Step>, a: Step, b: Step, c: Step, d: Step, e: Step)
    ensures Run(steps + [a, b, c, d, e]) == Do(Do(Do(Do(Do(Run(steps), a), b), c), d), e)
  {
    hide Do, Run;
    var _ := RunOne(steps, a);
    var _ := RunOne(steps + [a], b);
    var _ := RunOne(steps + [a] + [b], c);
    var _ := RunOne(steps + [a] + [b] + [c], d);
    var _ := RunOne(steps + [a] + [b] + [c] + [d], e);
    assert steps + [a, b, c, d, e] == steps + [a] + [b] + [c] + [d] + [e];
  }

  /** A send on its own, from any reachable state in which the mutex is free: its bits are
      pending, a sleeping receiver is woken, and nothing else has changed. */
  lemma SendRuns(steps: seq<Step>, i: nat, bits: Mask)
    requires Run(steps).owner == Nobody && i !in Run(steps).senders
    ensures var s, all := Run(steps), steps + [SendCall(i, bits), SendLock(i), SendOr(i), SendSignal(i), SendUnlock(i)];
      Run(all) == s.(pending := s.pending + bits, log := s.log + [Sent(bits)],
                     recv := if s.recv.Asleep? then Woken(s.recv.m) else s.recv)
  {
    hide Run;
    var s := Run(steps);
    RunFive(steps, SendCall(i, bits), SendLock(i), SendOr(i), SendSignal(i), SendUnlock(i));
    var locked := Do(Do(s, SendCall(i, bits)), SendLock(i));
    assert locked == s.(owner := Sender(i), senders := s.senders[i := SendHolds(bits)]);
    assert s.senders[i := SendSignalled] - {i} == s.senders;
  }

  /** A receive on its own: it takes what is pending of its mask; if that is nothing, it is
      refused or goes to sleep, as its flag says. */
  lemma ReceiveRuns(steps: seq<Step>, m: Mask, wait: bool)
    requires Run(steps).owner == Nobody && Run(steps).recv == Idle
    ensures var s, t := Run(steps), Run(steps + [RecvCall(m, wait), RecvLock, RecvCheck, RecvTest, RecvUnlock]);
      var got := s.pending * m;
      t == if got != {} then s.(pending := s.pending - m, log := s.log + [Delivered(m, got)])
           else if wait then s.(recv := Asleep(m))
           else s.(log := s.log + [Refused(m)])
  {
    hide Run;
    var s := Run(steps);
    RunFive(steps, RecvCall(m, wait), RecvLock, RecvCheck, RecvTest, RecvUnlock);
    var locked := Do(Do(s, RecvCall(m, wait)), RecvLock);
    assert locked == s.(owner := Receiver, recv := RecvHolds(m, wait));
    assert s.pending - s.pending * m == s.pending - m;
  }

  /** A wake-up for no reason changes nothing: the receiver looks, and sleeps again. */
  lemma SpuriousIsHarmless(steps: seq<Step>)
    requires Run(steps).owner == Nobody && Run(steps).recv.Asleep?
    ensures Enabled(Run(steps), SpuriousWakeUp)
    ensures Run(steps + [SpuriousWakeUp] + [RecvRelock] + [RecvTest]) == Run(steps)
  {
    hide Run;
    SleeperHasNothing(steps);
    var _ := RunOne(steps, SpuriousWakeUp);
    var _ := RunOne(steps + [SpuriousWakeUp], RecvRelock);
    var _ := RunOne(steps + [SpuriousWakeUp] + [RecvRelock], RecvTest);
  }
}
