/**
 The timer wheel seen from outside: the running timers in the order in which they were
 enqueued, each with the number of ticks it still has to wait.

 Spokes and rotation counts do not appear; `TimerWheel.Wheel` stores a timer with `rem` ticks
 to go on spoke (index + rem) % size with (rem - 1) / size rotations.
 */
module WheelModel {

  /** A running timer.  `period` is the delay in milliseconds to restart with, or 0. */
  datatype Entry<T> = Entry(t: T, rem: nat, period: nat)

  datatype Wheel<T> = Wheel(
    size: nat, granularity: nat, index: nat, queue: seq<Entry<T>>,
    ticks: nat, starts: nat, expired: nat, cancelled: nat, hiwater: nat,
    restarts: nat, rearms: nat)
  {
    ghost predicate Valid() {
      && size > 0 && granularity > 0 && index < size
      && NoDup(queue)
      && Waiting(queue)
    }

    ghost predicate Running(t: T) {
      Has(queue, t)
    }

    /** Ticks until t fires, or 0 when it is not running. */
    ghost function Rem(t: T): nat {
      RemOf(queue, t)
    }
  }

  // ---------------------------------------------------------------------------------------
  // Queues
  // ---------------------------------------------------------------------------------------

  ghost predicate Has<T>(q: seq<Entry<T>>, t: T) {
    q != [] && (q[|q| - 1].t == t || Has(q[..|q| - 1], t))
  }

  ghost predicate NoDup<T>(q: seq<Entry<T>>) {
    q != [] ==> !Has(q[..|q| - 1], q[|q| - 1].t) && NoDup(q[..|q| - 1])
  }

  ghost predicate Waiting<T>(q: seq<Entry<T>>) {
    q != [] ==> q[|q| - 1].rem > 0 && Waiting(q[..|q| - 1])
  }

  ghost function RemOf<T>(q: seq<Entry<T>>, t: T): nat {
    if q == [] then 0
    else if q[|q| - 1].t == t then q[|q| - 1].rem
    else RemOf(q[..|q| - 1], t)
  }

  ghost function Remove<T>(q: seq<Entry<T>>, t: T): seq<Entry<T>> {
    if q == [] then []
    else if q[|q| - 1].t == t then Remove(q[..|q| - 1], t)
    else Remove(q[..|q| - 1], t) + [q[|q| - 1]]
  }

  ghost function Names<T>(q: seq<Entry<T>>): seq<T> {
    if q == [] then [] else Names(q[..|q| - 1]) + [q[|q| - 1].t]
  }

  // ---------------------------------------------------------------------------------------
  // Operations
  // ---------------------------------------------------------------------------------------

  /** Whole ticks in a delay; at least one. */
  function Ticks(delay: nat, granularity: nat): (n: nat)
    requires granularity > 0
    ensures n >= 1
    ensures n * granularity <= delay < (n + 1) * granularity || (delay < granularity && n == 1)
  {
    if delay < granularity then 1 else delay / granularity
  }

  /** Ticks a timer enqueued for n ticks waits: a multiple of the wheel size lands on the
      current spoke, which comes round only after a whole extra turn. */
  function Wait(n: nat, size: nat): (r: nat)
    requires size > 0
    ensures r == n || r == n + size
  {
    if n % size == 0 then n + size else n
  }

  ghost function Start<T>(w: Wheel<T>, t: T, delay: nat, period: nat): Wheel<T>
    requires w.size > 0 && w.granularity > 0
  {
    var q := Remove(w.queue, t) + [Entry(t, Wait(Ticks(delay, w.granularity), w.size), period)];
    w.(queue := q, starts := w.starts + 1,
       hiwater := if |q| > w.hiwater then |q| else w.hiwater,
       restarts := w.restarts + if w.Running(t) then 1 else 0)
  }

  ghost function Stop<T>(w: Wheel<T>, t: T): Wheel<T> {
    w.(queue := Remove(w.queue, t), cancelled := w.cancelled + if w.Running(t) then 1 else 0)
  }

  /** The timers that the next tick fires, in the order in which it fires them. */
  ghost function Fired<T>(q: seq<Entry<T>>): seq<Entry<T>> {
    if q == [] then []
    else if q[|q| - 1].rem == 1 then Fired(q[..|q| - 1]) + [q[|q| - 1]]
    else Fired(q[..|q| - 1])
  }

  /** The timers that survive the next tick, one tick older. */
  ghost function Aged<T>(q: seq<Entry<T>>): seq<Entry<T>> {
    if q == [] then []
    else
      var e := q[|q| - 1];
      if e.rem > 1 then Aged(q[..|q| - 1]) + [e.(rem := e.rem - 1)] else Aged(q[..|q| - 1])
  }

  /** Does a restart of e land on the spoke that is being walked? */
  ghost predicate Returns<T>(e: Entry<T>, size: nat, granularity: nat)
    requires size > 0 && granularity > 0
  {
    e.period > 0 && Ticks(e.period, granularity) % size == 0
  }

  ghost function Restarted<T>(e: Entry<T>, size: nat, granularity: nat, missed: bool): Entry<T>
    requires size > 0 && granularity > 0
  {
    var n := Ticks(e.period, granularity);
    Entry(e.t, if missed then Wait(n, size) else n, e.period)
  }

  /** The restarted timers: each waits its period, except that one which lands on the spoke
      being walked waits an extra turn when the walk is over before it comes to it. */
  ghost function Rearmed<T>(fs: seq<Entry<T>>, size: nat, granularity: nat, missed: bool): seq<Entry<T>>
    requires size > 0 && granularity > 0
  {
    if fs == [] then []
    else
      var e := fs[|fs| - 1];
      var init := Rearmed(fs[..|fs| - 1], size, granularity, missed);
      if e.period == 0 then init else init + [Restarted(e, size, granularity, missed)]
  }

  /** The timers on the spoke that the next tick walks. */
  ghost function Due<T>(q: seq<Entry<T>>, size: nat): seq<Entry<T>>
    requires size > 0
  {
    if q == [] then []
    else if (q[|q| - 1].rem - 1) % size == 0 then Due(q[..|q| - 1], size) + [q[|q| - 1]]
    else Due(q[..|q| - 1], size)
  }

  ghost predicate NoneReturns<T>(fs: seq<Entry<T>>, size: nat, granularity: nat)
    requires size > 0 && granularity > 0
  {
    fs == [] || (!Returns(fs[|fs| - 1], size, granularity) && NoneReturns(fs[..|fs| - 1], size, granularity))
  }

  /** The walk misses a timer that it puts back on its own spoke when that timer was the last
      on the spoke and no earlier one was put back there. */
  ghost predicate Misses<T>(ds: seq<Entry<T>>, size: nat, granularity: nat)
    requires size > 0 && granularity > 0
  {
    && ds != [] && ds[|ds| - 1].rem == 1 && Returns(ds[|ds| - 1], size, granularity)
    && NoneReturns(Fired(ds[..|ds| - 1]), size, granularity)
  }

  ghost function Tick<T>(w: Wheel<T>): Wheel<T>
    requires w.size > 0 && w.granularity > 0
  {
    var fs := Fired(w.queue);
    var back := Rearmed(fs, w.size, w.granularity, Misses(Due(w.queue, w.size), w.size, w.granularity));
    w.(index := (w.index + 1) % w.size, ticks := w.ticks + 1,
       queue := Aged(w.queue) + back,
       expired := w.expired + |fs|, rearms := w.rearms + |back|)
  }

  // ---------------------------------------------------------------------------------------
  // Queue lemmas
  // ---------------------------------------------------------------------------------------

  /** Takes the last element off again. */
  lemma Snoc<E>(p: seq<E>, e: E)
    ensures var s := p + [e]; |s| == |p| + 1 && s[..|s| - 1] == p && s[|s| - 1] == e
  {
  }

  lemma {:induction false} RemoveKeeps<T>(q: seq<Entry<T>>, t: T, u: T)
    ensures Has(Remove(q, t), u) <==> Has(q, u) && u != t
    ensures RemOf(Remove(q, t), u) == if u == t then 0 else RemOf(q, u)
    ensures NoDup(q) ==> NoDup(Remove(q, t))
    ensures Waiting(q) ==> Waiting(Remove(q, t))
  {
    if q != [] {
      var init, e := q[..|q| - 1], q[|q| - 1];
      RemoveKeeps(init, t, u);
      RemoveKeeps(init, t, e.t);
      if e.t != t {
        Snoc(Remove(init, t), e);
      }
    }
  }

  lemma {:induction false} RemoveLength<T>(q: seq<Entry<T>>, t: T)
    ensures NoDup(q) ==> |Remove(q, t)| == |q| - if Has(q, t) then 1 else 0
    ensures !Has(q, t) ==> Remove(q, t) == q
  {
    if q != [] {
      RemoveLength(q[..|q| - 1], t);
      assert q == q[..|q| - 1] + [q[|q| - 1]];
    }
  }

  lemma {:induction false} HasConcat<T>(p: seq<Entry<T>>, q: seq<Entry<T>>, t: T)
    ensures Has(p + q, t) <==> Has(p, t) || Has(q, t)
    ensures RemOf(p + q, t) == if Has(q, t) then RemOf(q, t) else RemOf(p, t)
    ensures NoDup(p + q) ==> NoDup(p) && (Has(q, t) ==> !Has(p, t))
    ensures Waiting(p + q) <==> Waiting(p) && Waiting(q)
  {
    if q == [] {
      assert p + q == p;
    } else {
      assert (p + q)[..|p + q| - 1] == p + q[..|q| - 1];
      HasConcat(p, q[..|q| - 1], t);
      HasConcat(p, q[..|q| - 1], q[|q| - 1].t);
    }
  }

  lemma {:induction false} RemPositive<T>(q: seq<Entry<T>>, t: T)
    requires Waiting(q)
    ensures RemOf(q, t) > 0 <==> Has(q, t)
  {
    if q != [] {
      RemPositive(q[..|q| - 1], t);
    }
  }

  lemma {:induction false} NoDupConcat<T>(p: seq<Entry<T>>, q: seq<Entry<T>>)
    requires NoDup(p) && NoDup(q) && Apart(p, q)
    ensures NoDup(p + q)
  {
    if q == [] {
      assert p + q == p;
    } else {
      assert (p + q)[..|p + q| - 1] == p + q[..|q| - 1];
      NoDupConcat(p, q[..|q| - 1]);
      HasConcat(p, q[..|q| - 1], q[|q| - 1].t);
    }
  }

  /** No timer of q occurs in p. */
  ghost predicate Apart<T>(p: seq<Entry<T>>, q: seq<Entry<T>>) {
    q != [] ==> !Has(p, q[|q| - 1].t) && Apart(p, q[..|q| - 1])
  }

  // ---------------------------------------------------------------------------------------
  // One tick, timer by timer
  // ---------------------------------------------------------------------------------------

  ghost function PeriodOf<T>(q: seq<Entry<T>>, t: T): nat {
    if q == [] then 0
    else if q[|q| - 1].t == t then q[|q| - 1].period
    else PeriodOf(q[..|q| - 1], t)
  }

  lemma {:induction false} AgedOf<T>(q: seq<Entry<T>>, t: T)
    requires NoDup(q) && Waiting(q)
    ensures NoDup(Aged(q)) && Waiting(Aged(q))
    ensures Has(Aged(q), t) <==> Has(q, t) && RemOf(q, t) > 1
    ensures Has(Aged(q), t) ==> RemOf(Aged(q), t) == RemOf(q, t) - 1 && PeriodOf(Aged(q), t) == PeriodOf(q, t)
  {
    if q != [] {
      var init, e := q[..|q| - 1], q[|q| - 1];
      AgedOf(init, t);
      AgedOf(init, e.t);
      if e.rem > 1 {
        Snoc(Aged(init), e.(rem := e.rem - 1));
      }
    }
  }

  lemma {:induction false} FiredHas<T>(q: seq<Entry<T>>, t: T)
    requires NoDup(q) && Waiting(q)
    ensures Has(Fired(q), t) <==> RemOf(q, t) == 1
    ensures Has(Fired(q), t) ==> PeriodOf(Fired(q), t) == PeriodOf(q, t)
  {
    if q != [] {
      var init, e := q[..|q| - 1], q[|q| - 1];
      FiredHas(init, t);
      RemPositive(init, t);
      if e.rem == 1 {
        Snoc(Fired(init), e);
      }
    }
  }

  lemma {:induction false} FiredOf<T>(q: seq<Entry<T>>, t: T)
    requires NoDup(q) && Waiting(q)
    ensures NoDup(Fired(q))
    ensures Has(Fired(q), t) <==> RemOf(q, t) == 1
    ensures Has(Fired(q), t) ==> PeriodOf(Fired(q), t) == PeriodOf(q, t)
  {
    FiredHas(q, t);
    if q != [] {
      var init, e := q[..|q| - 1], q[|q| - 1];
      FiredOf(init, e.t);
      RemPositive(init, e.t);
      if e.rem == 1 {
        Snoc(Fired(init), e);
      }
    }
  }

  lemma {:induction false} RearmedOf<T>(fs: seq<Entry<T>>, size: nat, g: nat, missed: bool, t: T)
    requires NoDup(fs) && size > 0 && g > 0
    ensures var back := Rearmed(fs, size, g, missed); var n := Ticks(PeriodOf(fs, t), g);
      && NoDup(back) && Waiting(back)
      && (Has(back, t) <==> Has(fs, t) && PeriodOf(fs, t) > 0)
      && (Has(back, t) ==>
           RemOf(back, t) == (if missed then Wait(n, size) else n) && PeriodOf(back, t) == PeriodOf(fs, t))
  {
    if fs != [] {
      var init, e := fs[..|fs| - 1], fs[|fs| - 1];
      RearmedOf(init, size, g, missed, t);
      RearmedOf(init, size, g, missed, e.t);
      if e.period > 0 {
        Snoc(Rearmed(init, size, g, missed), Restarted(e, size, g, missed));
      }
    }
  }

  lemma {:induction false} TickApart<T>(q: seq<Entry<T>>, back: seq<Entry<T>>)
    requires NoDup(q) && Waiting(q)
    requires SubsetOfFired(q, back)
    ensures Apart(Aged(q), back)
  {
    if back != [] {
      TickApart(q, back[..|back| - 1]);
      AgedOf(q, back[|back| - 1].t);
      FiredOf(q, back[|back| - 1].t);
    }
  }

  ghost predicate SubsetOfFired<T>(q: seq<Entry<T>>, back: seq<Entry<T>>) {
    back != [] ==> Has(Fired(q), back[|back| - 1].t) && SubsetOfFired(q, back[..|back| - 1])
  }

  lemma {:induction false} RearmedSubset<T>(q: seq<Entry<T>>, fs: seq<Entry<T>>, size: nat, g: nat, missed: bool)
    requires size > 0 && g > 0 && SubsetOfFired(q, fs)
    ensures SubsetOfFired(q, Rearmed(fs, size, g, missed))
  {
    if fs != [] {
      var init := fs[..|fs| - 1];
      RearmedSubset(q, init, size, g, missed);
      var e := fs[|fs| - 1];
      if e.period > 0 {
        Snoc(Rearmed(init, size, g, missed), Restarted(e, size, g, missed));
      }
    }
  }

  lemma {:induction false} FiredSubset<T>(q: seq<Entry<T>>, fs: seq<Entry<T>>)
    requires forall i | 0 <= i < |fs| :: Has(Fired(q), fs[i].t)
    ensures SubsetOfFired(q, fs)
  {
    if fs != [] {
      FiredSubset(q, fs[..|fs| - 1]);
    }
  }

  lemma {:induction false} HasAt<T>(q: seq<Entry<T>>, i: nat)
    requires i < |q|
    ensures Has(q, q[i].t)
  {
    if i < |q| - 1 {
      HasAt(q[..|q| - 1], i);
    }
  }

  /** A tick lowers the count of every running timer by one; a timer whose count was one fires,
      and if it is periodic it is running again, with its period or, when the walk misses it,
      with an extra turn. */
  lemma TickRem<T>(w: Wheel<T>, t: T)
    requires w.Valid()
    ensures Tick(w).Valid()
    ensures var n := Ticks(PeriodOf(w.queue, t), w.granularity);
      Tick(w).Rem(t) ==
        if w.Rem(t) != 1 then (if w.Rem(t) == 0 then 0 else w.Rem(t) - 1)
        else if PeriodOf(w.queue, t) == 0 then 0
        else if Misses(Due(w.queue, w.size), w.size, w.granularity) then Wait(n, w.size) else n
    ensures Tick(w).Running(t) ==> PeriodOf(Tick(w).queue, t) == PeriodOf(w.queue, t)
  {
    var q := w.queue;
    var fs := Fired(q);
    var missed := Misses(Due(q, w.size), w.size, w.granularity);
    var back := Rearmed(fs, w.size, w.granularity, missed);
    forall i | 0 <= i < |fs| ensures Has(Fired(q), fs[i].t) {
      HasAt(fs, i);
    }
    FiredSubset(q, fs);
    RearmedSubset(q, fs, w.size, w.granularity, missed);
    TickApart(q, back);
    AgedOf(q, t);
    FiredOf(q, t);
    RearmedOf(fs, w.size, w.granularity, missed, t);
    NoDupConcat(Aged(q), back);
    HasConcat(Aged(q), back, t);
    PeriodConcat(Aged(q), back, t);
    RemPositive(q, t);
    RemPositive(Aged(q), t);
    RemPositive(Tick(w).queue, t);
  }

  lemma {:induction false} PeriodConcat<T>(p: seq<Entry<T>>, q: seq<Entry<T>>, t: T)
    ensures PeriodOf(p + q, t) == if Has(q, t) then PeriodOf(q, t) else PeriodOf(p, t)
  {
    if q == [] {
      assert p + q == p;
    } else {
      assert (p + q)[..|p + q| - 1] == p + q[..|q| - 1];
      PeriodConcat(p, q[..|q| - 1], t);
    }
  }

  // ---------------------------------------------------------------------------------------
  // Runs
  // ---------------------------------------------------------------------------------------

  datatype Op<T> = OpStart(t: T, delay: nat, period: nat) | OpStop(t: T) | OpTick

  ghost function Step<T>(w: Wheel<T>, op: Op<T>): Wheel<T>
    requires w.size > 0 && w.granularity > 0
  {
    match op
    case OpStart(t, delay, period) => Start(w, t, delay, period)
    case OpStop(t) => Stop(w, t)
    case OpTick => Tick(w)
  }

  ghost function Run<T>(w: Wheel<T>, ops: seq<Op<T>>): (r: Wheel<T>)
    requires w.size > 0 && w.granularity > 0
    ensures r.size == w.size && r.granularity == w.granularity
  {
    if ops == [] then w else Step(Run(w, ops[..|ops| - 1]), ops[|ops| - 1])
  }

  lemma StartRem<T>(w: Wheel<T>, t: T, delay: nat, period: nat, u: T)
    requires w.Valid()
    ensures var s := Start(w, t, delay, period);
      && s.Valid()
      && s.Rem(u) == (if u == t then Wait(Ticks(delay, w.granularity), w.size) else w.Rem(u))
      && PeriodOf(s.queue, u) == (if u == t then period else PeriodOf(w.queue, u))
  {
    var e := Entry(t, Wait(Ticks(delay, w.granularity), w.size), period);
    RemoveKeeps(w.queue, t, u);
    RemoveKeeps(w.queue, t, t);
    if u != t {
      RemovePeriod(w.queue, t, u);
    }
    Snoc(Remove(w.queue, t), e);
  }

  lemma StartSize<T>(w: Wheel<T>, t: T, delay: nat, period: nat)
    requires w.size > 0 && w.granularity > 0
    ensures var s := Start(w, t, delay, period); s.size == w.size && s.granularity == w.granularity
  {
  }

  lemma {:induction false} RemovePeriod<T>(q: seq<Entry<T>>, t: T, u: T)
    requires u != t
    ensures PeriodOf(Remove(q, t), u) == PeriodOf(q, u)
  {
    if q != [] {
      var init, e := q[..|q| - 1], q[|q| - 1];
      RemovePeriod(init, t, u);
      if e.t != t {
        Snoc(Remove(init, t), e);
      }
    }
  }

  lemma StopRem<T>(w: Wheel<T>, t: T, u: T)
    requires w.Valid()
    ensures Stop(w, t).Valid()
    ensures Stop(w, t).Rem(u) == if u == t then 0 else w.Rem(u)
    ensures u != t ==> PeriodOf(Stop(w, t).queue, u) == PeriodOf(w.queue, u)
  {
    RemoveKeeps(w.queue, t, u);
    if u != t {
      RemovePeriod(w.queue, t, u);
    }
  }

  /** What one operation that does not name t does to t. */
  ghost predicate Leaves<T>(ops: seq<Op<T>>, t: T) {
    forall i | 0 <= i < |ops| :: ops[i].OpTick? || ops[i].t != t
  }

  ghost function TicksIn<T>(ops: seq<Op<T>>): nat {
    if ops == [] then 0 else TicksIn(ops[..|ops| - 1]) + if ops[|ops| - 1].OpTick? then 1 else 0
  }

  lemma {:induction false} RunValid<T>(w: Wheel<T>, ops: seq<Op<T>>, t: T)
    requires w.Valid()
    ensures Run(w, ops).Valid()
    ensures Leaves(ops, t) && Run(w, ops).Running(t) ==> PeriodOf(Run(w, ops).queue, t) == PeriodOf(w.queue, t)
  {
    if ops != [] {
      var v := Run(w, ops[..|ops| - 1]);
      RunValid(w, ops[..|ops| - 1], t);
      match ops[|ops| - 1]
      case OpStart(u, delay, period) =>
        StartRem(v, u, delay, period, t);
        RemPositive(Start(v, u, delay, period).queue, t);
        RemPositive(v.queue, t);
      case OpStop(u) =>
        StopRem(v, u, t);
        RemPositive(Stop(v, u).queue, t);
        RemPositive(v.queue, t);
      case OpTick =>
        TickRem(v, t);
        RemPositive(Tick(v).queue, t);
        RemPositive(v.queue, t);
    }
  }

  /** Until it fires, a timer that is left alone counts exactly the ticks: it is never early. */
  lemma {:induction false} CountsDown<T>(w: Wheel<T>, t: T, ops: seq<Op<T>>)
    requires w.Valid() && Leaves(ops, t) && TicksIn(ops) < w.Rem(t)
    ensures Run(w, ops).Rem(t) == w.Rem(t) - TicksIn(ops)
  {
    if ops != [] {
      var init := ops[..|ops| - 1];
      CountsDown(w, t, init);
      RunValid(w, init, t);
      StepRem(Run(w, init), ops[|ops| - 1], t);
    }
  }

  /** An operation that does not name t changes its count only if it is a tick. */
  lemma StepRem<T>(w: Wheel<T>, op: Op<T>, t: T)
    requires w.Valid() && (op.OpTick? || op.t != t)
    ensures !op.OpTick? ==> Step(w, op).Rem(t) == w.Rem(t)
    ensures op.OpTick? && w.Rem(t) != 1 ==> Step(w, op).Rem(t) == if w.Rem(t) == 0 then 0 else w.Rem(t) - 1
    ensures op.OpTick? && w.Rem(t) == 1 ==>
      var n := Ticks(PeriodOf(w.queue, t), w.granularity);
      Step(w, op).Rem(t) ==
        if PeriodOf(w.queue, t) == 0 then 0
        else if Misses(Due(w.queue, w.size), w.size, w.granularity) then Wait(n, w.size) else n
  {
    match op
    case OpStart(u, delay, period) => StartRem(w, u, delay, period, t);
    case OpStop(u) => StopRem(w, u, t);
    case OpTick => TickRem(w, t);
  }

  /** A timer started between ticks waits exactly the ticks of its delay unless they are a whole
      number of turns of the wheel; then it waits one turn more.  It is never early. */
  lemma StartOnTime<T>(w: Wheel<T>, t: T, delay: nat, period: nat)
    requires w.Valid()
    ensures var n := Ticks(delay, w.granularity); var r := Start(w, t, delay, period).Rem(t);
      (r == n <==> n % w.size != 0) && (r == n + w.size <==> n % w.size == 0)
  {
  }

  /** A timer that restarts itself waits exactly its period unless that is a whole number of
      turns and the walk misses it; then it waits one turn more. */
  lemma RestartOnTime<T>(w: Wheel<T>, t: T)
    requires w.Valid() && w.Rem(t) == 1 && PeriodOf(w.queue, t) > 0
    ensures var n := Ticks(PeriodOf(w.queue, t), w.granularity); var r := Tick(w).Rem(t);
      && (r == n <==> n % w.size != 0 || !Misses(Due(w.queue, w.size), w.size, w.granularity))
      && (r == n || r == n + w.size)
  {
    TickRem(w, t);
  }

  /** Four spokes of 10 ms: a delay of 40 ms is over only after eight ticks. */
  lemma WholeTurnIsLate()
    ensures var w: Wheel<int> := NewWheel(4, 10); Start(w, 7, 40, 0).Rem(7) == 8 && Ticks(40, 10) == 4
  {
  }

  /** The count of a timer k ticks after a moment at which it was `first`, if it restarts with
      `period` ticks, or not at all when `period` is 0. */
  ghost function Countdown(first: nat, period: nat, k: nat): nat {
    if k < first then first - k
    else if period == 0 then 0
    else period - (k - first) % period
  }

  lemma NextRemainder(a: nat, p: nat)
    requires p > 0
    ensures (a + 1) % p == if a % p == p - 1 then 0 else a % p + 1
  {
    var q, r := a / p, a % p;
    assert a == p * q + r;
    if r == p - 1 {
      assert a + 1 == p * (q + 1);
      RemainderIs(a + 1, p, q + 1, 0);
    } else {
      RemainderIs(a + 1, p, q, r + 1);
    }
  }

  lemma RemainderIs(x: int, p: nat, q: int, r: nat)
    requires p > 0 && r < p && x == p * q + r
    ensures x % p == r && x / p == q
  {
    var q', r' := x / p, x % p;
    assert p * (q - q') == r' - r;
    if q > q' {
      AtLeastOnce(p, q - q');
    } else if q < q' {
      AtLeastOnce(p, q' - q);
    }
  }

  lemma AtLeastOnce(p: nat, d: int)
    requires d >= 1
    ensures p * d >= p
    ensures p * -d <= 0 - p
  {
  }

  lemma CountdownStep(first: nat, period: nat, k: nat)
    requires first > 0
    ensures var c := Countdown(first, period, k);
      Countdown(first, period, k + 1) == if c > 1 then c - 1 else if c == 1 then period else 0
  {
    if k + 1 == first && period > 0 {
      RemainderIs(0, period, 0, 0);
    } else if k >= first && period > 0 {
      NextRemainder(k - first, period);
    }
  }

  /** A running timer whose period is not a multiple of the wheel size, left alone, has the
      same count after any k ticks whatever happens to other timers. */
  lemma {:induction false} NoDrift<T>(w: Wheel<T>, t: T, ops: seq<Op<T>>)
    requires w.Valid() && w.Running(t) && Leaves(ops, t)
    requires PeriodOf(w.queue, t) > 0 ==> Ticks(PeriodOf(w.queue, t), w.granularity) % w.size != 0
    ensures Run(w, ops).Rem(t) == Countdown(w.Rem(t), PeriodTicks(w, t), TicksIn(ops))
  {
    RemPositive(w.queue, t);
    if ops != [] {
      var init := ops[..|ops| - 1];
      var v := Run(w, init);
      NoDrift(w, t, init);
      RunValid(w, init, t);
      RemPositive(v.queue, t);
      StepRem(v, ops[|ops| - 1], t);
      CountdownStep(w.Rem(t), PeriodTicks(w, t), TicksIn(init));
    }
  }

  /** The number of ticks t restarts with, or 0. */
  ghost function PeriodTicks<T>(w: Wheel<T>, t: T): nat
    requires w.granularity > 0
  {
    if PeriodOf(w.queue, t) == 0 then 0 else Ticks(PeriodOf(w.queue, t), w.granularity)
  }

  /** A timer started with a delay of n ticks and a period of p ticks, p no multiple of the
      wheel size: the (k+1)-st tick after the start fires it exactly if k + 1 is
      Wait(n), Wait(n) + p, Wait(n) + 2p, ..., for ever. */
  lemma FiresOnSchedule<T>(w: Wheel<T>, t: T, delay: nat, period: nat, ops: seq<Op<T>>)
    requires w.Valid() && Leaves(ops, t)
    requires period > 0 ==> Ticks(period, w.granularity) % w.size != 0
    ensures var k := TicksIn(ops);
      var first := Wait(Ticks(delay, w.granularity), w.size);
      Has(Fired(Run(Start(w, t, delay, period), ops).queue), t) <==>
        if period == 0 then k + 1 == first
        else k + 1 >= first && (k + 1 - first) % Ticks(period, w.granularity) == 0
  {
    hide Start, Wait, Fired, Has, Waiting, NoDup;
    var s := Start(w, t, delay, period);
    StartSize(w, t, delay, period);
    var v := Run(s, ops);
    var first := Wait(Ticks(delay, w.granularity), w.size);
    var k := TicksIn(ops);
    StartRem(w, t, delay, period, t);
    RemPositive(s.queue, t);
    NoDrift(s, t, ops);
    RunValid(s, ops, t);
    FiredOf(v.queue, t);
    RemPositive(v.queue, t);
    if period > 0 {
      var p := Ticks(period, w.granularity);
      if k >= first {
        NextRemainder(k - first, p);
      } else if k + 1 == first {
        RemainderIs(0, p, 0, 0);
      }
    }
  }

  /** How often t has fired during a run. */
  ghost function Firings<T>(w: Wheel<T>, t: T, ops: seq<Op<T>>): nat
    requires w.size > 0 && w.granularity > 0
  {
    if ops == [] then 0
    else
      var v, op := Run(w, ops[..|ops| - 1]), ops[|ops| - 1];
      Firings(w, t, ops[..|ops| - 1]) + if op.OpTick? && Has(Fired(v.queue), t) then 1 else 0
  }

  /** How often t has fired with a period of whole turns in a walk that missed its restart. */
  ghost function Lates<T>(w: Wheel<T>, t: T, ops: seq<Op<T>>): nat
    requires w.size > 0 && w.granularity > 0
  {
    if ops == [] then 0
    else
      var v, op := Run(w, ops[..|ops| - 1]), ops[|ops| - 1];
      Lates(w, t, ops[..|ops| - 1])
        + if op.OpTick? && Has(Fired(v.queue), t) && PeriodTicks(w, t) % w.size == 0
             && Misses(Due(v.queue, v.size), v.size, v.granularity) then 1 else 0
  }

  /** The account of a timer: ticks passed and ticks to wait are what it had to wait at first,
      a period for every firing, and a turn for every late restart. */
  ghost predicate Account(passed: nat, rem: nat, first: nat, firings: nat, period: nat, lates: nat, size: nat) {
    passed + rem == first + firings * period + lates * size
  }

  lemma Tally(k: nat, r: nat, first: nat, f: nat, m: nat, p: nat, size: nat,
              tick: nat, r': nat, fires: bool, late: bool)
    requires Account(k, r, first, f, p, m, size)
    requires tick + r' == r + (if fires then p else 0) + (if late then size else 0)
    ensures var f', m' := f + (if fires then 1 else 0), m + if late then 1 else 0;
      Account(k + tick, r', first, f', p, m', size)
  {
    assert (f + 1) * p == f * p + p && (m + 1) * size == m * size + size;
  }

  /** One operation: the ticks counted and the ticks still to wait. */
  lemma StepCounts<T>(w: Wheel<T>, t: T, op: Op<T>)
    requires w.Valid() && w.Running(t) && PeriodOf(w.queue, t) > 0 && (op.OpTick? || op.t != t)
    ensures var fires := op.OpTick? && Has(Fired(w.queue), t); var p := PeriodTicks(w, t);
      (if op.OpTick? then 1 else 0) + Step(w, op).Rem(t) == w.Rem(t)
        + (if fires then p else 0)
        + (if fires && p % w.size == 0 && Misses(Due(w.queue, w.size), w.size, w.granularity) then w.size else 0)
    ensures Step(w, op).Valid() && Step(w, op).Running(t) && PeriodOf(Step(w, op).queue, t) == PeriodOf(w.queue, t)
  {
    hide Fired, Due, Misses, Step, Has;
    StepRem(w, op, t);
    FiredOf(w.queue, t);
    RemPositive(w.queue, t);
    StepKeeps(w, op, t);
  }

  lemma StepKeeps<T>(w: Wheel<T>, op: Op<T>, t: T)
    requires w.Valid() && w.Running(t) && PeriodOf(w.queue, t) > 0 && (op.OpTick? || op.t != t)
    ensures Step(w, op).Valid() && Step(w, op).Running(t) && PeriodOf(Step(w, op).queue, t) == PeriodOf(w.queue, t)
  {
    assert [op][..0] == [] && Run(w, []) == w;
    RunValid(w, [op], t);
    StepRem(w, op, t);
    RemPositive(w.queue, t);
    RemPositive(Step(w, op).queue, t);
  }

  lemma Opening(rem: nat, p: nat, size: nat)
    ensures Account(0, rem, rem, 0, p, 0, size)
  {
  }

  /** The account of a periodic timer that is left alone balances after every run, whatever its
      period. */
  lemma {:induction false} EveryTickCounts<T>(w: Wheel<T>, t: T, ops: seq<Op<T>>)
    requires w.Valid() && w.Running(t) && PeriodOf(w.queue, t) > 0 && Leaves(ops, t)
    ensures var v, f, m := Run(w, ops), Firings(w, t, ops), Lates(w, t, ops);
      && v.Valid() && v.Running(t) && PeriodOf(v.queue, t) == PeriodOf(w.queue, t)
      && Account(TicksIn(ops), v.Rem(t), w.Rem(t), f, PeriodTicks(w, t), m, w.size)
      && m <= f && (PeriodTicks(w, t) % w.size != 0 ==> m == 0)
  {
    hide Step, Fired, Due, Misses, Has, PeriodOf, Account;
    Opening(w.Rem(t), PeriodTicks(w, t), w.size);
    if ops != [] {
      var init, op := ops[..|ops| - 1], ops[|ops| - 1];
      var v, p := Run(w, init), PeriodTicks(w, t);
      EveryTickCounts(w, t, init);
      StepCounts(v, t, op);
      var fires := op.OpTick? && Has(Fired(v.queue), t);
      var late := fires && p % w.size == 0 && Misses(Due(v.queue, v.size), v.size, v.granularity);
      Tally(TicksIn(init), v.Rem(t), w.Rem(t), Firings(w, t, init), Lates(w, t, init), p, w.size,
            if op.OpTick? then 1 else 0, Step(v, op).Rem(t), fires, late);
    }
  }

  /** When a timer fires, for every delay and every period: after the first wait, a period for
      every earlier firing, and a turn for every restart that was missed. */
  lemma FiresOnCount<T>(w: Wheel<T>, t: T, delay: nat, period: nat, ops: seq<Op<T>>)
    requires w.Valid() && Leaves(ops, t) && period > 0
    ensures var s := Start(w, t, delay, period); var f, m := Firings(s, t, ops), Lates(s, t, ops);
      Has(Fired(Run(s, ops).queue), t) <==>
        TicksIn(ops) + 1 == Wait(Ticks(delay, w.granularity), w.size) + f * Ticks(period, w.granularity) + m * w.size
  {
    hide Start, Firings, Lates, Wait, Fired, Has;
    var s := Start(w, t, delay, period);
    StartRem(w, t, delay, period, t);
    StartSize(w, t, delay, period);
    RemPositive(s.queue, t);
    EveryTickCounts(s, t, ops);
    FiredOf(Run(s, ops).queue, t);
  }

  /** n ticks and nothing else. */
  ghost function Ticked<T>(w: Wheel<T>, n: nat): (r: Wheel<T>)
    requires w.size > 0 && w.granularity > 0
    ensures r.size == w.size && r.granularity == w.granularity
  {
    if n == 0 then w else Tick(Ticked(w, n - 1))
  }

  lemma LoneFires<T>(e: Entry<T>, size: nat, g: nat)
    requires size > 0 && g > 0 && e.rem == 1 && Returns(e, size, g)
    ensures Fired([e]) == [e] && Aged([e]) == [] && Due([e], size) == [e] && Misses([e], size, g)
    ensures Rearmed([e], size, g, true) == [e.(rem := Ticks(e.period, g) + size)]
  {
    assert [e][..0] == [];
    RemainderIs(0, size, 0, 0);
  }

  lemma LoneAges<T>(e: Entry<T>, size: nat, g: nat, missed: bool)
    requires size > 0 && g > 0 && e.rem > 1
    ensures Fired([e]) == [] && Aged([e]) == [e.(rem := e.rem - 1)] && Rearmed<T>([], size, g, missed) == []
  {
    assert [e][..0] == [];
  }

  lemma LoneWaits<T>(q: seq<Entry<T>>, e: Entry<T>)
    requires q == [e] && Waiting(q)
    ensures e.rem > 0
  {
  }

  lemma LoneTick<T>(w: Wheel<T>, e: Entry<T>)
    requires w.Valid() && w.queue == [e] && e.period > 0 && Ticks(e.period, w.granularity) % w.size == 0
    ensures var late := Ticks(e.period, w.granularity) + w.size;
      Tick(w).queue == [e.(rem := if e.rem > 1 then e.rem - 1 else late)]
    ensures Tick(w).size == w.size && Tick(w).granularity == w.granularity
  {
    hide Fired, Aged, Rearmed, Due, Misses, NoDup;
    LoneWaits(w.queue, e);
    if e.rem == 1 {
      LoneFires(e, w.size, w.granularity);
    } else {
      LoneAges(e, w.size, w.granularity, Misses(Due(w.queue, w.size), w.size, w.granularity));
    }
  }

  /** A timer that runs alone and has a period of whole turns is late at every restart: after
      its first firing it fires every period and a turn, for ever. */
  lemma {:induction false} LoneTimerIsAlwaysLate<T>(w: Wheel<T>, e: Entry<T>, n: nat)
    requires w.Valid() && w.queue == [e] && e.period > 0 && Ticks(e.period, w.granularity) % w.size == 0
    ensures Ticked(w, n).Valid()
    ensures Ticked(w, n).queue == [e.(rem := Countdown(e.rem, Ticks(e.period, w.granularity) + w.size, n))]
  {
    hide Tick;
    assert w.queue[..0] == [] && e.rem > 0;
    if n > 0 {
      LoneTimerIsAlwaysLate(w, e, n - 1);
      var v, late := Ticked(w, n - 1), Ticks(e.period, w.granularity) + w.size;
      LoneTick(v, v.queue[0]);
      StepTickValid(v);
      CountdownStep(e.rem, late, n - 1);
    }
  }

  // ---------------------------------------------------------------------------------------
  // Statistics
  // ---------------------------------------------------------------------------------------

  /** Every start and every periodic restart is accounted for: the timer is still running, has
      expired, was cancelled, or was started again while it was running. */
  ghost predicate Balanced<T>(w: Wheel<T>) {
    && w.starts + w.rearms == |w.queue| + w.expired + w.cancelled + w.restarts
    && |w.queue| <= w.hiwater
  }

  lemma {:induction false} TickLengths<T>(q: seq<Entry<T>>)
    requires Waiting(q)
    ensures |Aged(q)| + |Fired(q)| == |q|
  {
    if q != [] {
      TickLengths(q[..|q| - 1]);
    }
  }

  lemma {:induction false} RearmedLength<T>(fs: seq<Entry<T>>, size: nat, g: nat, missed: bool)
    requires size > 0 && g > 0
    ensures |Rearmed(fs, size, g, missed)| <= |fs|
  {
    if fs != [] {
      RearmedLength(fs[..|fs| - 1], size, g, missed);
    }
  }

  lemma StepBalanced<T>(w: Wheel<T>, op: Op<T>)
    requires w.Valid() && Balanced(w)
    ensures Balanced(Step(w, op))
    ensures Step(w, op).hiwater == if |Step(w, op).queue| > w.hiwater then |Step(w, op).queue| else w.hiwater
  {
    match op
    case OpStart(t, delay, period) => RemoveLength(w.queue, t);
    case OpStop(t) => RemoveLength(w.queue, t);
    case OpTick =>
      TickLengths(w.queue);
      RearmedLength(Fired(w.queue), w.size, w.granularity, Misses(Due(w.queue, w.size), w.size, w.granularity));
  }

  ghost function NewWheel<T>(size: nat, granularity: nat): Wheel<T> {
    Wheel(size, granularity, 0, [], 0, 0, 0, 0, 0, 0, 0)
  }

  lemma {:induction false} RunBalanced<T>(size: nat, granularity: nat, ops: seq<Op<T>>)
    requires size > 0 && granularity > 0
    ensures Run(NewWheel(size, granularity), ops).Valid() && Balanced(Run(NewWheel(size, granularity), ops))
  {
    var w: Wheel<T> := NewWheel(size, granularity);
    if ops != [] {
      var v := Run(w, ops[..|ops| - 1]);
      RunBalanced(size, granularity, ops[..|ops| - 1]);
      StepBalanced(v, ops[|ops| - 1]);
      match ops[|ops| - 1]
      case OpStart(t, delay, period) => StartRem(v, t, delay, period, t);
      case OpStop(t) => StopRem(v, t, t);
      case OpTick => StepTickValid(v);
    }
  }

  lemma StepTickValid<T>(w: Wheel<T>)
    requires w.Valid()
    ensures Tick(w).Valid()
  {
    if w.queue != [] {
      TickRem(w, w.queue[0].t);
    }
  }

  /** A mark that is raised to every larger value seen is the maximum of them. */
  lemma {:induction false} RunningMaximum(mark: seq<nat>, value: seq<nat>, n: nat) returns (at: nat)
    requires n < |mark| == |value| && mark[0] == value[0]
    requires forall i | 0 <= i < |mark| - 1 ::
      mark[i + 1] == if value[i + 1] > mark[i] then value[i + 1] else mark[i]
    ensures forall k | 0 <= k <= n :: value[k] <= mark[n]
    ensures at <= n && mark[n] == value[at]
  {
    at := n;
    if n > 0 {
      var at' := RunningMaximum(mark, value, n - 1);
      assert mark[n - 1 + 1] == if value[n] > mark[n - 1] then value[n] else mark[n - 1];
      at := if mark[n] == value[n] then n else at';
    }
  }

  lemma MarkFollows<T>(size: nat, granularity: nat, ops: seq<Op<T>>, i: nat)
    requires size > 0 && granularity > 0 && i < |ops|
    ensures var w: Wheel<T> := NewWheel(size, granularity); var v, v' := Run(w, ops[..i]), Run(w, ops[..i + 1]);
      v'.hiwater == if |v'.queue| > v.hiwater then |v'.queue| else v.hiwater
  {
    hide Step;
    RunBalanced(size, granularity, ops[..i]);
    StepBalanced(Run(NewWheel(size, granularity), ops[..i]), ops[i]);
    assert ops[..i + 1][..i] == ops[..i];
  }

  /** The high-water mark is the largest number of running timers in any state of the run. */
  lemma HighWaterMark<T>(size: nat, granularity: nat, ops: seq<Op<T>>) returns (at: nat)
    requires size > 0 && granularity > 0
    ensures forall k | 0 <= k <= |ops| ::
      |Run(NewWheel(size, granularity), ops[..k]).queue| <= Run(NewWheel(size, granularity), ops).hiwater
    ensures at <= |ops|
      && |Run(NewWheel(size, granularity), ops[..at]).queue| == Run(NewWheel(size, granularity), ops).hiwater
  {
    hide Step, Balanced;
    var w: Wheel<T> := NewWheel(size, granularity);
    var n := |ops|;
    var mark: seq<nat> := seq(n + 1, i requires 0 <= i <= n => Run(w, ops[..i]).hiwater);
    var value: seq<nat> := seq(n + 1, i requires 0 <= i <= n => |Run(w, ops[..i]).queue|);
    forall i | 0 <= i < n
      ensures mark[i + 1] == if value[i + 1] > mark[i] then value[i + 1] else mark[i]
    {
      MarkFollows(size, granularity, ops, i);
    }
    at := RunningMaximum(mark, value, n);
    assert ops[..n] == ops;
    forall k | 0 <= k <= n ensures |Run(w, ops[..k]).queue| <= Run(w, ops).hiwater {
      assert value[k] <= mark[n];
    }
  }

  // ---------------------------------------------------------------------------------------
  // What the counters count
  // ---------------------------------------------------------------------------------------

  ghost predicate IsRestart<T>(w: Wheel<T>, op: Op<T>) {
    op.OpStart? && w.Rem(op.t) > 0
  }

  ghost predicate IsCancel<T>(w: Wheel<T>, op: Op<T>) {
    op.OpStop? && w.Rem(op.t) > 0
  }

  ghost function StartsIn<T>(ops: seq<Op<T>>): nat {
    if ops == [] then 0 else StartsIn(ops[..|ops| - 1]) + if ops[|ops| - 1].OpStart? then 1 else 0
  }

  /** How many of the operations satisfy `counts` in the state in which they are applied. */
  ghost function Counted<T>(w: Wheel<T>, ops: seq<Op<T>>, counts: (Wheel<T>, Op<T>) -> bool): nat
    requires w.size > 0 && w.granularity > 0
  {
    if ops == [] then 0
    else
      var init := ops[..|ops| - 1];
      Counted(w, init, counts) + if counts(Run(w, init), ops[|ops| - 1]) then 1 else 0
  }

  /** How many entries satisfy p. */
  ghost function HowMany<T>(q: seq<Entry<T>>, p: Entry<T> -> bool): nat {
    |set e | e in q && p(e)|
  }

  lemma HowManySnoc<T>(q: seq<Entry<T>>, e: Entry<T>, p: Entry<T> -> bool)
    requires e !in q
    ensures HowMany(q + [e], p) == HowMany(q, p) + if p(e) then 1 else 0
  {
    var a, b := set f | f in q && p(f), set f | f in q + [e] && p(f);
    assert b == if p(e) then a + {e} else a;
  }

  lemma {:induction false} NotIn<T>(q: seq<Entry<T>>, e: Entry<T>)
    requires !Has(q, e.t)
    ensures e !in q
  {
    if q != [] {
      NotIn(q[..|q| - 1], e);
      assert q == q[..|q| - 1] + [q[|q| - 1]];
    }
  }

  lemma {:induction false} FiredCount<T>(q: seq<Entry<T>>, p: Entry<T> -> bool)
    requires NoDup(q) && forall e :: p(e) <==> e.rem == 1
    ensures |Fired(q)| == HowMany(q, p)
  {
    hide HowMany;
    if q == [] {
      NoneThere(p);
    } else {
      var init, e := q[..|q| - 1], q[|q| - 1];
      FiredCount(init, p);
      NotIn(init, e);
      HowManySnoc(init, e, p);
      assert q == init + [e];
    }
  }

  lemma NoneThere<T>(p: Entry<T> -> bool)
    ensures HowMany([], p) == 0
  {
  }

  lemma RearmedSnoc<T>(fs: seq<Entry<T>>, e: Entry<T>, size: nat, g: nat, missed: bool)
    requires size > 0 && g > 0
    ensures |Rearmed(fs + [e], size, g, missed)|
         == |Rearmed(fs, size, g, missed)| + if e.period > 0 then 1 else 0
  {
    hide Restarted;
    Snoc(fs, e);
  }

  lemma {:induction false} RearmedCount<T>(q: seq<Entry<T>>, size: nat, g: nat, missed: bool, p: Entry<T> -> bool)
    requires NoDup(q) && size > 0 && g > 0 && forall e :: p(e) <==> e.rem == 1 && e.period > 0
    ensures |Rearmed(Fired(q), size, g, missed)| == HowMany(q, p)
  {
    hide HowMany, Restarted;
    if q == [] {
      NoneThere(p);
    } else {
      var init, e := q[..|q| - 1], q[|q| - 1];
      RearmedCount(init, size, g, missed, p);
      NotIn(init, e);
      HowManySnoc(init, e, p);
      RearmedSnoc(Fired(init), e, size, g, missed);
      assert q == init + [e];
    }
  }

  /** A tick counts every timer that fires as expired, and as rearmed if it has a period. */
  lemma TickCounters<T>(w: Wheel<T>)
    requires w.Valid()
    ensures Tick(w).expired == w.expired + HowMany(w.queue, (e: Entry<T>) => e.rem == 1)
    ensures Tick(w).rearms == w.rearms + HowMany(w.queue, (e: Entry<T>) => e.rem == 1 && e.period > 0)
  {
    hide HowMany;
    FiredCount(w.queue, (e: Entry<T>) => e.rem == 1);
    RearmedCount(w.queue, w.size, w.granularity, Misses(Due(w.queue, w.size), w.size, w.granularity),
                 (e: Entry<T>) => e.rem == 1 && e.period > 0);
  }

  /** What an operation does to the counters that ticks alone or starts and stops alone change. */
  lemma StepCounters<T>(w: Wheel<T>, op: Op<T>)
    requires w.Valid()
    ensures var v := Step(w, op);
      && v.ticks == w.ticks + (if op.OpTick? then 1 else 0)
      && v.index == (if op.OpTick? then (w.index + 1) % w.size else w.index)
      && v.starts == w.starts + (if op.OpStart? then 1 else 0)
      && v.restarts == w.restarts + (if IsRestart(w, op) then 1 else 0)
      && v.cancelled == w.cancelled + (if IsCancel(w, op) then 1 else 0)
      && (!op.OpTick? ==> v.expired == w.expired && v.rearms == w.rearms)
  {
    if !op.OpTick? {
      RemPositive(w.queue, op.t);
    }
  }

  /** After any run every counter is the number of what it is named for: ticks, starts, starts of
      timers that were running, stops of timers that were running; and the wheel stands on the
      spoke that many ticks on. */
  lemma {:induction false} RunCounters<T>(w: Wheel<T>, ops: seq<Op<T>>)
    requires w.Valid()
    ensures var v := Run(w, ops);
      && v.ticks == w.ticks + TicksIn(ops) && v.index == (w.index + TicksIn(ops)) % w.size
      && v.starts == w.starts + StartsIn(ops)
      && v.restarts == w.restarts + Counted(w, ops, IsRestart)
      && v.cancelled == w.cancelled + Counted(w, ops, IsCancel)
  {
    hide Step;
    if ops != [] {
      var init, op := ops[..|ops| - 1], ops[|ops| - 1];
      RunCounters(w, init);
      KeepsValid(w, init);
      StepCounters(Run(w, init), op);
      OneSpokeOn(w.index + TicksIn(init), w.size);
    }
  }

  lemma OneSpokeOn(a: nat, size: nat)
    requires size > 0
    ensures (a % size + 1) % size == (a + 1) % size
  {
    var r := a % size;
    NextRemainder(a, size);
    if r == size - 1 {
      RemainderIs(r + 1, size, 1, 0);
    } else {
      RemainderIs(r + 1, size, 0, r + 1);
    }
  }

  lemma {:induction false} KeepsValid<T>(w: Wheel<T>, ops: seq<Op<T>>)
    requires w.Valid()
    ensures Run(w, ops).Valid()
  {
    if ops != [] {
      var v := Run(w, ops[..|ops| - 1]);
      KeepsValid(w, ops[..|ops| - 1]);
      match ops[|ops| - 1]
      case OpStart(t, delay, period) => StartRem(v, t, delay, period, t);
      case OpStop(t) => StopRem(v, t, t);
      case OpTick => StepTickValid(v);
    }
  }

  // ---------------------------------------------------------------------------------------
  // First come, first served
  // ---------------------------------------------------------------------------------------

  /** t stands before u in the queue. */
  ghost predicate Before<T>(q: seq<Entry<T>>, t: T, u: T) {
    && q != []
    && ((q[|q| - 1].t == u && Has(q[..|q| - 1], t)) || Before(q[..|q| - 1], t, u))
  }

  lemma {:induction false} BeforeHas<T>(q: seq<Entry<T>>, t: T, u: T)
    requires Before(q, t, u)
    ensures Has(q, t) && Has(q, u)
  {
    if !(q[|q| - 1].t == u && Has(q[..|q| - 1], t)) {
      BeforeHas(q[..|q| - 1], t, u);
    }
  }

  lemma BeforeSnoc<T>(p: seq<Entry<T>>, e: Entry<T>, t: T, u: T)
    ensures Before(p + [e], t, u) <==> (e.t == u && Has(p, t)) || Before(p, t, u)
  {
    Snoc(p, e);
  }

  lemma {:induction false} BeforeConcat<T>(p: seq<Entry<T>>, q: seq<Entry<T>>, t: T, u: T)
    ensures Before(p + q, t, u) <==> Before(p, t, u) || Before(q, t, u) || (Has(p, t) && Has(q, u))
  {
    if q == [] {
      assert p + q == p;
    } else {
      var init := q[..|q| - 1];
      assert p + q == p + init + [q[|q| - 1]];
      BeforeConcat(p, init, t, u);
      BeforeSnoc(p + init, q[|q| - 1], t, u);
      HasConcat(p, init, t);
    }
  }

  lemma {:induction false} RemoveOrder<T>(q: seq<Entry<T>>, x: T, t: T, u: T)
    ensures Before(Remove(q, x), t, u) <==> Before(q, t, u) && t != x && u != x
  {
    if q != [] {
      var init, e := q[..|q| - 1], q[|q| - 1];
      RemoveOrder(init, x, t, u);
      RemoveKeeps(init, x, t);
      BeforeSnoc(Remove(init, x), e, t, u);
    }
  }

  lemma {:induction false} FiredOrder<T>(q: seq<Entry<T>>, t: T, u: T)
    requires NoDup(q) && Waiting(q)
    ensures Before(Fired(q), t, u) <==> Before(q, t, u) && RemOf(q, t) == 1 && RemOf(q, u) == 1
  {
    if q != [] {
      var init, e := q[..|q| - 1], q[|q| - 1];
      FiredOrder(init, t, u);
      FiredHas(init, t);
      RemPositive(init, t);
      BeforeSnoc(Fired(init), e, t, u);
      LastIsNotBefore(init, e, t, u);
    }
  }

  /** The last timer of a queue stands before none. */
  lemma LastIsNotBefore<T>(init: seq<Entry<T>>, e: Entry<T>, t: T, u: T)
    requires !Has(init, e.t)
    ensures Before(init, t, u) ==> t != e.t && u != e.t
    ensures Has(init, t) ==> t != e.t
  {
    if Before(init, t, u) {
      BeforeHas(init, t, u);
    }
  }

  lemma {:induction false} AgedOrder<T>(q: seq<Entry<T>>, t: T, u: T)
    requires NoDup(q) && Waiting(q)
    ensures Before(Aged(q), t, u) <==> Before(q, t, u) && RemOf(q, t) > 1 && RemOf(q, u) > 1
  {
    if q != [] {
      var init, e := q[..|q| - 1], q[|q| - 1];
      AgedOrder(init, t, u);
      AgedOf(init, t);
      BeforeSnoc(Aged(init), e.(rem := if e.rem > 1 then e.rem - 1 else 0), t, u);
      LastIsNotBefore(init, e, t, u);
    }
  }

  lemma {:induction false} RearmedOrder<T>(fs: seq<Entry<T>>, size: nat, g: nat, missed: bool, t: T, u: T)
    requires NoDup(fs) && size > 0 && g > 0
    ensures Before(Rearmed(fs, size, g, missed), t, u)
       <==> Before(fs, t, u) && PeriodOf(fs, t) > 0 && PeriodOf(fs, u) > 0
  {
    hide Restarted, Ticks, Wait;
    if fs != [] {
      var init, e := fs[..|fs| - 1], fs[|fs| - 1];
      RearmedOrder(init, size, g, missed, t, u);
      RearmedOf(init, size, g, missed, t);
      RestartedName(e, size, g, missed);
      BeforeSnoc(Rearmed(init, size, g, missed), Restarted(e, size, g, missed), t, u);
      LastIsNotBefore(init, e, t, u);
    }
  }

  lemma RestartedName<T>(e: Entry<T>, size: nat, g: nat, missed: bool)
    requires size > 0 && g > 0
    ensures Restarted(e, size, g, missed).t == e.t
  {
  }

  /** A started timer goes behind all others, which keep their order. */
  lemma StartOrder<T>(w: Wheel<T>, x: T, delay: nat, period: nat, t: T, u: T)
    requires w.Valid()
    ensures Before(Start(w, x, delay, period).queue, t, u)
       <==> t != x && (if u == x then w.Running(t) else Before(w.queue, t, u))
  {
    RemoveOrder(w.queue, x, t, u);
    RemoveKeeps(w.queue, x, t);
    BeforeSnoc(Remove(w.queue, x), Entry(x, Wait(Ticks(delay, w.granularity), w.size), period), t, u);
  }

  /** Timers that one tick fires are fired in the order of the queue: first come, first served.
      Those that it restarts go, in that order, behind the others, which keep theirs. */
  lemma TickOrder<T>(w: Wheel<T>, t: T, u: T)
    requires w.Valid()
    ensures Before(Fired(w.queue), t, u) <==> Before(w.queue, t, u) && w.Rem(t) == 1 && w.Rem(u) == 1
    ensures var back := (x: T) => w.Rem(x) == 1 && PeriodOf(w.queue, x) > 0;
      Before(Tick(w).queue, t, u)
      <==> || (Before(w.queue, t, u) && w.Rem(t) > 1 && w.Rem(u) > 1)
           || (Before(w.queue, t, u) && back(t) && back(u))
           || (w.Rem(t) > 1 && back(u))
  {
    hide Before, Rearmed, Aged, Fired, NoDup, Waiting, Has, RemOf, PeriodOf, Due, Misses, Ticks;
    var q, missed := w.queue, Misses(Due(w.queue, w.size), w.size, w.granularity);
    var fs := Fired(q);
    FiredOrder(q, t, u);
    AgedOrder(q, t, u);
    FiredOf(q, t);
    FiredOf(q, u);
    AgedOf(q, t);
    RemPositive(q, t);
    RearmedOrder(fs, w.size, w.granularity, missed, t, u);
    RearmedOf(fs, w.size, w.granularity, missed, u);
    BeforeConcat(Aged(q), Rearmed(fs, w.size, w.granularity, missed), t, u);
    if Before(fs, t, u) {
      BeforeHas(fs, t, u);
    }
  }
}
