/**
 The loop of tmr_main_task (src/timer/base_mgmt.c) that turns clock readings into ticks of the
 wheel: after every sleep the elapsed clock is converted to tenths of a tick, whole ticks are
 delivered and the rest is carried.

 Clock readings are parameters; the endless loop is a loop over any list of sleeps.
 */
module TickDriver {
  import opened WheelModel
  import opened Wrappers
  import TimerWheel

  /** The clock before and after one sleep. */
  datatype Sleep = Sleep(start: nat, end: nat) {
    /** The clock has rolled over. */
    predicate Rolled() {
      end < start
    }

    /** Ten times the elapsed ticks, multiplied by the clock rate. */
    function Scaled(rate: nat): int {
      (end - start) * rate * 10
    }

    /** The tenths of a tick that the code computes, cut to 32 bits. */
    function Tenths(rate: nat, clock: nat): nat
      requires !Rolled() && clock > 0
    {
      Scaled(rate) / clock % U32
    }
  }

  /** The credit for one sleep, rolled over or not. */
  function Credited(s: Sleep, rate: nat, clock: nat): nat
    requires clock > 0
  {
    if s.Rolled() then 10 else s.Tenths(rate, clock)
  }

  ghost function Credit(sleeps: seq<Sleep>, rate: nat, clock: nat): nat
    requires clock > 0
  {
    if sleeps == [] then 0
    else
      var s := sleeps[|sleeps| - 1];
      Credit(sleeps[..|sleeps| - 1], rate, clock) + Credited(s, rate, clock)
  }

  /** Delivers the ticks for the given sleeps.  Nothing is lost and nothing invented: the ticks
      delivered and the remainder carried are exactly the tenths credited. */
  method Drive(wheel: TimerWheel.Wheel, sleeps: seq<Sleep>, rate: nat, clock: nat)
      returns (delivered: nat, rem: nat)
    requires wheel.Valid() && clock > 0
    modifies wheel, wheel.spokes`next, wheel.spokes`prev, wheel.timers`next, wheel.timers`prev, wheel.timers`rotation
    ensures wheel.Valid() && wheel.Abs() == Ticked(old(wheel.Abs()), delivered)
    ensures rem < 10 && 10 * delivered + rem == Credit(sleeps, rate, clock)
  {
    hide TimerWheel.Wheel.Core, TimerWheel.NullWhenFree, Tick;
    ghost var was := wheel.Abs();
    assert was.size > 0 && was.granularity > 0 by { Sized(wheel); }
    delivered, rem := 0, 0;
    var i := 0;
    while i < |sleeps|
      invariant i <= |sleeps| && wheel.Valid() && wheel.timers == old(wheel.timers)
      invariant wheel.Abs() == Ticked(was, delivered)
      invariant rem < 10 && 10 * delivered + rem == Credit(sleeps[..i], rate, clock)
    {
      var s := sleeps[i];
      var n := 1;
      if !s.Rolled() {
        var x10 := s.Tenths(rate, clock);
        n := x10 / 10;
        rem := rem + x10 % 10;
        if rem / 10 >= 1 {
          n := n + 1;
          rem := rem - 10;
        }
      }
      assert sleeps[..i + 1][..i] == sleeps[..i];
      ghost var before := delivered;
      var m := n;
      while m != 0
        invariant 0 <= m <= n && delivered == before + n - m
        invariant wheel.Valid() && wheel.timers == old(wheel.timers)
        invariant wheel.Abs() == Ticked(was, delivered)
        decreases m
      {
        var fired := wheel.Tick();
        delivered := delivered + 1;
        m := m - 1;
      }
      i := i + 1;
    }
    assert sleeps[..i] == sleeps;
  }

  lemma Sized(wheel: TimerWheel.Wheel)
    requires wheel.Valid()
    ensures wheel.size > 0 && wheel.granularity > 0
  {
  }

  // ---------------------------------------------------------------------------------------
  // Credit against real time
  // ---------------------------------------------------------------------------------------

  /** Ten times the ticks of a sleep, multiplied by the clock rate; one tick when the clock has
      rolled over. */
  function Assumed(s: Sleep, rate: nat, clock: nat): int {
    if s.Rolled() then clock * 10 else s.Scaled(rate)
  }

  ghost predicate NoneRolled(sleeps: seq<Sleep>) {
    forall i | 0 <= i < |sleeps| :: !sleeps[i].Rolled()
  }

  /** No single sleep is so long that its tenths do not fit 32 bits. */
  ghost predicate AllFit(sleeps: seq<Sleep>, rate: nat, clock: nat)
    requires clock > 0
  {
    forall i | 0 <= i < |sleeps| :: sleeps[i].Rolled() || sleeps[i].Scaled(rate) / clock < U32
  }

  ghost function TotalAssumed(sleeps: seq<Sleep>, rate: nat, clock: nat): int {
    if sleeps == [] then 0
    else TotalAssumed(sleeps[..|sleeps| - 1], rate, clock) + Assumed(sleeps[|sleeps| - 1], rate, clock)
  }

  /** The clock time that passes during the sleeps. */
  ghost function Slept(sleeps: seq<Sleep>): int {
    if sleeps == [] then 0
    else
      var s := sleeps[|sleeps| - 1];
      Slept(sleeps[..|sleeps| - 1]) + s.end - s.start
  }

  /** Without rollover what is assumed is the time that passes. */
  lemma {:induction false} AssumedIsReal(sleeps: seq<Sleep>, rate: nat, clock: nat)
    requires NoneRolled(sleeps)
    ensures TotalAssumed(sleeps, rate, clock) == Slept(sleeps) * (rate * 10)
  {
    if sleeps != [] {
      var init, s := sleeps[..|sleeps| - 1], sleeps[|sleeps| - 1];
      AssumedIsReal(init, rate, clock);
      assert s.Scaled(rate) == (s.end - s.start) * (rate * 10);
      assert (Slept(init) + (s.end - s.start)) * (rate * 10)
          == Slept(init) * (rate * 10) + (s.end - s.start) * (rate * 10);
    }
  }

  /** The tenths never exceed the elapsed time, and lose less than one exactly when they fit
      32 bits. */
  lemma TenthsBounds(s: Sleep, rate: nat, clock: nat)
    requires clock > 0 && !s.Rolled()
    ensures clock * s.Tenths(rate, clock) <= s.Scaled(rate)
    ensures s.Scaled(rate) / clock < U32 <==> s.Scaled(rate) < clock * (s.Tenths(rate, clock) + 1)
  {
    var x := s.Scaled(rate);
    Elapsed(s.end - s.start, rate);
    var q := x / clock;
    assert x == clock * q + x % clock;
    assert q >= 0 by {
      if q < 0 {
        Times(clock, q, -1);
      }
    }
    Times(clock, q % U32, q);
    assert clock * (q + 1) == clock * q + clock;
    if q >= U32 {
      assert q % U32 + 1 <= q;
      Times(clock, q % U32 + 1, q);
    }
  }

  lemma Elapsed(d: nat, rate: nat)
    ensures d * rate * 10 >= 0
  {
  }

  lemma Distribute(c: nat, a: int, b: int)
    ensures c * (a + b) == c * a + c * b
  {
  }

  lemma Times(c: nat, a: int, b: int)
    requires a <= b
    ensures c * a <= c * b
  {
  }

  lemma CreditedBounds(s: Sleep, rate: nat, clock: nat)
    requires clock > 0
    ensures clock * Credited(s, rate, clock) <= Assumed(s, rate, clock)
    ensures AllFit([s], rate, clock) <==> Assumed(s, rate, clock) < clock * (Credited(s, rate, clock) + 1)
  {
    hide Sleep.Tenths, Sleep.Scaled;
    assert [s][0] == s;
    if !s.Rolled() {
      TenthsBounds(s, rate, clock);
    } else {
      Distribute(clock, 10, 1);
    }
  }

  /** The credit never exceeds the time assumed, and lags behind it by less than a tenth a
      sleep. */
  lemma {:induction false} CreditBounds(sleeps: seq<Sleep>, rate: nat, clock: nat)
    requires clock > 0
    ensures clock * Credit(sleeps, rate, clock) <= TotalAssumed(sleeps, rate, clock)
    ensures AllFit(sleeps, rate, clock) ==>
      TotalAssumed(sleeps, rate, clock) <= clock * (Credit(sleeps, rate, clock) + |sleeps|)
    ensures AllFit(sleeps, rate, clock) && sleeps != [] ==>
      TotalAssumed(sleeps, rate, clock) < clock * (Credit(sleeps, rate, clock) + |sleeps|)
  {
    hide Sleep.Tenths, Sleep.Scaled, Credited, Assumed;
    if sleeps != [] {
      var init, s := sleeps[..|sleeps| - 1], sleeps[|sleeps| - 1];
      CreditBounds(init, rate, clock);
      CreditedBounds(s, rate, clock);
      var c, t := Credit(init, rate, clock), Credited(s, rate, clock);
      Distribute(clock, c, t);
      Distribute(clock, c + |init|, t + 1);
    }
  }

  /** Over any sleeps the ticks delivered are never ahead of the time assumed and lag by less
      than (sleeps + 9) / 10 of a tick: `delivered` and `rem` are what Drive returns, and
      TotalAssumed is ten times the ticks times the clock rate. */
  lemma NeverAheadBoundedLag(sleeps: seq<Sleep>, rate: nat, clock: nat, delivered: nat, rem: nat)
    requires clock > 0
    requires rem < 10 && 10 * delivered + rem == Credit(sleeps, rate, clock)
    ensures clock * (10 * delivered) <= TotalAssumed(sleeps, rate, clock)
    ensures AllFit(sleeps, rate, clock) && sleeps != [] ==>
      TotalAssumed(sleeps, rate, clock) < clock * (10 * delivered + 9 + |sleeps|)
    ensures NoneRolled(sleeps) ==> TotalAssumed(sleeps, rate, clock) == Slept(sleeps) * (rate * 10)
  {
    CreditBounds(sleeps, rate, clock);
    Times(clock, 10 * delivered, Credit(sleeps, rate, clock));
    Times(clock, Credit(sleeps, rate, clock) + |sleeps|, 10 * delivered + 9 + |sleeps|);
    if NoneRolled(sleeps) {
      AssumedIsReal(sleeps, rate, clock);
    }
  }

  // ---------------------------------------------------------------------------------------
  // Credit against the wall clock
  // ---------------------------------------------------------------------------------------

  /** The clock time between the sleeps, in which handlers run: every round reads the clock
      anew, so the code drops it. */
  ghost function Between(sleeps: seq<Sleep>): int {
    if |sleeps| <= 1 then 0
    else
      var n := |sleeps| - 1;
      Between(sleeps[..n]) + sleeps[n].start - sleeps[n - 1].end
  }

  /** The clock never goes back. */
  ghost predicate Forward(sleeps: seq<Sleep>) {
    && NoneRolled(sleeps)
    && forall i | 0 < i < |sleeps| :: sleeps[i - 1].end <= sleeps[i].start
  }

  /** From the first reading to the last. */
  ghost function Elapsing(sleeps: seq<Sleep>): int {
    if sleeps == [] then 0 else sleeps[|sleeps| - 1].end - sleeps[0].start
  }

  lemma {:induction false} SleptAndBetween(sleeps: seq<Sleep>)
    ensures Slept(sleeps) + Between(sleeps) == Elapsing(sleeps)
    ensures Forward(sleeps) ==> Between(sleeps) >= 0
  {
    if |sleeps| > 1 {
      var n := |sleeps| - 1;
      SleptAndBetween(sleeps[..n]);
      assert sleeps[..n][n - 1] == sleeps[n - 1] && sleeps[..n][0] == sleeps[0];
    } else if |sleeps| == 1 {
      assert sleeps[..0] == [] && Slept([]) == 0;
    }
  }

  /** The ticks delivered are never ahead of the wall clock; they lag behind it by less than
      (sleeps + 9) / 10 of a tick and the time between the sleeps. */
  lemma WallClock(sleeps: seq<Sleep>, rate: nat, clock: nat, delivered: nat, rem: nat)
    requires clock > 0 && Forward(sleeps)
    requires rem < 10 && 10 * delivered + rem == Credit(sleeps, rate, clock)
    ensures clock * (10 * delivered) <= Elapsing(sleeps) * (rate * 10)
    ensures AllFit(sleeps, rate, clock) && sleeps != [] ==>
      Elapsing(sleeps) * (rate * 10) < clock * (10 * delivered + 9 + |sleeps|) + Between(sleeps) * (rate * 10)
  {
    NeverAheadBoundedLag(sleeps, rate, clock, delivered, rem);
    SleptAndBetween(sleeps);
    var r, b := rate * 10, Between(sleeps);
    Distribute(r, Slept(sleeps), b);
    Times(r, 0, b);
    assert r * b == b * r && r * Slept(sleeps) == Slept(sleeps) * r && r * Elapsing(sleeps) == Elapsing(sleeps) * r;
  }

  /** Behind the wall clock there is no bound: two sleeps of no length with handlers between
      them that take any time. */
  lemma LagUnbounded(time: nat, rate: nat, clock: nat)
    requires clock > 0
    ensures var sleeps := [Sleep(0, 0), Sleep(time, time)];
      Forward(sleeps) && AllFit(sleeps, rate, clock) && Credit(sleeps, rate, clock) == 0 && Elapsing(sleeps) == time
  {
    var sleeps := [Sleep(0, 0), Sleep(time, time)];
    assert sleeps[..1] == [Sleep(0, 0)] && sleeps[..1][..0] == [];
    assert sleeps[0].Scaled(rate) == 0 && sleeps[1].Scaled(rate) == 0;
    assert 0 / clock == 0 && 0 % U32 == 0;
    assert Credited(sleeps[0], rate, clock) == 0 && Credited(sleeps[1], rate, clock) == 0;
    assert Credit(sleeps[..1][..0], rate, clock) == 0 && Credit(sleeps[..1], rate, clock) == 0;
  }

  /** Ticks delivered in several wake-ups are ticks of one run of the wheel. */
  lemma {:induction false} TickedIsRun<T>(w: Wheel<T>, n: nat)
    requires w.size > 0 && w.granularity > 0
    ensures Ticked(w, n) == Run(w, seq(n, _ => OpTick))
  {
    if n > 0 {
      TickedIsRun(w, n - 1);
      var ops: seq<Op<T>> := seq(n, _ => OpTick);
      assert ops[..n - 1] == seq(n - 1, _ => OpTick);
    }
  }
}
