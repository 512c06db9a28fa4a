/**
 The hashed timer wheel of src/timer/base_timer.c, with its real links: every spoke is a
 circular doubly linked ring through a sentinel, a timer is a node of at most one ring, and a
 timer with a NULL link is not running.

 `Abs` forgets rings, sentinels and rotation counts; every method is proved to do to it what
 the operation of the same name in `WheelModel` does.
 */
module TimerWheel {
  import opened WheelModel
  import opened TickWalk

  /** A node of a ring: the sentinel of spoke `no`, or a timer, for which `no` is -1. */
  class Link {
    ghost const no: int
    var next: Link?
    var prev: Link?
    var rotation: nat
    var delay: nat
    var period: nat

    /** A timer after stw_timer_prepare. */
    constructor Timer()
      ensures no == -1 && next == null && prev == null
    {
      no := -1;
      next, prev := null, null;
      rotation, delay, period := 0, 0, 0;
    }

    /** The sentinel of an empty spoke. */
    constructor Spoke(ghost j: nat)
      ensures no == j && next == this && prev == this
    {
      no := j;
      next, prev := this, this;
      rotation, delay, period := 0, 0, 0;
    }
  }

  /** Through the sentinel s and both ways round run exactly the nodes r. */
  ghost predicate Ring(s: Link, r: seq<Link>)
    reads s`next, s`prev, r`next, r`prev
  {
    && s.next == (if r == [] then s else r[0])
    && s.prev == (if r == [] then s else r[|r| - 1])
    && (forall i {:trigger r[i].next} :: 0 <= i < |r| ==> r[i].next == if i + 1 < |r| then r[i + 1] else s)
    && (forall i {:trigger r[i].prev} :: 0 <= i < |r| ==> r[i].prev == if i > 0 then r[i - 1] else s)
  }

  ghost predicate Distinct(r: seq<Link>) {
    forall i, k :: 0 <= i < k < |r| ==> r[i] != r[k]
  }

  /** Takes t out of the ring r of s; its own links are left as they are. */
  method Unlink(t: Link, ghost s: Link, ghost r: seq<Link>, ghost i: nat)
    requires Ring(s, r) && Distinct(r) && s !in r && i < |r| && r[i] == t
    modifies s`next, s`prev, (set x | x in r)`next, (set x | x in r)`prev
    ensures Ring(s, r[..i] + r[i + 1..])
    ensures t.next == old(t.next) && t.prev == old(t.prev)
  {
    var next, prev := t.next, t.prev;
    next.prev := prev;
    prev.next := next;
  }

  /** Puts t at the end of the ring r of s. */
  method Append(t: Link, s: Link, ghost r: seq<Link>)
    requires Ring(s, r) && Distinct(r) && s !in r && t !in r && t != s
    modifies s`next, s`prev, (set x | x in r)`next, (set x | x in r)`prev, t`next, t`prev
    ensures Ring(s, r + [t]) && t.next != null && t.prev != null
  {
    var prev := s.prev;
    t.next := s;
    t.prev := prev;
    prev.next := t;
    s.prev := t;
  }

  ghost function Without<T>(r: seq<T>, t: T): seq<T> {
    if r == [] then []
    else if r[|r| - 1] == t then Without(r[..|r| - 1], t)
    else Without(r[..|r| - 1], t) + [r[|r| - 1]]
  }

  lemma {:induction false} WithoutAt(r: seq<Link>, i: nat)
    requires Distinct(r) && i < |r|
    ensures Without(r, r[i]) == r[..i] + r[i + 1..]
  {
    var n := |r| - 1;
    if i == n {
      WithoutOther(r[..n], r[i]);
    } else {
      WithoutAt(r[..n], i);
      assert r[..n][i + 1..] + [r[n]] == r[i + 1..];
    }
  }

  lemma {:induction false} WithoutOther(r: seq<Link>, t: Link)
    requires t !in r
    ensures Without(r, t) == r
  {
    if r != [] {
      WithoutOther(r[..|r| - 1], t);
      assert r == r[..|r| - 1] + [r[|r| - 1]];
    }
  }

  /** Sentinels carry the number of their spoke and timers carry none. */
  ghost predicate Numbered(spokes: seq<Link>, timers: set<Link>) {
    && (forall j | 0 <= j < |spokes| :: spokes[j].no == j)
    && (forall t | t in timers :: t.no == -1)
  }

  /** `home` tells for each linked timer the one ring it is in; it is there once. */
  ghost predicate Housed(rings: seq<seq<Link>>, home: map<Link, nat>, timers: set<Link>) {
    && (forall j | 0 <= j < |rings| :: LivesAt(rings[j], home, timers, j))
    && (forall t | t in home :: home[t] < |rings| && t in rings[home[t]])
  }

  ghost predicate LivesAt(r: seq<Link>, home: map<Link, nat>, timers: set<Link>, j: nat) {
    Distinct(r) && forall t | t in r :: t in timers && t in home && home[t] == j
  }

  lemma {:induction false} WithoutHas(r: seq<Link>, t: Link, x: Link)
    ensures x in Without(r, t) <==> x in r && x != t
  {
    if r != [] {
      WithoutHas(r[..|r| - 1], t, x);
      assert r == r[..|r| - 1] + [r[|r| - 1]];
    }
  }

  lemma {:induction false} WithoutDistinct(r: seq<Link>, t: Link)
    requires Distinct(r)
    ensures Distinct(Without(r, t))
  {
    if r != [] {
      WithoutDistinct(r[..|r| - 1], t);
      WithoutHas(r[..|r| - 1], t, r[|r| - 1]);
    }
  }

  lemma HousedWithout(rings: seq<seq<Link>>, home: map<Link, nat>, timers: set<Link>, t: Link)
    requires Housed(rings, home, timers) && t in home
    ensures Housed(rings[home[t] := Without(rings[home[t]], t)], home - {t}, timers)
  {
    var r := rings[home[t]];
    var rings' := rings[home[t] := Without(r, t)];
    WithoutDistinct(r, t);
    forall x ensures x in Without(r, t) <==> x in r && x != t {
      WithoutHas(r, t, x);
    }
    forall j | 0 <= j < |rings'| ensures LivesAt(rings'[j], home - {t}, timers, j) {
      assert LivesAt(rings[j], home, timers, j);
      forall x | x in rings'[j] ensures x in timers && x in home && x != t && home[x] == j {
        if j == home[t] {
          WithoutHas(r, t, x);
        }
      }
    }
  }

  lemma HousedWith(rings: seq<seq<Link>>, home: map<Link, nat>, timers: set<Link>, t: Link, j: nat)
    requires Housed(rings, home, timers) && t in timers && t !in home && j < |rings|
    ensures Housed(rings[j := rings[j] + [t]], home[t := j], timers)
  {
  }

  /** No node of another ring, sentinel included, is a node of ring j. */
  lemma RingsApart(spokes: seq<Link>, rings: seq<seq<Link>>, home: map<Link, nat>, timers: set<Link>, j: nat, k: nat)
    requires Numbered(spokes, timers) && Housed(rings, home, timers)
    requires |spokes| == |rings| && j < |rings| && k < |rings|
    ensures spokes[j] !in rings[k]
    ensures j != k ==> spokes[k] != spokes[j] && (forall x | x in rings[k] :: x !in rings[j])
  {
  }

  /** A timer that is not linked is not a node of any ring. */
  lemma FreeApart(spokes: seq<Link>, rings: seq<seq<Link>>, home: map<Link, nat>, timers: set<Link>, j: nat)
    requires Numbered(spokes, timers) && Housed(rings, home, timers) && j < |rings|
    ensures forall x | x in timers && x !in home :: x !in rings[j]
    ensures forall x | x in timers :: x !in spokes
  {
  }

  /** Every spoke is a well-formed ring, and a timer is in at most one of them, once. */
  ghost predicate Structure(spokes: seq<Link>, timers: set<Link>, rings: seq<seq<Link>>, home: map<Link, nat>)
    reads spokes`next, spokes`prev, timers`next, timers`prev
  {
    && |spokes| == |rings| && Numbered(spokes, timers) && Housed(rings, home, timers)
    && (forall j | 0 <= j < |rings| :: InTimers(rings[j], timers) && Ring(spokes[j], rings[j]))
  }

  ghost predicate InTimers(r: seq<Link>, timers: set<Link>) {
    forall x | x in r :: x in timers
  }

  lemma DetachPlan(spokes: seq<Link>, timers: set<Link>, rings: seq<seq<Link>>, home: map<Link, nat>, t: Link)
      returns (i: nat, rings': seq<seq<Link>>)
    requires Structure(spokes, timers, rings, home) && t in home
    ensures home[t] < |rings| && rings' == rings[home[t] := Without(rings[home[t]], t)]
    ensures var r := rings[home[t]];
      && i < |r| && r[i] == t && Without(r, t) == r[..i] + r[i + 1..] && Distinct(r) && InTimers(r, timers)
      && spokes[home[t]] !in r && (forall x | x in timers && x !in home :: x !in r)
    ensures forall x | x in timers :: x !in spokes
    ensures Housed(rings', home - {t}, timers)
  {
    var r := rings[home[t]];
    assert LivesAt(r, home, timers, home[t]);
    i :| i < |r| && r[i] == t;
    WithoutAt(r, i);
    HousedWithout(rings, home, timers, t);
    FreeApart(spokes, rings, home, timers, home[t]);
    rings' := rings[home[t] := Without(r, t)];
    RingsApart(spokes, rings, home, timers, home[t], home[t]);
  }

  /** Takes the linked timer t out of its spoke. */
  method Detach(t: Link, ghost spokes: seq<Link>, ghost timers: set<Link>,
                ghost rings: seq<seq<Link>>, ghost home: map<Link, nat>)
    requires Structure(spokes, timers, rings, home) && t in home
    modifies spokes`next, spokes`prev, timers`next, timers`prev
    ensures Structure(spokes, timers, rings[home[t] := Without(rings[home[t]], t)], home - {t})
    ensures t.next == old(t.next) && t.prev == old(t.prev)
    ensures forall x | x in timers && x !in home :: x.next == old(x.next) && x.prev == old(x.prev)
  {
    hide Without;
    ghost var j := home[t];
    ghost var r := rings[j];
    ghost var i, rings' := DetachPlan(spokes, timers, rings, home, t);
    Unlink(t, spokes[j], r, i);
    forall k | 0 <= k < |rings'| ensures InTimers(rings'[k], timers) && Ring(spokes[k], rings'[k]) {
      assert LivesAt(rings'[k], home - {t}, timers, k);
      if k != j {
        RingsApart(spokes, rings, home, timers, j, k);
        RingsApart(spokes, rings, home, timers, k, j);
      }
    }
  }

  /** Puts the free timer t at the end of spoke j. */
  method Attach(t: Link, s: Link, ghost j: nat, ghost spokes: seq<Link>, ghost timers: set<Link>,
                ghost rings: seq<seq<Link>>, ghost home: map<Link, nat>)
    requires Structure(spokes, timers, rings, home) && t in timers && t !in home
    requires j < |rings| && s == spokes[j]
    modifies spokes`next, spokes`prev, timers`next, timers`prev
    ensures Structure(spokes, timers, rings[j := rings[j] + [t]], home[t := j])
    ensures t.next != null && t.prev != null
    ensures forall x | x in timers && x !in home && x != t :: x.next == old(x.next) && x.prev == old(x.prev)
  {
    ghost var r := rings[j];
    assert LivesAt(r, home, timers, j);
    HousedWith(rings, home, timers, t, j);
    FreeApart(spokes, rings, home, timers, j);
    ghost var rings' := rings[j := r + [t]];
    RingsApart(spokes, rings, home, timers, j, j);
    Append(t, s, r);
    forall k | 0 <= k < |rings'| ensures InTimers(rings'[k], timers) && Ring(spokes[k], rings'[k]) {
      assert LivesAt(rings'[k], home[t := j], timers, k);
      if k != j {
        RingsApart(spokes, rings, home, timers, j, k);
        RingsApart(spokes, rings, home, timers, k, j);
        assert LivesAt(rings[k], home, timers, k);
      }
    }
  }

  class Wheel {
    const size: nat
    const granularity: nat
    const spokes: seq<Link>
    var index: nat
    var ticks: nat
    var active: int
    var expired: nat
    var cancelled: nat
    var starts: nat
    var hiwater: nat

    ghost var timers: set<Link>           // every timer this wheel has ever seen
    ghost var rings: seq<seq<Link>>       // the nodes of each spoke
    ghost var home: map<Link, nat>        // the spoke of each linked timer
    ghost var queue: seq<Entry<Link>>
    ghost var restarts: nat
    ghost var rearms: nat

    ghost function Abs(): WheelModel.Wheel<Link>
      reads this
    {
      WheelModel.Wheel(size, granularity, index, queue, ticks, starts, expired, cancelled, hiwater, restarts, rearms)
    }

    /** Rings, queue and rotation counts agree. */
    ghost predicate Core()
      reads this, spokes, timers
    {
      && |spokes| == size && Abs().Valid() && active == |queue|
      && Structure(spokes, timers, rings, home)
      && Tied(queue, size, index, rings)
      && AllStored(queue, size, index, timers, home)
    }

    ghost predicate Valid()
      reads this, spokes, timers
    {
      Core() && NullWhenFree(timers, home)
    }

    /** stw_timer_create, once the requested sizes are accepted. */
    constructor (wheelSize: nat, tickLength: nat)
      requires wheelSize > 0 && tickLength > 0
      ensures Valid() && Abs() == NewWheel(wheelSize, tickLength)
      ensures timers == {} && fresh(spokes)
    {
      var ss: seq<Link> := [];
      var j := 0;
      while j < wheelSize
        invariant 0 <= j <= wheelSize && |ss| == j && fresh(ss)
        invariant forall i | 0 <= i < j :: ss[i].no == i && Ring(ss[i], [])
      {
        var spoke := new Link.Spoke(j);
        ss := ss + [spoke];
        j := j + 1;
      }
      size, granularity, spokes := wheelSize, tickLength, ss;
      index, ticks, active, expired, cancelled, starts, hiwater := 0, 0, 0, 0, 0, 0, 0;
      timers, home, queue, restarts, rearms := {}, map[], [], 0, 0;
      rings := seq(wheelSize, _ => []);
    }

    /** The loops of stw_timer_destroy: drives round the wheel and stops every timer. */
    method StopAll()
      requires Valid()
      modifies this, spokes`next, spokes`prev, timers`next, timers`prev
      ensures Valid() && timers == old(timers) && active == 0
      ensures Abs() == old(Abs()).(queue := [], cancelled := old(cancelled) + |old(queue)|)
      ensures forall t | t in timers :: t.next == null && t.prev == null
    {
      hide Structure, AllStored, NoDup, Waiting, OnSpoke, WheelModel.Stop;
      ghost var was := Abs();
      var j := 0;
      while j < size
        invariant 0 <= j <= size && Valid() && timers == old(timers)
        invariant |queue| <= |was.queue| && cancelled == was.cancelled + |was.queue| - |queue|
        invariant Abs() == was.(queue := queue, cancelled := cancelled)
        invariant forall i | 0 <= i < j :: OnSpoke(queue, size, index, i) == []
      {
        var spoke := spokes[j];
        var tmr := Head(spoke, j);
        while tmr != spoke
          invariant Valid() && timers == old(timers)
          invariant |queue| <= |was.queue| && cancelled == was.cancelled + |was.queue| - |queue|
          invariant Abs() == was.(queue := queue, cancelled := cancelled)
          invariant forall i | 0 <= i < j :: OnSpoke(queue, size, index, i) == []
          invariant tmr != spoke ==> tmr in timers && Has(queue, tmr)
          invariant tmr == spoke ==> OnSpoke(queue, size, index, j) == []
          decreases |queue|
        {
          StopEmpties(Abs(), tmr, j);
          Stop(tmr);
          tmr := Head(spoke, j);
        }
        j := j + 1;
      }
      AllSpokesEmpty(queue, size, index);
      StoppedAll(spokes, timers, rings, home, size, index);
    }

    /** The node after the sentinel of spoke j: a running timer, or the sentinel itself. */
    method Head(spoke: Link, ghost j: nat) returns (t: Link)
      requires Valid() && j < size && spoke == spokes[j]
      ensures t != spoke ==> t in timers && Has(queue, t)
      ensures t == spoke ==> OnSpoke(queue, size, index, j) == []
    {
      ghost var here := OnSpoke(queue, size, index, j);
      assert Ring(spoke, rings[j]) && LivesAt(rings[j], home, timers, j);
      NamesAt(here, 0);
      t := spoke.next;
      if here != [] {
        assert rings[j][0] in rings[j];
        HomeIsQueue(queue, size, index, timers, rings, home, here[0].t);
      }
    }

    /** stw_timer_running: a timer, also one that was only prepared, is running exactly when its
        links are not NULL. */
    method IsRunning(t: Link) returns (b: bool)
      requires Valid() && (t !in timers ==> t.next == null)
      ensures b <==> Abs().Running(t)
    {
      HomeIsQueue(queue, size, index, timers, rings, home, t);
      HomeIsTimers(rings, home, timers, t);
      if t in home {
        LinkedNotNull(spokes, timers, rings, home, t);
      }
      b := t.next != null;
    }

    /** stw_timer_stop, also of a timer that was only prepared */
    method Stop(t: Link)
      requires Valid() && (t !in timers ==> t.next == null)
      modifies this, spokes`next, spokes`prev, timers`next, timers`prev
      ensures Valid() && Abs() == WheelModel.Stop(old(Abs()), t)
      ensures timers == old(timers) && t.next == null
    {
      HomeIsQueue(queue, size, index, timers, rings, home, t);
      HomeIsTimers(rings, home, timers, t);
      if t in home {
        LinkedNotNull(spokes, timers, rings, home, t);
      }
      if t.next != null {
        StopLinked(t);
      } else {
        RemoveLength(queue, t);
      }
    }

    method StopLinked(t: Link)
      requires Valid() && t in timers && t in home && Abs().Running(t)
      modifies this, spokes`next, spokes`prev, timers`next, timers`prev
      ensures Valid() && Abs() == WheelModel.Stop(old(Abs()), t)
      ensures timers == old(timers) && t.next == null
    {
      hide Structure, AllStored, Tied, NullWhenFree, NoDup, Waiting, Remove, Has, Without;
      ghost var rings', home', queue' := StopPlan(queue, size, index, spokes, timers, rings, home, t);
      StopRem(Abs(), t, t);
      DetachFree(t, spokes, timers, rings, home, rings', home');
      active := active - 1;
      cancelled := cancelled + 1;
      rings, home, queue := rings', home', queue';
    }

    /** stw_timer_start: a timer that is running is taken off first. */
    method Start(t: Link, delay: nat, period: nat)
      requires Valid() && t.no == -1
      requires t !in timers ==> t.next == null && t.prev == null
      modifies this, spokes`next, spokes`prev, timers`next, timers`prev, t
      ensures Valid() && Abs() == WheelModel.Start(old(Abs()), t, delay, period)
      ensures timers == old(timers) + {t} && t.delay == delay
    {
      hide Structure, Tied, AllStored, Waiting, NoDup, NullWhenFree, Remove, Has, Wait, Ticks;
      TakeOff(t);
      RemoveKeeps(old(queue), t, t);
      Launch(t, delay, period);
    }

    /** Makes sure that t is not running. */
    method TakeOff(t: Link)
      requires Valid() && t.no == -1
      requires t !in timers ==> t.next == null && t.prev == null
      modifies `timers, `restarts, `active, `rings, `home, `queue, spokes`next, spokes`prev, timers`next, timers`prev
      ensures Core() && NullWhenFree(timers - {t}, home) && t !in home
      ensures timers == old(timers) + {t} && queue == Remove(old(queue), t)
      ensures restarts == old(restarts) + if Has(old(queue), t) then 1 else 0
    {
      hide Structure, Tied, AllStored, Waiting, NoDup, Remove, Has;
      Adopt(queue, size, index, spokes, timers, rings, home, t);
      timers := timers + {t};
      HomeIsQueueOf(queue, size, index, spokes, timers, rings, home, t);
      RemoveLength(queue, t);
      restarts := restarts + if t.next != null then 1 else 0;
      if t.next != null {
        Release(t);
      }
    }

    /** Takes the linked timer t off, without marking it as free. */
    method Release(t: Link)
      requires Core() && NullWhenFree(timers - {t}, home) && t in timers && t in home && Has(queue, t)
      modifies `active, `rings, `home, `queue, spokes`next, spokes`prev, timers`next, timers`prev
      ensures Core() && NullWhenFree(timers - {t}, home) && t !in home
      ensures queue == Remove(old(queue), t)
    {
      hide Structure, Tied, AllStored, Waiting, NoDup, Remove, Has, Without;
      ghost var rings', home', queue' := StopPlan(queue, size, index, spokes, timers, rings, home, t);
      StopRem(Abs(), t, t);
      Detach(t, spokes, timers, rings, home);
      active := active - 1;
      rings, home, queue := rings', home', queue';
    }

    /** Sets the free timer t up and enqueues it. */
    method Launch(t: Link, delay: nat, period: nat)
      requires Core() && NullWhenFree(timers - {t}, home) && t in timers && t !in home && !Has(queue, t)
      modifies `active, `starts, `hiwater, `rings, `home, `queue
      modifies spokes`next, spokes`prev, timers`next, timers`prev, t`rotation, t`delay, t`period
      ensures Valid() && starts == old(starts) + 1 && t.delay == delay
      ensures queue == old(queue) + [Entry(t, Wait(Ticks(delay, granularity), size), period)]
      ensures hiwater == if |queue| > old(hiwater) then |queue| else old(hiwater)
    {
      hide Structure, Tied, AllStored, Waiting, NoDup, Has, Wait, Ticks;
      ghost var e := Entry(t, Wait(Ticks(delay, granularity), size), period);
      ghost var j := SetUp(t, delay, period, queue, rings, home);
      starts := starts + 1;
      active := active + 1;
      if active > hiwater {
        hiwater := active;
      }
      rings, home, queue := rings[j := rings[j] + [t]], home[t := j], queue + [e];
    }

    /** The part of a start that touches the timer and the spokes. */
    method SetUp(t: Link, delay: nat, period: nat,
                 ghost q: seq<Entry<Link>>, ghost rings: seq<seq<Link>>, ghost home: map<Link, nat>)
        returns (ghost j: nat)
      requires size > 0 && granularity > 0 && index < size && |spokes| == size
      requires Structure(spokes, timers, rings, home) && Tied(q, size, index, rings)
      requires AllStored(q, size, index, timers, home) && NoDup(q) && Waiting(q)
      requires NullWhenFree(timers - {t}, home) && t in timers && t !in home && !Has(q, t)
      modifies spokes`next, spokes`prev, timers`next, timers`prev, t`rotation, t`delay, t`period
      ensures j < |rings| && t.delay == delay
      ensures var e := Entry(t, Wait(Ticks(delay, granularity), size), period);
        var rings', home' := rings[j := rings[j] + [t]], home[t := j];
        && Structure(spokes, timers, rings', home') && Tied(q + [e], size, index, rings')
        && AllStored(q + [e], size, index, timers, home') && NoDup(q + [e]) && Waiting(q + [e])
        && NullWhenFree(timers, home')
    {
      hide Structure, Tied, AllStored, Waiting, NoDup, Has, Wait, Ticks, SpokeOf, Rotations;
      NarrowStored(q, size, index, timers, home, t);
      t.delay, t.period := delay, period;
      j := Enqueue(t, delay, rings, home);
      StartPlan(q, size, index, timers, rings, home, Entry(t, Wait(Ticks(delay, granularity), size), period), j);
    }

    /** tmr_enqueue_unlocked: puts the free timer t at the end of the spoke that comes round
        when the delay is over. */
    method Enqueue(t: Link, delay: nat, ghost rings: seq<seq<Link>>, ghost home: map<Link, nat>) returns (ghost j: nat)
      requires size > 0 && granularity > 0 && index < size && |spokes| == size
      requires Structure(spokes, timers, rings, home) && NullWhenFree(timers - {t}, home) && t in timers && t !in home
      modifies spokes`next, spokes`prev, timers`next, timers`prev, t`rotation
      ensures |rings| == size && j < size
      ensures Structure(spokes, timers, rings[j := rings[j] + [t]], home[t := j])
      ensures j == SpokeOf(index, Wait(Ticks(delay, granularity), size), size)
      ensures t.rotation == Rotations(Wait(Ticks(delay, granularity), size), size)
      ensures NullWhenFree(timers, home[t := j])
    {
      hide Housed, Numbered, Ring;
      var n := if delay < granularity then 1 else delay / granularity;
      WaitPlacement(index, Ticks(delay, granularity), size);
      var td := n % size;
      t.rotation := n / size;
      var cursor := (index + td) % size;
      j := cursor;
      Attach(t, spokes[cursor], cursor, spokes, timers, rings, home);
    }

    /** stw_timer_tick: moves on one spoke and walks it.  `fired` lists the timers whose
        callbacks are due, in order. */
    method Tick() returns (fired: seq<Link>)
      requires Valid()
      modifies this, spokes`next, spokes`prev, timers`next, timers`prev, timers`rotation
      ensures Valid() && Abs() == WheelModel.Tick(old(Abs()))
      ensures fired == Names(Fired(old(queue))) && timers == old(timers)
    {
      hide Structure, AllStored, Tied, NoDup, Waiting, NullWhenFree, WheelModel.Tick,
        Walking, Due, After, Visits, Fired, Names, Aged, OnSpoke, Following;
      ghost var was := Abs();
      ghost var s := WalkStarts(was, spokes, timers, rings, home);
      ticks := ticks + 1;
      index := (index + 1) % size;
      queue, rearms := WheelModel.Tick(was).queue, WheelModel.Tick(was).rearms;
      s, fired := WalkSpoke(spokes[index], was, s);
      rings, home := s.rings, s.home;
      assert Abs() == WheelModel.Tick(was);
    }

    /** The loop over the ring of `spoke`: it ends although it may append to that very ring. */
    method WalkSpoke(spoke: Link, ghost was: WheelModel.Wheel<Link>, ghost s0: WalkState)
        returns (ghost s: WalkState, fired: seq<Link>)
      requires was.Valid() && was.size == size && was.granularity == granularity && index == (was.index + 1) % size
      requires Walking(spokes, timers, size, index, s0, Aged(was.queue)) && spoke == spokes[index]
      requires s0.walk == After(Due(was.queue, size), size, granularity, 0)
      requires s0.walk.log == [] && s0.walk.back == [] && s0.walk.pos == 0
      requires active == |was.queue| && expired == was.expired
      modifies spokes`next, spokes`prev, timers`next, timers`prev, timers`rotation, `active, `expired
      ensures Finished(was, WheelModel.Tick(was), spokes, timers, s)
      ensures active == |WheelModel.Tick(was).queue| && expired == WheelModel.Tick(was).expired
      ensures fired == Names(Fired(was.queue))
    {
      hide Walking, Due, After, Visits, WheelModel.Tick, Finished, WalkStep, Fired, Aged, NoDup, Waiting;
      ghost var base := Aged(was.queue);
      ghost var ds := Due(was.queue, size);
      DueIsNextSpoke(was.queue, size, was.index);
      ghost var visits := Visits(ds, size, granularity);
      ghost var k: nat := 0;
      s := s0;
      fired := [];
      var tmr := FirstNode(spoke, s, base);
      while tmr != spoke
        invariant k <= visits && s.walk == After(ds, size, granularity, k)
        invariant Walking(spokes, timers, size, index, s, base)
        invariant tmr == NodeAt(spoke, s.walk)
        invariant fired == Names(s.walk.log)
        invariant expired == was.expired + |s.walk.log|
        invariant active + |s.walk.log| == |was.queue| + |s.walk.back|
        decreases visits - k
        modifies spokes`next, spokes`prev, timers`next, timers`prev, timers`rotation, `active, `expired
      {
        WalkGoesOn(spoke, ds, size, granularity, s.walk, k);
        LogGrows(s.walk, size, granularity);
        var expires, next;
        s, expires, next := Visit(tmr, spoke, s, base);
        if expires {
          fired := fired + [tmr];
        }
        tmr := next;
        k := k + 1;
      }
      WalkIsOver(was, spokes, timers, spoke, s, k);
    }

    /** One round of the loop: the node t is passed or expires, and `next` comes after it. */
    method Visit(t: Link, spoke: Link, ghost s: WalkState, ghost base: seq<Entry<Link>>)
        returns (ghost s': WalkState, expires: bool, next: Link)
      requires size > 0 && granularity > 0 && Walking(spokes, timers, size, index, s, base) && spoke == spokes[index]
      requires s.walk.pos < |s.walk.ring| && t == s.walk.ring[s.walk.pos].t
      modifies spokes`next, spokes`prev, timers`next, timers`prev, timers`rotation, `active, `expired
      ensures Walking(spokes, timers, size, index, s', base)
      ensures s'.walk == WalkStep(s.walk, size, granularity) && next == NodeAt(spoke, s'.walk)
      ensures expires <==> s.walk.ring[s.walk.pos].rem <= size
      ensures expired + |s.walk.log| == old(expired) + |s'.walk.log|
      ensures active + |s'.walk.log| + |s.walk.back| == old(active) + |s.walk.log| + |s'.walk.back|
    {
      hide Walking, WalkStep;
      VisitFacts(spokes, timers, size, granularity, index, s, base);
      next := t.next;
      expires := t.rotation == 0;
      if t.rotation != 0 {
        s' := Pass(t, s, base);
      } else {
        s' := Expire(t, s, base);
      }
    }

    method Pass(t: Link, ghost s: WalkState, ghost base: seq<Entry<Link>>) returns (ghost s': WalkState)
      requires size > 0 && granularity > 0 && Walking(spokes, timers, size, index, s, base)
      requires s.walk.pos < |s.walk.ring| && t == s.walk.ring[s.walk.pos].t && s.walk.ring[s.walk.pos].rem > size
      modifies timers`rotation
      ensures Walking(spokes, timers, size, index, s', base)
      ensures s'.walk == WalkStep(s.walk, size, granularity)
    {
      hide Structure, NullWhenFree, AllStored, Tied, NoDup, Waiting, OnSpoke, WalkStep, Nearer;
      ghost var x := s.walk.ring[s.walk.pos];
      VisitFacts(spokes, timers, size, granularity, index, s, base);
      RotationsOfTurn(x.rem, size);
      PassPlan(s.queue, size, index, x, timers, s.home);
      t.rotation := t.rotation - 1;
      s' := s.(queue := Nearer(s.queue, t, size), walk := WalkStep(s.walk, size, granularity));
      PassDone(s.queue, size, granularity, index, s.walk, x, timers, s.rings, s.home);
    }

    /** The timer t is taken off, its callback is due, and it starts over if it is periodic. */
    method Expire(t: Link, ghost s: WalkState, ghost base: seq<Entry<Link>>) returns (ghost s': WalkState)
      requires size > 0 && granularity > 0 && Walking(spokes, timers, size, index, s, base)
      requires s.walk.pos < |s.walk.ring| && t == s.walk.ring[s.walk.pos].t && s.walk.ring[s.walk.pos].rem <= size
      modifies spokes`next, spokes`prev, timers`next, timers`prev, timers`rotation, `active, `expired
      ensures Walking(spokes, timers, size, index, s', base)
      ensures s'.walk == WalkStep(s.walk, size, granularity)
      ensures expired == old(expired) + 1
      ensures active + 1 + |s.walk.back| == old(active) + |s'.walk.back|
    {
      hide Structure, NullWhenFree, AllStored, Tied, NoDup, Waiting, OnSpoke, WalkStep, Has,
        Remove, Without, Returns, Wait, Ticks, Following, Housed;
      ghost var x := s.walk.ring[s.walk.pos];
      ghost var rings1, home1, q1 := ExpirePlan(spokes, timers, size, granularity, index, s, base);
      DetachFree(t, spokes, timers, s.rings, s.home, rings1, home1);
      active := active - 1;
      expired := expired + 1;
      s' := WalkState(rings1, home1, q1, WalkStep(s.walk, size, granularity));
      if t.period > 0 {
        NullNarrow(timers, home1, t);
        ghost var j := Enqueue(t, t.period, rings1, home1);
        ghost var y := Restarted(x, size, granularity, true);
        StartPlan(q1, size, index, timers, rings1, home1, y, j);
        s' := s'.(rings := rings1[j := rings1[j] + [t]], home := home1[t := j], queue := q1 + [y]);
        active := active + 1;
      }
    }

    /** The node after the sentinel. */
    method FirstNode(spoke: Link, ghost s: WalkState, ghost base: seq<Entry<Link>>) returns (t: Link)
      requires Walking(spokes, timers, size, index, s, base) && spoke == spokes[index] && s.walk.pos == 0
      ensures t == NodeAt(spoke, s.walk)
    {
      assert Ring(spoke, s.rings[index]);
      NamesAt(s.walk.ring, 0);
      t := spoke.next;
    }
  }

  /** Stopping a running timer shortens the queue by one and empties no fewer spokes. */
  lemma StopEmpties(w: WheelModel.Wheel<Link>, t: Link, j: nat)
    requires w.Valid() && Has(w.queue, t)
    ensures |WheelModel.Stop(w, t).queue| == |w.queue| - 1 && WheelModel.Stop(w, t).cancelled == w.cancelled + 1
    ensures WheelModel.Stop(w, t) == w.(queue := WheelModel.Stop(w, t).queue, cancelled := w.cancelled + 1)
    ensures forall i | 0 <= i < j && OnSpoke(w.queue, w.size, w.index, i) == [] ::
      OnSpoke(WheelModel.Stop(w, t).queue, w.size, w.index, i) == []
  {
    RemoveLength(w.queue, t);
    forall i | 0 <= i < j && OnSpoke(w.queue, w.size, w.index, i) == []
      ensures OnSpoke(Remove(w.queue, t), w.size, w.index, i) == []
    {
      RemoveOnSpoke(w.queue, w.size, w.index, i, t);
    }
  }

  lemma AllSpokesEmpty(q: seq<Entry<Link>>, size: nat, index: nat)
    requires size > 0 && forall i | 0 <= i < size :: OnSpoke(q, size, index, i) == []
    ensures q == []
  {
    if q != [] {
      var e := q[|q| - 1];
      OnSpokeMember(q, size, index, SpokeOf(index, e.rem, size), e);
    }
  }

  lemma StoppedAll(spokes: seq<Link>, timers: set<Link>, rings: seq<seq<Link>>, home: map<Link, nat>,
                   size: nat, index: nat)
    requires Structure(spokes, timers, rings, home) && NullWhenFree(timers, home) && Tied([], size, index, rings)
    ensures forall t | t in timers :: t.next == null && t.prev == null
  {
  }

  /** The state of a walk: rings and homes as they are, the queue they amount to, and how far
      the walk has come. */
  datatype WalkState = WalkState(rings: seq<seq<Link>>, home: map<Link, nat>, queue: seq<Entry<Link>>,
                                 walk: Walk<Link>)

  ghost function NodeAt(spoke: Link, w: Walk<Link>): Link {
    if w.pos < |w.ring| then w.ring[w.pos].t else spoke
  }

  /** During a walk, rings and queue agree; the walked spoke c is the ring of the walk, and any
      other spoke has, besides its timers of before, the restarts that belong to it. */
  ghost predicate Walking(spokes: seq<Link>, timers: set<Link>, size: nat, c: nat, s: WalkState,
                          base: seq<Entry<Link>>)
    reads spokes`next, spokes`prev, timers`next, timers`prev, timers`rotation, timers`period
  {
    && c < size && |spokes| == size
    && Structure(spokes, timers, s.rings, s.home) && NullWhenFree(timers, s.home)
    && Tied(s.queue, size, c, s.rings) && AllStored(s.queue, size, c, timers, s.home)
    && NoDup(s.queue) && Waiting(s.queue)
    && Following(s.queue, size, c, s.walk, base)
  }

  lemma {:induction false} NamesAt(q: seq<Entry<Link>>, i: nat)
    ensures |Names(q)| == |q|
    ensures i < |q| ==> Names(q)[i] == q[i].t
  {
    if q != [] {
      NamesAt(q[..|q| - 1], i);
    }
  }

  /** A timer is on at most one spoke. */
  lemma {:induction false} OneSpoke(q: seq<Entry<Link>>, size: nat, c: nat, i: nat, j: nat, t: Link)
    requires size > 0 && NoDup(q) && i != j && Has(OnSpoke(q, size, c, i), t)
    ensures !Has(OnSpoke(q, size, c, j), t)
  {
    var init, e := q[..|q| - 1], q[|q| - 1];
    Snoc(OnSpoke(init, size, c, i), e);
    Snoc(OnSpoke(init, size, c, j), e);
    if e.t == t {
      if Has(OnSpoke(init, size, c, j), t) {
        OnSpokeHas(init, size, c, j, t);
      }
      if Has(OnSpoke(init, size, c, i), t) {
        OnSpokeHas(init, size, c, i, t);
      }
    } else {
      OneSpoke(init, size, c, i, j, t);
    }
  }

  lemma {:induction false} OnSpokeNoDup(q: seq<Entry<Link>>, size: nat, c: nat, j: nat)
    requires size > 0 && NoDup(q)
    ensures NoDup(OnSpoke(q, size, c, j))
  {
    if q != [] {
      var init, e := q[..|q| - 1], q[|q| - 1];
      OnSpokeNoDup(init, size, c, j);
      Snoc(OnSpoke(init, size, c, j), e);
      if Has(OnSpoke(init, size, c, j), e.t) {
        OnSpokeHas(init, size, c, j, e.t);
      }
    }
  }

  lemma {:induction false} OnSpokeMember(q: seq<Entry<Link>>, size: nat, c: nat, j: nat, e: Entry<Link>)
    requires size > 0
    ensures e in OnSpoke(q, size, c, j) <==> e in q && SpokeOf(c, e.rem, size) == j
  {
    if q != [] {
      OnSpokeMember(q[..|q| - 1], size, c, j, e);
      assert q == q[..|q| - 1] + [q[|q| - 1]];
    }
  }

  lemma {:induction false} StoredMember(q: seq<Entry<Link>>, size: nat, index: nat, timers: set<Link>,
                                        home: map<Link, nat>, e: Entry<Link>)
    requires AllStored(q, size, index, timers, home) && e in q
    ensures StoredAt(e, size, index, timers, home)
  {
    if q[|q| - 1] != e {
      StoredMember(q[..|q| - 1], size, index, timers, home, e);
    }
  }

  /** The node under the walk: where it is, what it counts, and what follows it. */
  lemma VisitFacts(spokes: seq<Link>, timers: set<Link>, size: nat, g: nat, c: nat, s: WalkState,
                   base: seq<Entry<Link>>)
    requires size > 0 && g > 0 && Walking(spokes, timers, size, c, s, base) && s.walk.pos < |s.walk.ring|
    ensures var x := s.walk.ring[s.walk.pos];
      && x in s.queue && StoredAt(x, size, c, timers, s.home) && s.home[x.t] == c
      && x.rem % size == 0 && (x.t.rotation == 0 <==> x.rem <= size)
      && x.t.next == NodeAt(spokes[c], WalkStep(s.walk, size, g))
      && (x.rem <= size ==> |WalkStep(s.walk, size, g).log| == |s.walk.log| + 1)
      && (x.rem > size ==> WalkStep(s.walk, size, g).log == s.walk.log && WalkStep(s.walk, size, g).back == s.walk.back)
  {
    hide AllStored, Housed, Numbered, NoDup, Names, NodeAt;
    var w := s.walk;
    var x := w.ring[w.pos];
    assert x in w.ring;
    OnSpokeMember(s.queue, size, c, c, x);
    StoredMember(s.queue, size, c, timers, s.home, x);
    SpokeSelf(c, x.rem, size);
    RotationsOfTurn(x.rem, size);
    NextOnRing(spokes[c], s.rings[c], w);
    NextAfterStep(spokes[c], w, size, g);
  }

  lemma NextOnRing(spoke: Link, r: seq<Link>, w: Walk<Link>)
    requires Ring(spoke, r) && r == Names(w.ring) && w.pos < |w.ring|
    ensures w.ring[w.pos].t.next == if w.pos + 1 < |w.ring| then w.ring[w.pos + 1].t else spoke
  {
    NamesAt(w.ring, w.pos);
    NamesAt(w.ring, w.pos + 1);
    assert r[w.pos].next == if w.pos + 1 < |r| then r[w.pos + 1] else spoke;
  }

  /** The successor that the loop reads before it does anything is the node it has to visit
      after the round. */
  lemma NextAfterStep(spoke: Link, w: Walk<Link>, size: nat, g: nat)
    requires size > 0 && g > 0 && w.pos < |w.ring|
    ensures NodeAt(spoke, WalkStep(w, size, g)) == if w.pos + 1 < |w.ring| then w.ring[w.pos + 1].t else spoke
  {
  }

  lemma {:induction false} HasMember(q: seq<Entry<Link>>, x: Entry<Link>)
    requires x in q
    ensures Has(q, x.t)
  {
    if q[|q| - 1] != x {
      HasMember(q[..|q| - 1], x);
    }
  }

  lemma {:induction false} NearerOnSpoke(q: seq<Entry<Link>>, size: nat, c: nat, j: nat, t: Link)
    requires size > 0
    ensures OnSpoke(Nearer(q, t, size), size, c, j) == Nearer(OnSpoke(q, size, c, j), t, size)
  {
    if q != [] {
      var init, e := q[..|q| - 1], q[|q| - 1];
      var n := if e.t == t && e.rem >= size then e.(rem := e.rem - size) else e;
      NearerOnSpoke(init, size, c, j, t);
      Snoc(Nearer(init, t, size), n);
      Snoc(OnSpoke(init, size, c, j), e);
      if e.rem >= size {
        SpokeTurn(c, e.rem, size);
      }
    }
  }

  lemma SpokeTurn(c: nat, rem: nat, size: nat)
    requires size > 0 && rem >= size
    ensures SpokeOf(c, rem - size, size) == SpokeOf(c, rem, size)
  {
    SpokeShift(size, c + (rem - size), size);
    RemainderIs(size, size, 1, 0);
  }

  lemma {:induction false} NearerNames(q: seq<Entry<Link>>, size: nat, t: Link)
    ensures Names(Nearer(q, t, size)) == Names(q)
  {
    if q != [] {
      var init, e := q[..|q| - 1], q[|q| - 1];
      NearerNames(init, size, t);
      Snoc(Nearer(init, t, size), if e.t == t && e.rem >= size then e.(rem := e.rem - size) else e);
    }
  }

  lemma {:induction false} NearerOther(q: seq<Entry<Link>>, size: nat, t: Link)
    requires !Has(q, t)
    ensures Nearer(q, t, size) == q
  {
    if q != [] {
      NearerOther(q[..|q| - 1], size, t);
      assert q == q[..|q| - 1] + [q[|q| - 1]];
    }
  }

  lemma {:induction false} NearerAt(q: seq<Entry<Link>>, size: nat, i: nat)
    requires NoDup(q) && i < |q| && q[i].rem > size
    ensures Nearer(q, q[i].t, size) == q[i := q[i].(rem := q[i].rem - size)]
    ensures Remove(q, q[i].t) == q[..i] + q[i + 1..]
  {
    var n := |q| - 1;
    var x := q[i].(rem := q[i].rem - size);
    RemoveAt(q, i);
    if i == n {
      NearerOther(q[..n], size, q[n].t);
      assert q[n := x] == q[..n] + [x];
    } else {
      NearerAt(q[..n], size, i);
      HasMember(q[..n], q[i]);
      assert q[i := x] == q[..n][i := x] + [q[n]];
    }
  }

  lemma {:induction false} RemoveAt(q: seq<Entry<Link>>, i: nat)
    requires NoDup(q) && i < |q|
    ensures Remove(q, q[i].t) == q[..i] + q[i + 1..]
  {
    var n := |q| - 1;
    if i == n {
      RemoveLength(q[..n], q[n].t);
    } else {
      RemoveAt(q[..n], i);
      HasMember(q[..n], q[i]);
      assert q[..n][i + 1..] + [q[n]] == q[i + 1..];
    }
  }

  lemma {:induction false} NearerKeeps(q: seq<Entry<Link>>, size: nat, x: Entry<Link>, u: Link)
    requires NoDup(q) && Waiting(q) && x in q && x.rem > size
    ensures Has(Nearer(q, x.t, size), u) <==> Has(q, u)
    ensures NoDup(Nearer(q, x.t, size)) && Waiting(Nearer(q, x.t, size))
  {
    var init, e := q[..|q| - 1], q[|q| - 1];
    if e == x {
      NearerOther(init, size, x.t);
      Snoc(init, e.(rem := e.rem - size));
    } else {
      HasMember(init, x);
      NearerKeeps(init, size, x, u);
      NearerKeeps(init, size, x, e.t);
      Snoc(Nearer(init, x.t, size), e);
    }
  }

  lemma {:induction false} NearerStored(q: seq<Entry<Link>>, size: nat, c: nat, x: Entry<Link>,
                                        timers: set<Link>, home: map<Link, nat>)
    requires NoDup(q) && x in q && x.rem > size
    requires AllStored(Remove(q, x.t), size, c, timers - {x.t}, home)
    requires StoredAt(x.(rem := x.rem - size), size, c, timers, home)
    ensures AllStored(Nearer(q, x.t, size), size, c, timers, home)
  {
    var init, e := q[..|q| - 1], q[|q| - 1];
    if e == x {
      NearerOther(init, size, x.t);
      RemoveLength(init, x.t);
      WidenStored(init, size, c, timers - {x.t}, timers, home);
      Snoc(init, e.(rem := e.rem - size));
    } else {
      HasMember(init, x);
      Snoc(Remove(init, x.t), e);
      NearerStored(init, size, c, x, timers, home);
      Snoc(Nearer(init, x.t, size), e);
    }
  }

  /** Before a timer is passed: the others do not depend on its rotation count. */
  lemma PassPlan(q: seq<Entry<Link>>, size: nat, c: nat, x: Entry<Link>,
                 timers: set<Link>, home: map<Link, nat>)
    requires AllStored(q, size, c, timers, home) && NoDup(q) && x in q
    ensures AllStored(Remove(q, x.t), size, c, timers - {x.t}, home)
  {
    RemoveStored(q, size, c, timers, home, x.t);
    RemoveKeeps(q, x.t, x.t);
    NarrowStored(Remove(q, x.t), size, c, timers, home - {x.t}, x.t);
    AddHome(Remove(q, x.t), size, c, timers - {x.t}, home - {x.t}, home);
  }

  lemma {:induction false} AddHome(q: seq<Entry<Link>>, size: nat, c: nat, timers: set<Link>,
                                   home: map<Link, nat>, home': map<Link, nat>)
    requires AllStored(q, size, c, timers, home)
    requires forall t | t in home :: t in home' && home'[t] == home[t]
    ensures AllStored(q, size, c, timers, home')
  {
    if q != [] {
      AddHome(q[..|q| - 1], size, c, timers, home, home');
    }
  }

  /** After a timer has been passed, rings and queue agree again. */
  lemma PassDone(q: seq<Entry<Link>>, size: nat, g: nat, c: nat, w: Walk<Link>, x: Entry<Link>,
                 timers: set<Link>, rings: seq<seq<Link>>, home: map<Link, nat>)
    requires g > 0 && c < size && NoDup(q) && Waiting(q) && x in q && x.rem > size && x.rem % size == 0
    requires Tied(q, size, c, rings) && w.pos < |w.ring| && w.ring[w.pos] == x
    requires OnSpoke(q, size, c, c) == w.ring
    requires AllStored(Remove(q, x.t), size, c, timers - {x.t}, home)
    requires x.t in timers && x.t in home && home[x.t] == c && x.t.period == x.period
    requires x.t.rotation == Rotations(x.rem - size, size)
    ensures var q', w' := Nearer(q, x.t, size), WalkStep(w, size, g);
      && Tied(q', size, c, rings) && AllStored(q', size, c, timers, home) && NoDup(q') && Waiting(q')
      && OnSpoke(q', size, c, c) == w'.ring && w'.back == w.back
      && (forall j | 0 <= j < size && j != c :: OnSpoke(q', size, c, j) == OnSpoke(q, size, c, j))
  {
    hide AllStored, NoDup, Waiting, OnSpoke, Nearer;
    var q' := Nearer(q, x.t, size);
    OnSpokeNoDup(q, size, c, c);
    NearerAt(w.ring, size, w.pos);
    NearerKeeps(q, size, x, x.t);
    assert x in w.ring;
    HasMember(w.ring, x);
    TurnLeft(x, size, c);
    NearerStored(q, size, c, x, timers, home);
    forall j | 0 <= j < size
      ensures rings[j] == Names(OnSpoke(q', size, c, j))
      ensures OnSpoke(q', size, c, j) == if j == c then Nearer(w.ring, x.t, size) else OnSpoke(q, size, c, j)
    {
      NearerOnSpoke(q, size, c, j, x.t);
      NearerNames(OnSpoke(q, size, c, j), size, x.t);
      if j != c {
        OneSpoke(q, size, c, c, j, x.t);
        NearerOther(OnSpoke(q, size, c, j), size, x.t);
      }
    }
  }

  lemma TurnLeft(x: Entry<Link>, size: nat, c: nat)
    requires c < size && x.rem > size && x.rem % size == 0
    ensures (x.rem - size) % size == 0 && SpokeOf(c, x.rem - size, size) == c
  {
    RotationsOfTurn(x.rem, size);
    SpokeSelf(c, x.rem - size, size);
  }

  /** Everything that an expiry needs to know beforehand. */
  lemma ExpirePlan(spokes: seq<Link>, timers: set<Link>, size: nat, g: nat, c: nat, s: WalkState,
                   base: seq<Entry<Link>>)
      returns (rings': seq<seq<Link>>, home': map<Link, nat>, q': seq<Entry<Link>>)
    requires size > 0 && g > 0 && Walking(spokes, timers, size, c, s, base) && s.walk.pos < |s.walk.ring|
    requires s.walk.ring[s.walk.pos].rem <= size
    ensures var x := s.walk.ring[s.walk.pos]; var y := Restarted(x, size, g, true); var w := WalkStep(s.walk, size, g);
      && x.t in timers && x.t in s.home && s.home[x.t] < |s.rings| && x.t.period == x.period
      && rings' == s.rings[s.home[x.t] := Without(s.rings[s.home[x.t]], x.t)] && home' == s.home - {x.t}
      && q' == Remove(s.queue, x.t)
      && Tied(q', size, c, rings') && AllStored(q', size, c, timers, home')
      && AllStored(q', size, c, timers - {x.t}, home')
      && NoDup(q') && Waiting(q') && !Has(q', x.t) && y.rem > 0
      && (x.period == 0 ==> Following(q', size, c, w, base) && w.back == s.walk.back)
      && (x.period > 0 ==> Following(q' + [y], size, c, w, base) && |w.back| == |s.walk.back| + 1)
  {
    var x := s.walk.ring[s.walk.pos];
    VisitFacts(spokes, timers, size, g, c, s, base);
    HasMember(s.queue, x);
    rings', home', q' := StopPlan(s.queue, size, c, spokes, timers, s.rings, s.home, x.t);
    RemoveKeeps(s.queue, x.t, x.t);
    NarrowStored(q', size, c, timers, home', x.t);
    RestartedStays(x, size, g);
    ExpireSpokes(s.queue, size, g, c, s.walk, base);
  }

  /** The spokes of the queue are those of the walk. */
  ghost predicate Following(q: seq<Entry<Link>>, size: nat, c: nat, w: Walk<Link>, base: seq<Entry<Link>>) {
    && c < size && OnSpoke(q, size, c, c) == w.ring
    && forall j | 0 <= j < size && j != c ::
      OnSpoke(q, size, c, j) == OnSpoke(base, size, c, j) + OnSpoke(w.back, size, c, j)
  }

  lemma ExpireSpokes(q: seq<Entry<Link>>, size: nat, g: nat, c: nat, w: Walk<Link>, base: seq<Entry<Link>>)
    requires g > 0 && Following(q, size, c, w, base) && NoDup(q)
    requires w.pos < |w.ring| && w.ring[w.pos].rem <= size
    ensures var x := w.ring[w.pos]; var y := Restarted(x, size, g, true); var q' := Remove(q, x.t);
      && (x.period == 0 ==> Following(q', size, c, WalkStep(w, size, g), base))
      && (x.period > 0 ==> Following(q' + [y], size, c, WalkStep(w, size, g), base))
  {
    hide OnSpoke, Remove, NoDup, WalkStep, Returns, Wait, Ticks;
    var x := w.ring[w.pos];
    var y := Restarted(x, size, g, true);
    var q' := Remove(q, x.t);
    ExpireRemoves(q, size, c, w, base);
    StepExpiring(w, size, g);
    if x.period > 0 {
      RestartedStays(x, size, g);
      SpokeSelf(c, y.rem, size);
      forall j | 0 <= j < size
        ensures OnSpoke(q' + [y], size, c, j)
             == OnSpoke(q', size, c, j) + (if SpokeOf(c, y.rem, size) == j then [y] else [])
        ensures OnSpoke(w.back + [y], size, c, j)
             == OnSpoke(w.back, size, c, j) + (if SpokeOf(c, y.rem, size) == j then [y] else [])
      {
        OnSpokeSnoc(q', y, size, c, j);
        OnSpokeSnoc(w.back, y, size, c, j);
      }
    }
  }

  lemma OnSpokeSnoc(q: seq<Entry<Link>>, y: Entry<Link>, size: nat, c: nat, j: nat)
    requires size > 0
    ensures OnSpoke(q + [y], size, c, j)
         == OnSpoke(q, size, c, j) + (if SpokeOf(c, y.rem, size) == j then [y] else [])
  {
  }

  lemma StepExpiring(w: Walk<Link>, size: nat, g: nat)
    requires size > 0 && g > 0 && w.pos < |w.ring| && w.ring[w.pos].rem <= size
    ensures var x := w.ring[w.pos]; var y := Restarted(x, size, g, true); var v := WalkStep(w, size, g);
      var rest := w.ring[..w.pos] + w.ring[w.pos + 1..];
      && v.ring == (if x.period > 0 && Returns(x, size, g) then rest + [y] else rest)
      && v.back == (if x.period > 0 then w.back + [y] else w.back)
  {
  }

  lemma ExpireRemoves(q: seq<Entry<Link>>, size: nat, c: nat, w: Walk<Link>, base: seq<Entry<Link>>)
    requires Following(q, size, c, w, base) && NoDup(q) && w.pos < |w.ring|
    ensures var q' := Remove(q, w.ring[w.pos].t);
      && OnSpoke(q', size, c, c) == w.ring[..w.pos] + w.ring[w.pos + 1..]
      && forall j | 0 <= j < size && j != c ::
        OnSpoke(q', size, c, j) == OnSpoke(base, size, c, j) + OnSpoke(w.back, size, c, j)
  {
    hide NoDup, OnSpoke, Remove;
    var x := w.ring[w.pos];
    OnSpokeNoDup(q, size, c, c);
    RemoveAt(w.ring, w.pos);
    assert x in w.ring;
    HasMember(w.ring, x);
    RemoveOnSpoke(q, size, c, c, x.t);
    forall j | 0 <= j < size && j != c
      ensures OnSpoke(Remove(q, x.t), size, c, j) == OnSpoke(q, size, c, j)
    {
      RemoveOnSpoke(q, size, c, j, x.t);
      OneSpoke(q, size, c, c, j, x.t);
      RemoveLength(OnSpoke(q, size, c, j), x.t);
    }
  }

  lemma LogGrows(w: Walk<Link>, size: nat, g: nat)
    requires size > 0 && g > 0 && w.pos < |w.ring|
    ensures var x := w.ring[w.pos];
      Names(WalkStep(w, size, g).log) == if x.rem <= size then Names(w.log) + [x.t] else Names(w.log)
  {
  }

  /** While the loop has a node to visit, visits are left. */
  lemma WalkGoesOn(spoke: Link, ds: seq<Entry<Link>>, size: nat, g: nat, w: Walk<Link>, k: nat)
    requires size > 0 && g > 0 && AllDue(ds, size) && k <= Visits(ds, size, g) && w == After(ds, size, g, k)
    requires NodeAt(spoke, w) != spoke
    ensures w.pos < |w.ring| && k < Visits(ds, size, g) && WalkStep(w, size, g) == After(ds, size, g, k + 1)
  {
    hide After, Visits, WalkStep;
    AfterStep(ds, size, g, k);
  }

  lemma {:induction false} StoredEverywhere(p: seq<Entry<Link>>, q: seq<Entry<Link>>, size: nat, c: nat,
                                            timers: set<Link>, home: map<Link, nat>)
    requires size > 0 && AllStored(q, size, c, timers, home)
    requires forall e | e in p :: e in q
    ensures AllStored(p, size, c, timers, home)
  {
    if p != [] {
      StoredMember(q, size, c, timers, home, p[|p| - 1]);
      StoredEverywhere(p[..|p| - 1], q, size, c, timers, home);
    }
  }

  lemma {:induction false} RearmedCount(fs: seq<Entry<Link>>, size: nat, g: nat, missed: bool)
    requires size > 0 && g > 0
    ensures |Rearmed(fs, size, g, missed)| == |Rearmed(fs, size, g, true)|
  {
    if fs != [] {
      RearmedCount(fs[..|fs| - 1], size, g, missed);
    }
  }

  /** When the loop is back at the sentinel, rings and timers are those of the queue after the
      tick. */
  lemma WalkIsOver(w: WheelModel.Wheel<Link>, spokes: seq<Link>, timers: set<Link>, spoke: Link, s: WalkState, k: nat)
    requires w.Valid() && Walking(spokes, timers, w.size, (w.index + 1) % w.size, s, Aged(w.queue))
    requires spoke == spokes[(w.index + 1) % w.size] && NodeAt(spoke, s.walk) == spoke
    requires var ds := Due(w.queue, w.size);
      k <= Visits(ds, w.size, w.granularity) && s.walk == After(ds, w.size, w.granularity, k)
    ensures var t := WheelModel.Tick(w);
      && Finished(w, t, spokes, timers, s)
      && s.walk.log == Fired(w.queue)
      && |t.queue| + |s.walk.log| == |w.queue| + |s.walk.back|
      && t.expired == w.expired + |s.walk.log|
  {
    hide Structure, NullWhenFree, AllStored, Tied, NoDup, Waiting, OnSpoke, After, Visits, Due;
    var ds := Due(w.queue, w.size);
    var c := (w.index + 1) % w.size;
    DueIsNextSpoke(w.queue, w.size, w.index);
    AfterStep(ds, w.size, w.granularity, k);
    NodeIsTimer(spokes, timers, c, s, w.size, Aged(w.queue));
    WalkIsTick(w, c);
    SameSpokes(w, timers, s, k);
    StepTickValid(w);
    TickLengths(w.queue);
    RearmedCount(Fired(w.queue), w.size, w.granularity, Misses(ds, w.size, w.granularity));
  }

  /** Rings and timers are those of the wheel t that the tick makes of w. */
  ghost predicate Finished(w: WheelModel.Wheel<Link>, t: WheelModel.Wheel<Link>, spokes: seq<Link>,
                           timers: set<Link>, s: WalkState)
    reads spokes`next, spokes`prev, timers`next, timers`prev, timers`rotation, timers`period
    requires w.size > 0
  {
    var c := (w.index + 1) % w.size;
    && t.Valid() && Tied(t.queue, w.size, c, s.rings) && AllStored(t.queue, w.size, c, timers, s.home)
    && Structure(spokes, timers, s.rings, s.home) && NullWhenFree(timers, s.home)
    && t == w.(index := c, ticks := w.ticks + 1, queue := t.queue, expired := t.expired, rearms := t.rearms)
  }

  /** A finished walk has on every spoke what the queue after the tick has there. */
  lemma SameSpokes(w: WheelModel.Wheel<Link>, timers: set<Link>, s: WalkState, k: nat)
    requires w.Valid() && w.size > 0 && k == Visits(Due(w.queue, w.size), w.size, w.granularity)
    requires s.walk == After(Due(w.queue, w.size), w.size, w.granularity, k)
    requires var c := (w.index + 1) % w.size;
      && Tied(s.queue, w.size, c, s.rings) && AllStored(s.queue, w.size, c, timers, s.home)
      && Following(s.queue, w.size, c, s.walk, Aged(w.queue))
    ensures var c := (w.index + 1) % w.size; var q := WheelModel.Tick(w).queue;
      Tied(q, w.size, c, s.rings) && AllStored(q, w.size, c, timers, s.home)
  {
    hide AllStored, NoDup, Waiting, OnSpoke, After, Visits, Due;
    var c := (w.index + 1) % w.size;
    var q := WheelModel.Tick(w).queue;
    forall j | 0 <= j < w.size ensures OnSpoke(q, w.size, c, j) == OnSpoke(s.queue, w.size, c, j) {
      WalkIsTick(w, j);
    }
    forall e | e in q ensures e in s.queue {
      OnSpokeMember(q, w.size, c, SpokeOf(c, e.rem, w.size), e);
      OnSpokeMember(s.queue, w.size, c, SpokeOf(c, e.rem, w.size), e);
    }
    StoredEverywhere(q, s.queue, w.size, c, timers, s.home);
  }

  lemma NodeIsTimer(spokes: seq<Link>, timers: set<Link>, c: nat, s: WalkState, size: nat, base: seq<Entry<Link>>)
    requires Walking(spokes, timers, size, c, s, base)
    ensures s.walk.pos < |s.walk.ring| ==> NodeAt(spokes[c], s.walk) != spokes[c]
  {
    if s.walk.pos < |s.walk.ring| {
      var x := s.walk.ring[s.walk.pos];
      assert x in s.walk.ring;
      OnSpokeMember(s.queue, size, c, c, x);
      StoredMember(s.queue, size, c, timers, s.home, x);
    }
  }

  lemma WalkStarts(w: WheelModel.Wheel<Link>, spokes: seq<Link>, timers: set<Link>,
                   rings: seq<seq<Link>>, home: map<Link, nat>) returns (s: WalkState)
    requires w.Valid() && |spokes| == w.size
    requires Structure(spokes, timers, rings, home) && NullWhenFree(timers, home)
    requires Tied(w.queue, w.size, w.index, rings) && AllStored(w.queue, w.size, w.index, timers, home)
    ensures Walking(spokes, timers, w.size, (w.index + 1) % w.size, s, Aged(w.queue))
    ensures s.rings == rings && s.home == home
    ensures s.walk == After(Due(w.queue, w.size), w.size, w.granularity, 0)
    ensures s.walk.log == [] && s.walk.back == [] && s.walk.pos == 0
  {
    hide Structure, NullWhenFree, AllStored, NoDup, Waiting, OnSpoke, After, Due;
    var q, size, c := w.queue, w.size, (w.index + 1) % w.size;
    s := WalkState(rings, home, Turned(q, size), After(Due(q, size), size, w.granularity, 0));
    AfterStart(Due(q, size), size, w.granularity);
    TurnedTied(q, size, w.index, rings);
    TurnedFollows(q, size, w.index, s.walk);
    TurnedSound(q, size);
    TurnedStored(q, size, w.index, timers, home);
  }

  lemma TurnedTied(q: seq<Entry<Link>>, size: nat, index: nat, rings: seq<seq<Link>>)
    requires Tied(q, size, index, rings) && Waiting(q)
    ensures Tied(Turned(q, size), size, (index + 1) % size, rings)
  {
    forall j | 0 <= j < size ensures rings[j] == Names(OnSpoke(Turned(q, size), size, (index + 1) % size, j)) {
      TurnedNames(q, size, index, j);
    }
  }

  lemma TurnedFollows(q: seq<Entry<Link>>, size: nat, index: nat, w: Walk<Link>)
    requires size > 0 && Waiting(q) && w.ring == Lifted(Due(q, size), size) && w.back == []
    ensures Following(Turned(q, size), size, (index + 1) % size, w, Aged(q))
  {
    var c := (index + 1) % size;
    TurnedDue(q, size, index);
    forall j | 0 <= j < size && j != c
      ensures OnSpoke(Turned(q, size), size, c, j) == OnSpoke(Aged(q), size, c, j) + OnSpoke(w.back, size, c, j)
    {
      TurnedElsewhere(q, size, index, j);
    }
  }

  lemma TurnedSound(q: seq<Entry<Link>>, size: nat)
    requires size > 0 && NoDup(q) && Waiting(q)
    ensures NoDup(Turned(q, size)) && Waiting(Turned(q, size))
  {
    if q != [] {
      TurnedKeeps(q, size, q[0].t);
    }
  }

  lemma {:induction false} TurnedStored(q: seq<Entry<Link>>, size: nat, index: nat, timers: set<Link>,
                                         home: map<Link, nat>)
    requires size > 0 && AllStored(q, size, index, timers, home)
    ensures AllStored(Turned(q, size), size, (index + 1) % size, timers, home)
  {
    if q != [] {
      var init, e := q[..|q| - 1], q[|q| - 1];
      TurnedStored(init, size, index, timers, home);
      TurnedPlace(e, size, index);
      Snoc(Turned(init, size), TurnedEntry(e, size));
    }
  }

  /** A prepared timer that the wheel has not seen before can be added to the known ones. */
  lemma Adopt(q: seq<Entry<Link>>, size: nat, index: nat, spokes: seq<Link>, timers: set<Link>,
              rings: seq<seq<Link>>, home: map<Link, nat>, t: Link)
    requires Structure(spokes, timers, rings, home) && AllStored(q, size, index, timers, home) && t.no == -1
    ensures Structure(spokes, timers + {t}, rings, home) && AllStored(q, size, index, timers + {t}, home)
  {
  }

  lemma {:induction false} WidenStored(q: seq<Entry<Link>>, size: nat, index: nat, timers: set<Link>,
                                       timers': set<Link>, home: map<Link, nat>)
    requires AllStored(q, size, index, timers, home) && timers <= timers'
    ensures AllStored(q, size, index, timers', home)
  {
    if q != [] {
      WidenStored(q[..|q| - 1], size, index, timers, timers', home);
    }
  }

  lemma {:induction false} NarrowStored(q: seq<Entry<Link>>, size: nat, index: nat, timers: set<Link>,
                                        home: map<Link, nat>, t: Link)
    requires AllStored(q, size, index, timers, home) && !Has(q, t)
    ensures AllStored(q, size, index, timers - {t}, home)
  {
    if q != [] {
      NarrowStored(q[..|q| - 1], size, index, timers, home, t);
    }
  }

  lemma {:induction false} RehomeStored(q: seq<Entry<Link>>, size: nat, index: nat, timers: set<Link>,
                                        home: map<Link, nat>, t: Link, j: nat)
    requires AllStored(q, size, index, timers, home) && !Has(q, t)
    ensures AllStored(q, size, index, timers, home[t := j])
  {
    if q != [] {
      RehomeStored(q[..|q| - 1], size, index, timers, home, t, j);
    }
  }

  lemma HomeIsQueueOf(q: seq<Entry<Link>>, size: nat, index: nat, spokes: seq<Link>, timers: set<Link>,
                      rings: seq<seq<Link>>, home: map<Link, nat>, t: Link)
    requires Structure(spokes, timers, rings, home) && Tied(q, size, index, rings)
    requires AllStored(q, size, index, timers, home)
    ensures t in home <==> Has(q, t)
    ensures t in home ==> t.next != null && t.prev != null
  {
    HomeIsQueue(q, size, index, timers, rings, home, t);
    if t in home {
      LinkedNotNull(spokes, timers, rings, home, t);
    }
  }

  /** A timer that has been set up and put at the end of its spoke joins the end of the queue. */
  lemma StartPlan(q: seq<Entry<Link>>, size: nat, index: nat, timers: set<Link>,
                  rings: seq<seq<Link>>, home: map<Link, nat>, e: Entry<Link>, j: nat)
    requires Tied(q, size, index, rings) && AllStored(q, size, index, timers - {e.t}, home)
    requires NoDup(q) && Waiting(q) && !Has(q, e.t) && size > 0 && e.rem > 0 && e.t in timers
    requires j == SpokeOf(index, e.rem, size)
    requires e.t.rotation == Rotations(e.rem, size) && e.t.period == e.period
    ensures Tied(q + [e], size, index, rings[j := rings[j] + [e.t]])
    ensures AllStored(q + [e], size, index, timers, home[e.t := j])
    ensures NoDup(q + [e]) && Waiting(q + [e])
  {
    Snoc(q, e);
    RehomeStored(q, size, index, timers - {e.t}, home, e.t, j);
    WidenStored(q, size, index, timers - {e.t}, timers, home[e.t := j]);
    Snoc(OnSpoke(q, size, index, j), e);
  }

  /** The rings, the homes and the queue without the linked timer t. */
  lemma StopPlan(q: seq<Entry<Link>>, size: nat, index: nat, spokes: seq<Link>, timers: set<Link>,
                 rings: seq<seq<Link>>, home: map<Link, nat>, t: Link)
      returns (rings': seq<seq<Link>>, home': map<Link, nat>, q': seq<Entry<Link>>)
    requires Structure(spokes, timers, rings, home) && Tied(q, size, index, rings)
    requires AllStored(q, size, index, timers, home) && NoDup(q) && t in home && Has(q, t)
    ensures home[t] < |rings| && rings' == rings[home[t] := Without(rings[home[t]], t)]
    ensures home' == home - {t} && q' == Remove(q, t) && |q'| == |q| - 1
    ensures Tied(q', size, index, rings') && AllStored(q', size, index, timers, home')
  {
    rings', home', q' := rings[home[t] := Without(rings[home[t]], t)], home - {t}, Remove(q, t);
    RemoveLength(q, t);
    RemoveTied(q, size, index, timers, rings, home, t);
    RemoveStored(q, size, index, timers, home, t);
  }

  /** Takes the linked timer t out of its spoke and marks it as free. */
  method DetachFree(t: Link, ghost spokes: seq<Link>, ghost timers: set<Link>,
                    ghost rings: seq<seq<Link>>, ghost home: map<Link, nat>,
                    ghost rings': seq<seq<Link>>, ghost home': map<Link, nat>)
    requires Structure(spokes, timers, rings, home) && NullWhenFree(timers, home) && t in home && t in timers
    requires home[t] < |rings| && rings' == rings[home[t] := Without(rings[home[t]], t)] && home' == home - {t}
    modifies spokes`next, spokes`prev, timers`next, timers`prev
    ensures Structure(spokes, timers, rings', home')
    ensures NullWhenFree(timers, home') && t.next == null
  {
    hide Structure;
    Detach(t, spokes, timers, rings, home);
    ClearLinks(t, spokes, timers, rings', home');
  }

  method ClearLinks(t: Link, ghost spokes: seq<Link>, ghost timers: set<Link>,
                    ghost rings: seq<seq<Link>>, ghost home: map<Link, nat>)
    requires Structure(spokes, timers, rings, home) && t in timers && t !in home
    modifies t`next, t`prev
    ensures Structure(spokes, timers, rings, home)
    ensures t.next == null && t.prev == null
  {
    hide Ring, Housed, Numbered;
    StructureApart(spokes, timers, rings, home, t);
    t.next, t.prev := null, null;
  }

  lemma StructureApart(spokes: seq<Link>, timers: set<Link>, rings: seq<seq<Link>>, home: map<Link, nat>, t: Link)
    requires Structure(spokes, timers, rings, home) && t in timers && t !in home
    ensures forall k | 0 <= k < |rings| :: t !in rings[k] && t != spokes[k]
  {
  }

  /** A timer that is not linked has NULL links. */
  ghost predicate NullWhenFree(timers: set<Link>, home: map<Link, nat>)
    reads timers`next, timers`prev
  {
    forall t | t in timers && t !in home :: t.next == null && t.prev == null
  }

  lemma NullNarrow(timers: set<Link>, home: map<Link, nat>, t: Link)
    requires NullWhenFree(timers, home)
    ensures NullWhenFree(timers - {t}, home)
  {
  }

  /** A linked timer has no NULL link. */
  lemma LinkedNotNull(spokes: seq<Link>, timers: set<Link>, rings: seq<seq<Link>>, home: map<Link, nat>, t: Link)
    requires Structure(spokes, timers, rings, home) && t in home
    ensures t.next != null && t.prev != null
  {
  }

  /** The rings hold, spoke by spoke, the timers of the queue in queue order. */
  ghost predicate Tied(q: seq<Entry<Link>>, size: nat, index: nat, rings: seq<seq<Link>>) {
    && size > 0 && |rings| == size
    && forall j | 0 <= j < size :: rings[j] == Names(OnSpoke(q, size, index, j))
  }

  /** The timers of the queue are on the spoke and have the rotations that their counts say. */
  ghost predicate AllStored(q: seq<Entry<Link>>, size: nat, index: nat, timers: set<Link>, home: map<Link, nat>)
    reads timers`rotation, timers`period
  {
    q != [] ==>
      && StoredAt(q[|q| - 1], size, index, timers, home)
      && AllStored(q[..|q| - 1], size, index, timers, home)
  }

  ghost predicate StoredAt(e: Entry<Link>, size: nat, index: nat, timers: set<Link>, home: map<Link, nat>)
    reads timers`rotation, timers`period
  {
    && size > 0 && e.rem > 0 && e.t in timers && e.t in home
    && home[e.t] == SpokeOf(index, e.rem, size)
    && e.t.rotation == Rotations(e.rem, size) && e.t.period == e.period
  }

  lemma {:induction false} NamesHas(q: seq<Entry<Link>>, t: Link)
    ensures t in Names(q) <==> Has(q, t)
  {
    if q != [] {
      NamesHas(q[..|q| - 1], t);
    }
  }

  lemma {:induction false} OnSpokeHas(q: seq<Entry<Link>>, size: nat, index: nat, j: nat, t: Link)
    requires size > 0 && Has(OnSpoke(q, size, index, j), t)
    ensures Has(q, t)
  {
    if q != [] {
      var init, e := q[..|q| - 1], q[|q| - 1];
      if e.t != t {
        if SpokeOf(index, e.rem, size) == j {
          Snoc(OnSpoke(init, size, index, j), e);
        }
        OnSpokeHas(init, size, index, j, t);
      }
    }
  }

  lemma {:induction false} StoredHas(q: seq<Entry<Link>>, size: nat, index: nat, timers: set<Link>,
                                      home: map<Link, nat>, t: Link)
    requires AllStored(q, size, index, timers, home) && Has(q, t)
    ensures size > 0 && t in home && t in timers && home[t] == SpokeOf(index, RemOf(q, t), size)
  {
    if q[|q| - 1].t != t {
      StoredHas(q[..|q| - 1], size, index, timers, home, t);
    }
  }

  lemma HomeIsTimers(rings: seq<seq<Link>>, home: map<Link, nat>, timers: set<Link>, t: Link)
    requires Housed(rings, home, timers)
    ensures t in home ==> t in timers
  {
  }

  /** The linked timers are those of the queue. */
  lemma HomeIsQueue(q: seq<Entry<Link>>, size: nat, index: nat, timers: set<Link>,
                    rings: seq<seq<Link>>, home: map<Link, nat>, t: Link)
    requires Tied(q, size, index, rings) && Housed(rings, home, timers) && AllStored(q, size, index, timers, home)
    ensures t in home <==> Has(q, t)
    ensures t in home ==> home[t] == SpokeOf(index, RemOf(q, t), size)
  {
    if t in home {
      var spoke := OnSpoke(q, size, index, home[t]);
      NamesHas(spoke, t);
      OnSpokeHas(q, size, index, home[t], t);
    }
    if Has(q, t) {
      StoredHas(q, size, index, timers, home, t);
    }
  }

  lemma {:induction false} RemoveStored(q: seq<Entry<Link>>, size: nat, index: nat, timers: set<Link>,
                                        home: map<Link, nat>, t: Link)
    requires AllStored(q, size, index, timers, home)
    ensures AllStored(Remove(q, t), size, index, timers, home - {t})
  {
    if q != [] {
      var init, e := q[..|q| - 1], q[|q| - 1];
      RemoveStored(init, size, index, timers, home, t);
      if e.t != t {
        Snoc(Remove(init, t), e);
      }
    }
  }

  lemma {:induction false} RemoveNames(q: seq<Entry<Link>>, t: Link)
    ensures Names(Remove(q, t)) == Without(Names(q), t)
  {
    if q != [] {
      var init, e := q[..|q| - 1], q[|q| - 1];
      RemoveNames(init, t);
      Snoc(Names(init), e.t);
      if e.t != t {
        Snoc(Remove(init, t), e);
      }
    }
  }

  lemma {:induction false} RemoveOnSpoke(q: seq<Entry<Link>>, size: nat, index: nat, j: nat, t: Link)
    requires size > 0
    ensures OnSpoke(Remove(q, t), size, index, j) == Remove(OnSpoke(q, size, index, j), t)
  {
    if q != [] {
      var init, e := q[..|q| - 1], q[|q| - 1];
      RemoveOnSpoke(init, size, index, j, t);
      Snoc(OnSpoke(init, size, index, j), e);
      Snoc(Remove(init, t), e);
    }
  }

  lemma RemoveTied(q: seq<Entry<Link>>, size: nat, index: nat, timers: set<Link>,
                   rings: seq<seq<Link>>, home: map<Link, nat>, t: Link)
    requires Tied(q, size, index, rings) && Housed(rings, home, timers) && t in home
    ensures Tied(Remove(q, t), size, index, rings[home[t] := Without(rings[home[t]], t)])
  {
    var rings' := rings[home[t] := Without(rings[home[t]], t)];
    forall j | 0 <= j < size ensures rings'[j] == Names(OnSpoke(Remove(q, t), size, index, j)) {
      RemoveOnSpoke(q, size, index, j, t);
      RemoveNames(OnSpoke(q, size, index, j), t);
      if j != home[t] {
        assert LivesAt(rings[j], home, timers, j);
        WithoutOther(rings[j], t);
      }
    }
  }
}
