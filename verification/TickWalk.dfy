/**
 The walk of one spoke during a tick, on values.

 Positions on the wheel are counted from the new index.  A timer on the walked spoke that the
 walk has not reached yet shows a whole turn too much; passing it takes the turn off, and one
 that then has nothing left expires.  A restart can append to the very spoke that is walked.
 `WalkIsTick` shows that the walk, started on the due timers, computes `WheelModel.Tick`.
 */
module TickWalk {
  import opened WheelModel

  datatype Walk<T> = Walk(ring: seq<Entry<T>>, pos: nat, back: seq<Entry<T>>, log: seq<Entry<T>>)

  // ---------------------------------------------------------------------------------------
  // Spoke arithmetic
  // ---------------------------------------------------------------------------------------

  function SpokeOf(index: nat, rem: nat, size: nat): nat
    requires size > 0
  {
    (index + rem) % size
  }

  function Rotations(rem: nat, size: nat): nat
    requires size > 0 && rem > 0
  {
    (rem - 1) / size
  }

  lemma SpokeShift(a: nat, b: nat, size: nat)
    requires size > 0
    ensures (a % size + b) % size == (a + b) % size
  {
    var q, r := a / size, a % size;
    var q', r' := (r + b) / size, (r + b) % size;
    assert a + b == size * (q + q') + r';
    RemainderIs(a + b, size, q + q', r');
  }

  /** A timer keeps its spoke when the wheel turns and its count drops by one. */
  lemma SpokeKept(index: nat, rem: nat, size: nat)
    requires size > 0 && rem > 0
    ensures SpokeOf((index + 1) % size, rem - 1, size) == SpokeOf(index, rem, size)
  {
    SpokeShift(index + 1, rem - 1, size);
  }

  lemma SpokeSelf(c: nat, r: nat, size: nat)
    requires c < size
    ensures SpokeOf(c, r, size) == c <==> r % size == 0
  {
    SpokeShift(r, c, size);
    var s := r % size;
    if s + c < size {
      RemainderIs(s + c, size, 0, s + c);
    } else {
      RemainderIs(s + c, size, 1, s + c - size);
    }
  }

  /** The timers due at the next tick are those on the next spoke. */
  lemma DueSpoke(index: nat, rem: nat, size: nat)
    requires size > 0 && rem > 0
    ensures SpokeOf(index, rem, size) == (index + 1) % size <==> (rem - 1) % size == 0
  {
    SpokeKept(index, rem, size);
    SpokeSelf((index + 1) % size, rem - 1, size);
  }

  /** Enqueueing n ticks ahead: the code's displacement and rotation count. */
  lemma WaitPlacement(index: nat, n: nat, size: nat)
    requires size > 0 && n > 0
    ensures SpokeOf(index, Wait(n, size), size) == (index + n % size) % size
    ensures Rotations(Wait(n, size), size) == n / size
  {
    SpokeShift(n, index, size);
    var q, r := n / size, n % size;
    assert n == size * q + r;
    if r == 0 {
      assert n + size - 1 == size * q + (size - 1);
      RemainderIs(n + size - 1, size, q, size - 1);
      assert index + Wait(n, size) == size + (index + n);
      SpokeShift(size, index + n, size);
      RemainderIs(size, size, 1, 0);
    } else {
      RemainderIs(n - 1, size, q, r - 1);
    }
  }

  /** A turn less is a rotation less; a single turn has no rotation left. */
  lemma RotationsOfTurn(rem: nat, size: nat)
    requires size > 0 && rem > 0 && rem % size == 0
    ensures rem >= size
    ensures Rotations(rem, size) == 0 <==> rem == size
    ensures rem > size ==> Rotations(rem - size, size) == Rotations(rem, size) - 1 && (rem - size) % size == 0
  {
    var q := rem / size;
    assert rem == size * q;
    if q >= 1 {
      AtLeastOnce(size, q);
      assert rem - 1 == size * (q - 1) + (size - 1);
      RemainderIs(rem - 1, size, q - 1, size - 1);
    }
    if q >= 2 {
      assert rem - size == size * (q - 1) + 0;
      AtLeastOnce(size, q - 1);
      RemainderIs(rem - size, size, q - 1, 0);
      assert rem - size - 1 == size * (q - 2) + (size - 1);
      RemainderIs(rem - size - 1, size, q - 2, size - 1);
    }
  }

  // ---------------------------------------------------------------------------------------
  // The walk
  // ---------------------------------------------------------------------------------------

  /** One round of the loop of stw_timer_tick: the node at `pos` is passed or expires.  Where
      to go next is settled before the callback and the restart. */
  ghost function WalkStep<T>(w: Walk<T>, size: nat, g: nat): Walk<T>
    requires size > 0 && g > 0 && w.pos < |w.ring|
  {
    var x := w.ring[w.pos];
    if x.rem > size then
      w.(ring := w.ring[w.pos := x.(rem := x.rem - size)], pos := w.pos + 1)
    else
      var rest := w.ring[..w.pos] + w.ring[w.pos + 1..];
      var u := w.(ring := rest, log := w.log + [x.(rem := 1)]);
      if x.period == 0 then u
      else
        var y := Restarted(x, size, g, true);
        if !Returns(x, size, g) then u.(back := w.back + [y])
        else
          u.(back := w.back + [y], ring := rest + [y],
             pos := if w.pos == |rest| then |rest| + 1 else w.pos)
  }

  /** Due timers as the walk sees them before it reaches them. */
  ghost function Lifted<T>(ds: seq<Entry<T>>, size: nat): seq<Entry<T>> {
    if ds == [] then []
    else
      var e := ds[|ds| - 1];
      Lifted(ds[..|ds| - 1], size) + [e.(rem := if e.rem > 0 then e.rem - 1 + size else 0)]
  }

  /** The entries a whole number of turns away: those on the spoke under the index. */
  ghost function Staying<T>(q: seq<Entry<T>>, size: nat): seq<Entry<T>>
    requires size > 0
  {
    if q == [] then []
    else if q[|q| - 1].rem % size == 0 then Staying(q[..|q| - 1], size) + [q[|q| - 1]]
    else Staying(q[..|q| - 1], size)
  }

  /** Every entry a turn nearer. */
  ghost function Lowered<T>(q: seq<Entry<T>>, size: nat): seq<Entry<T>> {
    if q == [] then []
    else
      var e := q[|q| - 1];
      Lowered(q[..|q| - 1], size) + [e.(rem := if e.rem > size then e.rem - size else 0)]
  }

  ghost predicate AllDue<T>(ds: seq<Entry<T>>, size: nat)
    requires size > 0
  {
    ds != [] ==> ds[|ds| - 1].rem > 0 && (ds[|ds| - 1].rem - 1) % size == 0 && AllDue(ds[..|ds| - 1], size)
  }

  ghost function Returning<T>(ds: seq<Entry<T>>, size: nat, g: nat): seq<Entry<T>>
    requires size > 0 && g > 0
  {
    Staying(Rearmed(Fired(ds), size, g, true), size)
  }

  /** How many nodes the walk visits in all. */
  ghost function Visits<T>(ds: seq<Entry<T>>, size: nat, g: nat): nat
    requires size > 0 && g > 0
  {
    |ds| + if Misses(ds, size, g) then 0 else |Returning(ds, size, g)|
  }

  lemma LiftedSnoc<T>(p: seq<Entry<T>>, e: Entry<T>, size: nat)
    ensures Lifted(p + [e], size) == Lifted(p, size) + [e.(rem := if e.rem > 0 then e.rem - 1 + size else 0)]
  {
    Snoc(p, e);
  }

  lemma Associative<E>(a: seq<E>, b: seq<E>, c: seq<E>)
    ensures a + b + c == a + (b + c)
  {
  }

  lemma {:induction false} LiftedCons<T>(ds: seq<Entry<T>>, size: nat)
    requires ds != [] && ds[0].rem > 0
    ensures Lifted(ds, size) == [ds[0].(rem := ds[0].rem - 1 + size)] + Lifted(ds[1..], size)
    ensures |Lifted(ds, size)| == |ds|
  {
    if |ds| == 1 {
      assert ds[..0] == [] && ds[1..] == [];
    } else {
      var init, last := ds[..|ds| - 1], ds[|ds| - 1];
      LiftedCons(init, size);
      assert ds[1..] == init[1..] + [last];
      LiftedSnoc(init[1..], last, size);
      var x := last.(rem := if last.rem > 0 then last.rem - 1 + size else 0);
      Associative([ds[0].(rem := ds[0].rem - 1 + size)], Lifted(init[1..], size), [x]);
    }
  }

  lemma {:induction false} LoweredLength<T>(q: seq<Entry<T>>, size: nat)
    ensures |Lowered(q, size)| == |q|
  {
    if q != [] {
      LoweredLength(q[..|q| - 1], size);
    }
  }

  lemma {:induction false} AllDueAt<T>(ds: seq<Entry<T>>, size: nat, i: nat)
    requires size > 0 && AllDue(ds, size) && i < |ds|
    ensures ds[i].rem > 0 && (ds[i].rem - 1) % size == 0
  {
    if i < |ds| - 1 {
      AllDueAt(ds[..|ds| - 1], size, i);
    }
  }

  /** Entries that come back are at least two turns away when they are put back. */
  lemma {:induction false} ReturningFar<T>(fs: seq<Entry<T>>, size: nat, g: nat, i: nat)
    requires size > 0 && g > 0
    ensures var r := Staying(Rearmed(fs, size, g, true), size); i < |r| ==> r[i].rem > size
    ensures NoneReturns(fs, size, g) <==> Staying(Rearmed(fs, size, g, true), size) == []
  {
    if fs != [] {
      var init, e := fs[..|fs| - 1], fs[|fs| - 1];
      ReturningFar(init, size, g, i);
      RestartedStays(e, size, g);
      if e.period > 0 {
        Snoc(Rearmed(init, size, g, true), Restarted(e, size, g, true));
      }
    }
  }

  lemma RestartedStays<T>(e: Entry<T>, size: nat, g: nat)
    requires size > 0 && g > 0
    ensures var y := Restarted(e, size, g, true); var z := Restarted(e, size, g, false);
      && (y.rem % size == 0 <==> z.rem % size == 0)
      && (e.period > 0 ==> (y.rem % size == 0 <==> Returns(e, size, g)))
      && y.rem > 0 && z.rem > 0
      && (y.rem % size == 0 ==> y.rem > size && z.rem == y.rem - size)
      && (y.rem % size != 0 ==> z == y)
  {
    hide Ticks;
    var n := Ticks(e.period, g);
    if n % size == 0 {
      WholeTurn(n, size);
    }
  }

  lemma WholeTurn(n: nat, size: nat)
    requires size > 0 && n % size == 0
    ensures (n + size) % size == 0
  {
    RemainderIs(n + size, size, n / size + 1, 0);
  }

  lemma StepPasses<T>(a: seq<Entry<T>>, x: Entry<T>, b: seq<Entry<T>>, back: seq<Entry<T>>, log: seq<Entry<T>>,
                      size: nat, g: nat)
    requires size > 0 && g > 0 && x.rem > size
    ensures WalkStep(Walk(a + ([x] + b), |a|, back, log), size, g)
         == Walk(a + [x.(rem := x.rem - size)] + b, |a| + 1, back, log)
  {
  }

  lemma StepExpires<T>(a: seq<Entry<T>>, x: Entry<T>, b: seq<Entry<T>>, back: seq<Entry<T>>, log: seq<Entry<T>>,
                       size: nat, g: nat)
    requires size > 0 && g > 0 && x.rem <= size
    ensures var y := Restarted(x, size, g, true);
      WalkStep(Walk(a + ([x] + b), |a|, back, log), size, g) ==
        if x.period == 0 then Walk(a + b, |a|, back, log + [x.(rem := 1)])
        else if !Returns(x, size, g) then Walk(a + b, |a|, back + [y], log + [x.(rem := 1)])
        else Walk(a + (b + [y]), if b == [] then |a| + 1 else |a|, back + [y], log + [x.(rem := 1)])
  {
  }

  /** The walk when the first k due timers have been visited. */
  ghost function Amid<T>(ds: seq<Entry<T>>, size: nat, g: nat, k: nat): Walk<T>
    requires size > 0 && g > 0 && k <= |ds|
  {
    var p := ds[..k];
    Walk(Aged(p) + (Lifted(ds[k..], size) + Returning(p, size, g)), |Aged(p)|,
         Rearmed(Fired(p), size, g, true), Fired(p))
  }

  /** A visit to one of the due timers. */
  lemma AmidStep<T>(ds: seq<Entry<T>>, size: nat, g: nat, k: nat)
    requires size > 0 && g > 0 && AllDue(ds, size) && k < |ds|
    ensures var w := Amid(ds, size, g, k); var v := Amid(ds, size, g, k + 1);
      && w.pos < |w.ring| && w.ring[w.pos].t == ds[k].t
      && WalkStep(w, size, g) == if k + 1 == |ds| && Misses(ds, size, g) then v.(pos := |v.ring|) else v
  {
    AllDueAt(ds, size, k);
    if ds[k].rem > 1 {
      AmidPasses(ds, size, g, k);
    } else {
      AmidExpires(ds, size, g, k);
    }
  }

  lemma AmidShape<T>(ds: seq<Entry<T>>, size: nat, g: nat, k: nat)
    requires size > 0 && g > 0 && k < |ds| && ds[k].rem > 0
    ensures var p, e := ds[..k], ds[k]; var x := e.(rem := e.rem - 1 + size);
      Amid(ds, size, g, k) ==
        Walk(Aged(p) + ([x] + (Lifted(ds[k + 1..], size) + Returning(p, size, g))), |Aged(p)|,
             Rearmed(Fired(p), size, g, true), Fired(p))
  {
    LiftedCons(ds[k..], size);
    assert ds[k..][1..] == ds[k + 1..];
    var e := ds[k];
    var x, l, r := e.(rem := e.rem - 1 + size), Lifted(ds[k + 1..], size), Returning(ds[..k], size, g);
    assert [x] + l + r == [x] + (l + r);
  }

  lemma AmidPasses<T>(ds: seq<Entry<T>>, size: nat, g: nat, k: nat)
    requires size > 0 && g > 0 && k < |ds| && ds[k].rem > 1
    ensures var w := Amid(ds, size, g, k);
      && w.pos < |w.ring| && w.ring[w.pos].t == ds[k].t
      && WalkStep(w, size, g) == Amid(ds, size, g, k + 1)
  {
    var p, e := ds[..k], ds[k];
    assert ds[..k + 1] == p + [e];
    Snoc(p, e);
    AmidShape(ds, size, g, k);
    StepPasses(Aged(p), e.(rem := e.rem - 1 + size), Lifted(ds[k + 1..], size) + Returning(p, size, g),
               Rearmed(Fired(p), size, g, true), Fired(p), size, g);
  }

  lemma AmidExpires<T>(ds: seq<Entry<T>>, size: nat, g: nat, k: nat)
    requires size > 0 && g > 0 && k < |ds| && ds[k].rem == 1
    ensures var w := Amid(ds, size, g, k); var v := Amid(ds, size, g, k + 1);
      && w.pos < |w.ring| && w.ring[w.pos].t == ds[k].t
      && WalkStep(w, size, g) == if k + 1 == |ds| && Misses(ds, size, g) then v.(pos := |v.ring|) else v
  {
    var p, e := ds[..k], ds[k];
    assert ds[..k + 1] == p + [e];
    Snoc(p, e);
    AmidShape(ds, size, g, k);
    AmidExpired(ds, size, g, k);
    var x := e.(rem := size);
    var l, r := Lifted(ds[k + 1..], size), Returning(p, size, g);
    var y := Restarted(e, size, g, true);
    StepExpires(Aged(p), x, l + r, Rearmed(Fired(p), size, g, true), Fired(p), size, g);
    assert x.(rem := 1) == e;
    if Returns(e, size, g) {
      assert l + r + [y] == l + (r + [y]);
      LiftedLength(ds[k + 1..], size);
      if l + r == [] {
        assert k + 1 == |ds| && p == ds[..|ds| - 1] && e == ds[|ds| - 1];
        assert Misses(ds, size, g);
      }
    }
  }

  lemma {:induction false} LiftedLength<T>(ds: seq<Entry<T>>, size: nat)
    ensures |Lifted(ds, size)| == |ds|
  {
    if ds != [] {
      LiftedLength(ds[..|ds| - 1], size);
    }
  }

  /** What an expired due timer does to the list of those that come back. */
  lemma AmidExpired<T>(ds: seq<Entry<T>>, size: nat, g: nat, k: nat)
    requires size > 0 && g > 0 && k < |ds| && ds[k].rem == 1
    ensures var p, p', e := ds[..k], ds[..k + 1], ds[k]; var y := Restarted(e, size, g, true);
      && Fired(p') == Fired(p) + [e]
      && Rearmed(Fired(p'), size, g, true) ==
           Rearmed(Fired(p), size, g, true) + (if e.period == 0 then [] else [y])
      && Returning(p', size, g) == Returning(p, size, g) + (if Returns(e, size, g) then [y] else [])
      && (Returning(p, size, g) == [] <==> NoneReturns(Fired(p), size, g))
  {
    var p, e := ds[..k], ds[k];
    assert ds[..k + 1] == p + [e];
    Snoc(p, e);
    Snoc(Fired(p), e);
    RestartedStays(e, size, g);
    ReturningFar(Fired(p), size, g, 0);
    if e.period > 0 {
      Snoc(Rearmed(Fired(p), size, g, true), Restarted(e, size, g, true));
    }
  }

  /** The walk over the due timers ds after k visits: first ds itself, then what came back. */
  ghost function After<T>(ds: seq<Entry<T>>, size: nat, g: nat, k: nat): Walk<T>
    requires size > 0 && g > 0 && k <= Visits(ds, size, g)
  {
    if k < |ds| then Amid(ds, size, g, k)
    else
      var w := Amid(ds, size, g, |ds|);
      var r := Returning(ds, size, g);
      if Misses(ds, size, g) then w.(pos := |w.ring|)
      else
        w.(ring := Aged(ds) + (Lowered(r[..k - |ds|], size) + r[k - |ds|..]), pos := |Aged(ds)| + (k - |ds|))
  }

  lemma AfterStart<T>(ds: seq<Entry<T>>, size: nat, g: nat)
    requires size > 0 && g > 0
    ensures After(ds, size, g, 0) == Walk(Lifted(ds, size), 0, [], [])
  {
  }

  lemma AmidEnd<T>(ds: seq<Entry<T>>, size: nat, g: nat)
    requires size > 0 && g > 0
    ensures Amid(ds, size, g, |ds|) ==
      Walk(Aged(ds) + Returning(ds, size, g), |Aged(ds)|, Rearmed(Fired(ds), size, g, true), Fired(ds))
  {
    assert ds[..|ds|] == ds && Lifted(ds[|ds|..], size) == [];
    assert Lifted(ds[|ds|..], size) + Returning(ds, size, g) == Returning(ds, size, g);
  }

  /** A visit to a timer that came back passes it. */
  lemma ReturnStep<T>(ds: seq<Entry<T>>, size: nat, g: nat, k: nat)
    requires size > 0 && g > 0 && !Misses(ds, size, g) && |ds| <= k < Visits(ds, size, g)
    ensures var w := After(ds, size, g, k);
      && w.pos < |w.ring|
      && WalkStep(w, size, g) == After(ds, size, g, k + 1)
  {
    hide After, Amid, WalkStep, Lowered, Visits, Aged, Fired, Rearmed, Staying;
    var a := k - |ds|;
    AfterReturns(ds, size, g, k);
    AfterReturns(ds, size, g, k + 1);
    ReturningFar(Fired(ds), size, g, a);
    LowerNext(Aged(ds), Returning(ds, size, g), Rearmed(Fired(ds), size, g, true), Fired(ds), size, g, a);
  }

  /** The walk among the timers that came back. */
  lemma AfterReturns<T>(ds: seq<Entry<T>>, size: nat, g: nat, k: nat)
    requires size > 0 && g > 0 && !Misses(ds, size, g) && |ds| <= k <= Visits(ds, size, g)
    ensures Visits(ds, size, g) == |ds| + |Returning(ds, size, g)|
    ensures var r, a := Returning(ds, size, g), k - |ds|;
      After(ds, size, g, k) ==
        Walk(Aged(ds) + (Lowered(r[..a], size) + r[a..]), |Aged(ds)| + a, Rearmed(Fired(ds), size, g, true), Fired(ds))
  {
    hide Amid, Lowered, Aged, Fired, Rearmed, Staying, Misses;
    AmidEnd(ds, size, g);
  }

  lemma LoweredSnoc<T>(p: seq<Entry<T>>, e: Entry<T>, size: nat)
    ensures Lowered(p + [e], size) == Lowered(p, size) + [e.(rem := if e.rem > size then e.rem - size else 0)]
  {
    Snoc(p, e);
  }

  lemma LowerNext<T>(b: seq<Entry<T>>, r: seq<Entry<T>>, back: seq<Entry<T>>, log: seq<Entry<T>>,
                     size: nat, g: nat, a: nat)
    requires size > 0 && g > 0 && a < |r| && r[a].rem > size
    ensures var w := Walk(b + (Lowered(r[..a], size) + r[a..]), |b| + a, back, log);
      && w.pos < |w.ring|
      && WalkStep(w, size, g) == Walk(b + (Lowered(r[..a + 1], size) + r[a + 1..]), |b| + a + 1, back, log)
  {
    hide Lowered, WalkStep;
    var l, y, tail := Lowered(r[..a], size), r[a].(rem := r[a].rem - size), r[a + 1..];
    Split(r, a);
    LoweredSnoc(r[..a], r[a], size);
    LoweredLength(r[..a], size);
    Reassociate(b, l, [r[a]], tail);
    Reassociate(b, l, [y], tail);
    StepPasses(b + l, r[a], tail, back, log, size, g);
  }

  lemma Reassociate<E>(b: seq<E>, l: seq<E>, x: seq<E>, tail: seq<E>)
    ensures b + (l + (x + tail)) == b + l + (x + tail)
    ensures b + l + x + tail == b + ((l + x) + tail)
  {
  }

  lemma Split<E>(r: seq<E>, a: nat)
    requires a < |r|
    ensures r[a..] == [r[a]] + r[a + 1..] && r[..a + 1] == r[..a] + [r[a]]
  {
  }

  /** Each round of the loop is one visit, and the loop ends after `Visits` of them. */
  lemma AfterStep<T>(ds: seq<Entry<T>>, size: nat, g: nat, k: nat)
    requires size > 0 && g > 0 && AllDue(ds, size) && k <= Visits(ds, size, g)
    ensures var w := After(ds, size, g, k);
      && (w.pos < |w.ring| <==> k < Visits(ds, size, g)) && w.pos <= |w.ring|
      && (k < Visits(ds, size, g) ==> WalkStep(w, size, g) == After(ds, size, g, k + 1))
  {
    if k < |ds| {
      AmidStep(ds, size, g, k);
      if k + 1 == |ds| {
        AfterAmid(ds, size, g);
      }
    } else if k < Visits(ds, size, g) {
      ReturnStep(ds, size, g, k);
    } else {
      AfterLast(ds, size, g);
    }
  }

  lemma AfterAmid<T>(ds: seq<Entry<T>>, size: nat, g: nat)
    requires size > 0 && g > 0
    ensures var w := Amid(ds, size, g, |ds|);
      After(ds, size, g, |ds|) == if Misses(ds, size, g) then w.(pos := |w.ring|) else w
  {
    var r := Returning(ds, size, g);
    AmidEnd(ds, size, g);
    assert Lowered(r[..0], size) == [] && [] + r[0..] == r;
  }

  lemma AfterLast<T>(ds: seq<Entry<T>>, size: nat, g: nat)
    requires size > 0 && g > 0
    ensures var w := After(ds, size, g, Visits(ds, size, g)); w.pos == |w.ring|
  {
    if !Misses(ds, size, g) {
      var r := Returning(ds, size, g);
      assert r[..|r|] == r;
      LoweredLength(r, size);
    }
  }

  /** The spoke, the restarts and the log when the walk is over. */
  lemma AfterEnd<T>(ds: seq<Entry<T>>, size: nat, g: nat)
    requires size > 0 && g > 0
    ensures var w := After(ds, size, g, Visits(ds, size, g));
      && w.ring == Aged(ds) + Staying(Rearmed(Fired(ds), size, g, Misses(ds, size, g)), size)
      && w.back == Rearmed(Fired(ds), size, g, true) && w.log == Fired(ds)
  {
    var r := Returning(ds, size, g);
    AmidEnd(ds, size, g);
    if !Misses(ds, size, g) {
      assert r[..|r|] == r && r[|r|..] == [];
      assert Lowered(r, size) + [] == Lowered(r, size);
      LoweredReturns(Fired(ds), size, g);
    }
  }

  /** A timer that comes back: a whole turn taken off gives its period. */
  lemma LoweredReturn<T>(p: seq<Entry<T>>, p': seq<Entry<T>>, e: Entry<T>, size: nat, g: nat)
    requires size > 0 && g > 0 && e.period > 0
    requires Lowered(Staying(p, size), size) == Staying(p', size)
    ensures Lowered(Staying(p + [Restarted(e, size, g, true)], size), size)
         == Staying(p' + [Restarted(e, size, g, false)], size)
  {
    hide Lowered, Staying, Restarted;
    var y, z := Restarted(e, size, g, true), Restarted(e, size, g, false);
    RestartedStays(e, size, g);
    RestartedTimer(e, size, g);
    StayingSnoc(p, y, size);
    StayingSnoc(p', z, size);
    LoweredSnoc(Staying(p, size), y, size);
  }

  lemma RestartedTimer<T>(e: Entry<T>, size: nat, g: nat)
    requires size > 0 && g > 0
    ensures Restarted(e, size, g, false) == Restarted(e, size, g, true).(rem := Restarted(e, size, g, false).rem)
  {
  }

  lemma RearmedLast<T>(fs: seq<Entry<T>>, size: nat, g: nat, missed: bool)
    requires size > 0 && g > 0 && fs != []
    ensures var init, e := fs[..|fs| - 1], fs[|fs| - 1];
      Rearmed(fs, size, g, missed) ==
        if e.period == 0 then Rearmed(init, size, g, missed)
        else Rearmed(init, size, g, missed) + [Restarted(e, size, g, missed)]
  {
  }

  lemma {:induction false} LoweredReturns<T>(fs: seq<Entry<T>>, size: nat, g: nat)
    requires size > 0 && g > 0
    ensures Lowered(Staying(Rearmed(fs, size, g, true), size), size) == Staying(Rearmed(fs, size, g, false), size)
    decreases |fs|
  {
    if fs != [] {
      hide Lowered, Staying, Rearmed, Restarted;
      var init, e := fs[..|fs| - 1], fs[|fs| - 1];
      LoweredReturns(init, size, g);
      RearmedLast(fs, size, g, true);
      RearmedLast(fs, size, g, false);
      if e.period > 0 {
        LoweredReturn(Rearmed(init, size, g, true), Rearmed(init, size, g, false), e, size, g);
      }
    }
  }

  lemma StayingSnoc<T>(q: seq<Entry<T>>, y: Entry<T>, size: nat)
    requires size > 0
    ensures Staying(q + [y], size) == if y.rem % size == 0 then Staying(q, size) + [y] else Staying(q, size)
  {
  }

  // ---------------------------------------------------------------------------------------
  // Spokes of the queue
  // ---------------------------------------------------------------------------------------

  ghost function OnSpoke<T>(q: seq<Entry<T>>, size: nat, index: nat, j: nat): seq<Entry<T>>
    requires size > 0
  {
    if q == [] then []
    else if SpokeOf(index, q[|q| - 1].rem, size) == j then OnSpoke(q[..|q| - 1], size, index, j) + [q[|q| - 1]]
    else OnSpoke(q[..|q| - 1], size, index, j)
  }

  lemma {:induction false} OnSpokeConcat<T>(p: seq<Entry<T>>, q: seq<Entry<T>>, size: nat, index: nat, j: nat)
    requires size > 0
    ensures OnSpoke(p + q, size, index, j) == OnSpoke(p, size, index, j) + OnSpoke(q, size, index, j)
  {
    if q == [] {
      assert p + q == p;
    } else {
      assert (p + q)[..|p + q| - 1] == p + q[..|q| - 1];
      OnSpokeConcat(p, q[..|q| - 1], size, index, j);
    }
  }

  /** The due timers are those on the next spoke, and all fired timers are among them. */
  lemma {:induction false} DueIsNextSpoke<T>(q: seq<Entry<T>>, size: nat, index: nat)
    requires size > 0 && Waiting(q)
    ensures Due(q, size) == OnSpoke(q, size, index, (index + 1) % size)
    ensures AllDue(Due(q, size), size) && Fired(Due(q, size)) == Fired(q)
  {
    if q != [] {
      var init, e := q[..|q| - 1], q[|q| - 1];
      DueIsNextSpoke(init, size, index);
      DueSpoke(index, e.rem, size);
      Snoc(Due(init, size), e);
      if e.rem == 1 {
        RemainderIs(0, size, 0, 0);
      }
    }
  }

  lemma {:induction false} AgedOnSpoke<T>(q: seq<Entry<T>>, size: nat, index: nat)
    requires size > 0 && Waiting(q)
    ensures var c := (index + 1) % size; OnSpoke(Aged(q), size, c, c) == Aged(Due(q, size))
  {
    if q != [] {
      var init, e := q[..|q| - 1], q[|q| - 1];
      AgedOnSpoke(init, size, index);
      DueSpoke(index, e.rem, size);
      SpokeKept(index, e.rem, size);
      Snoc(Aged(init), e.(rem := e.rem - 1));
      Snoc(Due(init, size), e);
      if e.rem == 1 {
        RemainderIs(0, size, 0, 0);
      }
    }
  }

  lemma {:induction false} StayingOnSpoke<T>(q: seq<Entry<T>>, size: nat, c: nat)
    requires c < size
    ensures OnSpoke(q, size, c, c) == Staying(q, size)
  {
    if q != [] {
      StayingOnSpoke(q[..|q| - 1], size, c);
      SpokeSelf(c, q[|q| - 1].rem, size);
    }
  }

  lemma {:induction false} RearmedElsewhere<T>(fs: seq<Entry<T>>, size: nat, g: nat, missed: bool, c: nat, j: nat)
    requires size > 0 && g > 0 && c < size && j != c
    ensures OnSpoke(Rearmed(fs, size, g, missed), size, c, j) == OnSpoke(Rearmed(fs, size, g, true), size, c, j)
  {
    if fs != [] {
      var init, e := fs[..|fs| - 1], fs[|fs| - 1];
      RearmedElsewhere(init, size, g, missed, c, j);
      RestartedStays(e, size, g);
      var y, z := Restarted(e, size, g, true), Restarted(e, size, g, missed);
      SpokeSelf(c, y.rem, size);
      SpokeSelf(c, z.rem, size);
      Snoc(Rearmed(init, size, g, true), y);
      Snoc(Rearmed(init, size, g, missed), z);
    }
  }

  /** The part of the new queue on spoke j, when the index is c: what the walk leaves there. */
  lemma TickOnSpoke<T>(q: seq<Entry<T>>, size: nat, g: nat, index: nat, c: nat, j: nat)
    requires size > 0 && g > 0 && c < size && c == (index + 1) % size && Waiting(q)
    ensures var ds := Due(q, size); var missed := Misses(ds, size, g);
      var now := OnSpoke(Aged(q) + Rearmed(Fired(q), size, g, missed), size, c, j);
      && Fired(ds) == Fired(q)
      && (j == c ==> now == Aged(ds) + Staying(Rearmed(Fired(ds), size, g, missed), size))
      && (j != c ==>
            now == OnSpoke(Aged(q), size, c, j) + OnSpoke(Rearmed(Fired(q), size, g, true), size, c, j))
  {
    hide OnSpoke, Aged, Rearmed, Fired, Misses, Staying, Due, Waiting;
    var ds := Due(q, size);
    var missed := Misses(ds, size, g);
    var back := Rearmed(Fired(q), size, g, missed);
    DueIsNextSpoke(q, size, index);
    OnSpokeConcat(Aged(q), back, size, c, j);
    AgedOnSpoke(q, size, index);
    if j == c {
      StayingOnSpoke(back, size, c);
    } else {
      RearmedElsewhere(Fired(q), size, g, missed, c, j);
    }
  }

  /** The walk is the tick: on the walked spoke it leaves what the new queue has there, and
      every other spoke gains the restarts that belong to it. */
  lemma WalkIsTick<T>(w: Wheel<T>, j: nat)
    requires w.Valid() && j < w.size
    ensures var c := (w.index + 1) % w.size;
      var ds := Due(w.queue, w.size);
      var walk := After(ds, w.size, w.granularity, Visits(ds, w.size, w.granularity));
      var now := OnSpoke(Tick(w).queue, w.size, c, j);
      && (j == c ==> now == walk.ring)
      && (j != c ==> now == OnSpoke(Aged(w.queue), w.size, c, j) + OnSpoke(walk.back, w.size, c, j))
      && walk.log == Fired(w.queue)
      && walk.back == Rearmed(Fired(w.queue), w.size, w.granularity, true)
  {
    hide OnSpoke, Aged, Rearmed, Fired, Misses, Staying, Due, Waiting, After, Visits;
    TickOnSpoke(w.queue, w.size, w.granularity, w.index, (w.index + 1) % w.size, j);
    AfterEnd(Due(w.queue, w.size), w.size, w.granularity);
  }

  // ---------------------------------------------------------------------------------------
  // The queue while a spoke is walked
  // ---------------------------------------------------------------------------------------

  /** The queue when the index has moved on but the walk has not begun. */
  ghost function Turned<T>(q: seq<Entry<T>>, size: nat): seq<Entry<T>>
    requires size > 0
  {
    if q == [] then []
    else Turned(q[..|q| - 1], size) + [TurnedEntry(q[|q| - 1], size)]
  }

  ghost function TurnedEntry<T>(e: Entry<T>, size: nat): Entry<T>
    requires size > 0
  {
    if e.rem == 0 then e
    else if (e.rem - 1) % size == 0 then e.(rem := e.rem - 1 + size)
    else e.(rem := e.rem - 1)
  }

  /** The entry of t, and no other, a turn nearer. */
  ghost function Nearer<T>(q: seq<Entry<T>>, t: T, size: nat): seq<Entry<T>> {
    if q == [] then []
    else
      var e := q[|q| - 1];
      Nearer(q[..|q| - 1], t, size) + [if e.t == t && e.rem >= size then e.(rem := e.rem - size) else e]
  }

  /** Turning moves no timer to another spoke and changes no rotation count. */
  lemma TurnedPlace<T>(e: Entry<T>, size: nat, index: nat)
    requires size > 0 && e.rem > 0
    ensures var c := (index + 1) % size; var u := TurnedEntry(e, size);
      && u.rem > 0 && SpokeOf(c, u.rem, size) == SpokeOf(index, e.rem, size)
      && Rotations(u.rem, size) == Rotations(e.rem, size)
      && u.t == e.t && u.period == e.period
      && (SpokeOf(index, e.rem, size) != c ==> e.rem > 1 && u == e.(rem := e.rem - 1))
      && (SpokeOf(index, e.rem, size) == c ==> u == e.(rem := e.rem - 1 + size))
  {
    var c := (index + 1) % size;
    SpokeKept(index, e.rem, size);
    DueSpoke(index, e.rem, size);
    var r := e.rem - 1;
    RemainderIs(0, size, 0, 0);
    if r % size == 0 {
      SpokeShift(c + r, size, size);
      RemainderIs(size, size, 1, 0);
      SpokeShift(size, c + r, size);
      assert size * (r / size) == r;
      RemainderIs(r + size - 1, size, r / size, size - 1);
    } else {
      assert r == size * (r / size) + r % size;
      RemainderIs(r - 1, size, r / size, r % size - 1);
    }
  }

  lemma {:induction false} TurnedNames<T>(q: seq<Entry<T>>, size: nat, index: nat, j: nat)
    requires size > 0 && Waiting(q)
    ensures Names(OnSpoke(Turned(q, size), size, (index + 1) % size, j)) == Names(OnSpoke(q, size, index, j))
  {
    if q != [] {
      var c := (index + 1) % size;
      var init, e := q[..|q| - 1], q[|q| - 1];
      var u := TurnedEntry(e, size);
      TurnedNames(init, size, index, j);
      TurnedPlace(e, size, index);
      Snoc(Turned(init, size), u);
      Snoc(OnSpoke(Turned(init, size), size, c, j), u);
      Snoc(OnSpoke(init, size, index, j), e);
    }
  }

  lemma {:induction false} TurnedElsewhere<T>(q: seq<Entry<T>>, size: nat, index: nat, j: nat)
    requires size > 0 && Waiting(q) && j != (index + 1) % size
    ensures var c := (index + 1) % size;
      OnSpoke(Turned(q, size), size, c, j) == OnSpoke(Aged(q), size, c, j)
  {
    if q != [] {
      var c := (index + 1) % size;
      var init, e := q[..|q| - 1], q[|q| - 1];
      TurnedElsewhere(init, size, index, j);
      TurnedPlace(e, size, index);
      Snoc(Turned(init, size), TurnedEntry(e, size));
      SpokeKept(index, e.rem, size);
      if e.rem > 1 {
        Snoc(Aged(init), e.(rem := e.rem - 1));
      }
    }
  }

  lemma {:induction false} TurnedDue<T>(q: seq<Entry<T>>, size: nat, index: nat)
    requires size > 0 && Waiting(q)
    ensures var c := (index + 1) % size;
      OnSpoke(Turned(q, size), size, c, c) == Lifted(Due(q, size), size)
  {
    if q != [] {
      var init, e := q[..|q| - 1], q[|q| - 1];
      TurnedDue(init, size, index);
      TurnedPlace(e, size, index);
      DueSpoke(index, e.rem, size);
      Snoc(Turned(init, size), TurnedEntry(e, size));
      Snoc(Due(init, size), e);
    }
  }

  lemma {:induction false} TurnedKeeps<T>(q: seq<Entry<T>>, size: nat, t: T)
    requires size > 0 && Waiting(q)
    ensures Has(Turned(q, size), t) <==> Has(q, t)
    ensures NoDup(q) ==> NoDup(Turned(q, size))
    ensures Waiting(Turned(q, size))
  {
    if q != [] {
      var init, e := q[..|q| - 1], q[|q| - 1];
      TurnedKeeps(init, size, t);
      TurnedKeeps(init, size, e.t);
      Snoc(Turned(init, size), TurnedEntry(e, size));
      TurnedPlace(e, size, 0);
    }
  }
}
