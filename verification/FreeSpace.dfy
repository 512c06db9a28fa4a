/**
 The free space between the live blocks of an arena.

 An arena is the byte range [lo, hi).  Its live blocks are kept as an address-ordered sequence.
 `Gaps` lists the maximal free ranges between them; the allocator's free list is this list.
 `IsFreeList` says the same without any recursion over the live blocks, and `FreeListUnique`
 shows that the two agree.
 */
module FreeSpace {

  datatype Block = Block(addr: int, size: nat) {
    function End(): int {
      addr + size
    }

    predicate Covers(x: int) {
      addr <= x < End()
    }
  }

  /** The blocks lie in [lo, hi) in ascending order, none empty, none overlapping. */
  ghost predicate Placed(lo: int, bs: seq<Block>, hi: int)
    decreases |bs|
  {
    if bs == [] then lo <= hi
    else lo <= bs[0].addr && bs[0].size > 0 && Placed(bs[0].End(), bs[1..], hi)
  }

  /** The blocks lie in [lo, hi) in ascending order, none empty, none touching its neighbour. */
  ghost predicate Spaced(lo: int, bs: seq<Block>, hi: int)
    decreases |bs|
  {
    bs != [] ==>
      && lo <= bs[0].addr && bs[0].size > 0 && bs[0].End() <= hi
      && Spaced(bs[0].End() + 1, bs[1..], hi)
  }

  ghost function Gap(lo: int, hi: int): seq<Block> {
    if lo < hi then [Block(lo, hi - lo)] else []
  }

  ghost function Gaps(lo: int, live: seq<Block>, hi: int): seq<Block>
    decreases |live|
  {
    if live == [] then Gap(lo, hi)
    else Gap(lo, live[0].addr) + Gaps(live[0].End(), live[1..], hi)
  }

  ghost function Total(bs: seq<Block>): nat {
    if bs == [] then 0 else bs[0].size + Total(bs[1..])
  }

  /** In how many of the blocks the byte x lies. */
  ghost function Cover(bs: seq<Block>, x: int): nat {
    if bs == [] then 0 else (if bs[0].Covers(x) then 1 else 0) + Cover(bs[1..], x)
  }

  /** What a free list of the arena has to be: spaced blocks that, together with the live
      blocks, cover every byte of the arena exactly once. */
  ghost predicate IsFreeList(lo: int, live: seq<Block>, hi: int, fl: seq<Block>) {
    && Spaced(lo, fl, hi)
    && forall x | lo <= x < hi :: Cover(live, x) + Cover(fl, x) == 1
  }

  // ---------------------------------------------------------------------------------------
  // Placement
  // ---------------------------------------------------------------------------------------

  lemma {:induction false} PlacedBounds(lo: int, bs: seq<Block>, hi: int)
    requires Placed(lo, bs, hi)
    ensures lo <= hi
    ensures bs != [] ==> bs[0].End() <= hi
    decreases |bs|
  {
    if bs != [] {
      PlacedBounds(bs[0].End(), bs[1..], hi);
    }
  }

  lemma {:induction false} PlacedOrder(lo: int, bs: seq<Block>, hi: int)
    requires Placed(lo, bs, hi)
    ensures lo <= hi
    ensures forall i | 0 <= i < |bs| :: lo <= bs[i].addr && bs[i].size > 0 && bs[i].End() <= hi
    ensures forall i, j | 0 <= i < j < |bs| :: bs[i].End() <= bs[j].addr
    decreases |bs|
  {
    if bs != [] {
      PlacedOrder(bs[0].End(), bs[1..], hi);
      assert forall i | 1 <= i < |bs| :: bs[i] == bs[1..][i - 1];
    }
  }

  lemma {:induction false} PlacedSplit(lo: int, xs: seq<Block>, b: Block, ys: seq<Block>, hi: int)
    ensures Placed(lo, xs + [b] + ys, hi)
            <==> Placed(lo, xs, b.addr) && b.size > 0 && Placed(b.End(), ys, hi)
    ensures Gaps(lo, xs + [b] + ys, hi) == Gaps(lo, xs, b.addr) + Gaps(b.End(), ys, hi)
    decreases |xs|
  {
    if xs == [] {
      assert xs + [b] + ys == [b] + ys;
    } else {
      assert (xs + [b] + ys)[1..] == xs[1..] + [b] + ys;
      PlacedSplit(xs[0].End(), xs[1..], b, ys, hi);
    }
  }

  /** Removing the held block b between xs and ys keeps the rest placed. */
  lemma {:induction false} PlacedRemove(lo: int, xs: seq<Block>, mid: int, ys: seq<Block>, hi: int)
    requires Placed(lo, xs, mid)
    requires Placed(mid, ys, hi)
    ensures Placed(lo, xs + ys, hi)
    decreases |xs|
  {
    if xs == [] {
      assert xs + ys == ys;
      PlacedWeaken(lo, mid, ys, hi);
    } else {
      assert (xs + ys)[1..] == xs[1..] + ys;
      PlacedRemove(xs[0].End(), xs[1..], mid, ys, hi);
    }
  }

  lemma PlacedWeaken(lo: int, lo': int, bs: seq<Block>, hi: int)
    requires lo <= lo' && Placed(lo', bs, hi)
    ensures Placed(lo, bs, hi)
  {
  }

  // ---------------------------------------------------------------------------------------
  // Gaps
  // ---------------------------------------------------------------------------------------

  lemma SpacedWeaken(lo: int, lo': int, bs: seq<Block>, hi: int)
    requires lo <= lo' && Spaced(lo', bs, hi)
    ensures Spaced(lo, bs, hi)
  {
  }

  lemma {:induction false} SpacedOrder(lo: int, bs: seq<Block>, hi: int)
    requires Spaced(lo, bs, hi)
    ensures forall i | 0 <= i < |bs| :: lo <= bs[i].addr && bs[i].size > 0 && bs[i].End() <= hi
    ensures forall i, j | 0 <= i < j < |bs| :: bs[i].End() < bs[j].addr
    decreases |bs|
  {
    if bs != [] {
      SpacedOrder(bs[0].End() + 1, bs[1..], hi);
      assert forall i | 1 <= i < |bs| :: bs[i] == bs[1..][i - 1];
    }
  }

  lemma {:induction false} GapsSpaced(lo: int, live: seq<Block>, hi: int)
    requires Placed(lo, live, hi)
    ensures Spaced(lo, Gaps(lo, live, hi), hi)
    decreases |live|
  {
    if live != [] {
      var b := live[0];
      var rest := Gaps(b.End(), live[1..], hi);
      PlacedOrder(lo, live, hi);
      GapsSpaced(b.End(), live[1..], hi);
      if lo < b.addr {
        assert Gaps(lo, live, hi)[1..] == rest;
        SpacedWeaken(b.addr + 1, b.End(), rest, hi);
      } else {
        assert Gaps(lo, live, hi) == rest;
      }
    }
  }

  /** Every byte of the arena is in exactly one live block or gap. */
  lemma {:induction false} GapsCover(lo: int, live: seq<Block>, hi: int, x: int)
    requires Placed(lo, live, hi)
    ensures Cover(live, x) + Cover(Gaps(lo, live, hi), x) == if lo <= x < hi then 1 else 0
    decreases |live|
  {
    if live != [] {
      var b := live[0];
      GapsCover(b.End(), live[1..], hi, x);
      PlacedBounds(b.End(), live[1..], hi);
      GapCover(lo, b.addr, x);
      CoverConcat(Gap(lo, b.addr), Gaps(b.End(), live[1..], hi), x);
    } else {
      GapCover(lo, hi, x);
    }
  }

  lemma GapCover(lo: int, hi: int, x: int)
    ensures Cover(Gap(lo, hi), x) == if lo <= x < hi then 1 else 0
  {
  }

  lemma {:induction false} CoverConcat(xs: seq<Block>, ys: seq<Block>, x: int)
    ensures Cover(xs + ys, x) == Cover(xs, x) + Cover(ys, x)
  {
    if xs == [] {
      assert xs + ys == ys;
    } else {
      assert (xs + ys)[1..] == xs[1..] + ys;
      CoverConcat(xs[1..], ys, x);
    }
  }

  lemma {:induction false} CoverOutside(lo: int, bs: seq<Block>, hi: int, x: int)
    requires Spaced(lo, bs, hi)
    requires x < lo || x >= hi
    ensures Cover(bs, x) == 0
    decreases |bs|
  {
    if bs != [] {
      CoverOutside(bs[0].End() + 1, bs[1..], hi, x);
    }
  }

  /** Two spaced lists over the same bytes are the same list. */
  lemma {:induction false} SpacedUnique(lo: int, f: seq<Block>, g: seq<Block>, hi: int)
    requires Spaced(lo, f, hi) && Spaced(lo, g, hi)
    requires forall x | lo <= x < hi :: Cover(f, x) == Cover(g, x)
    ensures f == g
    decreases |f|
  {
    if f != [] {
      assert Cover(f, f[0].addr) == Cover(g, f[0].addr);
    }
    if g != [] {
      assert Cover(f, g[0].addr) == Cover(g, g[0].addr);
    }
    if f != [] && g != [] {
      FirstByte(lo, f, g, hi);
      FirstByte(lo, g, f, hi);
      assert f[0].addr == g[0].addr;
      FirstEnd(lo, f, g, hi);
      FirstEnd(lo, g, f, hi);
      assert f[0] == g[0];
      forall x | f[0].End() + 1 <= x < hi ensures Cover(f[1..], x) == Cover(g[1..], x) {
        assert Cover(f, x) == Cover(g, x);
      }
      SpacedUnique(f[0].End() + 1, f[1..], g[1..], hi);
      assert f == [f[0]] + f[1..] && g == [g[0]] + g[1..];
    }
  }

  lemma FirstByte(lo: int, f: seq<Block>, g: seq<Block>, hi: int)
    requires Spaced(lo, f, hi) && Spaced(lo, g, hi) && f != [] && g != []
    requires forall x | lo <= x < hi :: Cover(f, x) == Cover(g, x)
    ensures g[0].addr <= f[0].addr
  {
    if f[0].addr < g[0].addr {
      var x := f[0].addr;
      assert Cover(f, x) == Cover(g, x);
      CoverOutside(g[0].End() + 1, g[1..], hi, x);
      assert false;
    }
  }

  lemma FirstEnd(lo: int, f: seq<Block>, g: seq<Block>, hi: int)
    requires Spaced(lo, f, hi) && Spaced(lo, g, hi) && f != [] && g != []
    requires f[0].addr == g[0].addr
    requires forall x | lo <= x < hi :: Cover(f, x) == Cover(g, x)
    ensures f[0].End() >= g[0].End()
  {
    if f[0].End() < g[0].End() {
      var x := f[0].End();
      assert Cover(f, x) == Cover(g, x);
      CoverOutside(f[0].End() + 1, f[1..], hi, x);
      assert false;
    }
  }

  /** The gaps are the one and only free list. */
  lemma {:induction false} FreeListUnique(lo: int, live: seq<Block>, hi: int, fl: seq<Block>)
    requires Placed(lo, live, hi)
    ensures IsFreeList(lo, live, hi, fl) <==> fl == Gaps(lo, live, hi)
  {
    var gs := Gaps(lo, live, hi);
    GapsSpaced(lo, live, hi);
    forall x ensures Cover(live, x) + Cover(gs, x) == if lo <= x < hi then 1 else 0 {
      GapsCover(lo, live, hi, x);
    }
    if IsFreeList(lo, live, hi, fl) {
      forall x | lo <= x < hi ensures Cover(fl, x) == Cover(gs, x) {
      }
      SpacedUnique(lo, fl, gs, hi);
    }
  }

  // ---------------------------------------------------------------------------------------
  // Byte counts
  // ---------------------------------------------------------------------------------------

  lemma {:induction false} TotalConcat(xs: seq<Block>, ys: seq<Block>)
    ensures Total(xs + ys) == Total(xs) + Total(ys)
  {
    if xs == [] {
      assert xs + ys == ys;
    } else {
      assert (xs + ys)[1..] == xs[1..] + ys;
      TotalConcat(xs[1..], ys);
    }
  }

  lemma {:induction false} GapsTotal(lo: int, live: seq<Block>, hi: int)
    requires Placed(lo, live, hi)
    ensures Total(live) + Total(Gaps(lo, live, hi)) == hi - lo
    decreases |live|
  {
    if live != [] {
      PlacedOrder(lo, live, hi);
      GapsTotal(live[0].End(), live[1..], hi);
      TotalConcat(Gap(lo, live[0].addr), Gaps(live[0].End(), live[1..], hi));
    }
  }

  lemma {:induction false} TotalAtLeast(bs: seq<Block>, k: nat)
    requires k < |bs|
    ensures bs[k].size <= Total(bs)
  {
    if k > 0 {
      TotalAtLeast(bs[1..], k - 1);
    }
  }

  // ---------------------------------------------------------------------------------------
  // Giving a block back: it fuses with the gap before it and the gap after it
  // ---------------------------------------------------------------------------------------

  ghost predicate TouchesLeft(a: seq<Block>, addr: int) {
    a != [] && a[|a| - 1].End() == addr
  }

  ghost predicate TouchesRight(end: int, b: seq<Block>) {
    b != [] && b[0].addr == end
  }

  /** The free list `a` before the block, the block, and the free list `b` after it, with the
      block fused to whichever neighbours it touches. */
  ghost function Fuse(a: seq<Block>, m: Block, b: seq<Block>): seq<Block> {
    var left := TouchesLeft(a, m.addr);
    var right := TouchesRight(m.End(), b);
    var start := if left then a[|a| - 1].addr else m.addr;
    var end := if right then b[0].End() else m.End();
    if start <= end then
      (if left then a[..|a| - 1] else a) + [Block(start, end - start)] + (if right then b[1..] else b)
    else a + [m] + b
  }

  /** The block in which m ends up, and what follows it. */
  ghost function FusedBlock(a: seq<Block>, m: Block, c: seq<Block>): Block {
    var x := if TouchesLeft(a, m.addr) then Block(a[|a| - 1].addr, a[|a| - 1].size + m.size) else m;
    if TouchesRight(m.End(), c) then Block(x.addr, x.size + c[0].size) else x
  }

  ghost function FusedTail(m: Block, c: seq<Block>): seq<Block> {
    if TouchesRight(m.End(), c) then c[1..] else c
  }

  lemma FuseParts(a: seq<Block>, m: Block, c: seq<Block>)
    requires m.size > 0
    ensures Fuse(a, m, c) ==
      (if TouchesLeft(a, m.addr) then a[..|a| - 1] else a) + ([FusedBlock(a, m, c)] + FusedTail(m, c))
    ensures a == [] ==> Fuse(a, m, c) == [FusedBlock(a, m, c)] + FusedTail(m, c)
  {
  }

  lemma {:induction false} FuseGaps(lo: int, xs: seq<Block>, m: Block, ys: seq<Block>, hi: int)
    requires Placed(lo, xs, m.addr) && m.size > 0 && Placed(m.End(), ys, hi)
    ensures Gaps(lo, xs + ys, hi) == Fuse(Gaps(lo, xs, m.addr), m, Gaps(m.End(), ys, hi))
    decreases |xs|
  {
    var a, b := Gaps(lo, xs, m.addr), Gaps(m.End(), ys, hi);
    if xs == [] {
      assert xs + ys == ys;
      FuseFirst(lo, m, ys, hi);
    } else {
      var x := xs[0];
      assert (xs + ys)[1..] == xs[1..] + ys;
      FuseGaps(x.End(), xs[1..], m, ys, hi);
      var a' := Gaps(x.End(), xs[1..], m.addr);
      PlacedOrder(lo, xs, m.addr);
      assert a == Gap(lo, x.addr) + a';
      if a' == [] {
        assert a == Gap(lo, x.addr);
        assert !TouchesLeft(a, m.addr);
      }
      GapsSpaced(x.End(), xs[1..], m.addr);
      SpacedOrder(x.End(), a', m.addr);
      FusePrefix(Gap(lo, x.addr), a', m, b);
    }
  }

  lemma {:induction false} FuseFirst(lo: int, m: Block, ys: seq<Block>, hi: int)
    requires lo <= m.addr && m.size > 0 && Placed(m.End(), ys, hi)
    ensures Gaps(lo, ys, hi) == Fuse(Gap(lo, m.addr), m, Gaps(m.End(), ys, hi))
  {
    PlacedOrder(m.End(), ys, hi);
    if ys != [] {
      var y := ys[0];
      var b' := Gaps(y.End(), ys[1..], hi);
      PlacedOrder(y.End(), ys[1..], hi);
      GapsSpaced(y.End(), ys[1..], hi);
    }
  }

  lemma FusePrefix(p: seq<Block>, a: seq<Block>, m: Block, b: seq<Block>)
    requires a == [] ==> !TouchesLeft(p, m.addr)
    requires forall i | 0 <= i < |a| :: a[i].addr <= m.addr
    ensures Fuse(p + a, m, b) == p + Fuse(a, m, b)
  {
  }
}
