/**
 The allocator seen from outside: which blocks are live, and the low-water mark.

 The free list is not part of the state: it is `Gaps` of the live blocks.  `BaseMem.Heap`
 refines the two operations here; the theorems at the end are about every run of them.
 */
module PoolModel {
  import opened FreeSpace

  const NULL: int := 0
  const ALLOCATED_BIT: nat := 0x8000_0000
  const MIN_MEM_SIZE: nat := 128
  const BYTE_ALIGNMENT: nat := 8

  /** `lo` is the aligned start of the pool, `hi` the address of the end marker, `hdr` the
      size of a header and `low` the least number of free bytes so far. */
  datatype Pool = Pool(lo: int, hi: int, hdr: nat, live: seq<Block>, low: nat) {
    ghost function FreeList(): seq<Block> {
      Gaps(lo, live, hi)
    }

    ghost function FreeBytes(): nat {
      Total(FreeList())
    }

    ghost predicate Valid() {
      && 0 < lo < hi && hi - lo < ALLOCATED_BIT
      && lo % BYTE_ALIGNMENT == 0 && hi % BYTE_ALIGNMENT == 0
      && 0 < hdr <= MIN_MEM_SIZE && hdr % BYTE_ALIGNMENT == 0
      && Placed(lo, live, hi)
      && Sound(live) && Sound(FreeList())
      && low <= FreeBytes()
    }

    /** The addresses handed to clients. */
    ghost predicate IsPayload(p: int) {
      exists b | b in live :: b.addr + hdr == p
    }
  }

  /** Every block is at least the minimum size and 8-aligned. */
  ghost predicate Sound(bs: seq<Block>) {
    bs == [] || (SoundBlock(bs[0]) && Sound(bs[1..]))
  }

  predicate SoundBlock(b: Block) {
    b.size >= MIN_MEM_SIZE && b.size % BYTE_ALIGNMENT == 0 && b.addr % BYTE_ALIGNMENT == 0
  }

  // ---------------------------------------------------------------------------------------
  // The two operations
  // ---------------------------------------------------------------------------------------

  /** The least multiple of the minimum size that holds n bytes and a header. */
  function Rounded(n: nat, hdr: nat): nat {
    (n + hdr + MIN_MEM_SIZE - 1) / MIN_MEM_SIZE * MIN_MEM_SIZE
  }

  lemma RoundedBounds(n: nat, hdr: nat)
    ensures n + hdr <= Rounded(n, hdr) < n + hdr + MIN_MEM_SIZE
    ensures Rounded(n, hdr) % MIN_MEM_SIZE == 0 && Rounded(n, hdr) % BYTE_ALIGNMENT == 0
  {
  }

  ghost function FirstFit(fl: seq<Block>, need: nat): (k: nat)
    ensures k <= |fl|
    ensures k < |fl| ==> fl[k].size >= need
    ensures forall i | 0 <= i < k :: fl[i].size < need
  {
    if fl == [] || fl[0].size >= need then 0 else 1 + FirstFit(fl[1..], need)
  }

  ghost function Place(live: seq<Block>, b: Block): seq<Block> {
    if live == [] || b.addr < live[0].addr then [b] + live
    else [live[0]] + Place(live[1..], b)
  }

  ghost function Drop(live: seq<Block>, addr: int): seq<Block> {
    if live == [] then []
    else if live[0].addr == addr then live[1..]
    else [live[0]] + Drop(live[1..], addr)
  }

  /** How much of a free block of `size` bytes a request for `need` takes. */
  function Granted(size: nat, need: nat): nat
    requires need <= size
  {
    if size - need > MIN_MEM_SIZE then need else size
  }

  ghost predicate Satisfiable(s: Pool, n: nat) {
    0 < n < ALLOCATED_BIT && exists g | g in s.FreeList() :: g.size >= Rounded(n, s.hdr)
  }

  ghost function Min(a: nat, b: nat): nat {
    if a < b then a else b
  }

  /** The front part of free block k that a request for `need` takes. */
  ghost function Taken(s: Pool, k: nat, need: nat): Block
    requires k < |s.FreeList()| && need <= s.FreeList()[k].size
  {
    var g := s.FreeList()[k];
    Block(g.addr, Granted(g.size, need))
  }

  ghost function Take(s: Pool, b: Block): Pool {
    var t := s.(live := Place(s.live, b));
    t.(low := Min(s.low, t.FreeBytes()))
  }

  ghost function Malloc(s: Pool, n: nat): (Pool, int) {
    var need := Rounded(n, s.hdr);
    var k := FirstFit(s.FreeList(), need);
    if n == 0 || n >= ALLOCATED_BIT || k == |s.FreeList()| then (s, NULL)
    else (Take(s, Taken(s, k, need)), Taken(s, k, need).addr + s.hdr)
  }

  ghost function Free(s: Pool, p: int): Pool {
    if p != NULL && s.IsPayload(p) then s.(live := Drop(s.live, p - s.hdr)) else s
  }

  // ---------------------------------------------------------------------------------------
  // Where the blocks are
  // ---------------------------------------------------------------------------------------

  lemma GapsNil(lo: int, hi: int)
    ensures Gaps(lo, [], hi) == Gap(lo, hi) && (Placed(lo, [], hi) <==> lo <= hi)
  {
  }

  lemma GapsCons(lo: int, b: Block, rest: seq<Block>, hi: int)
    ensures Gaps(lo, [b] + rest, hi) == Gap(lo, b.addr) + Gaps(b.End(), rest, hi)
    ensures Placed(lo, [b] + rest, hi) <==> lo <= b.addr && b.size > 0 && Placed(b.End(), rest, hi)
  {
    assert ([b] + rest)[1..] == rest;
  }

  /** A gap splits the live blocks into those before it and those after it. */
  lemma {:induction false} GapSplit(lo: int, live: seq<Block>, hi: int, k: nat)
      returns (xs: seq<Block>, ys: seq<Block>)
    requires Placed(lo, live, hi) && k < |Gaps(lo, live, hi)|
    ensures live == xs + ys
    ensures var fl := Gaps(lo, live, hi);
      && Placed(lo, xs, fl[k].addr) && fl[k].size > 0 && Placed(fl[k].End(), ys, hi)
      && Gaps(lo, xs, fl[k].addr) == fl[..k] && Gaps(fl[k].End(), ys, hi) == fl[k + 1..]
      && (if ys == [] then hi else ys[0].addr) == fl[k].End()
    decreases |live|
  {
    hide Gaps, Placed;
    GapsNil(lo, lo);
    GapsNil(lo, hi);
    GapsNil(hi, hi);
    if live == [] {
      xs, ys := [], [];
    } else {
      var b, g := live[0], Gap(lo, live[0].addr);
      assert live == [b] + live[1..];
      GapsCons(lo, b, live[1..], hi);
      var rest := Gaps(b.End(), live[1..], hi);
      if k < |g| {
        xs, ys := [], live;
        GapsCons(b.addr, b, live[1..], hi);
        assert Gaps(lo, live, hi)[1..] == rest && [] + rest == rest;
      } else {
        var k' := k - |g|;
        var xs', ys' := GapSplit(b.End(), live[1..], hi, k');
        xs, ys := [b] + xs', ys';
        Regroup(live, xs', ys');
        DropPrefix(g, rest, k');
        GapsCons(lo, b, xs', rest[k'].addr);
      }
    }
  }

  lemma Regroup(live: seq<Block>, xs: seq<Block>, ys: seq<Block>)
    requires live != [] && live[1..] == xs + ys
    ensures live == [live[0]] + xs + ys
  {
  }

  lemma DropPrefix(g: seq<Block>, rest: seq<Block>, k: nat)
    requires k < |rest|
    ensures (g + rest)[|g| + k] == rest[k]
    ensures (g + rest)[..|g| + k] == g + rest[..k] && (g + rest)[|g| + k + 1..] == rest[k + 1..]
  {
  }

  lemma {:induction false} PlaceBetween(lo: int, xs: seq<Block>, b: Block, ys: seq<Block>, hi: int)
    requires Placed(lo, xs, b.addr) && b.size > 0 && Placed(b.End(), ys, hi)
    ensures Place(xs + ys, b) == xs + [b] + ys
    decreases |xs|
  {
    if xs == [] {
      PlacedBounds(b.End(), ys, hi);
      assert xs + ys == ys;
    } else {
      PlacedBounds(lo, xs, b.addr);
      assert (xs + ys)[1..] == xs[1..] + ys;
      PlaceBetween(xs[0].End(), xs[1..], b, ys, hi);
      assert xs + [b] + ys == [xs[0]] + (xs[1..] + [b] + ys);
    }
  }

  lemma {:induction false} DropBetween(lo: int, xs: seq<Block>, b: Block, ys: seq<Block>)
    requires Placed(lo, xs, b.addr)
    ensures Drop(xs + [b] + ys, b.addr) == xs + ys
    decreases |xs|
  {
    if xs == [] {
      assert xs + [b] + ys == [b] + ys && xs + ys == ys;
    } else {
      PlacedBounds(lo, xs, b.addr);
      assert (xs + [b] + ys)[1..] == xs[1..] + [b] + ys;
      DropBetween(xs[0].End(), xs[1..], b, ys);
      assert xs + ys == [xs[0]] + (xs[1..] + ys);
    }
  }

  /** A live block splits the others into those before it and those after it. */
  lemma LiveSplit(s: Pool, b: Block) returns (xs: seq<Block>, ys: seq<Block>)
    requires Placed(s.lo, s.live, s.hi) && b in s.live
    ensures s.live == xs + [b] + ys
    ensures Placed(s.lo, xs, b.addr) && b.size > 0 && Placed(b.End(), ys, s.hi)
    ensures Drop(s.live, b.addr) == xs + ys
    ensures s.FreeList() == Gaps(s.lo, xs, b.addr) + Gaps(b.End(), ys, s.hi)
  {
    var i :| 0 <= i < |s.live| && s.live[i] == b;
    xs, ys := s.live[..i], s.live[i + 1..];
    assert s.live == xs + [b] + ys;
    PlacedSplit(s.lo, xs, b, ys, s.hi);
    DropBetween(s.lo, xs, b, ys);
  }

  // ---------------------------------------------------------------------------------------
  // What malloc does
  // ---------------------------------------------------------------------------------------

  /** The shape of the pool around a taken block: the free block at k is taken whole, or its
      front part is taken and the remainder stays in its place in the free list. */
  lemma TakeShape(s: Pool, k: nat, need: nat) returns (xs: seq<Block>, ys: seq<Block>)
    requires s.Valid() && k < |s.FreeList()| && 0 < need <= s.FreeList()[k].size
    ensures var fl := s.FreeList(); var b := Taken(s, k, need); var t := Take(s, b);
      && s.live == xs + ys && t.live == xs + [b] + ys
      && Placed(s.lo, xs, b.addr) && 0 < b.size <= fl[k].size && Placed(b.End(), ys, s.hi)
      && Placed(s.lo, t.live, s.hi)
      && Drop(t.live, b.addr) == s.live
      && t.FreeList() == fl[..k] + Gap(b.End(), fl[k].End()) + fl[k + 1..]
  {
    var fl := s.FreeList();
    xs, ys := GapSplit(s.lo, s.live, s.hi, k);
    var b := Taken(s, k, need);
    GrantShape(s.lo, xs, fl[k], b.size, ys, s.hi);
    var rem := Gap(b.End(), fl[k].End());
    assert (fl[..k] + rem) + fl[k + 1..] == fl[..k] + (rem + fl[k + 1..]);
  }

  lemma GrantShape(lo: int, xs: seq<Block>, g: Block, size: nat, ys: seq<Block>, hi: int)
    requires Placed(lo, xs, g.addr) && 0 < size <= g.size && Placed(g.End(), ys, hi)
    requires (if ys == [] then hi else ys[0].addr) == g.End()
    ensures var b := Block(g.addr, size);
      && Placed(b.End(), ys, hi)
      && Place(xs + ys, b) == xs + [b] + ys
      && Drop(xs + [b] + ys, b.addr) == xs + ys
      && Placed(lo, xs + [b] + ys, hi)
      && Gaps(lo, xs + [b] + ys, hi) ==
           Gaps(lo, xs, g.addr) + (Gap(b.End(), g.End()) + Gaps(g.End(), ys, hi))
  {
    var b := Block(g.addr, size);
    PlacedWeaken(b.End(), g.End(), ys, hi);
    PlaceBetween(lo, xs, b, ys, hi);
    DropBetween(lo, xs, b, ys);
    PlacedSplit(lo, xs, b, ys, hi);
    GapsFrom(b.End(), g.End(), ys, hi);
  }

  /** Moving the lower end down to `lo` prepends the bytes gained. */
  lemma GapsFrom(lo: int, lo': int, ys: seq<Block>, hi: int)
    requires lo <= lo' && Placed(lo', ys, hi)
    requires (if ys == [] then hi else ys[0].addr) == lo'
    ensures Gaps(lo, ys, hi) == Gap(lo, lo') + Gaps(lo', ys, hi)
  {
  }

  lemma {:induction false} SoundConcat(xs: seq<Block>, ys: seq<Block>)
    ensures Sound(xs + ys) <==> Sound(xs) && Sound(ys)
  {
    if xs == [] {
      assert xs + ys == ys;
    } else {
      assert (xs + ys)[1..] == xs[1..] + ys;
      SoundConcat(xs[1..], ys);
    }
  }

  lemma {:induction false} SoundAt(bs: seq<Block>, k: nat)
    requires Sound(bs) && k < |bs|
    ensures SoundBlock(bs[k])
  {
    if k > 0 {
      SoundAt(bs[1..], k - 1);
    }
  }

  lemma TakeValid(s: Pool, k: nat, need: nat)
    requires s.Valid() && k < |s.FreeList()| && MIN_MEM_SIZE <= need <= s.FreeList()[k].size
    requires need % BYTE_ALIGNMENT == 0
    ensures Take(s, Taken(s, k, need)).Valid()
  {
    TakeSoundLive(s, k, need);
    TakeSoundFree(s, k, need);
    var xs, ys := TakeShape(s, k, need);
  }

  lemma TakeSoundLive(s: Pool, k: nat, need: nat)
    requires s.Valid() && k < |s.FreeList()| && MIN_MEM_SIZE <= need <= s.FreeList()[k].size
    requires need % BYTE_ALIGNMENT == 0
    ensures Sound(Take(s, Taken(s, k, need)).live)
  {
    var xs, ys := TakeShape(s, k, need);
    SoundAt(s.FreeList(), k);
    SoundConcat(xs, ys);
    SoundThree(xs, Taken(s, k, need), ys);
  }

  lemma TakeSoundFree(s: Pool, k: nat, need: nat)
    requires s.Valid() && k < |s.FreeList()| && MIN_MEM_SIZE <= need <= s.FreeList()[k].size
    requires need % BYTE_ALIGNMENT == 0
    ensures Sound(Take(s, Taken(s, k, need)).FreeList())
  {
    var xs, ys := TakeShape(s, k, need);
    SoundAt(s.FreeList(), k);
    SurplusSound(s.FreeList()[k], need);
    SoundReplace(s.FreeList(), k, Gap(Taken(s, k, need).End(), s.FreeList()[k].End()));
  }

  lemma SurplusSound(g: Block, need: nat)
    requires SoundBlock(g) && need <= g.size && need % BYTE_ALIGNMENT == 0
    ensures Sound(Gap(g.addr + Granted(g.size, need), g.End()))
  {
  }

  lemma SoundReplace(fl: seq<Block>, k: nat, rem: seq<Block>)
    requires Sound(fl) && k < |fl| && Sound(rem)
    ensures Sound(fl[..k] + rem + fl[k + 1..])
  {
    assert fl == fl[..k] + [fl[k]] + fl[k + 1..];
    SoundThree(fl[..k], fl[k], fl[k + 1..]);
    SoundConcat(fl[..k], rem);
    SoundConcat(fl[..k] + rem, fl[k + 1..]);
  }

  lemma MallocValid(s: Pool, n: nat)
    requires s.Valid()
    ensures Malloc(s, n).0.Valid()
  {
    var need := Rounded(n, s.hdr);
    RoundedBounds(n, s.hdr);
    var k := FirstFit(s.FreeList(), need);
    if 0 < n < ALLOCATED_BIT && k < |s.FreeList()| {
      TakeValid(s, k, need);
    }
  }

  lemma FreeShape(s: Pool, b: Block) returns (xs: seq<Block>, ys: seq<Block>)
    requires s.Valid() && b in s.live
    ensures s.live == xs + [b] + ys
    ensures Free(s, b.addr + s.hdr).live == xs + ys && Placed(s.lo, xs + ys, s.hi)
    ensures Placed(s.lo, xs, b.addr) && b.size > 0 && Placed(b.End(), ys, s.hi)
    ensures s.FreeList() == Gaps(s.lo, xs, b.addr) + Gaps(b.End(), ys, s.hi)
    ensures Free(s, b.addr + s.hdr).FreeList()
         == Fuse(Gaps(s.lo, xs, b.addr), b, Gaps(b.End(), ys, s.hi))
  {
    xs, ys := LiveSplit(s, b);
    FreeIsDrop(s, b);
    FuseGaps(s.lo, xs, b, ys, s.hi);
    PlacedWeaken(b.addr, b.End(), ys, s.hi);
    PlacedRemove(s.lo, xs, b.addr, ys, s.hi);
  }

  lemma FreeIsDrop(s: Pool, b: Block)
    requires s.Valid() && b in s.live
    ensures Free(s, b.addr + s.hdr) == s.(live := Drop(s.live, b.addr))
  {
    PlacedOrder(s.lo, s.live, s.hi);
    assert s.IsPayload(b.addr + s.hdr);
  }

  lemma JoinSound(a: Block, b: Block)
    requires SoundBlock(a) && SoundBlock(b)
    ensures SoundBlock(Block(a.addr, a.size + b.size))
  {
  }

  lemma SoundFirst(bs: seq<Block>)
    requires Sound(bs) && bs != []
    ensures SoundBlock(bs[0]) && Sound(bs[1..])
  {
  }

  lemma SoundLast(bs: seq<Block>)
    requires Sound(bs) && bs != []
    ensures SoundBlock(bs[|bs| - 1]) && Sound(bs[..|bs| - 1])
  {
    var n := |bs| - 1;
    assert bs == bs[..n] + [bs[n]] && [bs[n]][1..] == [];
    SoundConcat(bs[..n], [bs[n]]);
  }

  lemma FuseSound(a: seq<Block>, m: Block, b: seq<Block>)
    requires Sound(a) && SoundBlock(m) && Sound(b)
    ensures Sound(Fuse(a, m, b))
  {
    hide Sound, Fuse;
    var a', x := a, m;
    if TouchesLeft(a, m.addr) {
      SoundLast(a);
      JoinSound(a[|a| - 1], m);
      a', x := a[..|a| - 1], Block(a[|a| - 1].addr, a[|a| - 1].size + m.size);
    }
    if TouchesRight(m.End(), b) {
      SoundFirst(b);
      JoinSound(x, b[0]);
      x := Block(x.addr, x.size + b[0].size);
    }
    FuseParts(a, m, b);
    SoundThree(a', x, FusedTail(m, b));
    assert a' + [x] + FusedTail(m, b) == a' + ([x] + FusedTail(m, b));
  }

  lemma SoundThree(a: seq<Block>, m: Block, b: seq<Block>)
    ensures Sound(a + [m] + b) <==> Sound(a) && SoundBlock(m) && Sound(b)
  {
    SoundConcat(a, [m]);
    SoundConcat(a + [m], b);
    assert [m][1..] == [];
  }

  lemma FreeBytesGrow(s: Pool, b: Block)
    requires s.Valid() && b in s.live
    ensures Free(s, b.addr + s.hdr).FreeBytes() == s.FreeBytes() + b.size
  {
    var xs, ys := FreeShape(s, b);
    Conservation(s);
    Conservation(Free(s, b.addr + s.hdr));
    TotalConcat(xs, [b]);
    TotalConcat(xs + [b], ys);
    TotalConcat(xs, ys);
  }

  lemma FreeSound(s: Pool, b: Block)
    requires s.Valid() && b in s.live
    ensures var t := Free(s, b.addr + s.hdr); Sound(t.live) && Sound(t.FreeList())
  {
    var xs, ys := FreeShape(s, b);
    var a, c := Gaps(s.lo, xs, b.addr), Gaps(b.End(), ys, s.hi);
    SoundThree(xs, b, ys);
    SoundConcat(xs, ys);
    SoundConcat(a, c);
    FuseSound(a, b, c);
  }

  lemma FreeLiveValid(s: Pool, b: Block)
    requires s.Valid() && b in s.live
    ensures Free(s, b.addr + s.hdr).Valid()
  {
    FreeSound(s, b);
    FreeBytesGrow(s, b);
    var xs, ys := FreeShape(s, b);
  }

  lemma FreeValid(s: Pool, p: int)
    requires s.Valid()
    ensures Free(s, p).Valid()
    ensures Free(s, p).FreeBytes() >= s.FreeBytes()
  {
    if p != NULL && s.IsPayload(p) {
      var b :| b in s.live && b.addr + s.hdr == p;
      FreeLiveValid(s, b);
      FreeBytesGrow(s, b);
    }
  }

  // ---------------------------------------------------------------------------------------
  // What one state guarantees
  // ---------------------------------------------------------------------------------------

  /** Free bytes and live bytes together are always the whole arena. */
  lemma Conservation(s: Pool)
    requires Placed(s.lo, s.live, s.hi)
    ensures s.FreeBytes() + Total(s.live) == s.hi - s.lo
  {
    GapsTotal(s.lo, s.live, s.hi);
  }

  /** Live blocks and free blocks tile the arena, the free list ascends and no two of its
      blocks touch; no other list does that. */
  lemma Tiling(s: Pool, fl: seq<Block>)
    requires s.Valid()
    ensures IsFreeList(s.lo, s.live, s.hi, fl) <==> fl == s.FreeList()
  {
    FreeListUnique(s.lo, s.live, s.hi, fl);
  }

  /** The bytes a client may use. */
  predicate InPayload(s: Pool, b: Block, x: int) {
    b.addr + s.hdr <= x < b.End()
  }

  /** The bytes the allocator writes for a header at `a`. */
  predicate InHeader(s: Pool, a: int, x: int) {
    a <= x < a + s.hdr
  }

  lemma PayloadsDisjoint(s: Pool, b: Block, c: Block, x: int)
    requires s.Valid() && b in s.live && c in s.live && InPayload(s, b, x) && InPayload(s, c, x)
    ensures b == c
  {
    var i :| 0 <= i < |s.live| && s.live[i] == b;
    var j :| 0 <= j < |s.live| && s.live[j] == c;
    PlacedOrder(s.lo, s.live, s.hi);
  }

  /** No header of a live block, of a free block or of the end marker reaches into a payload. */
  lemma HeadersClearOfPayloads(s: Pool, b: Block, h: Block, x: int)
    requires s.Valid() && b in s.live && InPayload(s, b, x)
    requires h in s.live || h in s.FreeList() || h == Block(s.hi, 0)
    ensures !InHeader(s, h.addr, x)
  {
    var i :| 0 <= i < |s.live| && s.live[i] == b;
    PlacedOrder(s.lo, s.live, s.hi);
    if h in s.live {
      var j :| 0 <= j < |s.live| && s.live[j] == h;
    } else if h in s.FreeList() && InHeader(s, h.addr, x) {
      var j :| 0 <= j < |s.FreeList()| && s.FreeList()[j] == h;
      SoundAt(s.FreeList(), j);
      GapsCover(s.lo, s.live, s.hi, x);
      MemberCovers(s.live, b, x);
      MemberCovers(s.FreeList(), h, x);
      assert false;
    }
  }

  lemma {:induction false} MemberCovers(bs: seq<Block>, b: Block, x: int)
    requires b in bs && b.Covers(x)
    ensures Cover(bs, x) >= 1
  {
    if bs[0] != b {
      MemberCovers(bs[1..], b, x);
    }
  }

  // ---------------------------------------------------------------------------------------
  // What one call guarantees
  // ---------------------------------------------------------------------------------------

  /** malloc refuses a request exactly when no single free block can hold it, although the
      code first compares the request with the free-byte counter. */
  lemma MallocRefuses(s: Pool, n: nat)
    requires s.Valid()
    ensures Malloc(s, n).1 == NULL <==> !Satisfiable(s, n)
    ensures Malloc(s, n).1 == NULL ==> Malloc(s, n).0 == s
    ensures Satisfiable(s, n) ==> Rounded(n, s.hdr) <= s.FreeBytes()
  {
    hide Gaps, Sound, Placed, Rounded, Place, Take, Spaced, Total;
    var fl := s.FreeList();
    var need := Rounded(n, s.hdr);
    var k := FirstFit(fl, need);
    if k < |fl| {
      assert fl[k] in fl;
      GapsSpaced(s.lo, s.live, s.hi);
      SpacedOrder(s.lo, fl, s.hi);
      TotalAtLeast(fl, k);
    }
  }

  lemma GrantedBounds(n: nat, hdr: nat, size: nat)
    requires Rounded(n, hdr) <= size
    ensures n + hdr <= Granted(size, Rounded(n, hdr)) <= n + hdr + 255
  {
  }

  lemma InMiddle(xs: seq<Block>, b: Block, ys: seq<Block>, c: Block)
    ensures c in xs + [b] + ys <==> c in xs + ys || c == b
  {
  }

  lemma MallocIsTake(s: Pool, n: nat) returns (k: nat, b: Block)
    requires s.Valid() && Satisfiable(s, n)
    ensures k < |s.FreeList()| && Rounded(n, s.hdr) <= s.FreeList()[k].size
    ensures b == Taken(s, k, Rounded(n, s.hdr))
    ensures Malloc(s, n) == (Take(s, b), b.addr + s.hdr)
  {
    hide Place, Gaps, Sound, Placed, FirstFit, Rounded, Take;
    k := FirstFit(s.FreeList(), Rounded(n, s.hdr));
    var g :| g in s.FreeList() && g.size >= Rounded(n, s.hdr);
    b := Taken(s, k, Rounded(n, s.hdr));
  }

  lemma TakenFits(s: Pool, k: nat, n: nat)
    requires s.Valid() && k < |s.FreeList()| && Rounded(n, s.hdr) <= s.FreeList()[k].size
    ensures var b := Taken(s, k, Rounded(n, s.hdr));
      (b.addr + s.hdr) % BYTE_ALIGNMENT == 0 && n + s.hdr <= b.size <= n + s.hdr + 255
  {
    GrantedBounds(n, s.hdr, s.FreeList()[k].size);
    SoundAt(s.FreeList(), k);
    AlignedSum(s.FreeList()[k].addr, s.hdr);
  }

  lemma FreeUndoesTake(s: Pool, k: nat, need: nat)
    requires s.Valid() && k < |s.FreeList()| && 0 < need <= s.FreeList()[k].size
    ensures var b := Taken(s, k, need); var t := Take(s, b);
      b in t.live && Free(t, b.addr + s.hdr) == t.(live := s.live)
  {
    hide Gaps, Sound, Placed, Place, Drop, Granted;
    var b := Taken(s, k, need);
    var t := Take(s, b);
    var xs, ys := TakeShape(s, k, need);
    PlacedBounds(s.lo, xs, b.addr);
    assert t.live[|xs|] == b && t.IsPayload(b.addr + s.hdr);
  }

  /** A granted block is 8-aligned, holds the request, and exceeds request plus header by at
      most 255 bytes. */
  lemma MallocFits(s: Pool, n: nat) returns (b: Block)
    requires s.Valid() && Satisfiable(s, n)
    ensures Malloc(s, n).1 == b.addr + s.hdr && Malloc(s, n).1 % BYTE_ALIGNMENT == 0
    ensures b in Malloc(s, n).0.live
    ensures n + s.hdr <= b.size <= n + s.hdr + 255
  {
    hide Malloc, Gaps, Sound, Placed, Place, Granted;
    var k;
    k, b := MallocIsTake(s, n);
    assert Rounded(n, s.hdr) > 0 by { RoundedBounds(n, s.hdr); }
    TakenFits(s, k, n);
    FreeUndoesTake(s, k, Rounded(n, s.hdr));
  }

  /** The free block from which a request is granted is split when more than 128 bytes are left
      over, and then the request takes the least multiple of 128 bytes that holds it and a header;
      otherwise it takes the whole block. */
  lemma MallocSplits(s: Pool, n: nat) returns (g: Block, b: Block, need: nat)
    requires s.Valid() && Satisfiable(s, n)
    ensures g in s.FreeList() && b in Malloc(s, n).0.live && b.addr == g.addr == Malloc(s, n).1 - s.hdr
    ensures need % 128 == 0 && n + s.hdr <= need < n + s.hdr + 128 && need <= g.size
    ensures b.size == if g.size > need + 128 then need else g.size
  {
    hide Malloc, Gaps, Sound, Placed, Place, Rounded;
    var k;
    k, b := MallocIsTake(s, n);
    g, need := s.FreeList()[k], Rounded(n, s.hdr);
    RoundedBounds(n, s.hdr);
    FreeUndoesTake(s, k, need);
  }

  /** A request is never granted nothing, nor half of the address space. */
  lemma MallocLimits(s: Pool, n: nat)
    requires s.Valid() && Malloc(s, n).1 != 0
    ensures 0 < n < 2147483648 && Malloc(s, n).1 > s.lo
  {
    hide Gaps, Sound, Placed, Place, Rounded;
    MallocRefuses(s, n);
    var b := MallocFits(s, n);
    MallocValid(s, n);
    InArena(Malloc(s, n).0, b);
  }

  lemma InArena(s: Pool, b: Block)
    requires s.Valid() && (b in s.live || b in s.FreeList())
    ensures s.lo <= b.addr && b.End() <= s.hi
    ensures b.size >= 128 && b.size % 8 == 0 && b.addr % 8 == 0
  {
    hide Gaps, Sound, Placed, Spaced;
    PlacedOrder(s.lo, s.live, s.hi);
    GapsSpaced(s.lo, s.live, s.hi);
    SpacedOrder(s.lo, s.FreeList(), s.hi);
    if b in s.live {
      var k :| 0 <= k < |s.live| && s.live[k] == b;
      SoundAt(s.live, k);
    } else {
      var k :| 0 <= k < |s.FreeList()| && s.FreeList()[k] == b;
      SoundAt(s.FreeList(), k);
    }
  }

  lemma AlignedSum(a: int, b: int)
    requires a % BYTE_ALIGNMENT == 0 && b % BYTE_ALIGNMENT == 0
    ensures (a + b) % BYTE_ALIGNMENT == 0
  {
  }

  /** The granted block is new, and every other block keeps its place and size. */
  lemma MallocAdds(s: Pool, n: nat, c: Block) returns (b: Block)
    requires s.Valid() && Satisfiable(s, n)
    ensures Malloc(s, n).1 == b.addr + s.hdr && b !in s.live
    ensures c in Malloc(s, n).0.live <==> c in s.live || c == b
  {
    var k;
    k, b := MallocIsTake(s, n);
    assert Rounded(n, s.hdr) > 0 by { RoundedBounds(n, s.hdr); }
    var xs, ys := TakeShape(s, k, Rounded(n, s.hdr));
    InMiddle(xs, b, ys, c);
    if b in xs + ys {
      NotBetween(s.lo, xs, b, ys, s.hi, b);
    }
  }

  lemma NotBetween(lo: int, xs: seq<Block>, b: Block, ys: seq<Block>, hi: int, c: Block)
    requires Placed(lo, xs, b.addr) && b.size > 0 && Placed(b.End(), ys, hi)
    requires c in xs + ys
    ensures c.addr != b.addr
  {
    PlacedOrder(lo, xs, b.addr);
    PlacedOrder(b.End(), ys, hi);
  }

  /** The granted block starts where the lowest-addressed fitting free block did. */
  lemma MallocFirstFit(s: Pool, n: nat, g: Block)
    requires s.Valid() && Satisfiable(s, n)
    requires g in s.FreeList() && g.size >= Rounded(n, s.hdr)
    ensures Malloc(s, n).1 <= g.addr + s.hdr
    ensures exists f | f in s.FreeList() ::
      f.size >= Rounded(n, s.hdr) && Malloc(s, n).1 == f.addr + s.hdr
  {
    hide Place, Sound, Rounded, Take, Gaps, Placed, Spaced, Total;
    var fl := s.FreeList();
    var k := FirstFit(fl, Rounded(n, s.hdr));
    MallocRefuses(s, n);
    GapsSpaced(s.lo, s.live, s.hi);
    SpacedOrder(s.lo, fl, s.hi);
    var i :| 0 <= i < |fl| && fl[i] == g;
    assert fl[k] in fl;
  }

  /** Freeing what malloc just returned restores the live blocks and the free list. */
  lemma FreeUndoesMalloc(s: Pool, n: nat)
    requires s.Valid() && Satisfiable(s, n)
    ensures var (t, p) := Malloc(s, n);
      Free(t, p).live == s.live && Free(t, p).FreeList() == s.FreeList()
  {
    var k, b := MallocIsTake(s, n);
    assert Rounded(n, s.hdr) > 0 by { RoundedBounds(n, s.hdr); }
    FreeUndoesTake(s, k, Rounded(n, s.hdr));
  }

  // ---------------------------------------------------------------------------------------
  // Runs
  // ---------------------------------------------------------------------------------------

  datatype Op = OpMalloc(n: nat) | OpFree(p: int)

  ghost function Step(s: Pool, op: Op): Pool {
    match op
    case OpMalloc(n) => Malloc(s, n).0
    case OpFree(p) => Free(s, p)
  }

  ghost function Run(s: Pool, ops: seq<Op>): Pool {
    if ops == [] then s else Step(Run(s, ops[..|ops| - 1]), ops[|ops| - 1])
  }

  /** Every state of every run is sound, and the arena itself never changes. */
  lemma {:induction false} RunValid(s: Pool, ops: seq<Op>)
    requires s.Valid()
    ensures var t := Run(s, ops); t.Valid() && t.lo == s.lo && t.hi == s.hi && t.hdr == s.hdr
  {
    if ops != [] {
      var t := Run(s, ops[..|ops| - 1]);
      RunValid(s, ops[..|ops| - 1]);
      match ops[|ops| - 1]
      case OpMalloc(n) => MallocValid(t, n);
      case OpFree(p) => FreeValid(t, p);
    }
  }

  /** In every state of every run every block, live or free, lies in the arena, is aligned to 8
      bytes and has at least 128. */
  lemma RunBlocks(s: Pool, ops: seq<Op>, b: Block)
    requires s.Valid() && (b in Run(s, ops).live || b in Run(s, ops).FreeList())
    ensures s.lo <= b.addr && b.End() <= s.hi
    ensures b.size >= 128 && b.size % 8 == 0 && b.addr % 8 == 0
  {
    RunValid(s, ops);
    InArena(Run(s, ops), b);
  }

  /** A counter that follows the minimum of the values seen is the minimum of them. */
  lemma {:induction false} RunningMinimum(low: seq<nat>, free: seq<nat>, n: nat) returns (at: nat)
    requires n < |low| == |free| && low[0] == free[0]
    requires forall i | 0 <= i < |low| - 1 :: low[i + 1] == Min(low[i], free[i + 1])
    ensures forall k | 0 <= k <= n :: low[n] <= free[k]
    ensures at <= n && low[n] == free[at]
  {
    at := n;
    if n > 0 {
      var at' := RunningMinimum(low, free, n - 1);
      assert low[n - 1 + 1] == Min(low[n - 1], free[n]);
      at := if low[n] == free[n] then n else at';
    }
  }

  /** The low-water mark is the least number of free bytes over all states of the run. */
  lemma LowWaterMark(s: Pool, ops: seq<Op>) returns (at: nat)
    requires s.Valid() && s.low == s.FreeBytes()
    ensures forall k | 0 <= k <= |ops| :: Run(s, ops).low <= Run(s, ops[..k]).FreeBytes()
    ensures at <= |ops| && Run(s, ops).low == Run(s, ops[..at]).FreeBytes()
  {
    var n := |ops|;
    var low: seq<nat> := seq(n + 1, i requires 0 <= i <= n => Run(s, ops[..i]).low);
    var free: seq<nat> := seq(n + 1, i requires 0 <= i <= n => Run(s, ops[..i]).FreeBytes());
    forall i | 0 <= i < n ensures low[i + 1] == Min(low[i], free[i + 1]) {
      RunLow(s, ops, i);
    }
    at := RunningMinimum(low, free, n);
    assert ops[..n] == ops;
    forall k | 0 <= k <= n ensures Run(s, ops).low <= Run(s, ops[..k]).FreeBytes() {
      assert low[n] <= free[k];
    }
  }

  lemma RunLow(s: Pool, ops: seq<Op>, i: nat)
    requires s.Valid() && i < |ops|
    ensures Run(s, ops[..i + 1]).low == Min(Run(s, ops[..i]).low, Run(s, ops[..i + 1]).FreeBytes())
  {
    RunValid(s, ops[..i]);
    assert ops[..i + 1][..i] == ops[..i];
    LowStep(Run(s, ops[..i]), ops[i]);
  }

  lemma LowStep(s: Pool, op: Op)
    requires s.Valid()
    ensures Step(s, op).low == Min(s.low, Step(s, op).FreeBytes())
  {
    match op
    case OpMalloc(n) =>
    case OpFree(p) => FreeValid(s, p);
  }

  // ---------------------------------------------------------------------------------------
  // The free list depends on nothing but the set of live blocks
  // ---------------------------------------------------------------------------------------

  lemma {:induction false} PlacedUnique(lo: int, xs: seq<Block>, ys: seq<Block>, hi: int)
    requires Placed(lo, xs, hi) && Placed(lo, ys, hi)
    requires forall b :: b in xs <==> b in ys
    ensures xs == ys
    decreases |xs|
  {
    PlacedOrder(lo, xs, hi);
    PlacedOrder(lo, ys, hi);
    if xs != [] {
      assert xs[0] in ys;
    }
    if ys != [] {
      assert ys[0] in xs;
    }
    if xs != [] && ys != [] {
      assert xs[0] == ys[0];
      forall b ensures b in xs[1..] <==> b in ys[1..] {
        assert b in xs <==> b == xs[0] || b in xs[1..];
        assert b in ys <==> b == ys[0] || b in ys[1..];
      }
      PlacedUnique(xs[0].End(), xs[1..], ys[1..], hi);
      assert xs == [xs[0]] + xs[1..] && ys == [ys[0]] + ys[1..];
    }
  }

  /** Two runs over the same arena that leave the same blocks live leave the same free list;
      if nothing is live it is the single block the arena started with. */
  lemma FreeListCanonical(s: Pool, ops: seq<Op>, ops': seq<Op>)
    requires s.Valid()
    requires forall b :: b in Run(s, ops).live <==> b in Run(s, ops').live
    ensures Run(s, ops).live == Run(s, ops').live
    ensures Run(s, ops).FreeList() == Run(s, ops').FreeList()
    ensures Run(s, ops).live == [] ==> Run(s, ops).FreeList() == [Block(s.lo, s.hi - s.lo)]
  {
    hide Run, Sound, Placed, Gaps;
    RunValid(s, ops);
    RunValid(s, ops');
    PlacedUnique(s.lo, Run(s, ops).live, Run(s, ops').live, s.hi);
    NothingLive(s);
  }

  lemma NothingLive(s: Pool)
    requires s.Valid()
    ensures Gaps(s.lo, [], s.hi) == [Block(s.lo, s.hi - s.lo)]
  {
  }

  ghost function Frees(ps: seq<int>): seq<Op> {
    seq(|ps|, i requires 0 <= i < |ps| => OpFree(ps[i]))
  }

  /** After a series of frees exactly the blocks whose payload was not named are still live. */
  lemma {:induction false} FreesLeave(s: Pool, ps: seq<int>, b: Block)
    requires s.Valid()
    ensures b in Run(s, Frees(ps)).live <==> b in s.live && b.addr + s.hdr !in ps
    ensures Run(s, Frees(ps)).low == s.low
  {
    if ps != [] {
      var init := ps[..|ps| - 1];
      var p := ps[|ps| - 1];
      assert Frees(ps)[..|ps| - 1] == Frees(init);
      FreesLeave(s, init, b);
      RunValid(s, Frees(init));
      FreeRemoves(Run(s, Frees(init)), p, b);
      assert ps == init + [p];
    }
  }

  lemma FreeRemovesLive(s: Pool, c: Block, b: Block)
    requires s.Valid() && c in s.live
    ensures b in Free(s, c.addr + s.hdr).live <==> b in s.live && b.addr != c.addr
  {
    var xs, ys := FreeShape(s, c);
    InMiddle(xs, c, ys, b);
    if b in xs + ys {
      NotBetween(s.lo, xs, c, ys, s.hi, b);
    }
  }

  lemma FreeRemoves(s: Pool, p: int, b: Block)
    requires s.Valid()
    ensures b in Free(s, p).live <==> b in s.live && b.addr + s.hdr != p
  {
    if p != NULL && s.IsPayload(p) {
      var c :| c in s.live && c.addr + s.hdr == p;
      FreeRemovesLive(s, c, b);
    } else if b in s.live {
      var i :| 0 <= i < |s.live| && s.live[i] == b;
      PlacedOrder(s.lo, s.live, s.hi);
    }
  }

  /** Blocks may be freed in any order: the resulting pools are equal, free list included. */
  lemma FreeOrder(s: Pool, ps: seq<int>, qs: seq<int>)
    requires s.Valid()
    requires forall p :: p in ps <==> p in qs
    ensures Run(s, Frees(ps)) == Run(s, Frees(qs))
    ensures Run(s, Frees(ps)).FreeList() == Run(s, Frees(qs)).FreeList()
  {
    forall b ensures b in Run(s, Frees(ps)).live <==> b in Run(s, Frees(qs)).live {
      FreesLeave(s, ps, b);
      FreesLeave(s, qs, b);
    }
    FreesLeave(s, ps, Block(0, 0));
    FreesLeave(s, qs, Block(0, 0));
    FreeListCanonical(s, Frees(ps), Frees(qs));
    RunValid(s, Frees(ps));
    RunValid(s, Frees(qs));
  }
}
