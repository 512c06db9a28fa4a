/**
 The first-fit allocator of src/linux/base_mem.c, as the code has it: an address-ordered free
 list threaded through block headers, with the "allocated" mark in the top bit of a block's
 size.  `mem` maps an address to the header stored there; `start` stands for the list anchor,
 which lies outside the pool.

 `Abs` forgets the headers.  Every method is proved to do to `Abs` what the operation of the
 same name in `PoolModel` does.
 */
module BaseMem {
  import opened FreeSpace
  import opened PoolModel
  import opened Wrappers

  const TOTAL_MEM_SIZE: nat := 128 * 1024 * 1024

  datatype Header = Header(next: int, size: nat)

  /** The test, the setting and the clearing of the top bit of a size below 2^32. */
  predicate HasBit(x: nat) {
    x >= ALLOCATED_BIT
  }

  function SetBit(x: nat): nat {
    if HasBit(x) then x else x + ALLOCATED_BIT
  }

  function ClearBit(x: nat): nat {
    if HasBit(x) then x - ALLOCATED_BIT else x
  }

  ghost function FirstAddr(fl: seq<Block>, to: int): int {
    if fl == [] then to else fl[0].addr
  }

  /** Following the headers from `at` spells out the blocks `fl` and arrives at `to`. */
  ghost predicate Seg(mem: map<int, Header>, at: int, fl: seq<Block>, to: int)
    decreases |fl|
  {
    if fl == [] then at == to
    else
      && at == fl[0].addr && at in mem && mem[at].size == fl[0].size
      && Seg(mem, mem[at].next, fl[1..], to)
  }

  /** The list anchored at `start` is `fl`; it ends at `end`. */
  ghost predicate Linked(mem: map<int, Header>, start: int, fl: seq<Block>, end: int) {
    start in mem && mem[start].size == 0 && Seg(mem, mem[start].next, fl, end)
  }

  lemma {:induction false} SegConcat(mem: map<int, Header>, at: int, xs: seq<Block>, ys: seq<Block>, to: int)
    ensures Seg(mem, at, xs + ys, to)
            <==> Seg(mem, at, xs, FirstAddr(ys, to)) && Seg(mem, FirstAddr(ys, to), ys, to)
    decreases |xs|
  {
    if xs == [] {
      assert xs + ys == ys;
    } else {
      assert (xs + ys)[1..] == xs[1..] + ys;
      if at in mem {
        SegConcat(mem, mem[at].next, xs[1..], ys, to);
      }
    }
  }

  /** A list is not disturbed by writes outside the range in which its blocks lie. */
  lemma {:induction false} SegFrame(mem: map<int, Header>, mem': map<int, Header>, at: int, fl: seq<Block>, to: int,
                 lo: int, hi: int)
    requires Seg(mem, at, fl, to) && Spaced(lo, fl, hi)
    requires forall x | lo <= x < hi :: x in mem && x in mem' && mem'[x] == mem[x]
    ensures Seg(mem', at, fl, to)
    decreases |fl|
  {
    if fl != [] {
      SegFrame(mem, mem', mem[at].next, fl[1..], to, fl[0].End() + 1, hi);
    }
  }

  /** The headers of live blocks: not linked, and with the top bit of the size set. */
  ghost predicate Marked(mem: map<int, Header>, live: seq<Block>) {
    forall b | b in live :: b.addr in mem && mem[b.addr] == Header(NULL, b.size + ALLOCATED_BIT)
  }

  /** Only the headers at the addresses in w may differ. */
  ghost predicate Writes(mem: map<int, Header>, mem': map<int, Header>, w: set<int>) {
    mem'.Keys == mem.Keys && forall x | x in mem && x !in w :: mem'[x] == mem[x]
  }

  ghost function DetachWrites(prev: int, cur: int, size: nat, u: nat): set<int>
    requires u <= size
  {
    if size - u > MIN_MEM_SIZE then {prev, cur, cur + u} else {prev, cur}
  }

  ghost function LastAddr(start: int, a: seq<Block>): int {
    if a == [] then start else a[|a| - 1].addr
  }

  /** What base_mem_free tests before it gives a block back. */
  predicate ReadsAllocated(h: Header) {
    HasBit(h.size) && h.next == NULL
  }

  ghost predicate HeaderAt(s: Pool, x: int) {
    exists b :: (b in s.live || b in s.FreeList()) && b.addr == x
  }

  /** Going from s to t, only the anchor and headers of blocks of s or t are written. */
  ghost predicate HeaderWrites(mem: map<int, Header>, mem': map<int, Header>, start: int, s: Pool, t: Pool) {
    && mem'.Keys == mem.Keys
    && forall x | x in mem && mem'[x] != mem[x] :: x == start || HeaderAt(s, x) || HeaderAt(t, x)
  }

  class Heap {
    const start: int
    const lo: int
    const end: int
    const structSize: nat
    var mem: map<int, Header>
    var freeBytes: nat
    var minFreeBytes: nat
    ghost var live: seq<Block>

    ghost function Abs(): Pool
      reads this
    {
      Pool(lo, end, structSize, live, minFreeBytes)
    }

    /** The anchor lies outside the pool, and a header can be stored at every pool address. */
    ghost predicate Layout()
      reads this
    {
      && 0 < lo < end
      && start != NULL && !(lo <= start <= end)
      && start in mem && (forall x | lo <= x <= end :: x in mem)
    }

    ghost predicate Valid()
      reads this
    {
      && Layout()
      && Abs().Valid()
      && Linked(mem, start, Abs().FreeList(), end)
      && mem[end] == Header(NULL, 0)
      && Marked(mem, live)
      && freeBytes == Abs().FreeBytes()
    }

    /** `pool` is the address of the static array, `anchor` that of the list anchor, `header`
        the rounded size of a block header and `ram` what the memory happens to hold. */
    constructor (pool: int, anchor: int, header: nat, ram: map<int, Header>)
      requires anchor in ram && forall x | pool <= x < pool + TOTAL_MEM_SIZE :: x in ram
      requires 0 < pool && anchor != NULL && !(pool <= anchor < pool + TOTAL_MEM_SIZE)
      requires 0 < header <= MIN_MEM_SIZE && header % BYTE_ALIGNMENT == 0
      ensures Valid() && live == []
      ensures lo % BYTE_ALIGNMENT == 0 && pool <= lo < pool + BYTE_ALIGNMENT
      ensures end % BYTE_ALIGNMENT == 0
      ensures end + header <= pool + TOTAL_MEM_SIZE < end + header + 2 * BYTE_ALIGNMENT
      ensures structSize == header && start == anchor
      ensures freeBytes == minFreeBytes == end - lo
      ensures Abs().FreeList() == [Block(lo, end - lo)]
    {
      hide Linked, Seg, Marked, Gaps, Sound, Placed, Total;
      AlignedDown(pool);
      AlignedDown(pool + BYTE_ALIGNMENT - 1);
      var address, total := pool, TOTAL_MEM_SIZE;
      if address % BYTE_ALIGNMENT != 0 {
        address := address + BYTE_ALIGNMENT - 1;
        address := address - address % BYTE_ALIGNMENT;
        total := total - (address - pool);
      }
      var aligned := address;
      address := aligned + total - header;
      AlignedDown(address);
      address := address - address % BYTE_ALIGNMENT;
      start, lo, end, structSize := anchor, aligned, address, header;
      var m := ram[anchor := Header(aligned, 0)];
      m := m[address := Header(NULL, 0)];
      m := m[aligned := Header(address, address - aligned)];
      mem := m;
      minFreeBytes := address - aligned;
      freeBytes := address - aligned;
      live := [];
      new;
      InitialPool(Abs());
      InitialHeaders(mem, start, lo, end);
    }

    /** The last list node below p: the anchor, or the last free block of `a`. */
    method FindBefore(p: int, ghost a: seq<Block>, ghost c: seq<Block>) returns (it: int)
      requires Layout() && Seg(mem, mem[start].next, a, FirstAddr(c, end))
      requires forall i | 0 <= i < |a| :: a[i].addr < p
      requires FirstAddr(c, end) >= p
      ensures it in mem && mem[it].next == FirstAddr(c, end)
      ensures a == [] ==> it == start
      ensures a != [] ==> it == a[|a| - 1].addr && mem[it].size == a[|a| - 1].size
    {
      it := start;
      ghost var i: nat := 0;
      while mem[it].next < p
        invariant i <= |a| && it in mem
        invariant if i == 0 then it == start else it == a[i - 1].addr && mem[it].size == a[i - 1].size
        invariant Seg(mem, mem[it].next, a[i..], FirstAddr(c, end))
        decreases |a| - i
      {
        assert a[i..][1..] == a[i + 1..];
        it := mem[it].next;
        i := i + 1;
      }
    }

    /** Links the block at p behind the node `it`, fusing it with that node or with the node
        that follows where they touch. */
    method LinkAfter(it: int, p: int)
      requires it in mem && p in mem && mem[it].next in mem
      requires it != p && p < mem[it].next && it != mem[it].next
      modifies this`mem
      ensures mem == LinkedAfter(old(mem), it, p, end)
    {
      var h := mem;
      var q := p;
      if it + h[it].size == p {
        h := h[it := h[it].(size := h[it].size + h[p].size)];
        q := it;
      }
      if q + h[q].size == h[it].next {
        if h[it].next != end {
          h := h[q := h[q].(size := h[q].size + h[h[it].next].size)];
          h := h[q := h[q].(next := h[h[it].next].next)];
        } else {
          h := h[q := h[q].(next := end)];
        }
      } else {
        h := h[q := h[q].(next := h[it].next)];
      }
      if it != q {
        h := h[it := h[it].(next := q)];
      }
      mem := h;
    }

    /** Puts the block at p into the free list, between the free blocks `a` below it and `c`
        above it, and fuses it with the ones it touches. */
    method Insert(p: int, ghost a: seq<Block>, ghost m: Block, ghost c: seq<Block>)
      requires Layout() && Linked(mem, start, a + c, end)
      requires p == m.addr && lo <= p && m.size > 0 && m.End() <= end && mem[p].size == m.size
      requires Spaced(lo, a, m.addr) && Spaced(m.End(), c, end)
      modifies this`mem
      ensures Layout() && Linked(mem, start, Fuse(a, m, c), end)
      ensures Writes(old(mem), mem, {LastAddr(start, a), p}) && mem[p].size <= end - p
    {
      hide Seg, Spaced, Fuse, LinkedAfter;
      SegConcat(mem, mem[start].next, a, c, end);
      SpacedBelow(lo, a, m.addr);
      SpacedBelow(m.End(), c, end);
      var it := FindBefore(p, a, c);
      InsertedWrites(mem, start, lo, a, m, c, end, it);
      InsertedList(mem, start, lo, a, m, c, end, it);
      LinkAfter(it, p);
    }

    /** Walks the free list to the first block of at least u bytes, or to the end marker. */
    method FindFit(u: nat, ghost fl: seq<Block>) returns (prev: int, cur: int, ghost k: nat)
      requires Layout() && Linked(mem, start, fl, end) && Spaced(lo, fl, end)
      requires u > 0 && mem[end] == Header(NULL, 0)
      ensures k == FirstFit(fl, u)
      ensures prev in mem && mem[prev].next == cur && prev == LastAddr(start, fl[..k])
      ensures cur == FirstAddr(fl[k..], end)
    {
      k := 0;
      prev := start;
      cur := mem[start].next;
      SpacedBelow(lo, fl, end);
      while mem[cur].size < u && mem[cur].next != NULL
        invariant k <= |fl|
        invariant prev in mem && mem[prev].next == cur && prev == LastAddr(start, fl[..k])
        invariant Seg(mem, cur, fl[k..], end) && cur in mem
        invariant k <= FirstFit(fl, u)
        decreases |fl| - k
      {
        assert k < |fl| && fl[k..][0] == fl[k] && fl[k..][1..] == fl[k + 1..];
        assert fl[..k + 1][k] == fl[k];
        prev := cur;
        cur := mem[cur].next;
        k := k + 1;
        assert k < |fl| ==> fl[k..][0] == fl[k];
      }
      assert k < |fl| ==> fl[k..][0] == fl[k] && fl[k..][1..] == fl[k + 1..];
    }

    /** Takes the free block `cur`, which follows `prev`, out of the list; a surplus of more
        than the minimum size becomes a free block of its own. */
    method Detach(prev: int, cur: int, u: nat, ghost fl: seq<Block>, ghost k: nat)
      requires Layout() && Linked(mem, start, fl, end) && Spaced(lo, fl, end)
      requires k < |fl| && 0 < u <= fl[k].size
      requires prev in mem && mem[prev].next == cur == fl[k].addr && prev == LastAddr(start, fl[..k])
      modifies this`mem
      ensures Layout() && Linked(mem, start, Detached(fl, k, u), end)
      ensures cur in mem && mem[cur].size == Granted(fl[k].size, u)
      ensures Writes(old(mem), mem, DetachWrites(prev, cur, fl[k].size, u))
    {
      hide Seg, Linked, Spaced, Detached;
      ghost var g := fl[k];
      ghost var a, c := fl[..k], fl[k + 1..];
      SpacedAround(lo, fl, end, k);
      DetachedShape(fl, k, u);
      Unlinked(mem, start, lo, fl, k, end);
      mem := mem[prev := mem[prev].(next := mem[cur].next)];
      assert mem[cur].size == g.size;
      if mem[cur].size - u > MIN_MEM_SIZE {
        var nw := cur + u;
        SplitOff(nw, u, cur, a, g, c);
      }
    }

    /** Cuts the block at cur down to u bytes and inserts the rest as a free block. */
    method SplitOff(nw: int, u: nat, cur: int, ghost a: seq<Block>, ghost g: Block, ghost c: seq<Block>)
      requires Layout() && Linked(mem, start, a + c, end)
      requires lo <= g.addr && g.End() <= end && Spaced(lo, a, g.addr) && Spaced(g.End() + 1, c, end)
      requires !TouchesLeft(a, g.addr)
      requires 0 < u < g.size && cur == g.addr && nw == cur + u && mem[cur].size == g.size
      modifies this`mem
      ensures Layout() && Linked(mem, start, a + [Block(nw, g.size - u)] + c, end)
      ensures mem[cur].size == u
      ensures Writes(old(mem), mem, {LastAddr(start, a), cur, nw})
    {
      ghost var m := Block(nw, g.size - u);
      mem := mem[nw := mem[nw].(size := mem[cur].size - u)];
      mem := mem[cur := mem[cur].(size := u)];
      Surplus(old(mem), mem, start, lo, a, g, m, c, end);
      SpacedBelow(lo, a, g.addr);
      Insert(nw, a, m, c);
    }

    /** Takes the front u bytes of the free block cur, or all of it, for a client. */
    method Carve(prev: int, cur: int, u: nat, ghost k: nat) returns (p: int)
      requires Valid() && MIN_MEM_SIZE <= u && u % BYTE_ALIGNMENT == 0
      requires k < |Abs().FreeList()| && u <= Abs().FreeList()[k].size
      requires prev in mem && mem[prev].next == cur == Abs().FreeList()[k].addr
      requires prev == LastAddr(start, Abs().FreeList()[..k])
      modifies this
      ensures Valid() && Abs() == Take(old(Abs()), Taken(old(Abs()), k, u))
      ensures p == cur + structSize
      ensures Writes(old(mem), mem, DetachWrites(prev, cur, old(Abs()).FreeList()[k].size, u))
    {
      hide Linked, Marked, Gaps, Placed, Sound, Spaced, Place, Detached;
      ghost var s := Abs();
      ghost var t := Take(s, Taken(s, k, u));
      FreeListSpaced(s);
      p := mem[prev].next + structSize;
      Detach(prev, cur, u, s.FreeList(), k);
      freeBytes := freeBytes - mem[cur].size;
      if freeBytes < minFreeBytes {
        minFreeBytes := freeBytes;
      }
      MarkAllocated(cur, s, k, u, prev, old(mem));
      live := t.live;
    }

    method MarkAllocated(cur: int, ghost s: Pool, ghost k: nat, ghost u: nat, ghost prev: int,
                         ghost mem0: map<int, Header>)
      requires Layout() && s.lo == lo && s.hi == end
      requires s.Valid() && k < |s.FreeList()| && MIN_MEM_SIZE <= u <= s.FreeList()[k].size && u % BYTE_ALIGNMENT == 0
      requires cur == s.FreeList()[k].addr && cur in mem && mem[cur].size == Taken(s, k, u).size
      requires prev == LastAddr(start, s.FreeList()[..k])
      requires Writes(mem0, mem, DetachWrites(prev, cur, s.FreeList()[k].size, u))
      requires Linked(mem, start, Detached(s.FreeList(), k, u), end) && Marked(mem0, s.live)
      modifies this`mem
      ensures Layout()
      ensures var t := Take(s, Taken(s, k, u));
        && t.Valid() && t.FreeBytes() == s.FreeBytes() - Taken(s, k, u).size
        && Linked(mem, start, t.FreeList(), end) && Marked(mem, t.live)
      ensures mem[end] == mem0[end] && Writes(mem0, mem, DetachWrites(prev, cur, s.FreeList()[k].size, u))
    {
      hide Linked, Marked, Gaps, Placed, Sound, Spaced, Place, Detached;
      Around(s, k);
      mem := mem[cur := mem[cur].(size := SetBit(mem[cur].size))];
      mem := mem[cur := mem[cur].(next := NULL)];
      Carved(s, k, u, mem0, old(mem), mem, prev, start);
    }

    /** The size of the block that serves a request for `size` bytes. */
    method RoundUp(size: nat) returns (u: nat)
      requires size < ALLOCATED_BIT && structSize <= MIN_MEM_SIZE
      ensures size > 0 ==> u == Rounded(size, structSize) && u >= MIN_MEM_SIZE && u % BYTE_ALIGNMENT == 0
      ensures size == 0 ==> u == 0
    {
      u := size;
      if u > 0 {
        u := (u + structSize) % U32;
        if u % MIN_MEM_SIZE != 0 {
          u := (u + (MIN_MEM_SIZE - u % MIN_MEM_SIZE)) % U32;
          assert u % MIN_MEM_SIZE == 0;  // the code's early return for a failed rounding is dead
        }
        RoundingIsExact(size, structSize, u);
      }
    }

    /** Serves a request for a block of u bytes from the first free block that holds it. */
    method Grant(u: nat) returns (p: int)
      requires Valid() && MIN_MEM_SIZE <= u && u % BYTE_ALIGNMENT == 0
      modifies this
      ensures Valid()
      ensures var s := old(Abs()); var k := FirstFit(s.FreeList(), u);
        if k == |s.FreeList()| then Abs() == s && p == NULL
        else Abs() == Take(s, Taken(s, k, u)) && p == Taken(s, k, u).addr + s.hdr
      ensures HeaderWrites(old(mem), mem, start, old(Abs()), Abs())
    {
      p := NULL;
      if u <= freeBytes {
        FreeListSpaced(Abs());
        FreeAddrs(Abs());
        var prev, cur, k := FindFit(u, Abs().FreeList());
        if cur != end {
          GrantWrites(Abs(), k, u, prev, start);
          p := Carve(prev, cur, u, k);
        }
      } else {
        TooMuch(Abs(), u);
      }
    }

    /** base_mem_malloc */
    method Malloc(size: nat) returns (p: int)
      requires Valid() && size < U32
      modifies this
      ensures Valid() && (Abs(), p) == PoolModel.Malloc(old(Abs()), size)
      ensures HeaderWrites(old(mem), mem, start, old(Abs()), Abs())
    {
      p := NULL;
      if !HasBit(size) {
        var u := RoundUp(size);
        if u > 0 {
          p := Grant(u);
        }
      }
    }

    /** base_mem_free.  A client may pass NULL, a pointer from Malloc, or one whose header does
        not read as allocated. */
    method Free(p: int)
      requires Valid()
      requires p != NULL ==> p - structSize in mem
      requires p != NULL && ReadsAllocated(mem[p - structSize]) ==> Abs().IsPayload(p)
      modifies this
      ensures Valid() && Abs() == PoolModel.Free(old(Abs()), p)
      ensures p != NULL ==> p - structSize in mem && !ReadsAllocated(mem[p - structSize])
      ensures p == NULL || !ReadsAllocated(old(mem)[p - structSize]) ==> mem == old(mem) && Abs() == old(Abs())
      ensures HeaderWrites(old(mem), mem, start, old(Abs()), Abs())
    {
      if p != NULL {
        var h := p - structSize;
        if !HasBit(mem[h].size) {
          return;
        }
        if mem[h].next != NULL {
          return;
        }
        ghost var b :| b in live && b.addr == h;
        GiveBack(h, b);
      }
    }

    /** Clears the mark of the live block at h and puts it back into the free list. */
    method GiveBack(h: int, ghost b: Block)
      requires Valid() && b in live && b.addr == h
      modifies this
      ensures Valid() && Abs() == PoolModel.Free(old(Abs()), h + structSize)
      ensures h in mem && !ReadsAllocated(mem[h])
      ensures HeaderWrites(old(mem), mem, start, old(Abs()), Abs())
    {
      hide Gaps, Sound, Placed, Linked, Marked, Drop, Fuse, HeaderWrites, Spaced, PoolModel.Free;
      ghost var s := Abs();
      ghost var a, c := Freeable(s, b);
      ghost var t := PoolModel.Free(s, h + structSize);
      MarkedAt(mem, live, b);
      FreeIsDrop(s, b);
      Unmark(h, b, a, c);
      freeBytes := freeBytes + mem[h].size;
      Reinsert(h, s, b, a, c, t, old(mem));
      live := t.live;
      assert Abs() == t;
    }

    method Reinsert(h: int, ghost s: Pool, ghost b: Block, ghost a: seq<Block>, ghost c: seq<Block>,
                    ghost t: Pool, ghost mem0: map<int, Header>)
      requires Layout() && s.Valid() && s.lo == lo && s.hi == end
      requires b in s.live && b.addr == h && lo <= h && b.size > 0 && b.End() <= end
      requires Spaced(lo, a, b.addr) && Spaced(b.End(), c, end) && s.FreeList() == a + c
      requires Linked(mem, start, a + c, end) && h in mem && mem[h].size == b.size
      requires Marked(mem0, s.live) && Writes(mem0, mem, {h})
      requires t == PoolModel.Free(s, h + s.hdr) && t.FreeList() == Fuse(a, b, c)
      modifies this`mem
      ensures Layout() && mem[end] == mem0[end] && h in mem && !HasBit(mem[h].size)
      ensures Linked(mem, start, t.FreeList(), end)
      ensures t.Valid() && t.FreeBytes() == s.FreeBytes() + b.size
      ensures Marked(mem, t.live) && HeaderWrites(mem0, mem, start, s, t)
    {
      hide Linked, Marked, HeaderWrites, Fuse, Spaced, Drop;
      ghost var mem1 := mem;
      Insert(h, a, b, c);
      Freed(s, b, a, c, mem0, mem1, mem, start);
    }

    method Unmark(h: int, ghost b: Block, ghost a: seq<Block>, ghost c: seq<Block>)
      requires Layout() && lo <= h && b.addr == h && b.End() <= end
      requires h in mem && mem[h] == Header(NULL, b.size + ALLOCATED_BIT) && 0 < b.size < ALLOCATED_BIT
      requires Linked(mem, start, a + c, end) && Spaced(lo, a, b.addr) && Spaced(b.End(), c, end)
      modifies this`mem
      ensures Layout() && Linked(mem, start, a + c, end)
      ensures Writes(old(mem), mem, {h}) && mem[h] == Header(NULL, b.size)
    {
      mem := mem[h := mem[h].(size := ClearBit(mem[h].size))];
      HoleFrame(old(mem), mem, start, lo, a, b.addr, b.End(), c, end);
    }

    /** An immediately repeated free changes nothing: `once` is the memory after the first. */
    method FreeTwice(p: int) returns (ghost once: map<int, Header>)
      requires Valid() && p != NULL && p - structSize in mem && Abs().IsPayload(p)
      modifies this
      ensures Valid() && Abs() == PoolModel.Free(old(Abs()), p) && mem == once
    {
      Free(p);
      once := mem;
      Free(p);
    }

    /** A client stores into the payload of its live block b, changing what a header read at
        any address x inside the block would see.  The allocator does not notice. */
    method StoreInPayload(x: int, junk: Header, ghost b: Block)
      requires Valid() && b in live && b.addr < x < b.End()
      modifies this`mem
      ensures Valid() && Abs() == old(Abs())
    {
      ghost var a, c := Freeable(Abs(), b);
      mem := mem[x := junk];
      HoleFrame(old(mem), mem, start, lo, a, b.addr, b.End(), c, end);
      OthersApart(Abs(), b, x);
    }

    /** base_mem_freesize_get: the counter is the sum of the free list. */
    method FreeSizeGet() returns (n: nat)
      requires Valid()
      ensures n == Total(Abs().FreeList()) == end - lo - Total(live)
    {
      Conservation(Abs());
      n := freeBytes;
    }

    /** base_mem_minusedsize_get */
    method MinUsedSizeGet() returns (n: nat)
      requires Valid()
      ensures n == Abs().low <= Abs().FreeBytes()
    {
      n := minFreeBytes;
    }
  }

  lemma MarkedAt(mem: map<int, Header>, live: seq<Block>, b: Block)
    requires Marked(mem, live) && b in live
    ensures b.addr in mem && mem[b.addr] == Header(NULL, b.size + ALLOCATED_BIT)
  {
  }

  lemma OthersApart(s: Pool, b: Block, x: int)
    requires s.Valid() && b in s.live && b.addr < x < b.End()
    ensures forall d | d in s.live :: d.addr != x
  {
    PlacedOrder(s.lo, s.live, s.hi);
    var i :| 0 <= i < |s.live| && s.live[i] == b;
  }

  /** No header that malloc or free writes reaches into the payload of a block that is live
      both before and after the call. */
  lemma WritesClearOfPayloads(mem: map<int, Header>, mem': map<int, Header>, start: int, s: Pool, t: Pool,
                              b: Block, at: int, x: int)
    requires s.Valid() && t.Valid() && s.hdr == t.hdr && HeaderWrites(mem, mem', start, s, t)
    requires at in mem && mem'[at] != mem[at] && at != start
    requires b in s.live && b in t.live && InPayload(s, b, x)
    ensures !InHeader(s, at, x)
  {
    if HeaderAt(s, at) {
      var h :| (h in s.live || h in s.FreeList()) && h.addr == at;
      HeadersClearOfPayloads(s, b, h, x);
    } else {
      var h :| (h in t.live || h in t.FreeList()) && h.addr == at;
      HeadersClearOfPayloads(t, b, h, x);
    }
  }

  /** The free list without the front part that a request for u takes of block k. */
  ghost function Detached(fl: seq<Block>, k: nat, u: nat): seq<Block>
    requires k < |fl| && u <= fl[k].size
  {
    fl[..k] + (Gap(fl[k].addr + Granted(fl[k].size, u), fl[k].End()) + fl[k + 1..])
  }

  lemma DetachedShape(fl: seq<Block>, k: nat, u: nat)
    requires k < |fl| && 0 < u <= fl[k].size
    ensures var g := fl[k];
      Detached(fl, k, u) ==
        if g.size - u > MIN_MEM_SIZE then fl[..k] + [Block(g.addr + u, g.size - u)] + fl[k + 1..]
        else fl[..k] + fl[k + 1..]
  {
    var g, a, c := fl[k], fl[..k], fl[k + 1..];
    if g.size - u > MIN_MEM_SIZE {
      assert a + [Block(g.addr + u, g.size - u)] + c == a + ([Block(g.addr + u, g.size - u)] + c);
    } else {
      assert [] + c == c;
    }
  }

  lemma TakeBytes(s: Pool, k: nat, u: nat)
    requires s.Valid() && k < |s.FreeList()| && 0 < u <= s.FreeList()[k].size
    ensures var b := Taken(s, k, u); var t := Take(s, b);
      && t.FreeList() == Detached(s.FreeList(), k, u)
      && t.FreeBytes() + b.size == s.FreeBytes()
  {
    var b := Taken(s, k, u);
    var xs, ys := TakeShape(s, k, u);
    Conservation(s);
    Conservation(Take(s, b));
    TotalConcat(xs, ys);
    TotalConcat(xs, [b]);
    TotalConcat(xs + [b], ys);
    assert Total([b]) == b.size + Total([b][1..]);
    var fl := s.FreeList();
    var rem := Gap(b.End(), fl[k].End());
    assert fl[..k] + rem + fl[k + 1..] == fl[..k] + (rem + fl[k + 1..]);
  }

  /** Writing the header of the detached part does not disturb the free list. */
  lemma DetachedFrame(mem: map<int, Header>, h: map<int, Header>, start: int,
                      lo: int, fl: seq<Block>, k: nat, u: nat, end: int)
    requires Spaced(lo, fl, end) && k < |fl| && 0 < u <= fl[k].size
    requires Linked(mem, start, Detached(fl, k, u), end)
    requires forall x | lo <= x <= end :: x in mem
    requires !(lo <= start <= end) && Writes(mem, h, {fl[k].addr})
    ensures Linked(h, start, Detached(fl, k, u), end)
  {
    var cut := fl[k].addr + Granted(fl[k].size, u);
    SpacedAround(lo, fl, end, k);
    GapBefore(cut, fl[k].End(), fl[k + 1..], end);
    HoleFrame(mem, h, start, lo, fl[..k], fl[k].addr, cut, Gap(cut, fl[k].End()) + fl[k + 1..], end);
  }

  lemma GapBefore(cut: int, mid: int, c: seq<Block>, end: int)
    requires cut <= mid <= end && Spaced(mid + 1, c, end)
    ensures Spaced(cut, Gap(cut, mid) + c, end)
  {
    if cut < mid {
      assert (Gap(cut, mid) + c)[1..] == c;
    } else {
      assert Gap(cut, mid) + c == c;
    }
  }

  lemma LiveApart(s: Pool, b: Block, f: Block, x: int)
    requires s.Valid() && b in s.live && f in s.FreeList() && f.Covers(x)
    ensures !b.Covers(x) && b.addr != x
  {
    PlacedOrder(s.lo, s.live, s.hi);
    GapsCover(s.lo, s.live, s.hi, x);
    MemberCovers(s.FreeList(), f, x);
    if b.Covers(x) {
      MemberCovers(s.live, b, x);
    }
  }

  /** Writing the header of the granted block after taking it out of the list. */
  lemma Carved(s: Pool, k: nat, u: nat, mem: map<int, Header>, mem1: map<int, Header>, h: map<int, Header>,
               prev: int, start: int)
    requires s.Valid() && k < |s.FreeList()| && MIN_MEM_SIZE <= u <= s.FreeList()[k].size && u % BYTE_ALIGNMENT == 0
    requires prev == LastAddr(start, s.FreeList()[..k]) && !(s.lo <= start <= s.hi)
    requires forall x | s.lo <= x <= s.hi :: x in mem
    requires Writes(mem, mem1, DetachWrites(prev, s.FreeList()[k].addr, s.FreeList()[k].size, u))
    requires Linked(mem1, start, Detached(s.FreeList(), k, u), s.hi)
    requires Marked(mem, s.live)
    requires var b := Taken(s, k, u); h == mem1[b.addr := Header(NULL, b.size + ALLOCATED_BIT)]
    ensures var t := Take(s, Taken(s, k, u));
      && t.Valid() && t.FreeBytes() == s.FreeBytes() - Taken(s, k, u).size
      && Linked(h, start, t.FreeList(), s.hi) && Marked(h, t.live)
      && h[s.hi] == mem[s.hi]
  {
    Around(s, k);
    TakeValid(s, k, u);
    TakeBytes(s, k, u);
    DetachedFrame(mem1, h, start, s.lo, s.FreeList(), k, u, s.hi);
    CarvedMarks(s, k, u, mem, h, prev, start);
    FreeAddrs(s);
    assert s.hi !in DetachWrites(prev, s.FreeList()[k].addr, s.FreeList()[k].size, u);
  }

  /** After a grant every live block is marked, and so is the new one. */
  lemma CarvedMarks(s: Pool, k: nat, u: nat, mem: map<int, Header>, h: map<int, Header>, prev: int, start: int)
    requires s.Valid() && k < |s.FreeList()| && 0 < u <= s.FreeList()[k].size
    requires prev == LastAddr(start, s.FreeList()[..k]) && !(s.lo <= start <= s.hi)
    requires Writes(mem, h, DetachWrites(prev, s.FreeList()[k].addr, s.FreeList()[k].size, u))
    requires Marked(mem, s.live) && Marked(h, [Taken(s, k, u)])
    ensures Marked(h, Take(s, Taken(s, k, u)).live)
  {
    var bk := Taken(s, k, u);
    assert bk in [bk];
    var t := Take(s, Taken(s, k, u));
    var xs, ys := TakeShape(s, k, u);
    forall b | b in t.live
      ensures b.addr in h && h[b.addr] == Header(NULL, b.size + ALLOCATED_BIT)
    {
      InMiddle(xs, Taken(s, k, u), ys, b);
      if b != Taken(s, k, u) {
        LiveUnwritten(s, k, u, b, prev, start);
      }
    }
  }

  lemma LiveUnwritten(s: Pool, k: nat, u: nat, b: Block, prev: int, start: int)
    requires s.Valid() && k < |s.FreeList()| && 0 < u <= s.FreeList()[k].size && b in s.live
    requires prev == LastAddr(start, s.FreeList()[..k]) && !(s.lo <= start <= s.hi)
    ensures b.addr !in DetachWrites(prev, s.FreeList()[k].addr, s.FreeList()[k].size, u)
  {
    var fl := s.FreeList();
    LiveInside(s, b);
    FreeApart(s, b, k, fl[k].addr);
    if fl[k].size - u > MIN_MEM_SIZE {
      FreeApart(s, b, k, fl[k].addr + u);
    }
    if k > 0 {
      FreeApart(s, b, k - 1, fl[k - 1].addr);
    }
  }

  lemma FreeApart(s: Pool, b: Block, k: nat, x: int)
    requires s.Valid() && b in s.live && k < |s.FreeList()|
    requires s.FreeList()[k].addr <= x < s.FreeList()[k].End() || x == s.FreeList()[k].addr
    ensures b.addr != x
  {
    FreeListSpaced(s);
    SpacedAround(s.lo, s.FreeList(), s.hi, k);
    LiveApart(s, b, s.FreeList()[k], x);
  }

  lemma Unwrapped(x: nat)
    requires x < U32
    ensures x % U32 == x
  {
  }

  /** The multiple of the minimum size that is next to v from above. */
  lemma NextMultiple(v: nat, q: nat, r: nat)
    requires v == q * MIN_MEM_SIZE + r && r < MIN_MEM_SIZE
    ensures (v + MIN_MEM_SIZE - 1) / MIN_MEM_SIZE * MIN_MEM_SIZE == if r == 0 then v else v + (MIN_MEM_SIZE - r)
  {
    assert (v + MIN_MEM_SIZE - 1) / MIN_MEM_SIZE == if r == 0 then q else q + 1;
  }

  lemma RoundedSteps(n: nat, hdr: nat)
    ensures var v := n + hdr; var r := v % MIN_MEM_SIZE;
      Rounded(n, hdr) == (if r == 0 then v else v + (MIN_MEM_SIZE - r)) && r < MIN_MEM_SIZE
  {
    var v := n + hdr;
    NextMultiple(v, v / MIN_MEM_SIZE, v % MIN_MEM_SIZE);
  }

  /** The two-step rounding of the code neither overflows 32 bits nor leaves a remainder. */
  lemma RoundingIsExact(n: nat, hdr: nat, u: nat)
    requires 0 < n < ALLOCATED_BIT && hdr <= MIN_MEM_SIZE
    requires var v := (n + hdr) % U32;
      u == if v % MIN_MEM_SIZE != 0 then (v + (MIN_MEM_SIZE - v % MIN_MEM_SIZE)) % U32 else v
    ensures u == Rounded(n, hdr) && u >= MIN_MEM_SIZE && u % BYTE_ALIGNMENT == 0 && u < U32
  {
    hide Rounded;
    var v := n + hdr;
    Unwrapped(v);
    RoundedSteps(n, hdr);
    RoundedBounds(n, hdr);
    if v % MIN_MEM_SIZE != 0 {
      Unwrapped(v + (MIN_MEM_SIZE - v % MIN_MEM_SIZE));
    }
    AtLeastOneBlock(Rounded(n, hdr));
  }

  lemma AtLeastOneBlock(x: nat)
    requires x > 0 && x % MIN_MEM_SIZE == 0
    ensures x >= MIN_MEM_SIZE
  {
  }

  lemma TooMuch(s: Pool, u: nat)
    requires s.Valid() && u > s.FreeBytes()
    ensures FirstFit(s.FreeList(), u) == |s.FreeList()|
  {
    FreeListSpaced(s);
  }

  lemma GrantWrites(s: Pool, k: nat, u: nat, prev: int, start: int)
    requires s.Valid() && k < |s.FreeList()| && 0 < u <= s.FreeList()[k].size
    requires prev == LastAddr(start, s.FreeList()[..k])
    ensures var g := s.FreeList()[k]; var t := Take(s, Taken(s, k, u));
      forall x | x in DetachWrites(prev, g.addr, g.size, u) :: x == start || HeaderAt(s, x) || HeaderAt(t, x)
  {
    var fl := s.FreeList();
    TakeBytes(s, k, u);
    assert fl[k] in fl && HeaderAt(s, fl[k].addr);
    if k > 0 {
      assert fl[..k][k - 1] == fl[k - 1] && fl[k - 1] in fl && HeaderAt(s, fl[k - 1].addr);
    }
    if fl[k].size - u > MIN_MEM_SIZE {
      var rem := Block(fl[k].addr + u, fl[k].size - u);
      assert Detached(fl, k, u)[k] == rem;
    }
  }

  /** Around a live block, the free list is ready to take it back. */
  lemma Freeable(s: Pool, b: Block) returns (a: seq<Block>, c: seq<Block>)
    requires s.Valid() && b in s.live
    ensures s.FreeList() == a + c && Spaced(s.lo, a, b.addr) && Spaced(b.End(), c, s.hi)
    ensures PoolModel.Free(s, b.addr + s.hdr).FreeList() == Fuse(a, b, c)
    ensures s.lo <= b.addr && b.End() <= s.hi && 0 < b.size < ALLOCATED_BIT
    ensures s.IsPayload(b.addr + s.hdr)
  {
    var xs, ys := FreeShape(s, b);
    a, c := Gaps(s.lo, xs, b.addr), Gaps(b.End(), ys, s.hi);
    GapsSpaced(s.lo, xs, b.addr);
    GapsSpaced(b.End(), ys, s.hi);
    PlacedOrder(s.lo, s.live, s.hi);
  }

  /** Clearing the mark of block b and inserting it leaves a sound heap. */
  lemma Freed(s: Pool, b: Block, a: seq<Block>, c: seq<Block>,
              mem: map<int, Header>, mem1: map<int, Header>, h: map<int, Header>, start: int)
    requires s.Valid() && b in s.live && s.FreeList() == a + c
    requires !(s.lo <= start <= s.hi) && forall x | s.lo <= x <= s.hi :: x in mem
    requires Marked(mem, s.live) && Writes(mem, mem1, {b.addr}) && Writes(mem1, h, {LastAddr(start, a), b.addr})
    ensures var t := PoolModel.Free(s, b.addr + s.hdr);
      && t.Valid() && t.FreeBytes() == s.FreeBytes() + b.size
      && Marked(h, t.live) && h[s.hi] == mem[s.hi]
      && HeaderWrites(mem, h, start, s, t)
  {
    FreeLiveValid(s, b);
    FreeBytesGrow(s, b);
    FreeAddrs(s);
    LiveInside(s, b);
    assert a != [] ==> s.FreeList()[|a| - 1] == a[|a| - 1];
    FreedMarks(s, b, a, c, mem, h, start);
    FreedWrites(s, b, a, c, mem, h, start, PoolModel.Free(s, b.addr + s.hdr));
  }

  lemma LiveInside(s: Pool, b: Block)
    requires s.Valid() && b in s.live
    ensures s.lo <= b.addr && b.size > 0 && b.End() <= s.hi
  {
    PlacedOrder(s.lo, s.live, s.hi);
  }

  lemma FreedWrites(s: Pool, b: Block, a: seq<Block>, c: seq<Block>,
                    mem: map<int, Header>, h: map<int, Header>, start: int, t: Pool)
    requires b in s.live && s.FreeList() == a + c
    requires Writes(mem, h, {LastAddr(start, a), b.addr})
    ensures HeaderWrites(mem, h, start, s, t)
  {
  }

  lemma FreedMarks(s: Pool, b: Block, a: seq<Block>, c: seq<Block>,
                   mem: map<int, Header>, h: map<int, Header>, start: int)
    requires s.Valid() && b in s.live && s.FreeList() == a + c && !(s.lo <= start <= s.hi)
    requires Marked(mem, s.live) && Writes(mem, h, {LastAddr(start, a), b.addr})
    ensures Marked(h, PoolModel.Free(s, b.addr + s.hdr).live)
  {
    forall d | d in PoolModel.Free(s, b.addr + s.hdr).live
      ensures d.addr in h && h[d.addr] == Header(NULL, d.size + ALLOCATED_BIT)
    {
      FreeRemovesLive(s, b, d);
      LiveInside(s, d);
      if a != [] {
        var n := |a| - 1;
        assert s.FreeList()[n] == a[n];
        Around(s, n);
        LiveApart(s, d, a[n], a[n].addr);
      }
    }
  }

  /** The surplus m at the end of the detached block g is ready to be inserted. */
  lemma Surplus(mem: map<int, Header>, h: map<int, Header>, start: int,
                lo: int, a: seq<Block>, g: Block, m: Block, c: seq<Block>, end: int)
    requires Linked(mem, start, a + c, end) && !(lo <= start <= end) && lo <= g.addr && g.End() <= end
    requires Spaced(lo, a, g.addr) && Spaced(g.End() + 1, c, end) && !TouchesLeft(a, g.addr)
    requires g.addr < m.addr && m.End() == g.End() && m.size > 0
    requires forall x | lo <= x <= end :: x in mem
    requires h.Keys == mem.Keys && forall x | x in h && x != g.addr && x != m.addr :: h[x] == mem[x]
    ensures Linked(h, start, a + c, end)
    ensures Spaced(lo, a, m.addr) && Spaced(m.End(), c, end)
    ensures Fuse(a, m, c) == a + [m] + c
  {
    SpacedWeaken(g.End(), g.End() + 1, c, end);
    HoleFrame(mem, h, start, lo, a, g.addr, g.End(), c, end);
    SpacedRaise(lo, a, g.addr, m.addr);
    if a != [] {
      SpacedPrefix(lo, a, g.addr);
    }
  }

  lemma {:induction false} SpacedRaise(lo: int, a: seq<Block>, hi: int, hi': int)
    requires Spaced(lo, a, hi) && hi <= hi'
    ensures Spaced(lo, a, hi')
    ensures a != [] ==> a[|a| - 1].End() <= hi
    decreases |a|
  {
    if a != [] {
      SpacedRaise(a[0].End() + 1, a[1..], hi, hi');
    }
  }

  lemma FreeListSpaced(s: Pool)
    requires s.Valid()
    ensures Spaced(s.lo, s.FreeList(), s.hi)
    ensures forall k | 0 <= k < |s.FreeList()| :: s.FreeList()[k].size <= s.FreeBytes()
  {
    GapsSpaced(s.lo, s.live, s.hi);
    forall k | 0 <= k < |s.FreeList()| ensures s.FreeList()[k].size <= s.FreeBytes() {
      TotalAtLeast(s.FreeList(), k);
    }
  }

  /** What lies before and after free block k. */
  lemma Around(s: Pool, k: nat)
    requires s.Valid() && k < |s.FreeList()|
    ensures var fl := s.FreeList();
      && Spaced(s.lo, fl, s.hi)
      && s.lo <= fl[k].addr && fl[k].size > 0 && fl[k].End() <= s.hi
      && Spaced(s.lo, fl[..k], fl[k].addr) && Spaced(fl[k].End() + 1, fl[k + 1..], s.hi)
      && !TouchesLeft(fl[..k], fl[k].addr)
  {
    GapsSpaced(s.lo, s.live, s.hi);
    SpacedAround(s.lo, s.FreeList(), s.hi, k);
  }

  lemma {:induction false} SpacedAround(lo: int, fl: seq<Block>, hi: int, k: nat)
    requires Spaced(lo, fl, hi) && k < |fl|
    ensures lo <= fl[k].addr && fl[k].size > 0 && fl[k].End() <= hi
    ensures Spaced(lo, fl[..k], fl[k].addr) && Spaced(fl[k].End() + 1, fl[k + 1..], hi)
    ensures k > 0 ==> fl[k - 1].End() < fl[k].addr && fl[0].End() < fl[k].addr
    decreases |fl|
  {
    if k > 0 {
      SpacedAround(fl[0].End() + 1, fl[1..], hi, k - 1);
      assert fl[..k][1..] == fl[1..][..k - 1];
      assert fl[1..][k - 1 + 1..] == fl[k + 1..];
    }
  }

  /** Redirecting the node before block k takes it out of the list. */
  lemma Unlinked(mem: map<int, Header>, start: int, lo: int, fl: seq<Block>, k: nat, end: int)
    requires Linked(mem, start, fl, end) && Spaced(lo, fl, end) && k < |fl|
    requires (forall x | lo <= x <= end :: x in mem) && !(lo <= start <= end)
    ensures var prev := if k == 0 then start else fl[k - 1].addr;
      && prev in mem && mem[prev].next == fl[k].addr && fl[k].addr in mem && mem[fl[k].addr].size == fl[k].size
      && Linked(mem[prev := mem[prev].(next := mem[fl[k].addr].next)], start, fl[..k] + fl[k + 1..], end)
  {
    var a, g, c := fl[..k], fl[k], fl[k + 1..];
    assert fl == a + ([g] + c) && ([g] + c)[1..] == c;
    SpacedAround(lo, fl, end, k);
    SpacedBelow(lo, fl, end);
    SegConcat(mem, mem[start].next, a, [g] + c, end);
    var prev := if k == 0 then start else fl[k - 1].addr;
    assert k > 0 ==> a[|a| - 1] == fl[k - 1];
    var h := mem[prev := mem[prev].(next := mem[g.addr].next)];
    assert mem[g.addr].next == FirstAddr(c, end);
    SegFrame(mem, h, FirstAddr(c, end), c, end, g.End() + 1, end);
    if k > 0 {
      HeadKept(mem, h, start, lo, a, g.addr, g.addr);
      HeadRetargeted(h, h[start].next, a, FirstAddr(c, end));
    }
    SegConcat(h, h[start].next, a, c, end);
  }

  /** Writes inside a hole of the list do not disturb it. */
  lemma HoleFrame(mem: map<int, Header>, h: map<int, Header>, start: int,
                  lo: int, a: seq<Block>, h1: int, h2: int, c: seq<Block>, end: int)
    requires Linked(mem, start, a + c, end) && Spaced(lo, a, h1) && Spaced(h2, c, end)
    requires start in h && h[start] == mem[start]
    requires forall x | lo <= x < h1 || h2 <= x < end :: x in mem && x in h && h[x] == mem[x]
    ensures Linked(h, start, a + c, end)
  {
    SegConcat(mem, mem[start].next, a, c, end);
    SegFrame(mem, h, mem[start].next, a, FirstAddr(c, end), lo, h1);
    SegFrame(mem, h, FirstAddr(c, end), c, end, h2, end);
    SegConcat(h, h[start].next, a, c, end);
  }

  lemma FreeAddrs(s: Pool)
    requires s.Valid()
    ensures forall i | 0 <= i < |s.FreeList()| :: s.lo <= s.FreeList()[i].addr < s.hi
  {
    GapsSpaced(s.lo, s.live, s.hi);
    SpacedBelow(s.lo, s.FreeList(), s.hi);
  }

  lemma AlignedDown(x: int)
    ensures var y := x - x % BYTE_ALIGNMENT; y % BYTE_ALIGNMENT == 0 && y <= x < y + BYTE_ALIGNMENT
  {
  }

  lemma InitialHeaders(mem: map<int, Header>, start: int, lo: int, end: int)
    requires lo < end && start in mem && mem[start] == Header(lo, 0) && lo in mem && mem[lo] == Header(end, end - lo)
    ensures Linked(mem, start, [Block(lo, end - lo)], end) && Marked(mem, [])
  {
    assert [Block(lo, end - lo)][1..] == [];
  }

  lemma InitialPool(s: Pool)
    requires 0 < s.lo && s.lo % BYTE_ALIGNMENT == 0 && s.hi % BYTE_ALIGNMENT == 0
    requires MIN_MEM_SIZE <= s.hi - s.lo < ALLOCATED_BIT
    requires 0 < s.hdr <= MIN_MEM_SIZE && s.hdr % BYTE_ALIGNMENT == 0
    requires s.live == [] && s.low == s.hi - s.lo
    ensures s.Valid() && s.FreeList() == [Block(s.lo, s.hi - s.lo)] && s.FreeBytes() == s.low
  {
    var first := Block(s.lo, s.hi - s.lo);
    assert s.FreeList() == [first] && [first][1..] == [];
    assert Sound([first]);
    assert Total([first]) == first.size + Total([first][1..]);
  }

  /** What linking the block at p behind `it` makes of the headers: one header describes the
      fused block, and unless `it` is that block, it now points to it. */
  ghost function LinkedAfter(mem: map<int, Header>, it: int, p: int, end: int): map<int, Header>
    requires it in mem && p in mem && mem[it].next in mem
  {
    var nx := mem[it].next;
    var left := it + mem[it].size == p;
    var q := if left then it else p;
    var size := mem[p].size + if left then mem[it].size else 0;
    var put := if q + size == nx && nx != end
      then mem[q := Header(mem[nx].next, size + mem[nx].size)]
      else mem[q := Header(nx, size)];
    if left then put else put[it := Header(q, mem[it].size)]
  }

  /** The block at m.addr can be linked in behind the node `it`, between a and c. */
  ghost predicate Insertable(mem: map<int, Header>, start: int, lo: int, a: seq<Block>, m: Block, c: seq<Block>,
                             end: int, it: int) {
    && (forall x | lo <= x <= end :: x in mem) && !(lo <= start <= end)
    && lo <= m.addr && m.size > 0 && m.End() <= end
    && Spaced(lo, a, m.addr) && Spaced(m.End(), c, end)
    && m.addr in mem && mem[m.addr].size == m.size
    && it in mem && mem[it].next == FirstAddr(c, end) && mem[it].next in mem
    && (a == [] ==> it == start)
    && (a != [] ==> it == a[|a| - 1].addr && mem[it].size == a[|a| - 1].size)
  }

  /** From the fused block on the headers written spell the list. */
  lemma InsertedTail(mem: map<int, Header>, start: int, lo: int, a: seq<Block>, m: Block,
                     c: seq<Block>, end: int, it: int)
    requires Insertable(mem, start, lo, a, m, c, end, it)
    requires Linked(mem, start, a + c, end)
    ensures var h, x := LinkedAfter(mem, it, m.addr, end), FusedBlock(a, m, c);
      Seg(h, x.addr, [x] + FusedTail(m, c), end)
  {
    hide Spaced, Fuse;
    var h, x := LinkedAfter(mem, it, m.addr, end), FusedBlock(a, m, c);
    SegConcat(mem, mem[start].next, a, c, end);
    SpacedBelow(lo, a, m.addr);
    SpacedBelow(m.End(), c, end);
    TailKept(mem, h, lo, m, c, end, FirstAddr(c, end));
    assert ([x] + FusedTail(m, c))[1..] == FusedTail(m, c);
  }

  /** Below the fused block only the node before it may be written, and then leads to it. */
  lemma InsertedHead(mem: map<int, Header>, start: int, lo: int, a: seq<Block>, m: Block,
                     c: seq<Block>, end: int, it: int)
    requires Insertable(mem, start, lo, a, m, c, end, it)
    requires start in mem && mem[start].size == 0
    ensures var h, x := LinkedAfter(mem, it, m.addr, end), FusedBlock(a, m, c);
      && start in h && h[start].size == 0 && (a == [] ==> h[start].next == x.addr)
      && (a != [] ==>
            && h[start] == mem[start] && (forall y | lo <= y < it :: y in mem && y in h && h[y] == mem[y])
            && if TouchesLeft(a, m.addr) then x.addr == it else it in h && h[it] == Header(x.addr, mem[it].size))
  {
    hide Spaced;
    SpacedBelow(lo, a, m.addr);
  }

  lemma LinkedWrites(mem: map<int, Header>, it: int, p: int, end: int)
    requires it in mem && p in mem && mem[it].next in mem
    ensures Writes(mem, LinkedAfter(mem, it, p, end), {it, p})
  {
  }

  /** The size that the header at p is left with. */
  lemma LinkedSize(mem: map<int, Header>, it: int, p: int, end: int)
    requires it in mem && p in mem && mem[it].next in mem && it != p
    ensures var nx := mem[it].next;
      var more := if p + mem[p].size == nx && nx != end then mem[nx].size else 0;
      LinkedAfter(mem, it, p, end)[p].size <= mem[p].size + more
  {
  }

  /** Only the node before the block and the block itself are written. */
  lemma InsertedWrites(mem: map<int, Header>, start: int, lo: int, a: seq<Block>, m: Block,
                       c: seq<Block>, end: int, it: int)
    requires Insertable(mem, start, lo, a, m, c, end, it)
    requires Linked(mem, start, a + c, end)
    ensures var h := LinkedAfter(mem, it, m.addr, end);
      && Writes(mem, h, {LastAddr(start, a), m.addr}) && start in h
      && m.addr in h && h[m.addr].size <= end - m.addr
  {
    hide Spaced, LinkedAfter, Seg;
    SegConcat(mem, mem[start].next, a, c, end);
    SpacedBelow(lo, a, m.addr);
    LinkedWrites(mem, it, m.addr, end);
    LinkedSize(mem, it, m.addr, end);
    if c != [] {
      SegFirst(mem, c, end);
      SpacedFits(m.End(), c, end);
    }
  }

  lemma SegFirst(mem: map<int, Header>, c: seq<Block>, end: int)
    requires c != [] && Seg(mem, c[0].addr, c, end)
    ensures c[0].addr in mem && mem[c[0].addr].size == c[0].size
  {
  }

  lemma SpacedFits(lo: int, c: seq<Block>, hi: int)
    requires Spaced(lo, c, hi) && c != []
    ensures c[0].End() <= hi
  {
  }

  lemma InsertedList(mem: map<int, Header>, start: int, lo: int, a: seq<Block>, m: Block,
                     c: seq<Block>, end: int, it: int)
    requires Insertable(mem, start, lo, a, m, c, end, it)
    requires Linked(mem, start, a + c, end)
    ensures Linked(LinkedAfter(mem, it, m.addr, end), start, Fuse(a, m, c), end)
  {
    hide Fuse, FusedBlock, FusedTail, LinkedAfter, Seg, Spaced, TouchesLeft;
    var h, x := LinkedAfter(mem, it, m.addr, end), FusedBlock(a, m, c);
    var tail := [x] + FusedTail(m, c);
    SegConcat(mem, mem[start].next, a, c, end);
    InsertedTail(mem, start, lo, a, m, c, end, it);
    InsertedHead(mem, start, lo, a, m, c, end, it);
    FuseParts(a, m, c);
    if a != [] {
      HeadKept(mem, h, start, lo, a, m.addr, FirstAddr(c, end));
      if TouchesLeft(a, m.addr) {
        SegConcat(h, h[start].next, a[..|a| - 1], tail, end);
      } else {
        HeadRetargeted(h, h[start].next, a, x.addr);
        SegConcat(h, h[start].next, a, tail, end);
      }
    }
  }

  lemma HeadRetargeted(h: map<int, Header>, at: int, a: seq<Block>, to: int)
    requires a != [] && Seg(h, at, a[..|a| - 1], a[|a| - 1].addr)
    requires a[|a| - 1].addr in h && h[a[|a| - 1].addr] == Header(to, a[|a| - 1].size)
    ensures Seg(h, at, a, to)
  {
    var n := |a| - 1;
    assert a == a[..n] + [a[n]];
    assert [a[n]][1..] == [];
    SegConcat(h, at, a[..n], [a[n]], to);
  }

  /** The list up to its last node, which alone may have been written. */
  lemma HeadKept(mem: map<int, Header>, h: map<int, Header>, start: int, lo: int, a: seq<Block>, hi: int, to: int)
    requires a != [] && Spaced(lo, a, hi) && start in mem && start in h
    requires Seg(mem, mem[start].next, a, to) && h[start] == mem[start]
    requires forall x | lo <= x < a[|a| - 1].addr :: x in mem && x in h && h[x] == mem[x]
    ensures var n := |a| - 1;
      && Seg(h, h[start].next, a[..n], a[n].addr)
      && a[n].addr in mem && mem[a[n].addr] == Header(to, a[n].size)
  {
    var n := |a| - 1;
    assert a == a[..n] + [a[n]];
    SegConcat(mem, mem[start].next, a[..n], [a[n]], to);
    assert [a[n]][1..] == [];
    SpacedPrefix(lo, a, hi);
    SegFrame(mem, h, mem[start].next, a[..n], a[n].addr, lo, a[n].addr);
  }

  lemma TailKept(mem: map<int, Header>, h: map<int, Header>, lo: int, m: Block, c: seq<Block>, end: int, at: int)
    requires forall x | lo <= x <= end :: x in mem
    requires Seg(mem, at, c, end) && Spaced(m.End(), c, end)
    requires lo <= m.addr && m.size > 0 && m.End() <= end
    requires forall x | m.End() <= x < end :: x in h && h[x] == mem[x]
    ensures Seg(h, FirstAddr(FusedTail(m, c), end), FusedTail(m, c), end)
  {
    if TouchesRight(m.End(), c) {
      SegFrame(mem, h, mem[at].next, c[1..], end, c[0].End() + 1, end);
    } else {
      SegFrame(mem, h, at, c, end, m.End(), end);
    }
  }

  lemma {:induction false} SpacedBelow(lo: int, a: seq<Block>, hi: int)
    requires Spaced(lo, a, hi)
    ensures forall i | 0 <= i < |a| :: lo <= a[i].addr < hi
    decreases |a|
  {
    if a != [] {
      SpacedBelow(a[0].End() + 1, a[1..], hi);
      assert forall i | 1 <= i < |a| :: a[i] == a[1..][i - 1];
    }
  }

  lemma {:induction false} SpacedPrefix(lo: int, a: seq<Block>, hi: int)
    requires Spaced(lo, a, hi) && a != []
    ensures Spaced(lo, a[..|a| - 1], a[|a| - 1].addr)
    decreases |a|
  {
    if |a| > 1 {
      SpacedPrefix(a[0].End() + 1, a[1..], hi);
      assert a[..|a| - 1][1..] == a[1..][..|a| - 2];
      SpacedOrder(lo, a, hi);
    }
  }
}
