/** kernel/slab.c: allocation of equal items from pools in the heap, and its part in garbage collection. */
module Slab {
  import opened Bits
  import opened Common
  import opened HeapGc
  import opened HeapModel
  import opened HeapSpec
  import opened SlabSpec

  /** The heap blocks of a pool with n items of the given size. */
  function Need(n: int, size: int): int { ReqBlocks(POOL_HEADER + n * size) }

  /** Where a pool goes: the highest place for long-term slabs, the lowest for the others. */
  ghost predicate Fit(longTerm: bool, live: Areas, s: int, need: int, b: int) {
    if longTerm then LastFit(live, s, need, b) else FirstFit(live, s, need, b)
  }

  /** The address lies among the items of the pool in area b. */
  predicate InPool(b: int, n: int, size: int, mem: int) { Addr(b, 0, size) <= mem < Addr(b, n, size) }

  lemma PoolFits(n: int, size: int)
    requires 1 <= n <= 8 && 1 <= size <= 255
    ensures 0 < n * size <= 2040 && 0 < Need(n, size)
    ensures POOL_HEADER + n * size + BLOCK_OVERHEAD <= BLOCK_SIZE * Need(n, size)
    ensures BLOCK_SIZE * (Need(n, size) - 1) < POOL_HEADER + n * size + BLOCK_OVERHEAD
  {
  }

  /** The item that an address in a pool belongs to. */
  lemma ItemIndex(b: int, n: int, size: int, mem: int)
    requires 1 <= n <= 8 && 1 <= size && InPool(b, n, size, mem)
    ensures var j := (mem - Addr(b, 0, size)) / size;
            0 <= j < n && Addr(b, j, size) <= mem && ((mem - Addr(b, 0, size)) % size == 0 <==> mem == Addr(b, j, size))
  {
  }

  lemma Division(off: int, size: int)
    requires 0 <= off && 1 <= size
    ensures off == (off / size) * size + off % size && 0 <= off / size && 0 <= off % size < size
  {
  }

  /** Items of one pool have different addresses. */
  lemma ItemsApart(b: int, j: int, k: int, size: int)
    requires 1 <= size && j != k
    ensures Addr(b, j, size) != Addr(b, k, size)
  {
  }

  lemma ItemInPool(b: int, n: int, j: int, size: int)
    requires 0 <= j < n && 1 <= size
    ensures InPool(b, n, size, Addr(b, j, size))
  {
  }

  /** The bytes of an item lie in the user part of the area, behind the pool's own fields and before the guard. */
  lemma ItemInside(live: Areas, b: int, n: int, j: int, size: int, i: int)
    requires 1 <= n <= 8 && 1 <= size <= 255 && b in live && live[b].blocks == Need(n, size)
    requires 0 <= j < n && Addr(b, j, size) <= i < Addr(b, j, size) + size
    ensures InArea(live, b, i) && InArea(live, b, i - POOL_HEADER) && InArea(live, b, i + 1)
  {
    hide Need;
    PoolFits(n, size);
    ItemOffset(j, n, size);
  }

  lemma ItemOffset(j: int, n: int, size: int)
    requires 0 <= j < n && 1 <= size
    ensures 0 <= j * size && j * size + size <= n * size
  {
    assert (j + 1) * size <= n * size;
  }

  lemma ItemsInOrder(b: int, j: int, k: int, size: int)
    requires 0 <= j < k && 1 <= size
    ensures Addr(b, j, size) + size <= Addr(b, k, size)
  {
    assert (j + 1) * size <= k * size;
  }

  /** No two allocated items share a byte, whatever pools they are in. */
  lemma AllocatedApart(s: Slab, b: int, j: int, c: int, k: int)
    requires s.Valid() && HasItem(s.pools, s.n, b, j) && HasItem(s.pools, s.n, c, k) && (b != c || j != k)
    ensures var x, y := Addr(b, j, s.size), Addr(c, k, s.size); x + s.size <= y || y + s.size <= x
  {
    if b == c {
      if j < k {
        ItemsInOrder(b, j, k, s.size);
      } else {
        ItemsInOrder(b, k, j, s.size);
      }
    } else {
      var h, home := s.hp.hdr[..], s.hp.home;
      PoolArea(s, b, j);
      PoolArea(s, c, k);
      hide HeapInv, LiveOf, SlabInv, Addr;
      LiveAreaIn(h, s.hp.link[..], home, s.hp.free, b);
      LiveAreaIn(h, s.hp.link[..], home, s.hp.free, c);
      TwoAreasApart(h, s.hp.link[..], home, s.hp.free, b, c);
      ItemBlocks(s, b, j);
      ItemBlocks(s, c, k);
    }
  }

  lemma PoolArea(s: Slab, b: int, j: int)
    requires s.Valid() && HasItem(s.pools, s.n, b, j)
    ensures 1 <= s.n <= 8 && 0 <= j < s.n && b in s.hp.Live() && s.hp.Live()[b].blocks == Need(s.n, s.size)
  {
    var i :| 0 <= i < |s.pools| && s.pools[i].block == b;
    assert InHeap(s.pools[i], s.hp.Live(), s.hp.mem[..], s.pid, Need(s.n, s.size));
  }

  lemma ItemBlocks(s: Slab, b: int, j: int)
    requires s.Valid() && HasItem(s.pools, s.n, b, j)
    ensures |s.hp.home| < s.hp.hdr.Length && b in s.hp.Live()
    ensures var x := Addr(b, j, s.size);
            BLOCK_SIZE * b <= x && x + s.size <= BLOCK_SIZE * (b + s.hp.Live()[b].blocks)
  {
    PoolArea(s, b, j);
    var x := Addr(b, j, s.size);
    ItemInside(s.hp.Live(), b, s.n, j, s.size, x);
    ItemInside(s.hp.Live(), b, s.n, j, s.size, x + s.size - 1);
  }

  /** A pool counts as full exactly when all its items are allocated. */
  lemma FullMeans(p: Pool, i: int, n: int)
    requires PoolOk(p, i, n) && 1 <= n <= 8
    ensures p.alloc == Full(n) <==> forall j :: 0 <= j < n ==> Test(p.alloc, j)
  {
    hide Test, Full;
    if p.alloc == Full(n) {
      forall j | 0 <= j < n ensures Test(p.alloc, j) {
        TestFullLow(n, j);
      }
    } else {
      NotFull(p, i, n);
    }
  }

  /** The items of different areas do not overlap. */
  lemma PoolsApart(h: seq<Header>, home: seq<int>, a: int, b: int, n: int, size: int, mem: int)
    requires Tiled(h, home) && 1 <= n <= 8 && 1 <= size <= 255
    requires a in LiveOf(h, home) && b in LiveOf(h, home)
    requires LiveOf(h, home)[a].blocks == Need(n, size) == LiveOf(h, home)[b].blocks
    requires InPool(a, n, size, mem) && InPool(b, n, size, mem)
    ensures a == b
  {
    PoolFits(n, size);
    assert 0 * size == 0;
    if a < b {
      LiveAreasDisjoint(h, home, a, b);
    } else if b < a {
      LiveAreasDisjoint(h, home, b, a);
    }
  }

  // ---------------------------------------------------------------------------------------------
  // Changing one pool
  // ---------------------------------------------------------------------------------------------

  lemma OnePool(pools: seq<Pool>, i: int, p: Pool, n: int, b: int, j: int)
    requires Distinct(pools) && 0 <= i < |pools| && p.block == pools[i].block
    ensures Distinct(pools[i := p])
    ensures HasItem(pools[i := p], n, b, j) <==>
              if b == p.block then 0 <= j < n && Test(p.alloc, j) else HasItem(pools, n, b, j)
    ensures HasMark(pools[i := p], n, b, j) <==>
              if b == p.block then 0 <= j < n && Test(p.mark, j) else HasMark(pools, n, b, j)
    ensures HasItem(pools, n, p.block, j) <==> 0 <= j < n && Test(pools[i].alloc, j)
    ensures HasMark(pools, n, p.block, j) <==> 0 <= j < n && Test(pools[i].mark, j)
  {
    hide Test;
    var q := pools[i := p];
    assert forall k :: 0 <= k < |pools| && k != i ==> q[k] == pools[k] && pools[k].block != p.block;
    assert q[i] == p;
  }

  class Slab {
    const hp: Heap
    const pid: byte
    /** num_items_per_pool, item_size, empty_vector, and the flag SLAB_LONGTERM. */
    var n: int
    var size: int
    var empty: bv8
    var longTerm: bool
    /** The list of pools that starts at head. */
    var pools: seq<Pool>

    ghost predicate Valid()
      reads this, hp, hp.hdr, hp.link, hp.mem
    {
      && hp.Valid() && 1 <= size <= 255 && empty == Full(n)
      && SlabInv(pools, n, hp.Live(), hp.mem[..], pid, Need(n, size))
    }

    constructor (heap: Heap, id: byte)
      ensures hp == heap && pid == id && pools == []
    {
      hp, pid := heap, id;
      n, size, empty, longTerm, pools := 0, 0, 0, false, [];
    }

    /** A new pool in the heap; the address is NULL exactly when no run of free blocks is long enough. */
    method NewPool() returns (block: int)
      requires hp.Valid() && 1 <= n <= 8 && 1 <= size <= 255
      modifies hp, hp.hdr, hp.link, hp.mem
      ensures hp.Valid() && (block == NULL <==> NoFit(old(hp.Live()), hp.S(), Need(n, size)))
      ensures block == NULL ==> hp.Live() == old(hp.Live())
      ensures block != NULL ==>
                block !in old(hp.Live()) && hp.Live() == old(hp.Live())[block := Area(Need(n, size), pid)]
      ensures block != NULL ==> GuardIn(hp.Live(), hp.mem[..], block)
      ensures block != NULL ==> Fit(longTerm, old(hp.Live()), hp.S(), Need(n, size), block)
      ensures SameAreaBytes(old(hp.Live()), old(hp.mem[..]), hp.mem[..])
    {
      hide HeapInv, LiveOf, FreeRun, Need;
      HeapSized(hp);
      PoolFits(n, size);
      NeedIs(n, size);
      LiveHeaders(hp);
      if longTerm {
        block := hp.LongTermAlloc(POOL_HEADER + n * size, pid);
      } else {
        block := hp.Alloc(POOL_HEADER + n * size, pid);
      }
      if block != NULL {
        NewAreaApart(old(hp.Live()), hp.S(), block, Need(n, size));
        LiveHeaders(hp);
      }
    }

    /** ker_slab_init. */
    method Init(itemSize: int, items: int, flagLongTerm: bool) returns (ok: bool)
      requires hp.Valid() && 1 <= items < 256 && 1 <= itemSize <= 255
      modifies this, hp, hp.hdr, hp.link, hp.mem
      ensures hp.Valid() && (ok <==> items <= 8 && !NoFit(old(hp.Live()), hp.S(), Need(items, itemSize)))
      ensures !ok ==> hp.Live() == old(hp.Live())
      ensures ok ==>
                Valid() && |pools| == 1 && n == items && size == itemSize && forall b, j :: !HasItem(pools, n, b, j)
      ensures ok ==> pools[0].block !in old(hp.Live())
                     && hp.Live() == old(hp.Live())[pools[0].block := Area(Need(items, itemSize), pid)]
      ensures ok ==> longTerm == flagLongTerm
                     && Fit(longTerm, old(hp.Live()), hp.S(), Need(items, itemSize), pools[0].block)
    {
      if items > 8 {
        return false;
      }
      n, size, longTerm := items, itemSize, flagLongTerm;
      empty := FullVector(items);
      hide HeapInv, LiveOf, Need, Full, Test;
      HeapSized(hp);
      var head := NewPool();
      if head == NULL {
        pools := [];
        return false;
      }
      pools := [Pool(head, 0, 0)];
      assert forall j :: !Test(0, j) by {
        forall j ensures !Test(0, j) { TestNothing(j); }
      }
      return true;
    }

    /** ker_slab_alloc: some item that was free, in the first pool with room or in a new pool. */
    method AllocItem() returns (r: int, ghost b: int, ghost j: int)
      requires Valid()
      modifies this`pools, hp, hp.hdr, hp.link, hp.mem
      ensures Valid()
      ensures r == NULL <==> (forall i :: 0 <= i < |old(pools)| ==> old(pools)[i].alloc == empty)
                             && NoFit(old(hp.Live()), hp.S(), Need(n, size))
      ensures r == NULL ==> pools == old(pools) && hp.Live() == old(hp.Live())
      ensures r != NULL ==> 0 <= j < n && r == Addr(b, j, size) && !HasItem(old(pools), n, b, j)
      ensures r != NULL ==> FirstFree(old(pools), empty, b, j)
      ensures r != NULL ==> forall c, k :: HasItem(pools, n, c, k) <==>
                HasItem(old(pools), n, c, k) || (c == b && k == j)
      ensures forall c, k :: HasMark(pools, n, c, k) <==> HasMark(old(pools), n, c, k)
      ensures r != NULL ==>
                hp.Live() == if b in old(hp.Live()) then old(hp.Live())
                             else old(hp.Live())[b := Area(Need(n, size), pid)]
      ensures r != NULL && b !in old(hp.Live()) ==> Fit(longTerm, old(hp.Live()), hp.S(), Need(n, size), b)
    {
      hide HeapInv, LiveOf, Need, Full, Test, Mask, SlabInv, HasItem, HasMark, GuardIn, Addr, FreeRun, IsPool;
      HeapSized(hp);
      Bounds();
      var i := 0;
      while i < |pools| && pools[i].alloc == empty
        invariant 0 <= i <= |pools| && forall k :: 0 <= k < i ==> pools[k].alloc == empty
      {
        i := i + 1;
      }
      if i == |pools| {
        ghost var p0, live0, m0 := pools, hp.Live(), hp.mem[..];
        var block := NewPool();
        if block == NULL {
          HeapSized(hp);
          SameSlab(pools, n, live0, m0, hp.mem[..], pid, size);
          return NULL, 0, 0;
        }
        HeapSized(hp);
        GrowSlab(p0, n, live0, m0, hp.Live(), hp.mem[..], pid, size, block);
        pools := pools + [Pool(block, 1, 0)];
        AddrIsNotNull(hp, block, 0, size);
        NotYetAPool(p0, n, live0, m0, pid, size, block);
        return Addr(block, 0, size), block, 0;
      }
      var p := pools[i];
      PoolIsOk(i);
      var bit := LowestClear(p, n, i);
      SetOne(pools, i, bit, n, hp.Live(), hp.mem[..], pid, Need(n, size));
      pools := pools[i := p.(alloc := p.alloc | Mask(bit))];
      AddrIsNotNull(hp, p.block, bit, size);
      assert RoomIn(old(pools), empty, i);
      return Addr(p.block, bit, size), p.block, bit;
    }

    /** ker_slab_free while no collection is under way; false stands for ker_panic. */
    method FreeItem(mem: int) returns (ok: bool, ghost b: int, ghost j: int)
      requires Valid() && forall i :: 0 <= i < |pools| ==> pools[i].mark == 0
      modifies this`pools, hp`free, hp.hdr, hp.link, hp.mem
      ensures Valid()
      ensures ok <==> exists i :: 0 <= i < |old(pools)| && InPool(old(pools)[i].block, n, size, mem)
      ensures !ok ==> pools == old(pools) && hp.Live() == old(hp.Live())
      ensures ok ==> IsPool(old(pools), b) && InPool(b, n, size, mem) && j == (mem - Addr(b, 0, size)) / size
      ensures ok ==> forall c, k :: HasItem(pools, n, c, k) <==> HasItem(old(pools), n, c, k) && !(c == b && k == j)
      ensures ok ==> hp.Live() == if IsPool(pools, b) then old(hp.Live()) else old(hp.Live()) - {b}
      ensures ok ==> (IsPool(pools, b) <==> b == old(pools)[0].block || exists k :: HasItem(pools, n, b, k))
      ensures forall i :: 0 <= i < |pools| ==> pools[i].mark == 0
    {
      hide HeapInv, LiveOf, Need, Full, Test, Mask, SlabInv, HasItem, HasMark, GuardIn, Addr, InPool, Emptied,
           SameAreaBytes, IsPool;
      HeapSized(hp);
      Bounds();
      b, j := 0, 0;
      var i := FindPool(mem);
      if i == |pools| {
        return false, b, j;
      }
      var block := pools[i].block;
      ItemIndex(block, n, size, mem);
      b, j, ok := block, (mem - Addr(block, 0, size)) / size, true;
      var bit := (mem - Addr(block, 0, size)) / size;
      ClearItem(i, bit);
    }

    /** The item is given back, and its pool with it when that was the last item of a pool behind the first. */
    method ClearItem(i: int, bit: int)
      requires Valid() && 0 <= i < |pools| && 0 <= bit < n && forall i :: 0 <= i < |pools| ==> pools[i].mark == 0
      modifies this`pools, hp`free, hp.hdr, hp.link, hp.mem
      ensures Valid() && Cleared(old(pools), pools, n, old(pools)[i].block, bit, old(hp.Live()), hp.Live())
    {
      hide HeapInv, LiveOf, Need, Full, Drop, SlabInv, Emptied, InHeap, Unset, Cleared;
      HeapSized(hp);
      ghost var q, live := pools, hp.Live();
      var p := pools[i];
      var p1 := p.(alloc := Drop(p.alloc, bit));
      ClearOne(pools, i, bit, n, hp.Live(), hp.mem[..], pid, Need(n, size));
      pools := pools[i := p1];
      if p1.alloc == 0 && i != 0 {
        ghost var q1 := pools;
        DropEmptied(i);
        ClearedPool(q, q1, pools, i, n, bit, live);
      } else {
        ClearedItem(q, pools, i, n, bit, live);
      }
    }

    /** The pool i, which is empty, leaves the list and the heap. */
    method DropEmptied(i: int)
      requires hp.Valid() && 1 <= size <= 255 && empty == Full(n)
      requires Emptied(pools, i, n, hp.Live(), hp.mem[..], pid, Need(n, size))
      requires InHeap(pools[i], hp.Live(), hp.mem[..], pid, Need(n, size))
      modifies this`pools, hp`free, hp.hdr, hp.link, hp.mem
      ensures Valid() && pools == old(pools)[..i] + old(pools)[i + 1..] && !IsPool(pools, old(pools)[i].block)
      ensures hp.Live() == old(hp.Live()) - {old(pools)[i].block}
      ensures forall b, k :: HasItem(pools, n, b, k) <==> HasItem(old(pools), n, b, k)
    {
      hide HeapInv, LiveOf, Need, Full, SlabInv, HasItem, SameAreaBytes, IsPool;
      HeapSized(hp);
      ghost var live, m, q := hp.Live(), hp.mem[..], pools;
      var block := pools[i].block;
      pools := pools[..i] + pools[i + 1..];
      FreeArea(block);
      HeapSized(hp);
      DropOne(q, i, n, live, m, hp.mem[..], pid, size);
    }

    /** ker_free of a pool. */
    method FreeArea(block: int)
      requires hp.Valid() && block in hp.Live() && hp.Live()[block].owner == pid
               && GuardIn(hp.Live(), hp.mem[..], block)
      modifies hp`free, hp.hdr, hp.link, hp.mem
      ensures hp.Valid() && hp.Live() == old(hp.Live()) - {block}
      ensures SameAreaBytes(hp.Live(), old(hp.mem[..]), hp.mem[..])
    {
      hide HeapInv;
      HeapSized(hp);
      ghost var live := hp.Live();
      LiveInRange(hp, block);
      hp.Free(block);
      assert forall a, k :: InArea(hp.Live(), a, k) ==> InArea(live, a, k);
    }

    /** slab_gc_mark: a live item is marked; any other address is passed over. */
    method GcMarkItem(mem: int)
      requires Valid()
      modifies this`pools
      ensures Valid()
      ensures forall b, j :: HasItem(pools, n, b, j) <==> HasItem(old(pools), n, b, j)
      ensures forall b, j :: HasMark(pools, n, b, j) <==>
                HasMark(old(pools), n, b, j) || (HasItem(old(pools), n, b, j) && Addr(b, j, size) == mem)
    {
      hide Test, Mask, Full, HasItem, HasMark, Addr, InPool, SlabInv, Need;
      var i := FindPool(mem);
      if i == |pools| {
        NoSuchItem(mem);
        return;
      }
      var p := pools[i];
      var off := mem - Addr(p.block, 0, size);
      Bounds();
      ItemIndex(p.block, n, size, mem);
      var j := off / size;
      if off % size == 0 {
        if Hit(p.alloc, Mask(j)) {
          var p1 := p.(mark := p.mark | Mask(j));
          MarkOne(pools, i, j, n, hp.Live(), hp.mem[..], pid, Need(n, size));
          OnlyItem(i, j, mem);
          pools := pools[i := p1];
          return;
        }
      }
      NotAnItem(i, j, mem);
    }

    /** The address of pool i is not that of an allocated item: it is misaligned, or the item is free. */
    lemma NotAnItem(i: int, j: int, mem: int)
      requires Valid() && 0 <= i < |pools| && InPool(pools[i].block, n, size, mem)
      requires j == (mem - Addr(pools[i].block, 0, size)) / size
      requires (mem - Addr(pools[i].block, 0, size)) % size != 0 || !Hit(pools[i].alloc, Mask(j))
      ensures forall b, k :: HasItem(pools, n, b, k) ==> Addr(b, k, size) != mem
    {
      hide Test, InPool, Addr, HasItem, Mask;
      OnlyItem(i, j, mem);
      ItemIndex(pools[i].block, n, size, mem);
      HitIsTest(pools[i].alloc, j);
      OnePool(pools, i, pools[i], n, pools[i].block, j);
    }

    lemma PoolIsOk(i: int)
      requires Valid() && 0 <= i < |pools|
      ensures PoolOk(pools[i], i, n)
    {
    }

    lemma Bounds()
      requires Valid()
      ensures pools != [] && 1 <= n <= 8
    {
    }

    /** One round of slab_gc that keeps the pool: it is marked for malloc_gc. */
    method KeepPool(i: int, ghost p0: seq<Pool>, ghost j: int, ghost h0: seq<Header>, ghost live0: Areas,
                    ghost m0: seq<byte>)
      requires hp.Valid() && 0 <= i < |pools| && ListAt(p0, j, i, pools) && Survives(p0, j)
      requires Sweeping(p0, j, h0, live0, m0, hp.hdr[..], hp.Live(), hp.mem[..])
      requires InHeap(pools[i], hp.Live(), hp.mem[..], pid, Need(n, size))
      modifies this`pools, hp.hdr, hp.mem
      ensures hp.Valid() && ListAt(p0, j + 1, i + 1, pools) && |pools| == |old(pools)|
      ensures Sweeping(p0, j + 1, h0, live0, m0, hp.hdr[..], hp.Live(), hp.mem[..])
    {
      hide ListAt, Sweeping, HeapInv, SameAreaBytes, Survives, LiveOf;
      HeapSized(hp);
      ListStep(p0, j, i, pools);
      var p := pools[i];
      pools := pools[i := Pool(p.block, p.mark, 0)];
      ghost var h, live, m := hp.hdr[..], hp.Live(), hp.mem[..];
      LiveInRange(hp, p.block);
      var _ := GcMark(hp, pid, p.block);
      assert hp.hdr[..] == h[p.block := h[p.block].(marked := true)];
      KeepStep(p0, j, h0, live0, m0, h, live, m, hp.mem[..]);
    }

    /** One round of slab_gc that unlinks and frees the pool. */
    method DropPool(i: int, ghost p0: seq<Pool>, ghost j: int, ghost h0: seq<Header>, ghost live0: Areas,
                    ghost m0: seq<byte>)
      requires hp.Valid() && 0 <= i < |pools| && ListAt(p0, j, i, pools) && !Survives(p0, j)
      requires Sweeping(p0, j, h0, live0, m0, hp.hdr[..], hp.Live(), hp.mem[..])
      requires InHeap(pools[i], hp.Live(), hp.mem[..], pid, Need(n, size))
      modifies this`pools, hp`free, hp.hdr, hp.link, hp.mem
      ensures hp.Valid() && ListAt(p0, j + 1, i, pools) && |pools| == |old(pools)| - 1
      ensures Sweeping(p0, j + 1, h0, live0, m0, hp.hdr[..], hp.Live(), hp.mem[..])
    {
      hide ListAt, Sweeping, HeapInv, Survives;
      HeapSized(hp);
      ListStep(p0, j, i, pools);
      var p := pools[i];
      pools := pools[..i] + pools[i + 1..];
      ghost var h, live, m := hp.hdr[..], hp.Live(), hp.mem[..];
      hp.Free(p.block);
      assert forall a, k :: InArea(hp.Live(), a, k) ==> InArea(live, a, k);
      ReleaseStep(p0, j, h0, live0, m0, h, live, m, hp.hdr[..], hp.mem[..]);
    }

    /** slab_gc: the marks become the allocations; pools without a marked item go, but for the first. */
    method SlabGc()
      requires Valid()
      modifies this`pools, hp`free, hp.hdr, hp.link, hp.mem
      ensures Valid() && pools == Survivors(old(pools))
      ensures Sweeping(old(pools), |old(pools)|, old(hp.hdr[..]), old(hp.Live()), old(hp.mem[..]),
                       hp.hdr[..], hp.Live(), hp.mem[..])
    {
      hide ListAt, Sweeping, HeapInv, LiveOf, PoolOk, InHeap, SlabInv, Full, Need, Survivors;
      HeapSized(hp);
      ghost var p0, h0, live0, m0 := pools, hp.hdr[..], hp.Live(), hp.mem[..];
      var i := 0;
      ghost var j := 0;
      ListEnds(p0, 0, 0, pools);
      SweepingStart(p0);
      while i < |pools|
        invariant 0 <= i <= |pools| && 0 <= j && hp.Valid() && ListAt(p0, j, i, pools)
        invariant Sweeping(p0, j, h0, live0, m0, hp.hdr[..], hp.Live(), hp.mem[..])
        decreases |p0| - j
      {
        ListStep(p0, j, i, pools);
        NeedIsPositive(p0, n, size, live0, m0, pid);
        StillThere(p0, j, h0, live0, m0, hp.hdr[..], hp.Live(), hp.mem[..], n, pid, Need(n, size), j);
        var p := pools[i];
        SurvivesWhen(p0, j, i, pools, n);
        if p.alloc != p.mark && p.mark == 0 && i != 0 {
          DropPool(i, p0, j, h0, live0, m0);
        } else {
          KeepPool(i, p0, j, h0, live0, m0);
          i := i + 1;
        }
        j := j + 1;
      }
      ListEnds(p0, j, i, pools);
      forall k {:trigger Survives(p0, k)} | Survives(p0, k)
        ensures InHeap(p0[k], hp.Live(), hp.mem[..], pid, Need(n, size))
      {
        NeedIsPositive(p0, n, size, live0, m0, pid);
        StillThere(p0, j, h0, live0, m0, hp.hdr[..], hp.Live(), hp.mem[..], n, pid, Need(n, size), k);
      }
      SurvivorsInv(p0, n, live0, m0, hp.Live(), hp.mem[..], pid, Need(n, size));
    }

    /**
      The two collectors together, slab_gc and then malloc_gc for the same owner: exactly the marked
      items stay allocated; the first pool and every pool with a marked item stay in the heap and the
      other pools leave it; all marks are gone; and of the other areas of the owner those stay that
      were marked, or whose guard byte is damaged.
     */
    method Collect()
      requires Valid()
      modifies this`pools, hp`free, hp.hdr, hp.link, hp.mem
      ensures Valid() && pools == Survivors(old(pools))
      ensures forall b, j :: HasItem(pools, n, b, j) <==> HasMark(old(pools), n, b, j)
      ensures forall b, j :: !HasMark(pools, n, b, j)
      ensures Collected(old(pools), old(hp.hdr[..]), old(hp.Live()), old(hp.mem[..]), hp.Live(), pid)
      ensures forall a :: a in hp.Live() && hp.Live()[a].owner == pid ==> 0 <= a < hp.hdr.Length && !hp.hdr[a].marked
      ensures SameAreaBytes(hp.Live(), old(hp.mem[..]), hp.mem[..])
    {
      hide Survivors, HeapInv, LiveOf, SlabInv, Full, Need, Sweeping, LeakSet, SameAreaBytes, GuardIn, HasItem,
           HasMark, Collected;
      HeapSized(hp);
      Bounds();
      ghost var p0, h0, live0, m0 := pools, hp.hdr[..], hp.Live(), hp.mem[..];
      LiveHeaders(hp);
      NeedIsPositive(p0, n, size, live0, m0, pid);
      SlabGc();
      ghost var h1, live1, m1 := hp.hdr[..], hp.Live(), hp.mem[..];
      LiveHeaders(hp);
      CollectedBy(p0, h0, live0, m0, h1, live1, m1, n, pid, Need(n, size));
      MallocGc(hp, pid);
      LiveHeaders(hp);
      CollectedInv(p0, n, size, h0, live0, m0, h1, live1, m1, hp.Live(), hp.mem[..], pid);
      forall b, j
        ensures HasItem(pools, n, b, j) <==> HasMark(p0, n, b, j)
        ensures !HasMark(pools, n, b, j)
      {
        SurvivorItems(p0, n, b, j);
      }
    }

    lemma SweepingStart(p0: seq<Pool>)
      requires hp.Valid()
      ensures Sweeping(p0, 0, hp.hdr[..], hp.Live(), hp.mem[..], hp.hdr[..], hp.Live(), hp.mem[..])
    {
    }

    /** The pool whose items the address lies among, or the number of pools. */
    method FindPool(mem: int) returns (i: int)
      requires Valid()
      ensures 0 <= i <= |pools| && (i < |pools| ==> InPool(pools[i].block, n, size, mem))
      ensures forall k :: 0 <= k < i ==> !InPool(pools[k].block, n, size, mem)
    {
      i := 0;
      while i < |pools|
        invariant 0 <= i <= |pools|
        invariant forall k :: 0 <= k < i ==> !InPool(pools[k].block, n, size, mem)
      {
        if InPool(pools[i].block, n, size, mem) {
          return;
        }
        i := i + 1;
      }
    }

    lemma NoSuchItem(mem: int)
      requires Valid() && forall k :: 0 <= k < |pools| ==> !InPool(pools[k].block, n, size, mem)
      ensures forall b, j :: HasItem(pools, n, b, j) ==> Addr(b, j, size) != mem
    {
      hide Test, InPool, Addr;
      forall b, j | HasItem(pools, n, b, j)
        ensures Addr(b, j, size) != mem
      {
        ItemInPool(b, n, j, size);
        var k :| 0 <= k < |pools| && pools[k].block == b && Test(pools[k].alloc, j);
      }
    }

    /** Within pool i only item j can have the address, and no item of another pool has it. */
    lemma OnlyItem(i: int, j: int, mem: int)
      requires Valid() && 0 <= i < |pools| && InPool(pools[i].block, n, size, mem)
      requires j == (mem - Addr(pools[i].block, 0, size)) / size
      ensures forall b, k :: HasItem(pools, n, b, k) && Addr(b, k, size) == mem ==> b == pools[i].block && k == j
    {
      hide Test, InPool, Addr, Need;
      forall b, k | HasItem(pools, n, b, k) && Addr(b, k, size) == mem
        ensures b == pools[i].block && k == j
      {
        ItemInPool(b, n, k, size);
        var l :| 0 <= l < |pools| && pools[l].block == b && Test(pools[l].alloc, k);
        assert InHeap(pools[l], hp.Live(), hp.mem[..], pid, Need(n, size));
        assert InHeap(pools[i], hp.Live(), hp.mem[..], pid, Need(n, size));
        PoolsApart(hp.hdr[..], hp.home, b, pools[i].block, n, size, mem);
        ItemIndex(b, n, size, mem);
        if k != j {
          ItemsApart(b, k, j, size);
          SameItem(b, k, size, mem);
        }
      }
    }
  }

  lemma SameItem(b: int, k: int, size: int, mem: int)
    requires 0 <= k && 1 <= size && mem == Addr(b, k, size)
    ensures (mem - Addr(b, 0, size)) / size == k
  {
    assert 0 * size == 0 && mem - Addr(b, 0, size) == k * size;
    Division(k * size, size);
    var q := k * size / size;
    assert (q + 1) * size == q * size + size && (k + 1) * size == k * size + size;
    Compare(k, q + 1, size);
    Compare(q, k + 1, size);
  }

  lemma Compare(a: int, b: int, size: int)
    requires 1 <= size && a * size < b * size
    ensures a < b
  {
  }

  lemma MarkOne(pools: seq<Pool>, i: int, j: int, n: int, live: Areas, m: seq<byte>, pid: byte, need: int)
    requires SlabInv(pools, n, live, m, pid, need) && 0 <= i < |pools| && 0 <= j < n && Hit(pools[i].alloc, Mask(j))
    ensures var q := pools[i := pools[i].(mark := pools[i].mark | Mask(j))];
            && SlabInv(q, n, live, m, pid, need)
            && (forall b, k :: HasItem(q, n, b, k) <==> HasItem(pools, n, b, k))
            && (forall b, k :: HasMark(q, n, b, k) <==> HasMark(pools, n, b, k) || (b == pools[i].block && k == j))
            && HasItem(pools, n, pools[i].block, j)
  {
    hide Test, Mask, HasItem, HasMark;
    var p := pools[i].(mark := pools[i].mark | Mask(j));
    HitIsTest(pools[i].alloc, j);
    assert PoolOk(pools[i], i, n) && InHeap(pools[i], live, m, pid, need);
    forall k | 0 <= k < 8
      ensures Test(p.mark, k) <==> Test(pools[i].mark, k) || k == j
    {
      TestSet(pools[i].mark, j, k);
    }
    forall b, k
      ensures HasItem(pools[i := p], n, b, k) <==> HasItem(pools, n, b, k)
      ensures HasMark(pools[i := p], n, b, k) <==> HasMark(pools, n, b, k) || (b == pools[i].block && k == j)
    {
      OnePool(pools, i, p, n, b, k);
    }
    OnePool(pools, i, p, n, p.block, j);
    assert forall k {:trigger PoolOk(pools[i := p][k], k, n)} :: 0 <= k < |pools| ==>
             PoolOk(pools[k], k, n) ==> PoolOk(pools[i := p][k], k, n);
    assert forall k {:trigger InHeap(pools[i := p][k], live, m, pid, need)} :: 0 <= k < |pools| ==>
        InHeap(pools[k], live, m, pid, need) ==> InHeap(pools[i := p][k], live, m, pid, need);
  }

  lemma HitIsTest(b: bv8, j: int)
    ensures Hit(b, Mask(j)) <==> Test(b, j)
  {
  }

  lemma NeedIsPositive(pools: seq<Pool>, n: int, size: int, live: Areas, m: seq<byte>, pid: byte)
    requires SlabInv(pools, n, live, m, pid, Need(n, size)) && 1 <= size <= 255
    ensures 0 < Need(n, size)
  {
  }

  /** What the test of slab_gc amounts to. */
  lemma SurvivesWhen(p0: seq<Pool>, j: int, i: int, pools: seq<Pool>, n: int)
    requires ListAt(p0, j, i, pools) && j < |p0| && i < |pools| && pools[i] == p0[j] && PoolOk(p0[j], j, n)
    ensures Survives(p0, j) <==> !(pools[i].alloc != pools[i].mark && pools[i].mark == 0 && i != 0)
  {
  }

  lemma HeapSized(hp: Heap)
    requires hp.Valid()
    ensures |hp.home| < hp.hdr.Length
  {
  }

  lemma LiveInRange(hp: Heap, b: int)
    requires hp.Valid() && b in hp.Live()
    ensures 0 <= b < hp.hdr.Length && hp.Live()[b] == Area(hp.hdr[b].blocks, hp.hdr[b].owner) && 1 <= hp.hdr[b].blocks
  {
    assert Covers(hp.hdr[..], hp.home, b);
  }

  lemma LiveHeaders(hp: Heap)
    requires hp.Valid()
    ensures forall b :: b in hp.Live() ==>
              0 <= b < hp.hdr.Length && hp.Live()[b] == Area(hp.hdr[b].blocks, hp.hdr[b].owner)
                && 1 <= hp.Live()[b].blocks
  {
    hide HeapInv, LiveOf;
    HeapSized(hp);
    forall b | b in hp.Live()
      ensures 0 <= b < hp.hdr.Length && hp.Live()[b] == Area(hp.hdr[b].blocks, hp.hdr[b].owner)
              && 1 <= hp.Live()[b].blocks
    {
      LiveInRange(hp, b);
    }
  }

  /** After both collections the survivors are again a slab, and no byte of a live area has changed. */
  lemma CollectedInv(p0: seq<Pool>, n: int, size: int, h0: seq<Header>, live0: Areas, m0: seq<byte>,
                     h1: seq<Header>, live1: Areas, m1: seq<byte>, live: Areas, m: seq<byte>, pid: byte)
    requires SlabInv(p0, n, live0, m0, pid, Need(n, size)) && 0 < Need(n, size)
    requires Sweeping(p0, |p0|, h0, live0, m0, h1, live1, m1)
    requires Collected(p0, h0, live0, m0, live, pid)
    requires live == live1 - LeakSet(h1, live1, m1, pid) && SameAreaBytes(live, m1, m)
    ensures SlabInv(Survivors(p0), n, live, m, pid, Need(n, size)) && SameAreaBytes(live, m0, m)
  {
    hide Survivors, Need, LeakSet, PoolOk, Test;
    SameAreaBytesTrans(live1, live, m0, m1, m);
    forall k {:trigger Survives(p0, k)} | Survives(p0, k)
      ensures InHeap(p0[k], live, m, pid, Need(n, size))
    {
      assert InHeap(p0[k], live0, m0, pid, Need(n, size));
      var b := p0[k].block;
      assert InArea(live, b, BLOCK_SIZE * (b + live[b].blocks) - 1);
    }
    SurvivorsInv(p0, n, live0, m0, live, m, pid, Need(n, size));
  }

  lemma NeedIs(n: int, size: int)
    ensures Need(n, size) == ReqBlocks(POOL_HEADER + n * size)
  {
  }

  /** The loop of ker_slab_init that builds the empty vector. */
  method FullVector(items: int) returns (v: bv8)
    requires 0 <= items <= 8
    ensures v == Full(items)
  {
    hide Shl;
    var i := 0;
    v := 0;
    while i < items
      invariant 0 <= i <= items && v == Full(i)
    {
      FullStep(i);
      v := Shl(v) | 1;
      i := i + 1;
    }
  }

  /** The lowest free item of the first pool with room, or the first item of a new pool when all are full. */
  ghost predicate FirstFree(pools: seq<Pool>, full: bv8, b: int, j: int) {
    || (exists i :: RoomIn(pools, full, i) && pools[i].block == b && !Test(pools[i].alloc, j)
                    && forall k :: 0 <= k < j ==> Test(pools[i].alloc, k))
    || ((forall i :: 0 <= i < |pools| ==> pools[i].alloc == full) && !IsPool(pools, b) && j == 0)
  }

  ghost predicate RoomIn(pools: seq<Pool>, full: bv8, i: int) {
    0 <= i < |pools| && pools[i].alloc != full && forall k :: 0 <= k < i ==> pools[k].alloc == full
  }

  lemma NotYetAPool(pools: seq<Pool>, n: int, live: Areas, m: seq<byte>, pid: byte, size: int, b: int)
    requires SlabInv(pools, n, live, m, pid, Need(n, size)) && b !in live
    ensures !IsPool(pools, b)
  {
    forall i | 0 <= i < |pools|
      ensures pools[i].block != b
    {
      assert InHeap(pools[i], live, m, pid, Need(n, size));
    }
  }

  lemma AddrIsNotNull(hp: Heap, b: int, j: int, size: int)
    requires hp.Valid() && b in hp.Live() && 0 <= j && 1 <= size
    ensures Addr(b, j, size) != NULL
  {
  }

  /** The loop of ker_slab_alloc over the items of a pool that is not full. */
  method LowestClear(p: Pool, n: int, ghost i: int) returns (j: int)
    requires 1 <= n <= 8 && p.alloc != Full(n) && PoolOk(p, i, n)
    ensures 0 <= j < n && !Test(p.alloc, j) && forall k :: 0 <= k < j ==> Test(p.alloc, k)
  {
    hide Test, Mask, Full, Shl, Hit;
    NotFull(p, i, n);
    var mask: bv8 := 1;
    MaskZero();
    j := 0;
    while j < n
      invariant 0 <= j <= n && mask == Mask(j)
      invariant forall k :: 0 <= k < j ==> Test(p.alloc, k)
    {
      HitIsTest(p.alloc, j);
      if !Hit(p.alloc, mask) {
        return;
      }
      ShlMask(j);
      j, mask := j + 1, Shl(mask);
    }
  }

  lemma NotFull(p: Pool, i: int, n: int)
    requires PoolOk(p, i, n) && 1 <= n <= 8 && p.alloc != Full(n)
    ensures exists j :: 0 <= j < n && !Test(p.alloc, j)
  {
    hide Test, Full;
    SameBits(p.alloc, Full(n));
    var k :| 0 <= k < 8 && Test(p.alloc, k) != Test(Full(n), k);
    TestFullLow(n, k);
  }

  /** An area with intact bytes stays an intact area. */
  lemma SameSlab(pools: seq<Pool>, n: int, live: Areas, m: seq<byte>, m1: seq<byte>, pid: byte, size: int)
    requires SlabInv(pools, n, live, m, pid, Need(n, size)) && 1 <= size <= 255 && SameAreaBytes(live, m, m1)
    ensures SlabInv(pools, n, live, m1, pid, Need(n, size))
  {
    hide PoolOk, Need;
    PoolFits(n, size);
    forall i | 0 <= i < |pools|
      ensures InHeap(pools[i], live, m1, pid, Need(n, size))
    {
      assert InHeap(pools[i], live, m, pid, Need(n, size));
      var a := pools[i].block;
      assert InArea(live, a, BLOCK_SIZE * (a + live[a].blocks) - 1);
    }
  }

  lemma GrowSlab(pools: seq<Pool>, n: int, live: Areas, m: seq<byte>, live1: Areas, m1: seq<byte>,
                 pid: byte, size: int, b: int)
    requires SlabInv(pools, n, live, m, pid, Need(n, size)) && 1 <= size <= 255 && SameAreaBytes(live, m, m1)
    requires b !in live && live1 == live[b := Area(Need(n, size), pid)] && GuardIn(live1, m1, b)
    ensures var q := pools + [Pool(b, 1, 0)];
            && SlabInv(q, n, live1, m1, pid, Need(n, size)) && !HasItem(pools, n, b, 0)
            && (forall c, k :: HasItem(q, n, c, k) <==> HasItem(pools, n, c, k) || (c == b && k == 0))
            && (forall c, k :: HasMark(q, n, c, k) <==> HasMark(pools, n, c, k))
  {
    hide Need, Test;
    SameSlab(pools, n, live, m, m1, pid, size);
    var q := pools + [Pool(b, 1, 0)];
    forall k ensures Test(1, k) <==> k == 0 ensures !Test(0, k) {
      TestOne(k);
      TestNothing(k);
    }
    forall i | 0 <= i < |q|
      ensures PoolOk(q[i], i, n) && InHeap(q[i], live1, m1, pid, Need(n, size))
    {
      if i < |pools| {
        assert PoolOk(pools[i], i, n) && InHeap(pools[i], live, m1, pid, Need(n, size));
      }
    }
    forall i | 0 <= i < |pools|
      ensures pools[i].block != b
    {
      assert InHeap(pools[i], live, m, pid, Need(n, size));
    }
    assert forall i :: 0 <= i < |pools| ==> q[i] == pools[i];
    assert q[|pools|] == Pool(b, 1, 0);
  }

  lemma TestOne(k: int)
    ensures Test(1, k) <==> k == 0
  {
  }

  lemma SetOne(pools: seq<Pool>, i: int, j: int, n: int, live: Areas, m: seq<byte>, pid: byte, need: int)
    requires SlabInv(pools, n, live, m, pid, need) && 0 <= i < |pools| && 0 <= j < n && !Test(pools[i].alloc, j)
    ensures var q := pools[i := pools[i].(alloc := pools[i].alloc | Mask(j))];
            && SlabInv(q, n, live, m, pid, need) && !HasItem(pools, n, pools[i].block, j) && pools[i].block in live
            && (forall b, k :: HasItem(q, n, b, k) <==> HasItem(pools, n, b, k) || (b == pools[i].block && k == j))
            && (forall b, k :: HasMark(q, n, b, k) <==> HasMark(pools, n, b, k))
  {
    hide Test, Mask, HasItem, HasMark;
    var p := pools[i].(alloc := pools[i].alloc | Mask(j));
    assert PoolOk(pools[i], i, n) && InHeap(pools[i], live, m, pid, need);
    forall k | 0 <= k < 8
      ensures Test(p.alloc, k) <==> Test(pools[i].alloc, k) || k == j
    {
      TestSet(pools[i].alloc, j, k);
    }
    TestNothing(j);
    forall b, k
      ensures HasItem(pools[i := p], n, b, k) <==> HasItem(pools, n, b, k) || (b == pools[i].block && k == j)
      ensures HasMark(pools[i := p], n, b, k) <==> HasMark(pools, n, b, k)
    {
      OnePool(pools, i, p, n, b, k);
    }
    OnePool(pools, i, p, n, p.block, j);
    ReplacePool(pools, i, p, n, live, m, pid, need);
  }

  lemma ReplacePool(pools: seq<Pool>, i: int, p: Pool, n: int, live: Areas, m: seq<byte>, pid: byte, need: int)
    requires SlabInv(pools, n, live, m, pid, need) && 0 <= i < |pools| && p.block == pools[i].block && PoolOk(p, i, n)
    ensures SlabInv(pools[i := p], n, live, m, pid, need)
  {
    hide PoolOk;
    var q := pools[i := p];
    forall k | 0 <= k < |q|
      ensures PoolOk(q[k], k, n) && InHeap(q[k], live, m, pid, need)
    {
      assert PoolOk(pools[k], k, n) && InHeap(pools[k], live, m, pid, need);
    }
  }

  /** The bits without bit j. */
  function Drop(b: bv8, j: int): bv8 { b & !Mask(j) }

  lemma TestDrop(b: bv8, j: int, k: int)
    requires 0 <= j < 8 && 0 <= k < 8
    ensures Test(Drop(b, j), k) <==> k != j && Test(b, k)
  {
    TestClear(b, j, k);
  }

  lemma ClearOne(pools: seq<Pool>, i: int, j: int, n: int, live: Areas, m: seq<byte>, pid: byte, need: int)
    requires SlabInv(pools, n, live, m, pid, need) && 0 <= i < |pools| && 0 <= j < n && pools[i].mark == 0
    ensures var p := pools[i].(alloc := Drop(pools[i].alloc, j));
            var q := pools[i := p];
            && (p.alloc != 0 || i == 0 ==> SlabInv(q, n, live, m, pid, need))
            && (p.alloc == 0 && i != 0 ==> Emptied(q, i, n, live, m, pid, need)) && InHeap(p, live, m, pid, need)
            && Unset(pools, q, i, n, j)
  {
    hide Test, Drop, HasItem, HasMark;
    var p := pools[i].(alloc := Drop(pools[i].alloc, j));
    var q := pools[i := p];
    assert q[i].block == pools[i].block;
    assert PoolOk(pools[i], i, n) && InHeap(pools[i], live, m, pid, need);
    forall k | 0 <= k < 8
      ensures Test(p.alloc, k) <==> Test(pools[i].alloc, k) && k != j
    {
      TestDrop(pools[i].alloc, j, k);
    }
    forall k ensures !Test(0, k) { TestNothing(k); }
    forall b, k
      ensures HasItem(q, n, b, k) <==> HasItem(pools, n, b, k) && !(b == pools[i].block && k == j)
    {
      OnePool(pools, i, p, n, b, k);
    }
    ZeroByte(p.alloc);
    forall k
      ensures HasItem(q, n, p.block, k) <==> 0 <= k < n && Test(p.alloc, k)
    {
      OnePool(q, i, p, n, p.block, k);
    }
    if p.alloc != 0 {
      var k :| 0 <= k < 8 && Test(p.alloc, k);
      assert HasItem(q, n, p.block, k);
    }
    if p.alloc != 0 || i == 0 {
      ReplacePool(pools, i, p, n, live, m, pid, need);
    } else {
      forall k | 0 <= k < |q| && k != i
        ensures PoolOk(q[k], k, n) && InHeap(q[k], live, m, pid, need)
      {
        assert PoolOk(pools[k], k, n) && InHeap(pools[k], live, m, pid, need);
      }
    }
  }

  /** Item j of pool b is gone, and so is the pool when that was its last item and it is not the first pool. */
  ghost predicate Cleared(q0: seq<Pool>, q: seq<Pool>, n: int, b: int, j: int, live0: Areas, live: Areas) {
    && IsPool(q0, b) && (forall i :: 0 <= i < |q| ==> q[i].mark == 0)
    && (forall c, k :: HasItem(q, n, c, k) <==> HasItem(q0, n, c, k) && !(c == b && k == j))
    && live == (if IsPool(q, b) then live0 else live0 - {b})
    && (IsPool(q, b) <==> b == q0[0].block || exists k :: HasItem(q, n, b, k))
  }

  /** What ClearOne says of the pools q0 before and q after. */
  ghost predicate Unset(q0: seq<Pool>, q: seq<Pool>, i: int, n: int, j: int) {
    && 0 <= i < |q0| == |q| && q == q0[i := Pool(q0[i].block, q[i].alloc, q0[i].mark)]
    && (forall c, k :: HasItem(q, n, c, k) <==> HasItem(q0, n, c, k) && !(c == q0[i].block && k == j))
    && IsPool(q, q0[i].block) && IsPool(q0, q0[i].block)
    && (q[i].alloc != 0 <==> exists k :: HasItem(q, n, q0[i].block, k)) && (i != 0 ==> q0[0].block != q0[i].block)
  }

  lemma ClearedItem(q0: seq<Pool>, q: seq<Pool>, i: int, n: int, j: int, live: Areas)
    requires Unset(q0, q, i, n, j) && (q[i].alloc != 0 || i == 0) && forall k :: 0 <= k < |q0| ==> q0[k].mark == 0
    ensures Cleared(q0, q, n, q0[i].block, j, live, live)
  {
    hide HasItem, IsPool;
  }

  lemma ClearedPool(q0: seq<Pool>, q: seq<Pool>, r: seq<Pool>, i: int, n: int, j: int, live: Areas)
    requires Unset(q0, q, i, n, j) && q[i].alloc == 0 && i != 0 && forall k :: 0 <= k < |q0| ==> q0[k].mark == 0
    requires r == q[..i] + q[i + 1..] && !IsPool(r, q0[i].block)
    requires forall b, k :: HasItem(r, n, b, k) <==> HasItem(q, n, b, k)
    ensures Cleared(q0, r, n, q0[i].block, j, live, live - {q0[i].block})
  {
    hide HasItem, IsPool;
  }

  /** A slab but for pool i, which holds no item any more. */
  ghost predicate Emptied(pools: seq<Pool>, i: int, n: int, live: Areas, m: seq<byte>, pid: byte, need: int) {
    && 0 < i < |pools| && 1 <= n <= 8 && Distinct(pools) && pools[i].alloc == 0
    && (forall k {:trigger PoolOk(pools[k], k, n)} :: 0 <= k < |pools| && k != i ==> PoolOk(pools[k], k, n))
    && (forall k {:trigger InHeap(pools[k], live, m, pid, need)} :: 0 <= k < |pools| && k != i ==>
          InHeap(pools[k], live, m, pid, need))
  }

  lemma DropOne(pools: seq<Pool>, i: int, n: int, live: Areas, m: seq<byte>, m1: seq<byte>, pid: byte, size: int)
    requires Emptied(pools, i, n, live, m, pid, Need(n, size)) && 1 <= size <= 255
    requires SameAreaBytes(live - {pools[i].block}, m, m1)
    ensures var q := pools[..i] + pools[i + 1..];
            && SlabInv(q, n, live - {pools[i].block}, m1, pid, Need(n, size)) && !IsPool(q, pools[i].block)
            && (forall b, k :: HasItem(q, n, b, k) <==> HasItem(pools, n, b, k))
  {
    hide Need, Test;
    PoolFits(n, size);
    var q := pools[..i] + pools[i + 1..];
    var live1 := live - {pools[i].block};
    assert forall k :: 0 <= k < |q| ==> q[k] == pools[if k < i then k else k + 1];
    forall k | 0 <= k < |q|
      ensures PoolOk(q[k], k, n) && InHeap(q[k], live1, m1, pid, Need(n, size))
    {
      var l := if k < i then k else k + 1;
      assert PoolOk(pools[l], l, n) && InHeap(pools[l], live, m, pid, Need(n, size));
      var a := pools[l].block;
      assert InArea(live1, a, BLOCK_SIZE * (a + live[a].blocks) - 1);
    }
    forall b, k | 0 <= k < n
      ensures HasItem(q, n, b, k) <==> HasItem(pools, n, b, k)
    {
      TestNothing(k);
      if l :| 0 <= l < |pools| && pools[l].block == b && Test(pools[l].alloc, k) {
        assert q[if l < i then l else l - 1] == pools[l];
      }
    }
  }
}
