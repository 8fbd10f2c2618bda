/** The pools of kernel/slab.c, as values: which items are allocated and which are marked. */
module SlabSpec {
  import opened Bits
  import opened Common
  import opened HeapGc
  import opened HeapSpec

  /** sizeof(slab_item_t): the link and the two bit vectors in front of the items. */
  const POOL_HEADER := 4

  /** A pool: the heap area that holds it, and its bit vectors. */
  datatype Pool = Pool(block: int, alloc: bv8, mark: bv8)

  /** The address of item j of the pool in the given area. */
  function Addr(block: int, j: int, size: int): int { BLOCK_SIZE * block + HEADER + POOL_HEADER + j * size }

  /** Item j of the pool in area b is allocated, or marked. */
  ghost predicate HasItem(pools: seq<Pool>, n: int, b: int, j: int) {
    0 <= j < n && exists i :: 0 <= i < |pools| && pools[i].block == b && Test(pools[i].alloc, j)
  }

  ghost predicate HasMark(pools: seq<Pool>, n: int, b: int, j: int) {
    0 <= j < n && exists i :: 0 <= i < |pools| && pools[i].block == b && Test(pools[i].mark, j)
  }

  /** Bits beyond the items are clear, marks are on allocated items, and only the first pool may be empty. */
  ghost predicate PoolOk(p: Pool, i: int, n: int) {
    && (forall j :: n <= j < 8 ==> !Test(p.alloc, j))
    && (forall j :: 0 <= j < 8 && Test(p.mark, j) ==> Test(p.alloc, j))
    && (i > 0 ==> p.alloc != 0)
  }

  /** The pool is an area of pid with need blocks, and its guard byte is intact. */
  ghost predicate InHeap(p: Pool, live: Areas, m: seq<byte>, pid: byte, need: int) {
    p.block in live && live[p.block] == Area(need, pid) && GuardIn(live, m, p.block)
  }

  ghost predicate Distinct(pools: seq<Pool>) {
    forall i, j :: 0 <= i < j < |pools| ==> pools[i].block != pools[j].block
  }

  ghost predicate SlabInv(pools: seq<Pool>, n: int, live: Areas, m: seq<byte>, pid: byte, need: int) {
    && pools != [] && 1 <= n <= 8 && Distinct(pools)
    && (forall i {:trigger PoolOk(pools[i], i, n)} :: 0 <= i < |pools| ==> PoolOk(pools[i], i, n))
    && (forall i {:trigger InHeap(pools[i], live, m, pid, need)} :: 0 <= i < |pools| ==>
          InHeap(pools[i], live, m, pid, need))
  }

  // ---------------------------------------------------------------------------------------------
  // Collection
  // ---------------------------------------------------------------------------------------------

  ghost predicate Survives(pools: seq<Pool>, i: int) { 0 <= i < |pools| && (i == 0 || pools[i].mark != 0) }

  /** slab_gc on the pools: marks become allocations, and pools without one go, but for the first. */
  function Survivors(pools: seq<Pool>): (r: seq<Pool>)
    decreases |pools|
  {
    if pools == [] then [] else
    var k := |pools| - 1;
    Survivors(pools[..k]) + if k == 0 || pools[k].mark != 0 then [Pool(pools[k].block, pools[k].mark, 0)] else []
  }

  /** The survivors are the pools that survive, in order, each with its marked items. */
  lemma {:induction false} SurvivorsAre(pools: seq<Pool>, b: int, v: bv8)
    ensures (exists i :: 0 <= i < |Survivors(pools)| && Survivors(pools)[i] == Pool(b, v, 0)) <==>
            (exists i {:trigger Survives(pools, i)} :: Survives(pools, i) && pools[i].block == b && pools[i].mark == v)
    ensures forall i :: 0 <= i < |Survivors(pools)| ==> Survivors(pools)[i].mark == 0
    decreases |pools|
  {
    if pools != [] {
      var k := |pools| - 1;
      var init, s, s0 := pools[..k], Survivors(pools), Survivors(pools[..k]);
      SurvivorsAre(init, b, v);
      assert forall i :: 0 <= i < k ==> (Survives(pools, i) <==> Survives(init, i)) && pools[i] == init[i];
      if i :| Survives(pools, i) && pools[i].block == b && pools[i].mark == v {
        if i < k {
          assert Survives(init, i);
          var i' :| 0 <= i' < |s0| && s0[i'] == Pool(b, v, 0);
          assert s[i'] == s0[i'];
        } else {
          assert s[|s0|] == Pool(b, v, 0);
        }
      }
      if i :| 0 <= i < |s| && s[i] == Pool(b, v, 0) {
        if i < |s0| {
          assert s0[i] == s[i];
          var i' :| Survives(init, i') && init[i'].block == b && init[i'].mark == v;
          assert Survives(pools, i');
        } else {
          assert Survives(pools, k);
        }
      }
    }
  }

  /** After slab_gc exactly the marked items are allocated, and no mark is left. */
  lemma SurvivorItems(pools: seq<Pool>, n: int, b: int, j: int)
    requires n <= 8
    ensures HasItem(Survivors(pools), n, b, j) <==> HasMark(pools, n, b, j)
    ensures !HasMark(Survivors(pools), n, b, j)
  {
    hide Survivors, Test;
    var s := Survivors(pools);
    SurvivorsAre(pools, b, 0);
    if 0 <= j < n {
      TestNothing(j);
      if i :| 0 <= i < |s| && s[i].block == b && Test(s[i].alloc, j) {
        SurvivorsAre(pools, b, s[i].alloc);
        assert s[i] == Pool(b, s[i].alloc, 0);
        var k :| Survives(pools, k) && pools[k].block == b && pools[k].mark == s[i].alloc;
      }
      if k :| 0 <= k < |pools| && pools[k].block == b && Test(pools[k].mark, j) {
        SurvivorsAre(pools, b, pools[k].mark);
        assert Survives(pools, k);
        var i :| 0 <= i < |s| && s[i] == Pool(b, pools[k].mark, 0);
      }
    }
  }

  lemma TestNothing(j: int)
    ensures !Test(0, j)
  {
  }

  /** The areas of the first j pools that do not survive. */
  ghost function ReleasedTo(pools: seq<Pool>, j: int): set<int>
    requires 0 <= j <= |pools|
  {
    set i | 0 <= i < j && !Survives(pools, i) :: pools[i].block
  }

  ghost predicate KeptTo(pools: seq<Pool>, j: int, a: int)
    requires 0 <= j <= |pools|
  {
    exists i {:trigger Survives(pools, i)} :: 0 <= i < j && Survives(pools, i) && pools[i].block == a
  }

  /** slab_gc has dealt with the first j pools: the heap has lost some of them and marked the others. */
  ghost predicate Sweeping(pools: seq<Pool>, j: int, h0: seq<Header>, live0: Areas, m0: seq<byte>,
                           h: seq<Header>, live: Areas, m: seq<byte>) {
    && 0 <= j <= |pools| && |h| == |h0|
    && live == live0 - ReleasedTo(pools, j)
    && (forall a :: a in live ==> 0 <= a < |h| && h[a] == if KeptTo(pools, j, a) then h0[a].(marked := true) else h0[a])
    && SameAreaBytes(live, m0, m)
  }

  lemma ReleaseStep(pools: seq<Pool>, j: int, h0: seq<Header>, live0: Areas, m0: seq<byte>,
                    h: seq<Header>, live: Areas, m: seq<byte>, h1: seq<Header>, m1: seq<byte>)
    requires Sweeping(pools, j, h0, live0, m0, h, live, m) && j < |pools| && !Survives(pools, j)
    requires |h1| == |h| && forall x :: 0 <= x < |h| && x != pools[j].block ==> h1[x] == h[x]
    requires SameAreaBytes(live - {pools[j].block}, m, m1)
    ensures Sweeping(pools, j + 1, h0, live0, m0, h1, live - {pools[j].block}, m1)
  {
    assert ReleasedTo(pools, j + 1) == ReleasedTo(pools, j) + {pools[j].block};
    SameAreaBytesTrans(live, live - {pools[j].block}, m0, m, m1);
    assert forall a :: KeptTo(pools, j + 1, a) <==> KeptTo(pools, j, a);
  }

  lemma KeepStep(pools: seq<Pool>, j: int, h0: seq<Header>, live0: Areas, m0: seq<byte>,
                 h: seq<Header>, live: Areas, m: seq<byte>, m1: seq<byte>)
    requires Sweeping(pools, j, h0, live0, m0, h, live, m) && j < |pools| && Survives(pools, j)
    requires pools[j].block in live && SameAreaBytes(live, m, m1)
    ensures Sweeping(pools, j + 1, h0, live0, m0, h[pools[j].block := h[pools[j].block].(marked := true)], live, m1)
  {
  }

  /** A pool that is still to come is as it was. */
  lemma StillThere(pools: seq<Pool>, j: int, h0: seq<Header>, live0: Areas, m0: seq<byte>,
                   h: seq<Header>, live: Areas, m: seq<byte>, n: int, pid: byte, need: int, k: int)
    requires Sweeping(pools, j, h0, live0, m0, h, live, m) && SlabInv(pools, n, live0, m0, pid, need) && need > 0
    requires 0 <= k < |pools| && (j <= k || Survives(pools, k))
    ensures InHeap(pools[k], live, m, pid, need) && PoolOk(pools[k], k, n)
  {
    var p := pools[k];
    assert InHeap(p, live0, m0, pid, need) && PoolOk(p, k, n);
    assert p.block !in ReleasedTo(pools, j);
    assert InArea(live, p.block, BLOCK_SIZE * (p.block + live[p.block].blocks) - 1);
  }

  // ---------------------------------------------------------------------------------------------
  // The list of pools during slab_gc
  // ---------------------------------------------------------------------------------------------

  /** The first j of the original pools are dealt with; i of them are left. */
  ghost predicate ListAt(pools0: seq<Pool>, j: int, i: int, pools: seq<Pool>) {
    && 0 <= j <= |pools0| && i == |Survivors(pools0[..j])| && (i == 0 <==> j == 0)
    && pools == Survivors(pools0[..j]) + pools0[j..]
  }

  lemma ListStep(pools0: seq<Pool>, j: int, i: int, pools: seq<Pool>)
    requires ListAt(pools0, j, i, pools) && i < |pools|
    ensures j < |pools0| && pools[i] == pools0[j]
    ensures Survives(pools0, j) ==> ListAt(pools0, j + 1, i + 1, pools[i := Pool(pools0[j].block, pools0[j].mark, 0)])
    ensures !Survives(pools0, j) ==> ListAt(pools0, j + 1, i, pools[..i] + pools[i + 1..])
  {
    hide Survivors;
    var s := Survivors(pools0[..j]);
    assert |pools| == |s| + |pools0| - j;
    SurvivorsAppend(pools0, j);
    KeepOrDrop(s, pools0, j, pools, Pool(pools0[j].block, pools0[j].mark, 0));
  }

  lemma KeepOrDrop(s: seq<Pool>, pools0: seq<Pool>, j: int, pools: seq<Pool>, r: Pool)
    requires 0 <= j < |pools0| && pools == s + pools0[j..]
    ensures pools[|s|] == pools0[j]
    ensures pools[|s| := r] == (s + [r]) + pools0[j + 1..]
    ensures pools[..|s|] + pools[|s| + 1..] == s + pools0[j + 1..]
  {
  }

  lemma SurvivorsAppend(pools: seq<Pool>, j: int)
    requires 0 <= j < |pools|
    ensures Survivors(pools[..j + 1]) ==
            Survivors(pools[..j]) + if Survives(pools, j) then [Pool(pools[j].block, pools[j].mark, 0)] else []
  {
    assert pools[..j + 1][..j] == pools[..j];
  }

  lemma ListEnds(pools0: seq<Pool>, j: int, i: int, pools: seq<Pool>)
    ensures ListAt(pools0, 0, 0, pools0)
    ensures ListAt(pools0, j, i, pools) && i == |pools| ==> pools == Survivors(pools0) && j == |pools0|
  {
    assert pools0[..0] == [] && pools0[0..] == pools0;
    if ListAt(pools0, j, i, pools) && i == |pools| {
      assert |pools| == i + |pools0| - j;
      assert pools0[..j] == pools0 && pools0[j..] == [];
    }
  }

  lemma {:induction false} SurvivorsShape(pools: seq<Pool>)
    ensures pools != [] ==> Survivors(pools) != []
    ensures forall i :: 0 < i < |Survivors(pools)| ==> Survivors(pools)[i].alloc != 0
    ensures forall i :: 0 <= i < |Survivors(pools)| ==> Stems(pools, Survivors(pools)[i])
    ensures Distinct(pools) ==> Distinct(Survivors(pools))
    decreases |pools|
  {
    if pools != [] {
      var k := |pools| - 1;
      var init, s, s0 := pools[..k], Survivors(pools), Survivors(pools[..k]);
      SurvivorsShape(init);
      forall i | 0 <= i < |s|
        ensures Stems(pools, s[i])
      {
        if i < |s0| {
          assert s[i] == s0[i] && Stems(init, s0[i]);
          var l :| Survives(init, l) && s0[i] == Pool(init[l].block, init[l].mark, 0);
          assert Survives(pools, l);
        } else {
          assert Survives(pools, k);
        }
      }
      if Distinct(pools) && |s| > |s0| {
        forall i | 0 <= i < |s0|
          ensures s[i].block != s[|s0|].block
        {
          assert Stems(init, s0[i]);
        }
      }
    }
  }

  /** The survivor r is one of the pools with its marks as allocations. */
  ghost predicate Stems(pools: seq<Pool>, r: Pool) {
    exists k {:trigger Survives(pools, k)} :: Survives(pools, k) && r == Pool(pools[k].block, pools[k].mark, 0)
  }

  /** The survivors are a slab in every heap that has kept their areas. */
  lemma SurvivorsInv(pools: seq<Pool>, n: int, live0: Areas, m0: seq<byte>, live: Areas, m: seq<byte>, pid: byte,
                     need: int)
    requires SlabInv(pools, n, live0, m0, pid, need)
    requires forall k {:trigger Survives(pools, k)} :: Survives(pools, k) ==> InHeap(pools[k], live, m, pid, need)
    ensures SlabInv(Survivors(pools), n, live, m, pid, need)
  {
    hide Survivors, Test;
    SurvivorsShape(pools);
    var s := Survivors(pools);
    forall i | 0 <= i < |s|
      ensures PoolOk(s[i], i, n) && InHeap(s[i], live, m, pid, need)
    {
      assert Stems(pools, s[i]);
      var k :| Survives(pools, k) && s[i] == Pool(pools[k].block, pools[k].mark, 0);
      assert PoolOk(pools[k], k, n);
      assert forall j :: !Test(0, j) by {
        forall j ensures !Test(0, j) { TestNothing(j); }
      }
    }
  }

  // ---------------------------------------------------------------------------------------------
  // Both collectors
  // ---------------------------------------------------------------------------------------------

  ghost predicate IsPool(pools: seq<Pool>, a: int) { exists i :: 0 <= i < |pools| && pools[i].block == a }

  /**
    The areas after slab_gc and malloc_gc: of the pools the survivors; of the other areas all but the
    unmarked ones of pid, of which those with a damaged guard byte stay too.
   */
  ghost predicate Collected(pools: seq<Pool>, h0: seq<Header>, live0: Areas, m0: seq<byte>, live: Areas, pid: byte) {
    && (forall i {:trigger pools[i]} :: 0 <= i < |pools| ==> (pools[i].block in live <==> Survives(pools, i)))
    && (forall a :: a in live ==> a in live0 && live[a] == live0[a])
    && (forall a :: a in live0 && !IsPool(pools, a) ==>
          0 <= a < |h0| && (a in live <==> live0[a].owner != pid || h0[a].marked || !GuardIn(live0, m0, a)))
  }

  lemma CollectedBy(pools: seq<Pool>, h0: seq<Header>, live0: Areas, m0: seq<byte>,
                    h: seq<Header>, live: Areas, m: seq<byte>, n: int, pid: byte, need: int)
    requires Sweeping(pools, |pools|, h0, live0, m0, h, live, m)
    requires SlabInv(pools, n, live0, m0, pid, need) && need > 0
    requires forall a :: a in live0 ==> 0 <= a < |h0| && 1 <= live0[a].blocks
    ensures Collected(pools, h0, live0, m0, live - LeakSet(h, live, m, pid), pid)
  {
    hide SlabInv, PoolOk, InHeap, GuardIn, IsPool;
    var leaks := LeakSet(h, live, m, pid);
    forall i {:trigger pools[i]} | 0 <= i < |pools|
      ensures pools[i].block in live - leaks <==> Survives(pools, i)
    {
      if Survives(pools, i) {
        StillThere(pools, |pools|, h0, live0, m0, h, live, m, n, pid, need, i);
        PoolStays(pools, h0, live0, m0, h, live, m, i, pid, need);
      }
    }
    forall a | a in live0 && !IsPool(pools, a)
      ensures a in live - leaks <==> live0[a].owner != pid || h0[a].marked || !GuardIn(live0, m0, a)
    {
      OtherArea(pools, h0, live0, m0, h, live, m, a, pid);
    }
  }

  lemma PoolStays(pools: seq<Pool>, h0: seq<Header>, live0: Areas, m0: seq<byte>,
                  h: seq<Header>, live: Areas, m: seq<byte>, i: int, pid: byte, need: int)
    requires Sweeping(pools, |pools|, h0, live0, m0, h, live, m) && Survives(pools, i)
    requires InHeap(pools[i], live, m, pid, need)
    ensures pools[i].block in live && pools[i].block !in LeakSet(h, live, m, pid)
  {
  }

  lemma OtherArea(pools: seq<Pool>, h0: seq<Header>, live0: Areas, m0: seq<byte>,
                  h: seq<Header>, live: Areas, m: seq<byte>, a: int, pid: byte)
    requires Sweeping(pools, |pools|, h0, live0, m0, h, live, m) && a in live0 && !IsPool(pools, a)
    requires 0 <= a < |h0| && 1 <= live0[a].blocks
    ensures a in live
    ensures a in LeakSet(h, live, m, pid) <==> live0[a].owner == pid && !h0[a].marked && GuardIn(live0, m0, a)
  {
    assert a !in ReleasedTo(pools, |pools|);
    assert !KeptTo(pools, |pools|, a);
    assert InArea(live, a, BLOCK_SIZE * (a + live[a].blocks) - 1);
  }
}
