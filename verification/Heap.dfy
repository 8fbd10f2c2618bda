/** The operations of kernel/malloc.c on the heap array, each against the client view of HeapSpec. */
module HeapModel {
  import opened Common
  import opened HeapSpec

  class Heap {
    const hdr: array<Header>
    const link: array<Links>
    const mem: array<byte>
    ghost var home: seq<int>
    ghost var free: set<int>

    function S(): int { hdr.Length - 1 }

    ghost predicate Inv(d: int)
      reads this, hdr, link
    {
      mem.Length == BLOCK_SIZE * hdr.Length && HeapInv(hdr[..], link[..], home, free, d)
    }

    ghost predicate Valid()
      reads this, hdr, link
    {
      Inv(NULL)
    }

    ghost function Live(): (live: Areas)
      requires |home| < hdr.Length
      reads this, hdr
    {
      LiveOf(hdr[..], home)
    }

    // -------------------------------------------------------------------------------------------
    // Raw stores
    // -------------------------------------------------------------------------------------------

    /** The bytes lo..lo+n of the union are overwritten through another member. */
    method Clobber(lo: int, n: int)
      requires 0 <= lo && 0 <= n && lo + n <= mem.Length
      modifies mem
      ensures forall i :: 0 <= i < mem.Length && !(lo <= i < lo + n) ==> mem[i] == old(mem[i])
    {
      for k := 0 to n
        invariant forall i :: 0 <= i < mem.Length && !(lo <= i < lo + n) ==> mem[i] == old(mem[i])
      {
        mem[lo + k] := *;
      }
    }

    method SetNext(b: int, v: int)
      requires 0 <= b < link.Length && mem.Length == BLOCK_SIZE * link.Length
      modifies link, mem
      ensures link[..] == old(link[..])[b := old(link[b]).(next := v)]
      ensures forall i :: 0 <= i < mem.Length && i / BLOCK_SIZE != b ==> mem[i] == old(mem[i])
      ensures forall i :: 0 <= i < mem.Length && i % BLOCK_SIZE == BLOCK_SIZE - 1 ==> mem[i] == old(mem[i])
    {
      link[b] := link[b].(next := v);
      Clobber(BLOCK_SIZE * b + HEADER + 2, 2);
    }

    method SetPrev(b: int, v: int)
      requires 0 <= b < link.Length && mem.Length == BLOCK_SIZE * link.Length
      modifies link, mem
      ensures link[..] == old(link[..])[b := old(link[b]).(prev := v)]
      ensures forall i :: 0 <= i < mem.Length && i / BLOCK_SIZE != b ==> mem[i] == old(mem[i])
      ensures forall i :: 0 <= i < mem.Length && i % BLOCK_SIZE == BLOCK_SIZE - 1 ==> mem[i] == old(mem[i])
    {
      link[b] := link[b].(prev := v);
      Clobber(BLOCK_SIZE * b + HEADER, 2);
    }

    method SetHeader(b: int, h: Header)
      requires 0 <= b < hdr.Length && mem.Length == BLOCK_SIZE * hdr.Length
      modifies hdr, mem
      ensures hdr[..] == old(hdr[..])[b := h]
      ensures forall i :: 0 <= i < mem.Length && !(BLOCK_SIZE * b <= i < BLOCK_SIZE * b + HEADER)
                ==> mem[i] == old(mem[i])
      ensures forall i :: 0 <= i < mem.Length && i % BLOCK_SIZE == BLOCK_SIZE - 1 ==> mem[i] == old(mem[i])
    {
      hdr[b] := h;
      Clobber(BLOCK_SIZE * b, HEADER);
    }

    // -------------------------------------------------------------------------------------------
    // The free list
    // -------------------------------------------------------------------------------------------

    method Unlink(b: int)
      requires mem.Length == BLOCK_SIZE * hdr.Length && link.Length == hdr.Length
      requires Linked(link[..], free, S()) && b in free
      modifies this`free, link, mem
      ensures Linked(link[..], free, S()) && free == old(free) - {b}
      ensures forall i :: 0 <= i < mem.Length && !Node(old(free), S(), i / BLOCK_SIZE) ==> mem[i] == old(mem[i])
      ensures forall i :: 0 <= i < mem.Length && i % BLOCK_SIZE == BLOCK_SIZE - 1 ==> mem[i] == old(mem[i])
    {
      ghost var l := link[..];
      assert LinkedAt(l, free, S(), b);
      var p, n := link[b].prev, link[b].next;
      SetNext(p, n);
      SetPrev(n, p);
      UnlinkKeepsLinked(l, free, S(), b, link[..]);
      free := free - {b};
    }

    method InsertAfter(b: int)
      requires mem.Length == BLOCK_SIZE * hdr.Length && link.Length == hdr.Length
      requires Linked(link[..], free, S()) && b !in free && 0 <= b < S()
      modifies this`free, link, mem
      ensures Linked(link[..], free, S()) && free == old(free) + {b}
      ensures forall i :: 0 <= i < mem.Length && !Node(free, S(), i / BLOCK_SIZE) ==> mem[i] == old(mem[i])
      ensures forall i :: 0 <= i < mem.Length && i % BLOCK_SIZE == BLOCK_SIZE - 1 ==> mem[i] == old(mem[i])
    {
      ghost var l := link[..];
      assert LinkedAt(l, free, S(), S());
      var p := link[S()].next;
      while p < b && p != S()
        invariant Node(free, S(), p)
        invariant forall x :: x in free ==> p <= x || x < b
        decreases S() - p
      {
        assert LinkedAt(l, free, S(), p);
        p := link[p].next;
      }
      assert LinkedAt(l, free, S(), p);
      var q := link[p].prev;
      SetNext(q, b);
      SetPrev(b, q);
      SetPrev(p, b);
      SetNext(b, p);
      InsertKeepsLinked(l, free, S(), b, p, link[..]);
      free := free + {b};
    }

    // -------------------------------------------------------------------------------------------
    // Merging and splitting
    // -------------------------------------------------------------------------------------------

    /** One round of the merge loop: the free successor c of b is absorbed. */
    method Absorb(b: int, c: int, ghost d: int)
      requires Inv(d) && (if d == NULL then b in free else b == d)
      requires c == b + hdr[b].blocks && 0 <= c < hdr.Length && !hdr[c].reserved
      modifies this, hdr, link, mem
      ensures Inv(d) && Live() == old(Live())
      ensures c in old(free) && b < c && free == old(free) - {c}
      ensures old(hdr[b].blocks) < hdr[b].blocks
      ensures hdr[..] == old(hdr[..])[b := old(hdr[b]).(blocks := hdr[b].blocks)]
      ensures forall i :: Kept(old(home), old(free), i) ==> Kept(home, free, i) && mem[i] == old(mem[i])
      ensures forall i :: 0 <= i < mem.Length && i % BLOCK_SIZE == BLOCK_SIZE - 1 ==> mem[i] == old(mem[i])
    {
      ghost var h, l, home0, free0 := hdr[..], link[..], home, free;
      assert Covers(h, home, b);
      SuccessorStarts(h, home, b);
      assert Covers(h, home, c);
      Unlink(c);
      SetHeader(b, hdr[b].(blocks := hdr[b].blocks + hdr[c].blocks));
      home := Rehome(home0, c, c + h[c].blocks, b);
      MergeKeepsInv(h, l, home0, free0, d, b, hdr[..], link[..]);
    }

    method MergeBlocks(b: int, ghost d: int)
      requires Inv(d) && (if d == NULL then b in free else b == d)
      modifies this, hdr, link, mem
      ensures Inv(d) && Live() == old(Live()) && (if d == NULL then b in free else b == d)
      ensures free <= old(free) && old(hdr[b].blocks) <= hdr[b].blocks
      ensures hdr[..] == old(hdr[..])[b := old(hdr[b]).(blocks := hdr[b].blocks)]
      ensures forall x :: x in old(free) && x < b ==> x in free
      ensures !FreeAt(Live(), S(), b + hdr[b].blocks)
      ensures FreeRun(Live(), S(), b + old(hdr[b].blocks), hdr[b].blocks - old(hdr[b].blocks))
      ensures forall i :: Kept(old(home), old(free), i) ==> Kept(home, free, i) && mem[i] == old(mem[i])
      ensures forall i :: 0 <= i < mem.Length && i % BLOCK_SIZE == BLOCK_SIZE - 1 ==> mem[i] == old(mem[i])
    {
      assert Covers(hdr[..], home, b);
      while true
        invariant Inv(d) && Live() == old(Live()) && (if d == NULL then b in free else b == d)
        invariant free <= old(free) && old(hdr[b].blocks) <= hdr[b].blocks
        invariant Covers(hdr[..], home, b)
        invariant hdr[..] == old(hdr[..])[b := old(hdr[b]).(blocks := hdr[b].blocks)]
        invariant forall x :: x in old(free) && x < b ==> x in free
        invariant forall i :: 0 <= i < mem.Length && i % BLOCK_SIZE == BLOCK_SIZE - 1 ==> mem[i] == old(mem[i])
        invariant forall i :: Kept(old(home), old(free), i) ==> Kept(home, free, i) && mem[i] == old(mem[i])
        decreases S() - hdr[b].blocks
      {
        var c := b + hdr[b].blocks;
        SuccessorStarts(hdr[..], home, b);
        if hdr[c].reserved {
          EndOfRun(hdr[..], home, b, old(hdr[b].blocks));
          return;
        }
        Absorb(b, c, d);
        assert Covers(hdr[..], home, b);
      }
    }

    /** Merges until the area reaches req blocks or its run ends, and always tries one merge first. */
    method MergeBlocksQuick(b: int, req: int)
      requires Valid() && b in free
      modifies this, hdr, link, mem
      ensures Valid() && Live() == old(Live()) && b in free && free <= old(free)
      ensures hdr[b].blocks < req ==> !FreeAt(Live(), S(), b + hdr[b].blocks)
      ensures forall i :: Kept(old(home), old(free), i) ==> Kept(home, free, i) && mem[i] == old(mem[i])
      ensures forall a :: a in old(Live()) ==> hdr[a] == old(hdr[a])
    {
      while true
        invariant Valid() && Live() == old(Live()) && b in free && free <= old(free)
        invariant forall a :: a in old(Live()) ==> hdr[a] == old(hdr[a])
        invariant forall i :: Kept(old(home), old(free), i) ==> Kept(home, free, i) && mem[i] == old(mem[i])
        decreases S() - hdr[b].blocks
      {
        assert Covers(hdr[..], home, b);
        var c := b + hdr[b].blocks;
        SuccessorStarts(hdr[..], home, b);
        if hdr[c].reserved {
          EndOfRun(hdr[..], home, b, hdr[b].blocks);
          return;
        }
        Absorb(b, c, NULL);
        assert Covers(hdr[..], home, b);
        if hdr[b].blocks >= req {
          return;
        }
      }
    }

    method SplitBlock(b: int, req: int, ghost d: int)
      requires Inv(d) && (if d == NULL then b in free else b == d)
      requires 0 < req < hdr[b].blocks
      modifies this, hdr, link, mem
      ensures Inv(d) && Live() == old(Live()) && (if d == NULL then b in free else b == d)
      ensures hdr[b] == old(hdr[b]).(blocks := req)
      ensures forall i :: Kept(old(home), old(free), i)
                && (d == NULL || !(BLOCK_SIZE * (b + req) <= i < BLOCK_SIZE * (b + old(hdr[b].blocks))))
                ==> Kept(home, free, i) && mem[i] == old(mem[i])
      ensures forall a :: a in old(Live()) ==> hdr[a] == old(hdr[a])
    {
      ghost var h, l, home0, free0 := hdr[..], link[..], home, free;
      assert Covers(h, home, b);
      var c := b + req;
      assert home[c] == b;
      var stale: byte := *;
      SetHeader(c, Header(hdr[b].blocks - req, false, false, stale));
      SetHeader(b, hdr[b].(blocks := req));
      InsertAfter(c);
      home := Rehome(home0, c, b + h[b].blocks, c);
      SplitKeepsInv(h, l, home0, free0, d, b, req, hdr[..], link[..]);
    }

    // -------------------------------------------------------------------------------------------
    // Allocation
    // -------------------------------------------------------------------------------------------

    /** Unlinks the free area b, reserves it for id and writes its guard byte. */
    method Reserve(b: int, id: byte)
      requires Valid() && b in free
      modifies this, hdr, link, mem
      ensures !hdr[b].marked
      ensures Valid() && Live() == old(Live())[b := Area(old(hdr[b].blocks), id)]
      ensures GuardOk(b)
      ensures forall i :: Kept(old(home), old(free), i) ==> Kept(home, free, i) && mem[i] == old(mem[i])
      ensures forall a :: a in old(Live()) ==> hdr[a] == old(hdr[a])
    {
      ghost var h := hdr[..];
      assert Covers(h, home, b);
      Unlink(b);
      SetHeader(b, hdr[b].(reserved := true, owner := id));
      AttachKeepsInv(h, link[..], home, free, b, hdr[..]);
      assert home[b + hdr[b].blocks - 1] == b && Guard(b) / BLOCK_SIZE == b + hdr[b].blocks - 1;
      assert !Kept(old(home), old(free), Guard(b));
      mem[Guard(b)] := id;
    }

    function Guard(b: int): int
      requires 0 <= b < hdr.Length
      reads hdr
    {
      BLOCK_SIZE * (b + hdr[b].blocks) - 1
    }

    /** The guard byte behind the area still holds its owner. */
    predicate GuardOk(b: int)
      reads hdr, mem
    {
      0 <= b < hdr.Length && 0 <= Guard(b) < mem.Length && mem[Guard(b)] == hdr[b].owner
    }

    /** Walks the free list, merging as it goes, to the first area that has n blocks. */
    method FindFit(n: int) returns (r: int)
      requires Valid() && 0 < n
      modifies this, hdr, link, mem
      ensures Valid() && Live() == old(Live()) && Node(free, S(), r)
      ensures r == S() ==> NoFit(Live(), S(), n)
      ensures r != S() ==> FirstFit(Live(), S(), n, r) && n <= hdr[r].blocks
      ensures forall i :: Kept(old(home), old(free), i) ==> Kept(home, free, i) && mem[i] == old(mem[i])
      ensures forall a :: a in old(Live()) ==> hdr[a] == old(hdr[a])
    {
      assert LinkedAt(link[..], free, S(), S());
      r := link[S()].next;
      NoRunBeforeHead(hdr[..], link[..], home, free, n);
      while r != S()
        invariant Valid() && Live() == old(Live()) && Node(free, S(), r)
        invariant forall q :: q < r ==> !FreeRun(Live(), S(), q, n)
        invariant forall a :: a in old(Live()) ==> hdr[a] == old(hdr[a])
        invariant forall i :: Kept(old(home), old(free), i) ==> Kept(home, free, i) && mem[i] == old(mem[i])
        decreases S() - r
      {
        MergeBlocksQuick(r, n);
        if hdr[r].blocks >= n {
          RunInArea(hdr[..], home, r, n);
          return;
        }
        assert LinkedAt(link[..], free, S(), r);
        NoRunBeforeNext(hdr[..], link[..], home, free, r, n);
        r := link[r].next;
      }
    }

    method Alloc(size: int, id: byte) returns (r: int)
      requires Valid() && 0 <= size < 0x1_0000 && (size != 0 ==> 0 < ReqBlocks(size))
      modifies this, hdr, link, mem
      ensures Valid()
      ensures r == NULL <==> size == 0 || NoFit(old(Live()), S(), ReqBlocks(size))
      ensures r == NULL ==> Live() == old(Live())
      ensures r != NULL ==> FirstFit(old(Live()), S(), ReqBlocks(size), r)
      ensures r != NULL ==> Live() == old(Live())[r := Area(ReqBlocks(size), id)] && GuardOk(r)
      ensures forall a, i :: InArea(old(Live()), a, i) && 0 <= i < mem.Length ==> mem[i] == old(mem[i])
      ensures r != NULL ==> !hdr[r].marked
      ensures forall a :: a in old(Live()) ==> hdr[a] == old(hdr[a])
    {
      if size == 0 {
        return NULL;
      }
      AreaBytesKept(hdr[..], link[..], home, free, NULL);
      var n := ReqBlocks(size);
      r := FindFit(n);
      if r == S() {
        return NULL;
      }
      if hdr[r].blocks > n {
        SplitBlock(r, n, NULL);
      }
      Reserve(r, id);
    }

    /** sos_blk_mem_alloc when the 16-bit size sum wraps around and no blocks are asked for. */
    method AllocWrapped(id: byte) returns (r: int)
      requires Valid()
      modifies this, hdr, link, mem
      ensures r == NULL <==> old(free) == {}
      ensures r == NULL ==> Valid() && Live() == old(Live())
      ensures r != NULL ==> 0 <= r < S() && !Linked(link[..], free, S())
      ensures r != NULL ==> forall home' :: |home'| == S() && Start(home', r) ==> !Tiled(hdr[..], home')
    {
      assert LinkedAt(link[..], free, S(), S());
      var b := link[S()].next;
      if b == S() {
        assert free == {} by {
          assert forall x :: x in free ==> S() <= x < S();
        }
        return NULL;
      }
      MergeBlocksQuick(b, 0);
      ghost var l := link[..];
      assert LinkedAt(l, free, S(), b);
      var q := link[b].prev;
      SetHeader(b, hdr[b].(blocks := 0));
      SetNext(q, b);
      SetPrev(b, b);
      SetNext(b, b);
      assert !LinkedAt(link[..], free, S(), b);
      SetHeader(b, Header(0, true, hdr[b].marked, id));
      if b > 0 {
        mem[BLOCK_SIZE * b - 1] := id;
      }
      forall home' | |home'| == S() && Start(home', b)
        ensures !Tiled(hdr[..], home')
      {
        assert !Covers(hdr[..], home', b);
      }
      return b;
    }

    /** sos_blk_mem_alloc for every size: the heap stays intact exactly unless a wrapped request finds a free area. */
    method AllocAny(size: int, id: byte) returns (r: int)
      requires Valid() && 0 <= size < 0x1_0000
      modifies this, hdr, link, mem
      ensures Valid() <==> !(0xFFF5 <= size <= 0xFFFC) || old(free) == {}
      ensures !(0xFFF5 <= size <= 0xFFFC) ==>
        && (r == NULL <==> size == 0 || NoFit(old(Live()), S(), ReqBlocks(size)))
        && (r != NULL ==> FirstFit(old(Live()), S(), ReqBlocks(size), r))
        && Live() == if r == NULL then old(Live()) else old(Live())[r := Area(ReqBlocks(size), id)]
      ensures 0xFFF5 <= size <= 0xFFFC ==> (r == NULL <==> old(free) == {})
    {
      if size != 0 {
        ReqBlocksFits(size);
      }
      if 0xFFF5 <= size <= 0xFFFC {
        r := AllocWrapped(id);
      } else {
        r := Alloc(size, id);
      }
    }

    /** Merges every free area with the free areas behind it. */
    method Defragment()
      requires Valid()
      modifies this, hdr, link, mem
      ensures Valid() && Live() == old(Live())
      ensures forall a :: a in free ==> !FreeAt(Live(), S(), a + hdr[a].blocks)
      ensures forall i :: Kept(old(home), old(free), i) ==> Kept(home, free, i) && mem[i] == old(mem[i])
    {
      assert LinkedAt(link[..], free, S(), S());
      var b := link[S()].next;
      while b != S()
        invariant Valid() && Live() == old(Live()) && Node(free, S(), b)
        invariant forall a :: a in free && a < b ==> !FreeAt(Live(), S(), a + hdr[a].blocks)
        invariant forall i :: Kept(old(home), old(free), i) ==> Kept(home, free, i) && mem[i] == old(mem[i])
        decreases S() - b
      {
        MergeBlocks(b, NULL);
        assert LinkedAt(link[..], free, S(), b);
        b := link[b].next;
      }
    }

    /** After merging everything, the last free area that has n blocks. */
    method FindLastFit(n: int) returns (max: int)
      requires Valid() && 0 < n
      modifies this, hdr, link, mem
      ensures Valid() && Live() == old(Live())
      ensures max == NULL ==> NoFit(Live(), S(), n)
      ensures max != NULL ==> max in free && n <= hdr[max].blocks && LastFit(Live(), S(), n, max + hdr[max].blocks - n)
      ensures forall i :: Kept(old(home), old(free), i) ==> Kept(home, free, i) && mem[i] == old(mem[i])
    {
      Defragment();
      max := LastWith(n);
      TailIsLastFit(hdr[..], link[..], home, free, max, n);
    }

    method LongTermAlloc(size: int, id: byte) returns (r: int)
      requires Valid() && 0 <= size < 0x1_0000 && (size != 0 ==> 0 < ReqBlocks(size))
      modifies this, hdr, link, mem
      ensures Valid()
      ensures r == NULL <==> size == 0 || NoFit(old(Live()), S(), ReqBlocks(size))
      ensures r == NULL ==> Live() == old(Live())
      ensures r != NULL ==> LastFit(old(Live()), S(), ReqBlocks(size), r)
      ensures r != NULL ==> Live() == old(Live())[r := Area(ReqBlocks(size), id)] && GuardOk(r)
      ensures forall a, i :: InArea(old(Live()), a, i) && 0 <= i < mem.Length ==> mem[i] == old(mem[i])
    {
      if size == 0 {
        return NULL;
      }
      AreaBytesKept(hdr[..], link[..], home, free, NULL);
      var n := ReqBlocks(size);
      var max := FindLastFit(n);
      if max == NULL {
        return NULL;
      }
      r := max + hdr[max].blocks - n;
      if r == max {
        Reserve(r, id);
      } else {
        StealTail(max, n, id);
      }
    }

    /** The last area of the free list that has n blocks. */
    method LastWith(n: int) returns (max: int)
      requires Valid()
      ensures max == NULL || (max in free && n <= hdr[max].blocks)
      ensures forall a :: a in free && max < a ==> hdr[a].blocks < n
    {
      max := NULL;
      assert LinkedAt(link[..], free, S(), S());
      var b := link[S()].next;
      while b != S()
        invariant Node(free, S(), b)
        invariant max == NULL || (max in free && n <= hdr[max].blocks && max < b)
        invariant forall a :: a in free && max < a < b ==> hdr[a].blocks < n
        decreases S() - b
      {
        if b > max && hdr[b].blocks >= n {
          max := b;
        }
        assert LinkedAt(link[..], free, S(), b);
        b := link[b].next;
      }
    }

    method StealTail(b: int, n: int, id: byte)
      requires Valid() && b in free && 0 < n < hdr[b].blocks
      modifies this, hdr, mem
      ensures Valid() && Live() == old(Live())[b + old(hdr[b].blocks) - n := Area(n, id)]
      ensures GuardOk(b + old(hdr[b].blocks) - n)
      ensures forall i :: Kept(old(home), old(free), i) ==> Kept(home, free, i) && mem[i] == old(mem[i])
    {
      hide HeapInv, LiveOf, Kept, Covers;
      ghost var h, home0 := hdr[..], home;
      TailInFree(h, link[..], home, free, b, n);
      var r := b + hdr[b].blocks - n;
      SetHeader(b, hdr[b].(blocks := hdr[b].blocks - n));
      SetHeader(r, Header(n, true, false, id));
      home := Rehome(home0, r, r + n, r);
      StealTailKeepsInv(h, link[..], home0, free, b, n, hdr[..]);
      mem[Guard(r)] := id;
    }

    // -------------------------------------------------------------------------------------------
    // Release
    // -------------------------------------------------------------------------------------------

    /** Pointers outside the heap and areas with a broken guard byte are left alone. */
    method Free(p: int)
      requires Valid() && (0 <= p < hdr.Length ==> p in Live() || (0 <= Guard(p) < mem.Length && !GuardOk(p)))
      modifies this`free, hdr, link, mem
      ensures Valid() && home == old(home)
      ensures Live() == if old(GuardOk(p)) then old(Live()) - {p} else old(Live())
      ensures forall x :: 0 <= x < hdr.Length ==> hdr[x].blocks == old(hdr[x].blocks)
      ensures forall x :: 0 <= x < hdr.Length && (x != p || !old(GuardOk(p))) ==> hdr[x] == old(hdr[x])
      ensures forall i :: 0 <= i < mem.Length && i % BLOCK_SIZE == BLOCK_SIZE - 1 ==> mem[i] == old(mem[i])
      ensures old(GuardOk(p)) ==> (GuardOk(p) <==> old(hdr[p].owner) == NULL_PID)
      ensures forall a, i :: InArea(old(Live()), a, i) && 0 <= i < mem.Length && (a != p || !old(GuardOk(p)))
                ==> mem[i] == old(mem[i])
    {
      if p < 0 || p >= hdr.Length {
        return;
      }
      AreaBytesKept(hdr[..], link[..], home, free, NULL);
      assert p in Live() ==> Covers(hdr[..], home, p);
      if hdr[p].owner != mem[Guard(p)] {
        return;
      }
      ghost var h := hdr[..];
      SetHeader(p, hdr[p].(reserved := false, marked := false, owner := NULL_PID));
      DetachKeepsInv(h, link[..], home, free, p, hdr[..]);
      InsertAfter(p);
    }

    /** The area a belongs to id and would pass the guard check of Free. */
    predicate Removable(a: int, id: byte)
      reads hdr, mem
    {
      GuardOk(a) && hdr[a].reserved && hdr[a].owner == id
    }

    /** One step of the walk: the area b is freed if it belongs to id, and the next area is returned. */
    method RemoveArea(b: int, id: byte) returns (next: int)
      requires Valid() && Start(home, b)
      modifies this`free, hdr, link, mem
      ensures Valid() && home == old(home)
      ensures Live() == if old(Removable(b, id)) then old(Live()) - {b} else old(Live())
      ensures forall a :: a in Live() && a != b ==> Removable(a, id) == old(Removable(a, id))
      ensures forall a, i :: InArea(old(Live()), a, i) && 0 <= i < mem.Length && a in Live() ==> mem[i] == old(mem[i])
      ensures b < next <= S() && (next < S() ==> Start(home, next))
      ensures forall a :: a in Live() && b < a ==> next <= a
    {
      hide HeapInv, LiveOf;
      LiveAreasIn(hdr[..], link[..], home, free);
      ghost var live := Live();
      assert forall a :: a in live ==> InArea(live, a, Guard(a)) && Guard(a) < mem.Length;
      NextStart(hdr[..], link[..], home, free, b);
      if hdr[b].owner == id && hdr[b].reserved {
        Free(b);
      }
      next := b + hdr[b].blocks;
    }

    /** Frees every area of id whose guard byte is intact. */
    method RemoveAll(id: byte)
      requires Valid()
      modifies this`free, hdr, link, mem
      ensures Valid()
      ensures Live() == old(Live()) - set a | a in old(Live()) && old(Removable(a, id))
      ensures forall a, i :: InArea(old(Live()), a, i) && 0 <= i < mem.Length && a in Live() ==> mem[i] == old(mem[i])
    {
      hide LiveOf, SweptTo, Tiled, Linked;
      ghost var live := Live();
      ghost var gone := set a | a in live && Removable(a, id);
      var b := 0;
      FirstStarts(hdr[..], home);
      SweptNone(hdr[..], home, gone);
      while b != S()
        invariant 0 <= b <= S() && (b < S() ==> Start(home, b))
        invariant Valid() && home == old(home)
        invariant Live() == SweptTo(live, gone, b)
        invariant forall a :: a in live && b <= a ==> Removable(a, id) == (a in gone)
        invariant forall a, i :: InArea(live, a, i) && 0 <= i < mem.Length && a in Live() ==> mem[i] == old(mem[i])
        decreases S() - b
      {
        ghost var before := Live();
        SweptPart(live, gone, b);
        assert forall a, i :: InArea(live, a, i) && a in before ==> InArea(before, a, i);
        var next := RemoveArea(b, id);
        SweepStep(live, gone, b, next, Live());
        b := next;
      }
      SweptAll(old(hdr[..]), home, gone);
    }

    // -------------------------------------------------------------------------------------------
    // Reallocation
    // -------------------------------------------------------------------------------------------

    method Copy(dst: int, src: int, n: int)
      requires 0 <= n && 0 <= src && 0 <= dst && src + n <= mem.Length && dst + n <= mem.Length
      requires src + n <= dst || dst + n <= src
      modifies mem
      ensures mem[..][dst..dst + n] == old(mem[..])[src..src + n]
      ensures forall i :: 0 <= i < mem.Length && !(dst <= i < dst + n) ==> mem[i] == old(mem[i])
    {
      for k := 0 to n
        invariant forall j :: dst <= j < dst + k ==> mem[j] == old(mem[src + j - dst])
        invariant forall i :: 0 <= i < mem.Length && !(dst <= i < dst + k) ==> mem[i] == old(mem[i])
      {
        mem[dst + k] := mem[src + k];
      }
    }

    /** Clears the reserved flag of p and merges it with the free areas behind it. */
    method ExposeAndMerge(p: int) returns (ghost m: int)
      requires Valid() && p in Live() && !hdr[p].marked
      modifies this, hdr, link, mem
      ensures Inv(p) && Live() == old(Live()) - {p}
      ensures hdr[p].blocks == m && hdr[p].owner == old(hdr[p].owner) && Grown(old(Live()), S(), p, m)
      ensures forall a, i :: InArea(old(Live()), a, i) && 0 <= i < mem.Length ==>
                Kept(home, free, i) && mem[i] == old(mem[i])
      ensures 0 < m && p + m < hdr.Length && mem[BLOCK_SIZE * (p + m) - 1] == old(mem[BLOCK_SIZE * (p + m) - 1])
    {
      ghost var h, live := hdr[..], Live();
      AreaBytesKept(h, link[..], home, free, NULL);
      SetHeader(p, hdr[p].(reserved := false));
      DetachKeepsInv(h, link[..], home, free, p, hdr[..]);
      MergeBlocks(p, p);
      m := hdr[p].blocks;
      GrownWithout(live, S(), p, m);
      assert Covers(hdr[..], home, p);
    }

    /** Reserves the detached area d again. */
    method Restore(d: int, id: byte)
      requires Inv(d) && d != NULL
      modifies hdr, mem
      ensures Valid() && Live() == old(Live())[d := Area(old(hdr[d].blocks), id)]
      ensures hdr[d].blocks == old(hdr[d].blocks) && hdr[d].owner == id
      ensures forall i :: Kept(home, free, i) && 0 <= i < mem.Length ==> mem[i] == old(mem[i])
    {
      ghost var h := hdr[..];
      SetHeader(d, hdr[d].(reserved := true, owner := id));
      AttachKeepsInv(h, link[..], home, free, d, hdr[..]);
      forall i | Kept(home, free, i) && 0 <= i < mem.Length ensures mem[i] == old(mem[i]) {
        assert Start(home, d);
      }
    }

    /** memcpy of the whole old area p into the longer new one r. */
    method CopyArea(p: int, r: int)
      requires Valid() && p in Live() && r in Live() && p != r && hdr[p].blocks < hdr[r].blocks && GuardOk(r)
      modifies mem
      ensures GuardOk(r) && GuardOk(p) == old(GuardOk(p))
      ensures Contents(mem[..], r, hdr[p].blocks) == old(Contents(mem[..], p, hdr[p].blocks))
      ensures forall a, i :: InArea(Live(), a, i) && 0 <= i < mem.Length && a != r ==> mem[i] == old(mem[i])
      ensures InArea(Live(), r, Guard(r))
    {
      hide HeapInv, LiveOf;
      TwoAreasApart(hdr[..], link[..], home, free, p, r);
      ghost var live := Live();
      assert InArea(live, r, Guard(r)) && InArea(live, p, Guard(p));
      Copy(UserPart(r), UserPart(p), Capacity(hdr[p].blocks));
    }

    /** memcpy of the old area, then sos_blk_mem_free of it. */
    method CopyAndFree(p: int, r: int)
      requires Valid() && p in Live() && r in Live() && p != r && hdr[p].blocks < hdr[r].blocks && GuardOk(r)
      modifies this`free, hdr, link, mem
      ensures Valid() && GuardOk(r)
              && Contents(mem[..], r, old(hdr[p].blocks)) == old(Contents(mem[..], p, hdr[p].blocks))
      ensures Live() == if old(GuardOk(p)) then old(Live()) - {p} else old(Live())
      ensures forall a, i :: InArea(old(Live()), a, i) && 0 <= i < mem.Length && a != p && a != r
                ==> mem[i] == old(mem[i])
    {
      ghost var live, n := Live(), hdr[p].blocks;
      CopyArea(p, r);
      assert live[r].blocks == hdr[r].blocks && Live() == live;
      ghost var copied := mem[..];
      hide HeapInv, LiveOf, Contents;
      Free(p);
      SameContents(copied, mem[..], live, r, n);
    }

    /** Allocates a longer area, moves the contents, and frees p if its guard byte is intact. */
    method Move(p: int, size: int) returns (r: int)
      requires Valid() && p in Live() && 0 < size < 0x1_0000 && hdr[p].blocks < ReqBlocks(size)
      modifies this, hdr, link, mem
      ensures Valid()
      ensures r == NULL <==> NoFit(old(Live()), S(), ReqBlocks(size))
      ensures r == NULL ==> Live() == old(Live())
      ensures r != NULL ==> FirstFit(old(Live()), S(), ReqBlocks(size), r) && GuardOk(r)
      ensures r != NULL ==>
                var grown := old(Live())[r := Area(ReqBlocks(size), old(hdr[p].owner))];
                Live() == if old(GuardOk(p)) then grown - {p} else grown
      ensures r != NULL ==> Contents(mem[..], r, old(hdr[p].blocks)) == old(Contents(mem[..], p, hdr[p].blocks))
      ensures forall a, i :: InArea(old(Live()), a, i) && 0 <= i < mem.Length && (a != p || r == NULL)
                ==> mem[i] == old(mem[i])
    {
      ghost var live, n := Live(), hdr[p].blocks;
      assert Covers(hdr[..], home, p);
      assert InArea(live, p, Guard(p));
      r := Alloc(size, hdr[p].owner);
      if r != NULL {
        NewAreaApart(live, S(), r, ReqBlocks(size));
        ghost var live2 := Live();
        assert live2[p] == live[p];
        SameContents(old(mem[..]), mem[..], live, p, n);
        assert forall a, i :: InArea(live, a, i) ==> InArea(live2, a, i) && a != r;
        CopyAndFree(p, r);
      }
    }

    /** Cuts the detached area p to n blocks, reserves it again and writes its guard byte. */
    method TrimAndRestore(p: int, n: int, id: byte)
      requires Inv(p) && p != NULL && 0 < n <= hdr[p].blocks
      modifies this, hdr, link, mem
      ensures Valid() && Live() == old(Live())[p := Area(n, id)] && GuardOk(p)
      ensures forall i :: Kept(old(home), old(free), i) && 0 <= i < mem.Length
                && !(BLOCK_SIZE * (p + n) - 1 <= i < BLOCK_SIZE * (p + old(hdr[p].blocks)))
                ==> mem[i] == old(mem[i])
    {
      if hdr[p].blocks > n {
        SplitBlock(p, n, p);
      }
      Restore(p, id);
      assert Covers(hdr[..], home, p);
      mem[Guard(p)] := id;
    }

    /** The merged area is long enough: trim it. */
    method ReallocInPlace(p: int, n: int, id: byte, ghost live: Areas)
      requires Inv(p) && p != NULL && p in live && Live() == live - {p} && Grown(live, S(), p, hdr[p].blocks)
      requires 0 < n <= hdr[p].blocks && live[p] == Area(live[p].blocks, id)
      requires forall a, i :: InArea(live, a, i) && 0 <= i < mem.Length ==> Kept(home, free, i)
      modifies this, hdr, link, mem
      ensures Valid() && Live() == live[p := Area(n, id)] && GuardOk(p)
      ensures var k := Min(live[p].blocks, n); UserBytes(mem[..], p, k) == old(UserBytes(mem[..], p, k))
      ensures forall a, i :: InArea(live, a, i) && 0 <= i < mem.Length && a != p ==> mem[i] == old(mem[i])
    {
      AreaBytesKept(hdr[..], link[..], home, free, p);
      assert Covers(hdr[..], home, p);
      assert forall a, i :: InArea(live, a, i) && a != p ==> InArea(Live(), a, i);
      TrimAndRestore(p, n, id);
      SameUserBytes(old(mem[..]), mem[..], live, p, Min(live[p].blocks, n));
    }

    /** The merged area is too short: reserve all of it again and move. */
    method ReallocMove(p: int, size: int, id: byte, ghost live: Areas) returns (r: int)
      requires Inv(p) && p != NULL && p in live && Live() == live - {p} && Grown(live, S(), p, hdr[p].blocks)
      requires 0 < size < 0x1_0000 && hdr[p].blocks < ReqBlocks(size)
      requires live[p] == Area(live[p].blocks, id) && 0 < live[p].blocks
      requires forall a, i :: InArea(live, a, i) && 0 <= i < mem.Length ==> Kept(home, free, i)
      modifies this, hdr, link, mem
      ensures Valid()
      ensures ReallocResult(live, S(), p, ReqBlocks(size), old(hdr[p].blocks), r, Live(), old(EndByte(p)) == id)
      ensures r != NULL ==> GuardOk(r)
      ensures r != NULL ==>
                var k := live[p].blocks; UserBytes(mem[..], r, k) == old(UserBytes(mem[..], p, k))
      ensures forall a, i :: InArea(live, a, i) && 0 <= i < mem.Length && (a != p || r == NULL)
                ==> mem[i] == old(mem[i])
    {
      ghost var m, k := hdr[p].blocks, live[p].blocks;
      assert Covers(hdr[..], home, p);
      AreaBytesKept(hdr[..], link[..], home, free, p);
      assert Kept(home, free, Guard(p));
      Restore(p, id);
      ghost var grown := Live();
      assert grown == live[p := Area(m, id)];
      assert forall a, i :: InArea(live, a, i) ==> InArea(grown, a, i);
      ghost var restored := mem[..];
      SameUserBytes(old(mem[..]), restored, live, p, k);
      GrowingKeepsFits(live, S(), p, m, ReqBlocks(size), id);
      r := Move(p, size);
      if r != NULL {
        ContentsGiveUserBytes(restored, p, mem[..], r, m, k);
      }
    }

    /** The last byte of the area b. */
    ghost function EndByte(b: int): int
      reads hdr, mem
    {
      if 0 <= b < hdr.Length && 0 <= Guard(b) < mem.Length then mem[Guard(b)] else -1
    }

    /** The merged area is trimmed or moved. */
    method ReallocMerged(p: int, size: int, id: byte, ghost live: Areas) returns (r: int)
      requires Inv(p) && p != NULL && p in live && Live() == live - {p} && Grown(live, S(), p, hdr[p].blocks)
      requires 0 < size < 0x1_0000 && 0 < ReqBlocks(size)
      requires live[p] == Area(live[p].blocks, id) && 0 < live[p].blocks
      requires forall a, i :: InArea(live, a, i) && 0 <= i < mem.Length ==> Kept(home, free, i)
      modifies this, hdr, link, mem
      ensures Valid()
      ensures ReallocResult(live, S(), p, ReqBlocks(size), old(hdr[p].blocks), r, Live(), old(EndByte(p)) == id)
      ensures r != NULL ==> GuardOk(r)
      ensures r != NULL ==>
                var k := Min(live[p].blocks, ReqBlocks(size)); UserBytes(mem[..], r, k) == old(UserBytes(mem[..], p, k))
      ensures forall a, i :: InArea(live, a, i) && 0 <= i < mem.Length && (a != p || r == NULL)
                ==> mem[i] == old(mem[i])
    {
      hide LiveOf, Kept, InArea, UserBytes, FreeRun;
      var n := ReqBlocks(size);
      if hdr[p].blocks >= n {
        ReallocInPlace(p, n, id, live);
        r := p;
      } else {
        r := ReallocMove(p, size, id, live);
      }
    }

    /** The area p is exposed, merged with what is free behind it, and trimmed or moved. */
    method ReallocArea(p: int, size: int) returns (r: int, ghost m: int)
      requires Valid() && 0 < size < 0x1_0000 && p in Live() && !hdr[p].marked && 0 < ReqBlocks(size)
      modifies this, hdr, link, mem
      ensures Valid() && 0 < BLOCK_SIZE * (p + m) <= mem.Length
      ensures var end := BLOCK_SIZE * (p + m) - 1;
              ReallocResult(old(Live()), S(), p, ReqBlocks(size), m, r, Live(),
                            old(mem[..])[end] == old(Live())[p].owner)
      ensures r != NULL ==>
                var k := Min(old(Live())[p].blocks, ReqBlocks(size));
                GuardOk(r) && UserBytes(mem[..], r, k) == UserBytes(old(mem[..]), p, k)
      ensures forall a, i :: InArea(old(Live()), a, i) && 0 <= i < mem.Length && (a != p || r == NULL)
                ==> mem[i] == old(mem[i])
    {
      hide HeapInv, LiveOf, Kept, Grown, ReallocResult, InArea, UserBytes;
      LiveAreaIn(hdr[..], link[..], home, free, p);
      ghost var live := Live();
      var id := hdr[p].owner;
      m := ExposeAndMerge(p);
      SameUserBytes(old(mem[..]), mem[..], live, p, Min(live[p].blocks, ReqBlocks(size)));
      r := ReallocMerged(p, size, id, live);
    }

    /** m is the number of blocks of p together with the run of free blocks behind it. */
    method Realloc(p: int, size: int) returns (r: int, ghost m: int)
      requires Valid() && 0 <= size < 0x1_0000
      requires p != NULL && size != 0 ==> p in Live() && !hdr[p].marked && 0 < ReqBlocks(size)
      modifies this, hdr, link, mem
      ensures Valid()
      ensures p == NULL || size == 0 ==> r == p && Live() == old(Live()) && mem[..] == old(mem[..])
      ensures p != NULL && size != 0 ==>
                var end := BLOCK_SIZE * (p + m) - 1;
                && 0 <= end < mem.Length
                && ReallocResult(old(Live()), S(), p, ReqBlocks(size), m, r, Live(),
                                 old(mem[..])[end] == old(Live())[p].owner)
      ensures p != NULL && size != 0 && r != NULL ==>
                var k := Min(old(Live())[p].blocks, ReqBlocks(size));
                GuardOk(r) && UserBytes(mem[..], r, k) == UserBytes(old(mem[..]), p, k)
      ensures forall a, i :: InArea(old(Live()), a, i) && 0 <= i < mem.Length && (a != p || r == NULL)
                ==> mem[i] == old(mem[i])
    {
      hide HeapInv, LiveOf, ReallocResult, InArea, UserBytes;
      if p == NULL || size == 0 {
        return p, 0;
      }
      r, m := ReallocArea(p, size);
    }

    // -------------------------------------------------------------------------------------------
    // Initialisation and client stores
    // -------------------------------------------------------------------------------------------

    constructor (n: int)
      requires 2 <= n <= 0x4000
      ensures Valid() && hdr.Length == n && Live() == map[] && fresh(hdr) && fresh(link) && fresh(mem)
    {
      hdr := new Header[n](_ => Header(0, false, false, 0));
      link := new Links[n](_ => Links(0, 0));
      mem := new byte[BLOCK_SIZE * n];
      home := seq(n - 1, _ => 0);
      free := {};
      new;
      SetHeader(n - 1, Header(1, true, false, 0));
      SetPrev(n - 1, n - 1);
      SetNext(n - 1, n - 1);
      SetHeader(0, Header(n - 1, false, false, 0));
      WholePoolTiled(hdr[..], home);
      assert LinkedAt(link[..], free, n - 1, n - 1);
      InsertAfter(0);
      assert HeapInv(hdr[..], link[..], home, free, NULL) by {
        hide Tiled, Linked;
      }
    }

    /** A client writes one byte of the area a, possibly its guard byte. */
    method Store(a: int, i: int, v: byte)
      requires Valid() && InArea(Live(), a, i) && i < mem.Length
      modifies mem
      ensures Valid() && Live() == old(Live()) && mem[..] == old(mem[..])[i := v]
    {
      assert Covers(hdr[..], home, a);
      mem[i] := v;
    }
  }

  /** The guard byte is the last byte of the area, and lies behind all bytes that were asked for. */
  lemma GuardIsLast(hp: Heap, a: int, size: int)
    requires hp.Valid() && a in hp.Live() && 0 <= size <= 0xFFFF - (BLOCK_OVERHEAD + BLOCK_SIZE - 1)
    requires hp.Live()[a].blocks == ReqBlocks(size)
    ensures 0 <= a < hp.hdr.Length && InArea(hp.Live(), a, hp.Guard(a)) && !InArea(hp.Live(), a, hp.Guard(a) + 1)
    ensures forall i :: BLOCK_SIZE * a + HEADER <= i < BLOCK_SIZE * a + HEADER + size ==>
              InArea(hp.Live(), a, i) && i < hp.Guard(a)
  {
    LiveAreaIn(hp.hdr[..], hp.link[..], hp.home, hp.free, a);
    ReqBlocksIsLeast(size);
  }

  /** The lowest fit is where a run is free and every lower place meets a live block. */
  lemma FirstFitIs(live: Areas, s: int, n: int, r: int, x: int, last: int)
    requires FirstFit(live, s, n, r) && FreeRun(live, s, x, n) && 0 < n
    requires x == 0 || (last == x - 1 && !FreeAt(live, s, last) && forall q :: 0 <= q < x - n ==> !FreeAt(live, s, q))
    ensures r == x
  {
    assert FreeAt(live, s, r);
    assert r <= last < r + n ==> FreeAt(live, s, last);
  }

  /** Three areas next to each other, of two blocks and of one block each. */
  method ThreeAreas() returns (hp: Heap)
    ensures fresh(hp) && fresh(hp.hdr) && fresh(hp.link) && fresh(hp.mem) && hp.Valid() && hp.hdr.Length == 17
    ensures hp.Live() == map[0 := Area(2, 1), 2 := Area(1, 2), 3 := Area(1, 1)]
    ensures !hp.hdr[0].marked && hp.GuardOk(2)
  {
    hide HeapInv, LiveOf, FirstFit, NoFit, FreeAt, FreeRun;
    hp := new Heap(17);
    NoAreas(map[]);
    var one := hp.Alloc(12, 1);
    FirstFitIs(map[], 16, 2, one, 0, 0);
    ghost var live: Areas := map[0 := Area(2, 1)];
    OneArea(live);
    var two := hp.Alloc(4, 2);
    FirstFitIs(live, 16, 1, two, 2, 1);
    ThirdArea(hp);
  }

  lemma NoAreas(live: Areas)
    requires live == map[]
    ensures FreeRun(live, 16, 0, 2) && !NoFit(live, 16, 2)
  {
    assert FreeRun(live, 16, 0, 2);
  }

  lemma OneArea(live: Areas)
    requires live == map[0 := Area(2, 1)]
    ensures FreeRun(live, 16, 2, 1) && !NoFit(live, 16, 1) && !FreeAt(live, 16, 0) && !FreeAt(live, 16, 1)
  {
    assert 0 in live;
    assert FreeRun(live, 16, 2, 1);
  }

  lemma TwoAreas(live: Areas)
    requires live == map[0 := Area(2, 1), 2 := Area(1, 2)]
    ensures FreeRun(live, 16, 3, 1) && !NoFit(live, 16, 1)
    ensures !FreeAt(live, 16, 0) && !FreeAt(live, 16, 1) && !FreeAt(live, 16, 2)
  {
    assert 0 in live && 2 in live;
    assert FreeRun(live, 16, 3, 1);
  }

  method ThirdArea(hp: Heap)
    requires hp.Valid() && hp.hdr.Length == 17 && hp.Live() == map[0 := Area(2, 1), 2 := Area(1, 2)]
    requires !hp.hdr[0].marked && hp.GuardOk(2)
    modifies hp, hp.hdr, hp.link, hp.mem
    ensures hp.Valid() && hp.Live() == map[0 := Area(2, 1), 2 := Area(1, 2), 3 := Area(1, 1)]
    ensures !hp.hdr[0].marked && hp.GuardOk(2)
  {
    hide HeapInv, LiveOf, FirstFit, NoFit, FreeAt, FreeRun;
    LiveAreaIn(hp.hdr[..], hp.link[..], hp.home, hp.free, 2);
    ghost var live := hp.Live();
    assert InArea(live, 2, 23);
    TwoAreas(live);
    var three := hp.Alloc(4, 1);
    FirstFitIs(live, 16, 1, three, 3, 2);
  }

  /**
    An area of owner 1 takes up the freed area of owner 2 behind it, whose guard byte then stands at its own
    end.  When it has to move it is therefore not given back.
   */
  method OldAreaStays() returns (hp: Heap, r: int)
    ensures fresh(hp) && hp.Valid() && r == 4
    ensures hp.Live() == map[0 := Area(3, 1), 3 := Area(1, 1), 4 := Area(6, 1)]
  {
    hp := ThreeAreas();
    assert hp.hdr[2].blocks == hp.Live()[2].blocks && hp.hdr[2].owner == hp.Live()[2].owner;
    hide HeapInv, LiveOf;
    hp.Free(2);
    r := MoveFirst(hp);
  }

  method MoveFirst(hp: Heap) returns (r: int)
    requires hp.Valid() && hp.hdr.Length == 17 && hp.Live() == map[0 := Area(2, 1), 3 := Area(1, 1)]
    requires !hp.hdr[0].marked && hp.mem[23] == 2
    modifies hp, hp.hdr, hp.link, hp.mem
    ensures hp.Valid() && r == 4 && hp.Live() == map[0 := Area(3, 1), 3 := Area(1, 1), 4 := Area(6, 1)]
  {
    hide HeapInv, LiveOf, Grown;
    ghost var live: Areas := map[0 := Area(2, 1), 3 := Area(1, 1)];
    ghost var m;
    r, m := hp.Realloc(0, 40);
    MergedSize(live, m);
    assert FreeRun(live, 16, 4, 6) && 3 in live && !FreeAt(live, 16, 3);
    FirstFitIs(live, 16, 6, r, 4, 3);
  }

  lemma MergedSize(live: Areas, m: int)
    requires live == map[0 := Area(2, 1), 3 := Area(1, 1)] && Grown(live, 16, 0, m)
    ensures m == 3
  {
    assert 3 in live && FreeAt(live, 16, 2) && !FreeAt(live, 16, 3);
  }
}
