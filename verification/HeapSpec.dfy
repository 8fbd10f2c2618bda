/**
  The block heap of kernel/malloc.c (non-SFI build, AVR layout: 8-byte blocks, 3-byte header,
  2-byte pointers).

  A `Block*` is the index of a block, NULL is -1.  The header word keeps its size and its two flag
  bits as separate fields.  `link` is the union member that overlays the user bytes of a free area:
  writing it makes the bytes below it arbitrary, and so does writing a header.
 */
module HeapSpec {
  import opened Common

  const BLOCK_SIZE := 8
  const HEADER := 3
  const BLOCK_OVERHEAD := 4
  const NULL_PID: byte := 255
  const NULL := -1

  datatype Header = Header(blocks: int, reserved: bool, marked: bool, owner: byte)
  datatype Links = Links(prev: int, next: int)

  /** What a client sees of a reserved area. */
  datatype Area = Area(blocks: int, owner: byte)
  type Areas = map<int, Area>

  // ---------------------------------------------------------------------------------------------
  // Client view: which blocks are free, and where a request of n blocks fits
  // ---------------------------------------------------------------------------------------------

  ghost predicate FreeAt(live: Areas, s: int, x: int) {
    0 <= x < s && forall a :: a in live ==> !(a <= x < a + live[a].blocks)
  }

  ghost predicate FreeRun(live: Areas, s: int, p: int, n: int) {
    0 <= p && p + n <= s && forall x :: p <= x < p + n ==> FreeAt(live, s, x)
  }

  /** p starts the lowest-addressed run of n consecutive free blocks. */
  ghost predicate FirstFit(live: Areas, s: int, n: int, p: int) {
    FreeRun(live, s, p, n) && forall q :: q < p ==> !FreeRun(live, s, q, n)
  }

  /** p starts the highest-addressed run of n consecutive free blocks. */
  ghost predicate LastFit(live: Areas, s: int, n: int, p: int) {
    FreeRun(live, s, p, n) && forall q :: p < q ==> !FreeRun(live, s, q, n)
  }

  ghost predicate NoFit(live: Areas, s: int, n: int) {
    forall q :: !FreeRun(live, s, q, n)
  }

  /** Byte i lies in the user part (guard byte included) of the reserved area a. */
  ghost predicate InArea(live: Areas, a: int, i: int) {
    a in live && BLOCK_SIZE * a + HEADER <= i < BLOCK_SIZE * (a + live[a].blocks)
  }

  /** The area p and the run of free blocks behind it have m blocks together. */
  ghost predicate Grown(live: Areas, s: int, p: int, m: int) {
    && p in live && live[p].blocks <= m
    && FreeRun(live, s, p + live[p].blocks, m - live[p].blocks)
    && !FreeAt(live, s, p + m)
  }

  // ---------------------------------------------------------------------------------------------
  // The free list: circular through the sentinel s, strictly increasing in address
  // ---------------------------------------------------------------------------------------------

  ghost predicate Node(free: set<int>, s: int, a: int) {
    a in free || a == s
  }

  /** n follows a in the address-ordered list of the free areas; the sentinel comes last and first. */
  ghost predicate Next(free: set<int>, s: int, a: int, n: int) {
    && (a != s ==> a < n)
    && forall x :: x in free ==> (a != s && x <= a) || n <= x
  }

  ghost predicate Linked(l: seq<Links>, free: set<int>, s: int) {
    && 0 <= s < |l|
    && (forall a :: a in free ==> 0 <= a < s)
    && (forall a {:trigger LinkedAt(l, free, s, a)} :: 0 <= a <= s && Node(free, s, a) ==> LinkedAt(l, free, s, a))
  }

  ghost predicate LinkedAt(l: seq<Links>, free: set<int>, s: int, a: int)
    requires 0 <= a <= s < |l|
  {
    && Node(free, s, l[a].next) && Next(free, s, a, l[a].next)
    && Node(free, s, l[a].prev) && Next(free, s, l[a].prev, a)
  }

  lemma NextInjective(free: set<int>, s: int, a: int, b: int, n: int)
    requires forall x :: x in free ==> 0 <= x < s
    requires Node(free, s, a) && Node(free, s, b) && Node(free, s, n)
    requires Next(free, s, a, n)
    ensures Next(free, s, b, n) ==> a == b
  {
  }

  lemma UnlinkKeepsLinked(l: seq<Links>, free: set<int>, s: int, b: int, l1: seq<Links>)
    requires Linked(l, free, s) && b in free && LinkedAt(l, free, s, b)
    requires var p, n := l[b].prev, l[b].next;
             && |l1| == |l|
             && (p == n ==> l1[p] == Links(p, p))
             && (p != n ==> l1[p] == l[p].(next := n) && l1[n] == l[n].(prev := p))
             && forall x :: 0 <= x < |l| && x != p && x != n ==> l1[x] == l[x]
    ensures Linked(l1, free - {b}, s)
  {
    var p, n := l[b].prev, l[b].next;
    assert LinkedAt(l, free, s, b);
    forall a | 0 <= a <= s && Node(free - {b}, s, a)
      ensures LinkedAt(l1, free - {b}, s, a)
    {
      assert LinkedAt(l, free, s, a);
      NextInjective(free, s, p, a, b);
      NextFunctional(free, s, b, a, n);
    }
  }

  lemma NextFunctional(free: set<int>, s: int, a: int, m: int, n: int)
    requires forall x :: x in free ==> 0 <= x < s
    requires Node(free, s, a) && Node(free, s, m) && Node(free, s, n)
    requires Next(free, s, a, n)
    ensures Next(free, s, a, m) ==> m == n
  {
  }

  lemma InsertKeepsLinked(l: seq<Links>, free: set<int>, s: int, b: int, p: int, l1: seq<Links>)
    requires Linked(l, free, s) && b !in free && 0 <= b < s
    requires Node(free, s, p) && b < p && forall x :: x in free ==> p <= x || x < b
    requires |l1| == |l| && LinkedAt(l, free, s, p)
    requires var q := l[p].prev;
             && l1[b] == Links(q, p)
             && (q == p ==> l1[p] == Links(b, b))
             && (q != p ==> l1[q] == l[q].(next := b) && l1[p] == l[p].(prev := b))
             && forall x :: 0 <= x < |l| && x != b && x != p && x != q ==> l1[x] == l[x]
    ensures Linked(l1, free + {b}, s)
  {
    var q := l[p].prev;
    assert LinkedAt(l, free, s, p);
    forall a | 0 <= a <= s && Node(free + {b}, s, a)
      ensures LinkedAt(l1, free + {b}, s, a)
    {
      if a != b {
        assert LinkedAt(l, free, s, a);
        NextInjective(free, s, q, a, p);
        NextFunctional(free, s, q, a, p);
      }
    }
  }


  // ---------------------------------------------------------------------------------------------
  // The areas: home[x] is the first block of the area that block x belongs to
  // ---------------------------------------------------------------------------------------------

  ghost predicate Start(home: seq<int>, a: int) {
    0 <= a < |home| && home[a] == a
  }

  ghost predicate HomeAt(h: seq<Header>, home: seq<int>, x: int)
    requires 0 <= x < |home| < |h|
  {
    0 <= home[x] <= x && home[home[x]] == home[x] && x < home[x] + h[home[x]].blocks
  }

  ghost predicate Covers(h: seq<Header>, home: seq<int>, a: int)
    requires 0 <= a < |home| < |h|
  {
    && 1 <= h[a].blocks && a + h[a].blocks <= |home|
    && forall x :: a <= x < a + h[a].blocks ==> home[x] == a
  }

  /** The areas tile the blocks below the sentinel. */
  ghost predicate Tiled(h: seq<Header>, home: seq<int>) {
    && |home| < |h|
    && (forall x {:trigger HomeAt(h, home, x)} :: 0 <= x < |home| ==> HomeAt(h, home, x))
    && (forall a {:trigger Covers(h, home, a)} :: 0 <= a < |home| && Start(home, a) ==> Covers(h, home, a))
  }

  ghost function Rehome(home: seq<int>, lo: int, hi: int, v: int): (r: seq<int>)
    ensures |r| == |home|
    ensures forall x {:trigger r[x]} :: 0 <= x < |home| ==> r[x] == if lo <= x < hi then v else home[x]
  {
    seq(|home|, i requires 0 <= i < |home| => if lo <= i < hi then v else home[i])
  }

  /** The block after an area starts the next area, or is the sentinel. */
  lemma SuccessorStarts(h: seq<Header>, home: seq<int>, a: int)
    requires Tiled(h, home) && Start(home, a)
    ensures var c := a + h[a].blocks; c == |home| || Start(home, c)
  {
    var c := a + h[a].blocks;
    assert Covers(h, home, a);
    if c != |home| {
      assert HomeAt(h, home, c);
      assert Covers(h, home, home[c]);
    }
  }

  lemma MergeKeepsTiled(h: seq<Header>, home: seq<int>, b: int, h1: seq<Header>)
    requires Tiled(h, home) && Start(home, b) && Covers(h, home, b)
    requires var c := b + h[b].blocks;
             c < |home| && h1 == h[b := h[b].(blocks := h[b].blocks + h[c].blocks)]
    ensures var c := b + h[b].blocks; Tiled(h1, Rehome(home, c, c + h[c].blocks, b))
  {
    var c := b + h[b].blocks;
    var home1 := Rehome(home, c, c + h[c].blocks, b);
    SuccessorStarts(h, home, b);
    assert Covers(h, home, c);
    forall x | 0 <= x < |home| ensures HomeAt(h1, home1, x) {
      assert HomeAt(h, home, x);
    }
    forall a | 0 <= a < |home| && Start(home1, a) ensures Covers(h1, home1, a) {
      assert Covers(h, home, a);
    }
  }

  lemma SplitKeepsTiled(h: seq<Header>, home: seq<int>, b: int, n: int, h1: seq<Header>)
    requires Tiled(h, home) && Start(home, b) && Covers(h, home, b) && 0 < n < h[b].blocks
    requires |h1| == |h| && h1[b].blocks == n && h1[b + n].blocks == h[b].blocks - n
    requires forall x :: 0 <= x < |h| && x != b && x != b + n ==> h1[x].blocks == h[x].blocks
    ensures Tiled(h1, Rehome(home, b + n, b + h[b].blocks, b + n))
  {
    var home1 := Rehome(home, b + n, b + h[b].blocks, b + n);
    forall x | 0 <= x < |home| ensures HomeAt(h1, home1, x) {
      assert HomeAt(h, home, x);
    }
    forall a | 0 <= a < |home| && Start(home1, a) ensures Covers(h1, home1, a) {
      if a != b + n {
        assert Covers(h, home, a);
      }
    }
  }

  ghost function LiveOf(h: seq<Header>, home: seq<int>): (live: Areas)
    requires |home| < |h|
  {
    map a | 0 <= a < |home| && Start(home, a) && h[a].reserved :: Area(h[a].blocks, h[a].owner)
  }

  lemma FreeAtHome(h: seq<Header>, home: seq<int>, x: int)
    requires Tiled(h, home) && 0 <= x < |home|
    ensures FreeAt(LiveOf(h, home), |home|, x) <==> 0 <= home[x] <= x && !h[home[x]].reserved
  {
    assert HomeAt(h, home, x);
    forall a | a in LiveOf(h, home) && a <= x < a + h[a].blocks ensures home[x] == a {
      assert Covers(h, home, a);
    }
    if h[home[x]].reserved {
      assert home[x] in LiveOf(h, home);
    }
  }

  /** The heap invariant; d is an area that is neither reserved nor listed, or NULL. */
  ghost predicate HeapInv(h: seq<Header>, l: seq<Links>, home: seq<int>, free: set<int>, d: int) {
    && 2 <= |h| == |l| <= 0x4000 && |home| == |h| - 1 && h[|home|].reserved
    && Tiled(h, home) && Linked(l, free, |home|)
    && (forall a :: a in free ==> Start(home, a) && !h[a].reserved && !h[a].marked)
    && (forall a :: Start(home, a) && a != d ==> a in free || h[a].reserved)
    && (d != NULL ==> Start(home, d) && d !in free && !h[d].reserved && !h[d].marked)
  }

  /** Byte i lies in the user part of an area that is not on the free list. */
  ghost predicate Kept(home: seq<int>, free: set<int>, i: int) {
    0 <= i < BLOCK_SIZE * |home| &&
    var a := home[i / BLOCK_SIZE];
    a !in free && BLOCK_SIZE * a + HEADER <= i
  }

  /** No byte of a block of a free area is kept. */
  lemma FreeBlockBytes(home: seq<int>, free: set<int>, x: int)
    requires 0 <= x < |home| && home[x] in free
    ensures forall i :: Kept(home, free, i) ==>
              0 <= i < BLOCK_SIZE * |home| && !(BLOCK_SIZE * x <= i < BLOCK_SIZE * x + BLOCK_SIZE)
  {
  }

  /** Nothing is kept in the blocks that the tail of the free area b writes. */
  lemma TailInFree(h: seq<Header>, l: seq<Links>, home: seq<int>, free: set<int>, b: int, n: int)
    requires HeapInv(h, l, home, free, NULL) && b in free && (0 <= b < |h| ==> 0 < n < h[b].blocks)
    ensures 0 <= b < |h|
    ensures var r := b + h[b].blocks - n;
            && b < r && r + n <= |home| < |h| && Covers(h, home, b)
            && forall i :: Kept(home, free, i) ==>
                 && 0 <= i < BLOCK_SIZE * |home| && !(BLOCK_SIZE * b <= i < BLOCK_SIZE * b + BLOCK_SIZE)
                 && !(BLOCK_SIZE * r <= i < BLOCK_SIZE * r + BLOCK_SIZE)
                 && !(BLOCK_SIZE * (r + n) - BLOCK_SIZE <= i < BLOCK_SIZE * (r + n))
  {
    assert Covers(h, home, b);
    var r := b + h[b].blocks - n;
    assert home[r] == b && home[r + n - 1] == b && home[b] == b;
    FreeBlockBytes(home, free, b);
    FreeBlockBytes(home, free, r);
    FreeBlockBytes(home, free, r + n - 1);
  }

  lemma MergeKeepsBytes(h: seq<Header>, home: seq<int>, free: set<int>, b: int, c: int)
    requires |home| < |h| && 0 <= c < |home| && Covers(h, home, c) && c in free
    ensures forall i :: Kept(home, free, i) ==> Kept(Rehome(home, c, c + h[c].blocks, b), free - {c}, i)
  {
  }

  lemma MergeKeepsLive(h: seq<Header>, home: seq<int>, b: int, h1: seq<Header>)
    requires |home| < |h| && 0 <= b < |home| && b < b + h[b].blocks < |home|
    requires Start(home, b) && Covers(h, home, b + h[b].blocks)
    requires !h[b].reserved && !h[b + h[b].blocks].reserved
    requires h1 == h[b := h[b].(blocks := h[b].blocks + h[b + h[b].blocks].blocks)]
    ensures var c := b + h[b].blocks;
            LiveOf(h1, Rehome(home, c, c + h[c].blocks, b)) == LiveOf(h, home)
  {
  }

  lemma MergeKeepsInv(h: seq<Header>, l: seq<Links>, home: seq<int>, free: set<int>, d: int,
                      b: int, h1: seq<Header>, l1: seq<Links>)
    requires HeapInv(h, l, home, free, d) && (if d == NULL then b in free else b == d) && Covers(h, home, b)
    requires var c := b + h[b].blocks;
             && c < |home| && !h[c].reserved
             && h1 == h[b := h[b].(blocks := h[b].blocks + h[c].blocks)]
             && |l1| == |l| && Linked(l1, free - {c}, |home|)
    ensures var c := b + h[b].blocks;
            var home1 := Rehome(home, c, c + h[c].blocks, b);
            && c in free && b < c && HeapInv(h1, l1, home1, free - {c}, d)
            && LiveOf(h1, home1) == LiveOf(h, home)
            && forall i :: Kept(home, free, i) ==> Kept(home1, free - {c}, i)
  {
    var c := b + h[b].blocks;
    var home1 := Rehome(home, c, c + h[c].blocks, b);
    SuccessorStarts(h, home, b);
    MergeKeepsTiled(h, home, b, h1);
    assert Covers(h, home, c);
    MergeKeepsBytes(h, home, free, b, c);
    MergeKeepsLive(h, home, b, h1);
  }

  lemma SplitKeepsInv(h: seq<Header>, l: seq<Links>, home: seq<int>, free: set<int>, d: int,
                      b: int, n: int, h1: seq<Header>, l1: seq<Links>)
    requires HeapInv(h, l, home, free, d) && (if d == NULL then b in free else b == d) && Covers(h, home, b)
    requires 0 < n < h[b].blocks && |h1| == |h| == |l1|
    requires h1[b] == h[b].(blocks := n)
    requires h1[b + n].blocks == h[b].blocks - n && !h1[b + n].reserved && !h1[b + n].marked
    requires forall x :: 0 <= x < |h| && x != b && x != b + n ==> h1[x] == h[x]
    requires Linked(l1, free + {b + n}, |home|)
    ensures var home1 := Rehome(home, b + n, b + h[b].blocks, b + n);
            && HeapInv(h1, l1, home1, free + {b + n}, d)
            && LiveOf(h1, home1) == LiveOf(h, home)
            && forall i :: Kept(home, free, i) && !(BLOCK_SIZE * (b + n) <= i < BLOCK_SIZE * (b + h[b].blocks))
                 ==> Kept(home1, free + {b + n}, i)
  {
    var c, e := b + n, b + h[b].blocks;
    var home1 := Rehome(home, c, e, c);
    SplitKeepsTiled(h, home, b, n, h1);
    assert Start(home, b);
    forall a | 0 <= a < |home|
      ensures Start(home1, a) <==> a == c || Start(home, a)
    {
      assert home1[a] == if c <= a < e then c else home[a];
    }
    SplitKeepsBytes(h, home, free, b, n);
  }

  lemma SplitKeepsBytes(h: seq<Header>, home: seq<int>, free: set<int>, b: int, n: int)
    requires Tiled(h, home) && 0 <= b < |home| && Covers(h, home, b) && 0 < n < h[b].blocks
    ensures forall i :: Kept(home, free, i) && !(BLOCK_SIZE * (b + n) <= i < BLOCK_SIZE * (b + h[b].blocks)) ==>
              Kept(Rehome(home, b + n, b + h[b].blocks, b + n), free + {b + n}, i)
  {
    forall i | Kept(home, free, i) && !(BLOCK_SIZE * (b + n) <= i < BLOCK_SIZE * (b + h[b].blocks))
      ensures Kept(Rehome(home, b + n, b + h[b].blocks, b + n), free + {b + n}, i)
    {
      assert home[b + n] == b;
      assert HomeAt(h, home, i / BLOCK_SIZE);
    }
  }

  /** Taking a live area b out of service, before it is listed or reserved again. */
  lemma DetachKeepsInv(h: seq<Header>, l: seq<Links>, home: seq<int>, free: set<int>, b: int,
                       h1: seq<Header>)
    requires HeapInv(h, l, home, free, NULL) && b in LiveOf(h, home)
    requires |h1| == |h| && h1[b].blocks == h[b].blocks && !h1[b].reserved && !h1[b].marked
    requires forall x :: 0 <= x < |h| && x != b ==> h1[x] == h[x]
    ensures HeapInv(h1, l, home, free, b) && LiveOf(h1, home) == LiveOf(h, home) - {b}
  {
    SameSizesKeepTiled(h, home, h1);
  }

  /** Reserving the detached area d. */
  lemma AttachKeepsInv(h: seq<Header>, l: seq<Links>, home: seq<int>, free: set<int>, d: int,
                       h1: seq<Header>)
    requires HeapInv(h, l, home, free, d) && d != NULL
    requires |h1| == |h| && h1[d].blocks == h[d].blocks && h1[d].reserved
    requires forall x :: 0 <= x < |h| && x != d ==> h1[x] == h[x]
    ensures HeapInv(h1, l, home, free, NULL)
    ensures LiveOf(h1, home) == LiveOf(h, home)[d := Area(h[d].blocks, h1[d].owner)]
  {
    SameSizesKeepTiled(h, home, h1);
  }

  lemma SameSizesKeepTiled(h: seq<Header>, home: seq<int>, h1: seq<Header>)
    requires Tiled(h, home) && |h1| == |h| && forall x :: 0 <= x < |h| ==> h1[x].blocks == h[x].blocks
    ensures Tiled(h1, home)
  {
    forall x | 0 <= x < |home| ensures HomeAt(h1, home, x) {
      assert HomeAt(h, home, x);
    }
    forall a | 0 <= a < |home| && Start(home, a) ensures Covers(h1, home, a) {
      assert Covers(h, home, a);
    }
  }

  /** An area followed by a reserved block, or by the sentinel, ends its run of free blocks. */
  lemma EndOfRun(h: seq<Header>, home: seq<int>, b: int, k: int)
    requires Tiled(h, home) && Start(home, b) && Covers(h, home, b) && !h[b].reserved
    requires 0 <= k <= h[b].blocks
    requires h[b + h[b].blocks].reserved
    ensures !FreeAt(LiveOf(h, home), |home|, b + h[b].blocks)
    ensures FreeRun(LiveOf(h, home), |home|, b + k, h[b].blocks - k)
  {
    SuccessorStarts(h, home, b);
    var c := b + h[b].blocks;
    if c < |home| {
      FreeAtHome(h, home, c);
    }
    forall x | b + k <= x < c ensures FreeAt(LiveOf(h, home), |home|, x) {
      FreeAtHome(h, home, x);
    }
  }

  // ---------------------------------------------------------------------------------------------
  // Searching the free list for a run of n blocks
  // ---------------------------------------------------------------------------------------------

  /** sizeof arithmetic is 16 bits wide on AVR, so the sum may wrap. */
  function ReqBlocks(size: int): (n: int) {
    (size + BLOCK_OVERHEAD + BLOCK_SIZE - 1) % 0x1_0000 / BLOCK_SIZE
  }

  /** Not a block more than the size needs, unless the sum wraps. */
  lemma ReqBlocksIsLeast(size: int)
    requires 0 <= size <= 0xFFFF - (BLOCK_OVERHEAD + BLOCK_SIZE - 1)
    ensures BLOCK_SIZE * (ReqBlocks(size) - 1) < size + BLOCK_OVERHEAD <= BLOCK_SIZE * ReqBlocks(size)
  {
  }

  /** Blocks between the end of b and the next free area are reserved. */
  lemma GapNotFree(h: seq<Header>, l: seq<Links>, home: seq<int>, free: set<int>,
                   b: int, nb: int, x: int)
    requires HeapInv(h, l, home, free, NULL) && Next(free, |home|, b, nb) && x < nb
    requires b == |home| || (b in free && b + h[b].blocks <= x)
    ensures !FreeAt(LiveOf(h, home), |home|, x)
  {
    if 0 <= x < |home| {
      FreeAtHome(h, home, x);
      assert HomeAt(h, home, x);
      assert Start(home, home[x]) && Covers(h, home, home[x]);
      assert b in free ==> Covers(h, home, b);
    }
  }

  lemma NoRunBeforeHead(h: seq<Header>, l: seq<Links>, home: seq<int>, free: set<int>, n: int)
    requires HeapInv(h, l, home, free, NULL) && 0 < n
    ensures forall q :: q < l[|home|].next ==> !FreeRun(LiveOf(h, home), |home|, q, n)
  {
    assert LinkedAt(l, free, |home|, |home|);
    forall q | q < l[|home|].next ensures !FreeRun(LiveOf(h, home), |home|, q, n) {
      GapNotFree(h, l, home, free, |home|, l[|home|].next, q);
    }
  }

  lemma NoRunBeforeNext(h: seq<Header>, l: seq<Links>, home: seq<int>, free: set<int>,
                        b: int, n: int)
    requires HeapInv(h, l, home, free, NULL) && b in free && h[b].blocks < n
    requires !FreeAt(LiveOf(h, home), |home|, b + h[b].blocks)
    requires forall q :: q < b ==> !FreeRun(LiveOf(h, home), |home|, q, n)
    ensures forall q :: q < l[b].next ==> !FreeRun(LiveOf(h, home), |home|, q, n)
  {
    assert LinkedAt(l, free, |home|, b) && Covers(h, home, b);
    forall q | b <= q < l[b].next ensures !FreeRun(LiveOf(h, home), |home|, q, n) {
      if b + h[b].blocks <= q {
        GapNotFree(h, l, home, free, b, l[b].next, q);
      }
    }
  }

  lemma RunInArea(h: seq<Header>, home: seq<int>, b: int, n: int)
    requires Tiled(h, home) && Start(home, b) && !h[b].reserved && n <= h[b].blocks
    ensures FreeRun(LiveOf(h, home), |home|, b, n)
  {
    assert Covers(h, home, b);
    forall x | b <= x < b + n ensures FreeAt(LiveOf(h, home), |home|, x) {
      FreeAtHome(h, home, x);
    }
  }

  /** After merging, the tail of the last area with n blocks is the highest run of n free blocks. */
  lemma TailIsLastFit(h: seq<Header>, l: seq<Links>, home: seq<int>, free: set<int>,
                      max: int, n: int)
    requires HeapInv(h, l, home, free, NULL) && 0 < n
    requires forall a :: a in free ==> !FreeAt(LiveOf(h, home), |home|, a + h[a].blocks)
    requires max == NULL || (max in free && n <= h[max].blocks)
    requires forall a :: a in free && max < a ==> h[a].blocks < n
    ensures max == NULL ==> NoFit(LiveOf(h, home), |home|, n)
    ensures max != NULL ==> LastFit(LiveOf(h, home), |home|, n, max + h[max].blocks - n)
  {
    var live := LiveOf(h, home);
    forall q | FreeRun(live, |home|, q, n)
      ensures max != NULL && q <= max + h[max].blocks - n
    {
      RunStaysInArea(h, l, home, free, q, n);
      assert Covers(h, home, home[q]);
      assert max != NULL ==> Start(home, max);
    }
    if max != NULL {
      assert Covers(h, home, max);
      RunInArea(h, home, max, h[max].blocks);
    }
  }

  lemma RunStaysInArea(h: seq<Header>, l: seq<Links>, home: seq<int>, free: set<int>,
                       q: int, n: int)
    requires HeapInv(h, l, home, free, NULL) && 0 < n && FreeRun(LiveOf(h, home), |home|, q, n)
    requires forall a :: a in free ==> !FreeAt(LiveOf(h, home), |home|, a + h[a].blocks)
    ensures home[q] in free && home[q] <= q && q + n <= home[q] + h[home[q]].blocks
  {
    var live := LiveOf(h, home);
    assert FreeAt(live, |home|, q);
    FreeAtHome(h, home, q);
    assert HomeAt(h, home, q) && Start(home, home[q]);
    var e := home[q] + h[home[q]].blocks;
    assert e < q + n ==> FreeAt(live, |home|, e);
  }

  /** Cutting the last n blocks off a free area and reserving them. */
  lemma StealTailKeepsInv(h: seq<Header>, l: seq<Links>, home: seq<int>, free: set<int>,
                          b: int, n: int, h1: seq<Header>)
    requires HeapInv(h, l, home, free, NULL) && b in free && Covers(h, home, b) && 0 < n < h[b].blocks
    requires var p := b + h[b].blocks - n;
             && |h1| == |h| && h1[b] == h[b].(blocks := h[b].blocks - n)
             && h1[p].blocks == n && h1[p].reserved
             && forall x :: 0 <= x < |h| && x != b && x != p ==> h1[x] == h[x]
    ensures var p := b + h[b].blocks - n;
            var home1 := Rehome(home, p, b + h[b].blocks, p);
            && HeapInv(h1, l, home1, free, NULL)
            && LiveOf(h1, home1) == LiveOf(h, home)[p := Area(n, h1[p].owner)]
            && forall i :: Kept(home, free, i) ==> Kept(home1, free, i)
  {
    var p, e := b + h[b].blocks - n, b + h[b].blocks;
    var home1 := Rehome(home, p, e, p);
    SplitKeepsTiled(h, home, b, p - b, h1);
    forall a | 0 <= a < |home|
      ensures Start(home1, a) <==> a == p || Start(home, a)
    {
      assert home1[a] == if p <= a < e then p else home[a];
    }
    forall i | Kept(home, free, i) ensures Kept(home1, free, i) {
      assert home1[i / BLOCK_SIZE] == home[i / BLOCK_SIZE];
    }
  }

  lemma AreaBytesKept(h: seq<Header>, l: seq<Links>, home: seq<int>, free: set<int>, d: int)
    requires HeapInv(h, l, home, free, d)
    ensures forall a, i :: InArea(LiveOf(h, home), a, i) ==> Kept(home, free, i) && home[i / BLOCK_SIZE] == a
  {
    forall a, i | InArea(LiveOf(h, home), a, i)
      ensures Kept(home, free, i) && home[i / BLOCK_SIZE] == a
    {
      assert Covers(h, home, a);
    }
  }

  lemma FreeAtSmaller(big: Areas, small: Areas, s: int, x: int)
    requires FreeAt(big, s, x)
    requires forall a :: a in small ==> a in big && small[a].blocks <= big[a].blocks
    ensures FreeAt(small, s, x)
  {
  }

  /** Reserving the free blocks behind p does not change which requests above m blocks fit. */
  lemma GrowingKeepsFits(live: Areas, s: int, p: int, m: int, n: int, id: byte)
    requires Grown(live, s, p, m) && 1 <= live[p].blocks && 0 <= p && m < n
    ensures NoFit(live[p := Area(m, id)], s, n) <==> NoFit(live, s, n)
    ensures forall r :: FirstFit(live[p := Area(m, id)], s, n, r) <==> FirstFit(live, s, n, r)
  {
    var live1 := live[p := Area(m, id)];
    forall q
      ensures FreeRun(live1, s, q, n) <==> FreeRun(live, s, q, n)
    {
      if FreeRun(live1, s, q, n) {
        forall x | q <= x < q + n ensures FreeAt(live, s, x) {
          FreeAtSmaller(live1, live, s, x);
        }
      }
      if FreeRun(live, s, q, n) {
        forall x | q <= x < q + n ensures FreeAt(live1, s, x) {
          assert FreeAt(live, s, x);
          assert q <= p + live[p].blocks - 1 < q + n ==> FreeAt(live, s, p + live[p].blocks - 1);
          assert q <= p + m < q + n ==> FreeAt(live, s, p + m);
        }
      }
    }
  }

  /** Away from p's own blocks, taking p out of the live areas changes nothing. */
  lemma GrownWithout(live: Areas, s: int, p: int, m: int)
    requires p in live && live[p].blocks <= m
    requires FreeRun(live - {p}, s, p + live[p].blocks, m - live[p].blocks) && !FreeAt(live - {p}, s, p + m)
    ensures Grown(live, s, p, m)
  {
    forall x | p + live[p].blocks <= x < p + m ensures FreeAt(live, s, x) {
      assert FreeAt(live - {p}, s, x);
      assert forall a :: a in live && a != p ==> a in live - {p};
    }
  }

  lemma FirstStarts(h: seq<Header>, home: seq<int>)
    requires Tiled(h, home) && 0 < |home|
    ensures Start(home, 0)
  {
    assert HomeAt(h, home, 0);
  }

  lemma NoStartInside(h: seq<Header>, home: seq<int>, b: int)
    requires Tiled(h, home) && Start(home, b)
    ensures forall a :: Start(home, a) && b < a ==> b + h[b].blocks <= a
  {
    assert Covers(h, home, b);
  }

  /** What is left of live when the walk has passed block b and the areas in gone were dropped. */
  ghost function SweptTo(live: Areas, gone: set<int>, b: int): Areas {
    live - set a | a in gone && a < b
  }

  lemma SweepStep(live: Areas, gone: set<int>, b: int, next: int, now: Areas)
    requires gone <= live.Keys && b < next
    requires now == if b in gone then SweptTo(live, gone, b) - {b} else SweptTo(live, gone, b)
    requires forall a :: a in now && b < a ==> next <= a
    ensures now == SweptTo(live, gone, next)
  {
  }

  lemma SweptNone(h: seq<Header>, home: seq<int>, gone: set<int>)
    requires |home| < |h|
    ensures SweptTo(LiveOf(h, home), gone, 0) == LiveOf(h, home)
  {
  }

  lemma SweptPart(live: Areas, gone: set<int>, b: int)
    ensures forall a :: a in SweptTo(live, gone, b) ==> a in live && SweptTo(live, gone, b)[a] == live[a]
    ensures forall a :: a in live && b <= a ==> a in SweptTo(live, gone, b)
  {
  }

  lemma NewAreaApart(live: Areas, s: int, r: int, n: int)
    requires FreeRun(live, s, r, n) && 0 < n
    ensures r !in live || live[r].blocks <= 0
    ensures forall a :: a in live && 0 < live[a].blocks ==> a + live[a].blocks <= r || r + n <= a
    ensures forall a, i :: InArea(live, a, i) && 0 < live[a].blocks ==>
              !(BLOCK_SIZE * r <= i < BLOCK_SIZE * (r + n))
  {
    forall a | a in live && 0 < live[a].blocks
      ensures a + live[a].blocks <= r || r + n <= a
    {
      assert FreeAt(live, s, r);
      assert r <= a < r + n ==> FreeAt(live, s, a);
    }
    assert FreeAt(live, s, r);
  }

  function UserPart(b: int): int { BLOCK_SIZE * b + HEADER }

  /** BLOCKS_TO_BYTES: all bytes of an n-block area behind its header, the guard byte included. */
  function Capacity(n: int): int { BLOCK_SIZE * n - HEADER }

  /** The user bytes in the first n blocks of the area b. */
  ghost function Contents(m: seq<byte>, b: int, n: int): seq<byte> {
    if 0 <= b && 0 < n && BLOCK_SIZE * (b + n) <= |m|
    then m[UserPart(b)..UserPart(b) + Capacity(n)] else []
  }

  lemma SameContents(m: seq<byte>, m1: seq<byte>, live: Areas, b: int, n: int)
    requires |m1| == |m| && b in live && n <= live[b].blocks
    requires forall i :: InArea(live, b, i) && 0 <= i < |m| ==> m1[i] == m[i]
    ensures Contents(m1, b, n) == Contents(m, b, n)
  {
  }

  function Min(a: int, b: int): (r: int)
    ensures r <= a && r <= b && (r == a || r == b)
  {
    if a < b then a else b
  }

  /** The user bytes in the first n blocks of the area b, without the last one, which may be the guard. */
  ghost function UserBytes(m: seq<byte>, b: int, n: int): seq<byte> {
    if 0 <= b && 0 < n && BLOCK_SIZE * (b + n) <= |m|
    then m[UserPart(b)..UserPart(b) + Capacity(n) - 1] else []
  }

  /** Every byte that was asked for is one of the user bytes, at its place behind the header. */
  lemma UserByteAt(m: seq<byte>, b: int, size: int, j: int)
    requires 0 <= j < size <= 0xFFFF - (BLOCK_OVERHEAD + BLOCK_SIZE - 1)
    requires 0 <= b && BLOCK_SIZE * (b + ReqBlocks(size)) <= |m|
    ensures var bytes := UserBytes(m, b, ReqBlocks(size));
            j < |bytes| && bytes[j] == m[BLOCK_SIZE * b + HEADER + j]
  {
    ReqBlocksIsLeast(size);
  }

  lemma SameUserBytes(m: seq<byte>, m1: seq<byte>, live: Areas, b: int, n: int)
    requires |m1| == |m| && b in live && n <= live[b].blocks
    requires forall i :: InArea(live, b, i) && 0 <= i < |m| && i < BLOCK_SIZE * (b + n) - 1 ==> m1[i] == m[i]
    ensures UserBytes(m1, b, n) == UserBytes(m, b, n)
  {
  }

  /** Where realloc of the area p to n blocks puts the result r, and which areas are live afterwards. */
  ghost predicate ReallocResult(live: Areas, s: int, p: int, n: int, m: int, r: int, live': Areas, intact: bool) {
    && Grown(live, s, p, m)
    && var id := live[p].owner;
    && (n <= m ==> r == p && live' == live[p := Area(n, id)])
    && (m < n ==>
          var grown := live[p := Area(m, id)];
          && (r == NULL <==> NoFit(live, s, n))
          && (r == NULL ==> live' == grown)
          && (r != NULL ==> FirstFit(live, s, n, r))
          && (r != NULL && intact ==> live' == grown[r := Area(n, id)] - {p})
          && (r != NULL && !intact ==> live' == grown[r := Area(n, id)]))
  }

  lemma ContentsGiveUserBytes(m: seq<byte>, b: int, m1: seq<byte>, b1: int, n: int, k: int)
    requires Contents(m, b, n) == Contents(m1, b1, n) && 0 < k <= n && 0 <= b && 0 <= b1
    requires BLOCK_SIZE * (b + n) <= |m| && BLOCK_SIZE * (b1 + n) <= |m1|
    ensures UserBytes(m, b, k) == UserBytes(m1, b1, k)
  {
    assert UserBytes(m, b, k) == Contents(m, b, n)[..Capacity(k) - 1];
    assert UserBytes(m1, b1, k) == Contents(m1, b1, n)[..Capacity(k) - 1];
  }

  // ---------------------------------------------------------------------------------------------
  // What the invariant means for a walk along the links
  // ---------------------------------------------------------------------------------------------

  /** The areas met when following the next links from a until the sentinel. */
  ghost function Walk(l: seq<Links>, free: set<int>, s: int, a: int): seq<int>
    requires Linked(l, free, s) && Node(free, s, a)
    decreases s - a
  {
    if a == s then [] else
      assert LinkedAt(l, free, s, a);
      [a] + Walk(l, free, s, l[a].next)
  }

  ghost predicate Ascending(w: seq<int>) {
    forall i, j :: 0 <= i < j < |w| ==> w[i] < w[j]
  }

  lemma {:induction false} WalkVisits(l: seq<Links>, free: set<int>, s: int, a: int)
    requires Linked(l, free, s) && Node(free, s, a)
    ensures Ascending(Walk(l, free, s, a))
    ensures forall x :: x in Walk(l, free, s, a) <==> x in free && a <= x
    decreases s - a
  {
    if a != s {
      assert LinkedAt(l, free, s, a);
      var n := l[a].next;
      WalkVisits(l, free, s, n);
      Prepend(Walk(l, free, s, n), free, s, a, n);
    }
  }

  lemma Prepend(t: seq<int>, free: set<int>, s: int, a: int, n: int)
    requires a in free && a < s && Next(free, s, a, n) && Ascending(t)
    requires forall x :: x in t <==> x in free && n <= x
    ensures Ascending([a] + t)
    ensures forall x :: x in [a] + t <==> x in free && a <= x
  {
    assert forall i :: 0 <= i < |t| ==> t[i] in t;
    forall x | x in free && a <= x ensures x in [a] + t {
      assert x == a || x in t;
    }
  }

  ghost predicate LinksMatch(l: seq<Links>, s: int, a: int) {
    && 0 <= a <= s < |l| && 0 <= l[a].next <= s && 0 <= l[a].prev <= s
    && l[l[a].next].prev == a && l[l[a].prev].next == a
  }

  /** The walk from the sentinel meets exactly the areas that are not reserved, in address order. */
  lemma FreeListIsUnreservedAreas(h: seq<Header>, l: seq<Links>, home: seq<int>, free: set<int>)
    requires HeapInv(h, l, home, free, NULL)
    ensures Node(free, |home|, l[|home|].next)
    ensures var w := Walk(l, free, |home|, l[|home|].next);
            && Ascending(w)
            && (forall x :: x in w <==> Start(home, x) && !h[x].reserved)
            && (forall a :: a in w || a == |home| ==> LinksMatch(l, |home|, a))
  {
    var s := |home|;
    assert LinkedAt(l, free, s, s);
    WalkVisits(l, free, s, l[s].next);
    forall a | Node(free, s, a) ensures LinksMatch(l, s, a) {
      assert LinkedAt(l, free, s, a);
      assert LinkedAt(l, free, s, l[a].next) && LinkedAt(l, free, s, l[a].prev);
      NextInjective(free, s, a, l[l[a].next].prev, l[a].next);
      NextFunctional(free, s, l[a].prev, l[l[a].prev].next, a);
    }
  }

  /** The number of free blocks from block x to the sentinel, counted block by block. */
  ghost function FreeFrom(live: Areas, s: int, x: int): int
    decreases s - x
  {
    if s <= x then 0 else (if FreeAt(live, s, x) then 1 else 0) + FreeFrom(live, s, x + 1)
  }

  /** The number of blocks on the list from a on, summed over the headers. */
  ghost function ListBlocks(h: seq<Header>, l: seq<Links>, free: set<int>, s: int, a: int): int
    requires Linked(l, free, s) && Node(free, s, a) && s < |h|
    decreases s - a
  {
    if a == s then 0 else
      assert LinkedAt(l, free, s, a);
      h[a].blocks + ListBlocks(h, l, free, s, l[a].next)
  }

  lemma {:induction false} FreeStretch(live: Areas, s: int, x: int, y: int, isFree: bool)
    requires x <= y <= s
    requires forall z :: x <= z < y ==> FreeAt(live, s, z) == isFree
    ensures FreeFrom(live, s, x) == FreeFrom(live, s, y) + if isFree then y - x else 0
    decreases y - x
  {
    if x < y {
      FreeStretch(live, s, x + 1, y, isFree);
    }
  }

  lemma {:induction false} ListHoldsFreeBlocks(h: seq<Header>, l: seq<Links>, home: seq<int>, free: set<int>, a: int)
    requires HeapInv(h, l, home, free, NULL) && Node(free, |home|, a)
    ensures ListBlocks(h, l, free, |home|, a) == FreeFrom(LiveOf(h, home), |home|, a)
    decreases |home| - a
  {
    var s, live := |home|, LiveOf(h, home);
    if a != s {
      assert LinkedAt(l, free, s, a) && Covers(h, home, a);
      var e, n := a + h[a].blocks, l[a].next;
      ListHoldsFreeBlocks(h, l, home, free, n);
      RunInArea(h, home, a, h[a].blocks);
      FreeStretch(live, s, a, e, true);
      forall z | e <= z < n ensures !FreeAt(live, s, z) {
        GapNotFree(h, l, home, free, a, n, z);
      }
      assert Start(home, n) || n == s;
      FreeStretch(live, s, e, n, false);
    }
  }

  /** The blocks of the live areas that start at block x or behind, summed over the areas. */
  ghost function LiveBlocks(live: Areas, s: int, x: int): int
    decreases s - x
  {
    if s <= x then 0 else (if x in live then live[x].blocks else 0) + LiveBlocks(live, s, x + 1)
  }

  lemma {:induction false} LiveStretch(live: Areas, s: int, x: int, y: int)
    requires x <= y <= s && forall z :: x <= z < y ==> z !in live
    ensures LiveBlocks(live, s, x) == LiveBlocks(live, s, y)
    decreases y - x
  {
    if x < y {
      LiveStretch(live, s, x + 1, y);
    }
  }

  /** From the start of an area on, free blocks and blocks of live areas are all blocks up to the sentinel. */
  lemma {:induction false} AreasAddUp(h: seq<Header>, home: seq<int>, a: int)
    requires Tiled(h, home) && (a == |home| || Start(home, a))
    ensures FreeFrom(LiveOf(h, home), |home|, a) + LiveBlocks(LiveOf(h, home), |home|, a) == |home| - a
    decreases |home| - a
  {
    var s, live := |home|, LiveOf(h, home);
    if a != s {
      var e := a + h[a].blocks;
      assert Covers(h, home, a);
      SuccessorStarts(h, home, a);
      AreasAddUp(h, home, e);
      forall z | a <= z < e ensures FreeAt(live, s, z) == !h[a].reserved {
        FreeAtHome(h, home, z);
      }
      FreeStretch(live, s, a, e, !h[a].reserved);
      LiveStretch(live, s, a + 1, e);
    }
  }

  lemma ListIsFreeBlocks(h: seq<Header>, l: seq<Links>, home: seq<int>, free: set<int>)
    requires HeapInv(h, l, home, free, NULL)
    ensures Node(free, |home|, l[|home|].next)
    ensures ListBlocks(h, l, free, |home|, l[|home|].next) == FreeFrom(LiveOf(h, home), |home|, 0)
  {
    var s := |home|;
    assert LinkedAt(l, free, s, s);
    var n := l[s].next;
    ListHoldsFreeBlocks(h, l, home, free, n);
    forall z | 0 <= z < n ensures !FreeAt(LiveOf(h, home), s, z) {
      GapNotFree(h, l, home, free, s, n, z);
    }
    FreeStretch(LiveOf(h, home), s, 0, n, false);
  }

  /** Conservation: the blocks on the free list and those of the live areas are all blocks below the sentinel. */
  lemma BlocksConserved(h: seq<Header>, l: seq<Links>, home: seq<int>, free: set<int>)
    requires HeapInv(h, l, home, free, NULL)
    ensures Node(free, |home|, l[|home|].next)
    ensures ListBlocks(h, l, free, |home|, l[|home|].next) + LiveBlocks(LiveOf(h, home), |home|, 0) == |home|
  {
    ListIsFreeBlocks(h, l, home, free);
    FirstStarts(h, home);
    AreasAddUp(h, home, 0);
  }

  /** A request that comes to zero blocks breaks the heap: no tiling has an area without blocks. */
  lemma ZeroBlocksBreakTiling(h: seq<Header>, b: int, id: byte, home: seq<int>)
    requires 0 <= b < |h| && |home| < |h| && Start(home, b)
    ensures !Tiled(h[b := Header(0, true, false, id)], home)
  {
    assert !Covers(h[b := Header(0, true, false, id)], home, b);
  }

  /** The links after InsertAfter has been called for an area that is on the list already. */
  function InsertedTwice(l: seq<Links>, b: int): seq<Links>
    requires 0 <= b < |l| && 0 <= l[b].prev < |l|
  {
    var q := l[b].prev;
    l[q := l[q].(next := b)][b := Links(b, b)]
  }

  /** Freeing an area of the free list again, past the guard test, makes it its own neighbour. */
  lemma DoubleFreeBreaksList(l: seq<Links>, free: set<int>, s: int, b: int)
    requires Linked(l, free, s) && b in free
    ensures 0 <= b < |l| && 0 <= l[b].prev < |l| && !Linked(InsertedTwice(l, b), free, s)
  {
    assert LinkedAt(l, free, s, b);
    assert !LinkedAt(InsertedTwice(l, b), free, s, b);
  }

  /** Reserved areas never overlap and stay below the sentinel. */
  lemma LiveAreasDisjoint(h: seq<Header>, home: seq<int>, a: int, b: int)
    requires Tiled(h, home) && a in LiveOf(h, home) && b in LiveOf(h, home) && a < b
    ensures 0 <= a && 1 <= h[a].blocks && a + h[a].blocks <= b && b + h[b].blocks <= |home|
  {
    assert Covers(h, home, a) && Covers(h, home, b);
  }

  /** The area holds the requested bytes and a guard byte exactly when the size sum does not wrap. */
  lemma ReqBlocksFits(size: int)
    requires 0 < size < 0x1_0000
    ensures size + BLOCK_OVERHEAD <= BLOCK_SIZE * ReqBlocks(size) <==>
              size <= 0xFFFF - (BLOCK_OVERHEAD + BLOCK_SIZE - 1)
    ensures ReqBlocks(size) == 0 <==> 0xFFF5 <= size <= 0xFFFC
  {
  }

  lemma WholePoolTiled(h: seq<Header>, home: seq<int>)
    requires 0 < |home| < |h| && h[0].blocks == |home| && !h[0].reserved
    requires forall x :: 0 <= x < |home| ==> home[x] == 0
    ensures Tiled(h, home) && LiveOf(h, home) == map[]
  {
  }

  lemma SweptAll(h: seq<Header>, home: seq<int>, gone: set<int>)
    requires |home| < |h| && gone <= LiveOf(h, home).Keys
    ensures SweptTo(LiveOf(h, home), gone, |home|) == LiveOf(h, home) - gone
  {
  }

  /** The step of the walk over all areas. */
  lemma NextStart(h: seq<Header>, l: seq<Links>, home: seq<int>, free: set<int>, b: int)
    requires HeapInv(h, l, home, free, NULL) && Start(home, b)
    ensures 0 <= b < b + h[b].blocks <= |home| && (b + h[b].blocks < |home| ==> Start(home, b + h[b].blocks))
    ensures forall a :: a in LiveOf(h, home) && b < a ==> b + h[b].blocks <= a
  {
    SuccessorStarts(h, home, b);
    NoStartInside(h, home, b);
    assert Covers(h, home, b);
  }

  lemma LiveAreasIn(h: seq<Header>, l: seq<Links>, home: seq<int>, free: set<int>)
    requires HeapInv(h, l, home, free, NULL)
    ensures |home| + 1 == |h| && (forall a :: a in LiveOf(h, home) ==> AreaIn(h, home, a))
    ensures forall a :: Start(home, a) && h[a].reserved ==> a in LiveOf(h, home)
    ensures forall a :: a in LiveOf(h, home) ==> Start(home, a)
  {
    forall a | a in LiveOf(h, home) ensures AreaIn(h, home, a) {
      LiveAreaIn(h, l, home, free, a);
    }
  }

  ghost predicate AreaIn(h: seq<Header>, home: seq<int>, a: int) {
    && |home| < |h| && a in LiveOf(h, home) && 0 <= a < |home| && 0 < h[a].blocks && a + h[a].blocks <= |home|
    && LiveOf(h, home)[a] == Area(h[a].blocks, h[a].owner)
  }

  lemma LiveAreaIn(h: seq<Header>, l: seq<Links>, home: seq<int>, free: set<int>, a: int)
    requires HeapInv(h, l, home, free, NULL) && a in LiveOf(h, home)
    ensures AreaIn(h, home, a)
  {
    assert Covers(h, home, a);
  }

  /** Two live areas share no block, and no other area has a user byte in the blocks of r. */
  lemma TwoAreasApart(h: seq<Header>, l: seq<Links>, home: seq<int>, free: set<int>, p: int, r: int)
    requires HeapInv(h, l, home, free, NULL) && p in LiveOf(h, home) && r in LiveOf(h, home) && p != r
    ensures AreaIn(h, home, p) && AreaIn(h, home, r) && (p + h[p].blocks <= r || r + h[r].blocks <= p)
    ensures forall a, i :: InArea(LiveOf(h, home), a, i) && a != r ==>
              !(BLOCK_SIZE * r <= i < BLOCK_SIZE * (r + h[r].blocks))
  {
    LiveAreaIn(h, l, home, free, p);
    LiveAreaIn(h, l, home, free, r);
    AreaApart(h, home, r);
    AreaApart(h, home, p);
    assert InArea(LiveOf(h, home), p, BLOCK_SIZE * (p + h[p].blocks) - 1);
    assert InArea(LiveOf(h, home), r, BLOCK_SIZE * (r + h[r].blocks) - 1);
  }

  /** No user byte of another area lies in the blocks of r. */
  lemma AreaApart(h: seq<Header>, home: seq<int>, r: int)
    requires Tiled(h, home) && r in LiveOf(h, home)
    ensures forall a, i :: InArea(LiveOf(h, home), a, i) && a != r ==>
              !(BLOCK_SIZE * r <= i < BLOCK_SIZE * (r + h[r].blocks))
  {
    forall a, i | InArea(LiveOf(h, home), a, i) && a != r
      ensures !(BLOCK_SIZE * r <= i < BLOCK_SIZE * (r + h[r].blocks))
    {
      if a < r {
        LiveAreasDisjoint(h, home, a, r);
      } else {
        LiveAreasDisjoint(h, home, r, a);
      }
    }
  }
}
