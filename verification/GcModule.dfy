/**
  malloc_gc_module: a conservative mark and sweep over the areas one module owns.  Every byte offset of
  an area is read as a two-byte pointer; a value that equals the user address of another area of the
  module marks that area.  The read at the last offset takes its high byte from the next header.
 */
module ModuleGc {
  import opened Common
  import opened HeapGc
  import opened HeapModel
  import opened HeapSpec

  /** The heap as the scan sees it: its live areas, their user bytes, and where the heap lies. */
  datatype Image = Image(live: Areas, m: seq<byte>, base: int, pid: byte)

  function Addr(base: int, b: int): int { base + UserPart(b) }

  /** A little-endian pointer. */
  function Word(lo: int, hi: int): int { lo + 256 * hi }

  ghost predicate Owned(g: Image, a: int) {
    a in g.live && g.live[a].owner == g.pid
  }

  ghost function End(g: Image, a: int): int
    requires a in g.live
  {
    BLOCK_SIZE * (a + g.live[a].blocks)
  }

  /** A pointer to b is stored at byte i, entirely inside the area a. */
  ghost predicate Stored(g: Image, a: int, b: int, i: int) {
    && Owned(g, a) && Owned(g, b) && 0 <= i && UserPart(a) <= i && i + 1 < End(g, a) <= |g.m|
    && Word(g.m[i], g.m[i + 1]) == Addr(g.base, b)
  }

  /** As far as the bytes of a go, a pointer to b could be stored at byte i. */
  ghost predicate Suspected(g: Image, a: int, b: int, i: int) {
    && Owned(g, a) && Owned(g, b) && 0 <= i && UserPart(a) <= i < End(g, a) <= |g.m|
    && (if i + 1 < End(g, a) then Word(g.m[i], g.m[i + 1]) == Addr(g.base, b)
        else g.m[i] == Addr(g.base, b) % 256)
  }

  ghost predicate Points(g: Image, a: int, b: int) { exists i :: Stored(g, a, b, i) }

  ghost predicate MayPoint(g: Image, a: int, b: int) { exists i :: Suspected(g, a, b, i) }

  /** The address that is looked for is that of the first user byte of the area. */
  lemma AddrIsFirstByte(live: Areas, base: int, b: int)
    requires b in live && 0 < live[b].blocks
    ensures InArea(live, b, Addr(base, b) - base) && !InArea(live, b, Addr(base, b) - base - 1)
  {
  }

  /** Two bytes make a pointer, the low one first. */
  lemma WordIs(lo: byte, hi: byte, p: int)
    requires 0 <= p < 0x1_0000
    ensures Word(lo, hi) == p <==> lo == p % 256 && hi == p / 256
  {
  }

  /** p leads from root to b along stored pointers. */
  ghost predicate Reaches(g: Image, root: int, p: seq<int>, b: int) {
    |p| > 0 && p[0] == root && p[|p| - 1] == b && forall k :: 0 <= k < |p| - 1 ==> Points(g, p[k], p[k + 1])
  }

  ghost predicate MayReach(g: Image, root: int, p: seq<int>, b: int) {
    |p| > 0 && p[0] == root && p[|p| - 1] == b && forall k :: 0 <= k < |p| - 1 ==> MayPoint(g, p[k], p[k + 1])
  }

  ghost predicate Closed(g: Image, kept: set<int>) {
    forall a, b :: a in kept && Points(g, a, b) ==> b in kept
  }

  ghost predicate Justified(g: Image, root: int, kept: set<int>) {
    forall b :: b in kept ==> exists p :: MayReach(g, root, p, b)
  }

  /** A set that holds the root and is closed under stored pointers holds everything reachable. */
  lemma {:induction false} ClosedHoldsReachable(g: Image, root: int, kept: set<int>, p: seq<int>, b: int)
    requires root in kept && Closed(g, kept) && Reaches(g, root, p, b)
    ensures b in kept
    decreases |p|
  {
    if |p| > 1 {
      var q := p[..|p| - 1];
      assert forall k :: 0 <= k < |q| ==> q[k] == p[k];
      assert Points(g, p[|p| - 2], p[|p| - 1]);
      ClosedHoldsReachable(g, root, kept, q, p[|p| - 2]);
    }
  }

  lemma ExtendMayReach(g: Image, root: int, kept: set<int>, a: int, b: int, i: int)
    requires Justified(g, root, kept) && a in kept && Suspected(g, a, b, i)
    ensures Justified(g, root, kept + {b})
  {
    var p :| MayReach(g, root, p, a);
    var q := p + [b];
    assert MayPoint(g, a, b);
    assert MayReach(g, root, q, b);
  }

  /** Pointers stored in a below byte e lead into kept. */
  ghost predicate ScannedTo(g: Image, a: int, e: int, kept: set<int>) {
    forall b, i :: Stored(g, a, b, i) && i < e ==> b in kept
  }

  /** Everything marked has been scanned, except the stack, and the area a from byte i on. */
  ghost predicate MarkingAt(g: Image, root: int, kept: set<int>, stack: seq<int>, a: int, i: int) {
    && root in kept && (forall x :: x in kept ==> Owned(g, x)) && (forall x :: x in stack ==> x in kept)
    && Justified(g, root, kept)
    && (forall x :: x in kept && x != a && x !in stack ==> ScannedTo(g, x, End(g, x), kept))
    && a in kept && ScannedTo(g, a, i, kept)
    && |stack| < |kept|
  }

  /** Everything marked has been scanned, except the stack. */
  ghost predicate Marking(g: Image, root: int, kept: set<int>, stack: seq<int>) {
    && root in kept && (forall x :: x in kept ==> Owned(g, x)) && (forall x :: x in stack ==> x in kept)
    && Justified(g, root, kept)
    && (forall x :: x in kept && x !in stack ==> ScannedTo(g, x, End(g, x), kept))
    && |stack| <= |kept|
  }

  lemma MarkedOut(g: Image, root: int, kept: set<int>)
    requires Marking(g, root, kept, [])
    ensures root in kept && Closed(g, kept) && Justified(g, root, kept)
  {
  }

  lemma StartMarking(g: Image, root: int)
    requires Owned(g, root)
    ensures Marking(g, root, {root}, [root])
  {
    assert MayReach(g, root, [root], root);
  }

  lemma PopStack(g: Image, root: int, kept: set<int>, stack: seq<int>)
    requires Marking(g, root, kept, stack) && |stack| > 0
    ensures var n := |stack| - 1;
            Owned(g, stack[n]) && MarkingAt(g, root, kept, stack[..n], stack[n], UserPart(stack[n]))
  {
  }

  lemma AreaScanned(g: Image, root: int, kept: set<int>, stack: seq<int>, a: int)
    requires Owned(g, a) && MarkingAt(g, root, kept, stack, a, End(g, a))
    ensures Marking(g, root, kept, stack)
  {
  }

  // ---------------------------------------------------------------------------------------------
  // The mark phase
  // ---------------------------------------------------------------------------------------------

  ghost function Elems(s: seq<int>): set<int> { set x | x in s }

  /** The headers of h0 with the areas in kept marked. */
  ghost predicate MarkedIn(h0: seq<Header>, h: seq<Header>, kept: set<int>) {
    |h| == |h0| && forall x :: 0 <= x < |h| ==> h[x] == if x in kept then h0[x].(marked := true) else h0[x]
  }

  /** The heap during the mark phase; list is mod_memmap. */
  ghost predicate Scanning(hp: Heap, g: Image, h0: seq<Header>, list: seq<int>, kept: set<int>)
    reads hp, hp.hdr, hp.link, hp.mem
  {
    && hp.Valid() && hp.Live() == g.live && MarkedIn(h0, hp.hdr[..], kept)
    && SameAreaBytes(g.live, g.m, hp.mem[..])
    && (forall a :: a in g.live ==> 0 <= a && 0 < g.live[a].blocks && End(g, a) < |g.m|)
    && (forall a :: a in list <==> Owned(g, a))
    && (forall a :: a in list ==> 0 <= a < |h0| && !h0[a].marked)
    && kept <= Elems(list)
  }

  lemma {:induction false} ElemsBound(s: seq<int>)
    ensures |Elems(s)| <= |s|
  {
    if s == [] {
      assert Elems(s) == {};
    } else {
      ElemsBound(s[1..]);
      assert Elems(s) == {s[0]} + Elems(s[1..]);
    }
  }

  lemma RoomFor(list: seq<int>, kept: set<int>, b: int)
    requires kept <= Elems(list) && b in list && b !in kept
    ensures |kept + {b}| == |kept| + 1 <= |list|
  {
    ElemsBound(list);
    SubsetSize(kept + {b}, Elems(list));
  }

  lemma SubsetSize(a: set<int>, b: set<int>)
    requires a <= b
    ensures |a| <= |b|
  {
    assert b == a + (b - a);
  }

  /** mod_gc_stack and mod_stack_sp: as many slots as mod_memmap has. */
  class MarkStack {
    const slots: array<int>
    var sp: int

    ghost predicate Valid()
      reads this
    {
      0 <= sp <= slots.Length
    }

    ghost function Items(): seq<int>
      requires Valid()
      reads this, slots
    {
      slots[..sp]
    }

    constructor (capacity: int)
      requires 0 <= capacity
      ensures Valid() && Items() == [] && slots.Length == capacity && fresh(slots)
    {
      slots := new int[capacity];
      sp := 0;
    }

    method Push(b: int)
      requires Valid() && sp < slots.Length
      modifies this, slots
      ensures Valid() && Items() == old(Items()) + [b]
    {
      slots[sp] := b;
      sp := sp + 1;
    }

    method Pop() returns (b: int)
      requires Valid() && 0 < sp
      modifies this
      ensures Valid() && old(Items()) == Items() + [b]
    {
      sp := sp - 1;
      b := slots[sp];
    }
  }

  /** The stack has a slot for every entry of the list and shares no memory with the heap. */
  ghost predicate Fits(hp: Heap, stack: MarkStack, list: seq<int>)
    reads stack
  {
    && stack.Valid() && |list| <= stack.slots.Length
    && (stack.slots as object) !in {hp.hdr as object, hp.link, hp.mem}
  }

  /** Marks b and pushes it: there is a free slot, since every item of the stack is marked. */
  method MarkAndPush(hp: Heap, stack: MarkStack, b: int,
                     ghost g: Image, ghost h0: seq<Header>, ghost list: seq<int>, ghost kept: set<int>)
    requires Scanning(hp, g, h0, list, kept) && b in list && b !in kept
    requires Fits(hp, stack, list) && stack.sp <= |kept|
    modifies hp.hdr, hp.mem, stack, stack.slots
    ensures Scanning(hp, g, h0, list, kept + {b})
    ensures Fits(hp, stack, list) && stack.Items() == old(stack.Items()) + [b] && |kept + {b}| == |kept| + 1
  {
    RoomFor(list, kept, b);
    ghost var m := hp.mem[..];
    SetMark(hp, b, true);
    SameAreaBytesTrans(g.live, g.live, g.m, m, hp.mem[..]);
    stack.Push(b);
  }

  predicate Marked(hp: Heap, b: int, ghost g: Image, ghost h0: seq<Header>, ghost list: seq<int>, ghost kept: set<int>)
    requires Scanning(hp, g, h0, list, kept) && b in list
    reads hp, hp.hdr, hp.link, hp.mem
    ensures Marked(hp, b, g, h0, list, kept) <==> b in kept
  {
    hp.hdr[b].marked
  }

  ghost function Targets(base: int, list: seq<int>, pntr: int): set<int> {
    set b | b in list && Addr(base, b) == pntr
  }

  lemma TargetsStep(base: int, list: seq<int>, j: int, pntr: int)
    requires 0 <= j < |list|
    ensures list[j] in list
    ensures Targets(base, list[..j + 1], pntr) ==
            Targets(base, list[..j], pntr) + if Addr(base, list[j]) == pntr then {list[j]} else {}
  {
  }

  /** What was marked since kept0 has been pushed. */
  ghost predicate Pushed(stack0: seq<int>, kept0: set<int>, stack: seq<int>, kept: set<int>) {
    && stack0 <= stack && kept0 <= kept && |stack| - |kept| == |stack0| - |kept0|
    && (forall x :: x in stack ==> x in stack0 || x in kept)
    && (forall x :: x in kept && x !in kept0 ==> x in stack)
  }

  /** The first j entries of the list have been compared with pntr. */
  ghost predicate Compared(base: int, list: seq<int>, j: int, pntr: int,
                           stack0: seq<int>, kept0: set<int>, stack: seq<int>, kept: set<int>) {
    && 0 <= j <= |list| && kept == kept0 + Targets(base, list[..j], pntr)
    && Pushed(stack0, kept0, stack, kept) && |stack0| <= |kept0|
  }

  lemma ComparedMiss(base: int, list: seq<int>, j: int, pntr: int,
                     stack0: seq<int>, kept0: set<int>, stack: seq<int>, kept: set<int>)
    requires Compared(base, list, j, pntr, stack0, kept0, stack, kept)
    requires j < |list| && (Addr(base, list[j]) == pntr ==> list[j] in kept)
    ensures Compared(base, list, j + 1, pntr, stack0, kept0, stack, kept)
  {
    TargetsStep(base, list, j, pntr);
  }

  lemma ComparedHit(base: int, list: seq<int>, j: int, pntr: int,
                    stack0: seq<int>, kept0: set<int>, stack: seq<int>, kept: set<int>)
    requires Compared(base, list, j, pntr, stack0, kept0, stack, kept)
    requires j < |list| && Addr(base, list[j]) == pntr && list[j] !in kept
    ensures Compared(base, list, j + 1, pntr, stack0, kept0, stack + [list[j]], kept + {list[j]})
  {
    TargetsStep(base, list, j, pntr);
  }

  lemma ComparedNone(base: int, list: seq<int>, pntr: int, stack: seq<int>, kept: set<int>)
    requires |stack| <= |kept|
    ensures Compared(base, list, 0, pntr, stack, kept, stack, kept)
  {
  }

  lemma StackMarked(base: int, list: seq<int>, j: int, pntr: int,
                    stack0: seq<int>, kept0: set<int>, stack: seq<int>, kept: set<int>)
    requires Compared(base, list, j, pntr, stack0, kept0, stack, kept)
    ensures |stack| <= |kept|
  {
  }

  /** Marks and pushes the areas of the list that pntr points to. */
  method MarkTargets(hp: Heap, base: int, memmap: seq<int>, stack: MarkStack, pntr: int,
                     ghost g: Image, ghost h0: seq<Header>, ghost kept0: set<int>)
    returns (ghost kept: set<int>)
    requires Scanning(hp, g, h0, memmap, kept0) && Fits(hp, stack, memmap) && stack.sp <= |kept0|
    modifies hp.hdr, hp.mem, stack, stack.slots
    ensures Scanning(hp, g, h0, memmap, kept) && Fits(hp, stack, memmap)
    ensures Compared(base, memmap, |memmap|, pntr, old(stack.Items()), kept0, stack.Items(), kept)
  {
    hide Scanning, Compared, Addr;
    ghost var stack0 := stack.Items();
    kept := kept0;
    ComparedNone(base, memmap, pntr, stack0, kept0);
    for j := 0 to |memmap|
      invariant Scanning(hp, g, h0, memmap, kept) && Fits(hp, stack, memmap)
      invariant Compared(base, memmap, j, pntr, stack0, kept0, stack.Items(), kept)
    {
      ghost var stack1 := stack.Items();
      StackMarked(base, memmap, j, pntr, stack0, kept0, stack1, kept);
      if pntr == Addr(base, memmap[j]) && !Marked(hp, memmap[j], g, h0, memmap, kept) {
        MarkAndPush(hp, stack, memmap[j], g, h0, memmap, kept);
        ComparedHit(base, memmap, j, pntr, stack0, kept0, stack1, kept);
        kept := kept + {memmap[j]};
      } else {
        ComparedMiss(base, memmap, j, pntr, stack0, kept0, stack1, kept);
      }
    }
  }

  lemma ScanStep(g: Image, root: int, list: seq<int>, a: int, i: int, lo: int, hi: int,
                 stack0: seq<int>, kept0: set<int>, stack: seq<int>, kept: set<int>)
    requires MarkingAt(g, root, kept0, stack0, a, i) && (forall x :: x in list <==> Owned(g, x))
    requires 0 <= i && UserPart(a) <= i < End(g, a) <= |g.m|
    requires lo == g.m[i] && (i + 1 < End(g, a) ==> hi == g.m[i + 1])
    requires Compared(g.base, list, |list|, Word(lo, hi), stack0, kept0, stack, kept)
    ensures MarkingAt(g, root, kept, stack, a, i + 1)
  {
    assert list[..|list|] == list;
    forall x | x in kept && x !in kept0 ensures Suspected(g, a, x, i) {
      LowByte(lo, hi);
    }
    NewlyJustified(g, root, a, i, kept0, kept);
    forall b, k | Stored(g, a, b, k) && k < i + 1 ensures b in kept {
      if k == i {
        assert b in Targets(g.base, list, Word(lo, hi));
      }
    }
    forall x | x in kept && x != a && x !in stack ensures ScannedTo(g, x, End(g, x), kept) {
      assert ScannedTo(g, x, End(g, x), kept0);
    }
  }

  lemma LowByte(lo: int, hi: int)
    requires 0 <= lo < 256
    ensures Word(lo, hi) % 256 == lo
  {
  }

  lemma NewlyJustified(g: Image, root: int, a: int, i: int, kept0: set<int>, kept: set<int>)
    requires Justified(g, root, kept0) && a in kept0
    requires forall x :: x in kept && x !in kept0 ==> Suspected(g, a, x, i)
    ensures Justified(g, root, kept)
  {
    forall x | x in kept ensures exists p :: MayReach(g, root, p, x) {
      if x !in kept0 {
        ExtendMayReach(g, root, kept0, a, x, i);
        assert x in kept0 + {x};
      }
    }
  }

  /** Reads every byte offset of the area a as a pointer. */
  method ScanArea(hp: Heap, base: int, memmap: seq<int>, a: int, stack: MarkStack,
                  ghost g: Image, ghost root: int, ghost h0: seq<Header>, ghost kept0: set<int>)
    returns (ghost kept: set<int>)
    requires Scanning(hp, g, h0, memmap, kept0) && base == g.base && Owned(g, a) && Fits(hp, stack, memmap)
    requires MarkingAt(g, root, kept0, stack.Items(), a, UserPart(a))
    modifies hp.hdr, hp.mem, stack, stack.slots
    ensures Scanning(hp, g, h0, memmap, kept) && Fits(hp, stack, memmap)
    ensures Marking(g, root, kept, stack.Items()) && kept0 <= kept && stack.sp - |kept| == old(stack.sp) - |kept0|
  {
    hide HeapInv, LiveOf, SameAreaBytes, ScannedTo, Justified, MarkedIn;
    kept := kept0;
    var size := AreaSize(hp, a, g, h0, memmap, kept);
    for i := UserPart(a) to UserPart(a) + size
      invariant Scanning(hp, g, h0, memmap, kept) && Fits(hp, stack, memmap) && kept0 <= kept
      invariant MarkingAt(g, root, kept, stack.Items(), a, i) && stack.sp - |kept| == old(stack.sp) - |kept0|
    {
      kept := ScanAt(hp, base, memmap, a, i, stack, g, root, h0, kept);
    }
    AreaScanned(g, root, kept, stack.Items(), a);
  }

  /** Reads the pointer at one byte offset of the area a. */
  method ScanAt(hp: Heap, base: int, memmap: seq<int>, a: int, i: int, stack: MarkStack,
                ghost g: Image, ghost root: int, ghost h0: seq<Header>, ghost kept0: set<int>)
    returns (ghost kept: set<int>)
    requires Scanning(hp, g, h0, memmap, kept0) && base == g.base && Owned(g, a) && Fits(hp, stack, memmap)
    requires UserPart(a) <= i < End(g, a) && MarkingAt(g, root, kept0, stack.Items(), a, i)
    modifies hp.hdr, hp.mem, stack, stack.slots
    ensures Scanning(hp, g, h0, memmap, kept) && Fits(hp, stack, memmap) && kept0 <= kept
    ensures MarkingAt(g, root, kept, stack.Items(), a, i + 1) && stack.sp - |kept| == old(stack.sp) - |kept0|
  {
    var lo, hi := ReadPointer(hp, a, i, g, h0, memmap, kept0);
    ghost var stack0 := stack.Items();
    kept := MarkTargets(hp, base, memmap, stack, Word(lo, hi), g, h0, kept0);
    ScanStep(g, root, memmap, a, i, lo, hi, stack0, kept0, stack.Items(), kept);
  }

  method AreaSize(hp: Heap, a: int, ghost g: Image, ghost h0: seq<Header>, ghost list: seq<int>, ghost kept: set<int>)
    returns (size: int)
    requires Scanning(hp, g, h0, list, kept) && Owned(g, a)
    ensures UserPart(a) + size == End(g, a) && 0 <= size && 0 <= UserPart(a) && End(g, a) < |g.m|
  {
    size := Capacity(hp.hdr[a].blocks);
  }

  method ReadPointer(hp: Heap, a: int, i: int,
                     ghost g: Image, ghost h0: seq<Header>, ghost list: seq<int>, ghost kept: set<int>)
    returns (lo: int, hi: int)
    requires Scanning(hp, g, h0, list, kept) && Owned(g, a) && UserPart(a) <= i < End(g, a)
    ensures 0 <= i < |g.m| && lo == g.m[i] && (i + 1 < End(g, a) ==> i + 1 < |g.m| && hi == g.m[i + 1])
  {
    assert InArea(g.live, a, i);
    assert i + 1 < End(g, a) ==> InArea(g.live, a, i + 1);
    lo, hi := hp.mem[i], hp.mem[i + 1];
  }

  lemma KeptListed(hp: Heap, g: Image, h0: seq<Header>, list: seq<int>, kept: set<int>)
    requires Scanning(hp, g, h0, list, kept)
    ensures kept <= Elems(list) && forall a :: Owned(g, a) ==> a in list
  {
  }

  /** Scans from the module state until the stack is empty; every push finds a free slot. */
  method MarkPhase(hp: Heap, base: int, memmap: seq<int>, stack: MarkStack, root: int,
                   ghost g: Image, ghost h0: seq<Header>)
    returns (ghost kept: set<int>)
    requires Scanning(hp, g, h0, memmap, {}) && base == g.base && Owned(g, root)
    requires Fits(hp, stack, memmap) && stack.sp == 0
    modifies hp.hdr, hp.mem, stack, stack.slots
    ensures Scanning(hp, g, h0, memmap, kept)
    ensures root in kept && Closed(g, kept) && Justified(g, root, kept)
  {
    hide Scanning, Marking, MarkingAt, Justified, Closed, Owned;
    KeptListed(hp, g, h0, memmap, {});
    MarkAndPush(hp, stack, root, g, h0, memmap, {});
    kept := {root};
    assert stack.Items() == [root] && {} + {root} == kept;
    StartMarking(g, root);
    ElemsBound(memmap);
    while stack.sp != 0
      invariant Scanning(hp, g, h0, memmap, kept) && Fits(hp, stack, memmap) && Marking(g, root, kept, stack.Items())
      decreases |memmap| - |kept|, stack.sp
    {
      KeptListed(hp, g, h0, memmap, kept);
      SubsetSize(kept, Elems(memmap));
      PopStack(g, root, kept, stack.Items());
      var a := stack.Pop();
      ghost var kept1 := kept;
      kept := ScanArea(hp, base, memmap, a, stack, g, root, h0, kept);
      SubsetSize(kept1, kept);
      KeptListed(hp, g, h0, memmap, kept);
      SubsetSize(kept, Elems(memmap));
    }
    assert stack.Items() == [];
    MarkedOut(g, root, kept);
  }

  // ---------------------------------------------------------------------------------------------
  // The sweep phase
  // ---------------------------------------------------------------------------------------------

  /** The first k entries of the list have been freed or unmarked. */
  ghost predicate SweptList(h: seq<Header>, live: Areas, m: seq<byte>, pid: byte, list: seq<int>, k: int,
                            h1: seq<Header>, live1: Areas, m1: seq<byte>) {
    && 0 <= k <= |list| && |h1| == |h| && (forall a :: a in live ==> 0 <= a < |h| && 0 < live[a].blocks)
    && live1 == live - (LeakSet(h, live, m, pid) * Elems(list[..k]))
    && (forall a :: a in live1 ==> h1[a] == if a in list[..k] then h[a].(marked := false) else h[a])
    && SameAreaBytes(live1, m, m1)
  }

  lemma SweptListStep(h: seq<Header>, live: Areas, m: seq<byte>, pid: byte, list: seq<int>, k: int,
                      h1: seq<Header>, live1: Areas, m1: seq<byte>,
                      h2: seq<Header>, live2: Areas, m2: seq<byte>)
    requires SweptList(h, live, m, pid, list, k, h1, live1, m1) && k < |list| && |h2| == |h1|
    requires list[k] in live && list[k] !in list[..k]
    requires live2 == if LeakedIn(h1, live1, m1, list[k], pid) then live1 - {list[k]} else live1
    requires forall x :: 0 <= x < |h2| && x != list[k] ==> h2[x] == h1[x]
    requires list[k] in live2 ==> h2[list[k]] == h1[list[k]].(marked := false)
    requires SameAreaBytes(live2, m1, m2)
    ensures SweptList(h, live, m, pid, list, k + 1, h2, live2, m2)
  {
    assert list[..k + 1] == list[..k] + [list[k]];
    SameLeaked(h, live, m, h1, live1, m1, list[k], pid);
    SameAreaBytesTrans(live1, live2, m, m1, m2);
    var gone := LeakSet(h, live, m, pid);
    assert Elems(list[..k + 1]) == Elems(list[..k]) + {list[k]};
    assert gone * Elems(list[..k + 1]) ==
           (gone * Elems(list[..k])) + if LeakedIn(h, live, m, list[k], pid) then {list[k]} else {};
  }

  ghost predicate Distinct(s: seq<int>) {
    forall i, j :: 0 <= i < j < |s| ==> s[i] != s[j]
  }

  /** Frees the unmarked areas of the list and clears the marks of the others. */
  method SweepPhase(hp: Heap, pid: byte, memmap: seq<int>) returns (leaks: int)
    requires hp.Valid() && Distinct(memmap)
    requires forall a :: a in memmap ==> a in hp.Live() && hp.Live()[a].owner == pid
    modifies hp`free, hp.hdr, hp.link, hp.mem
    ensures hp.Valid()
    ensures SweptList(old(hp.hdr[..]), old(hp.Live()), old(hp.mem[..]), pid, memmap, |memmap|,
                      hp.hdr[..], hp.Live(), hp.mem[..])
    ensures leaks == |UnmarkedIn(old(hp.hdr[..]), memmap)|
  {
    ghost var live, h, m := hp.Live(), hp.hdr[..], hp.mem[..];
    assert forall a :: a in live ==> Covers(h, hp.home, a);
    leaks := 0;
    for k := 0 to |memmap|
      invariant hp.Valid()
      invariant SweptList(h, live, m, pid, memmap, k, hp.hdr[..], hp.Live(), hp.mem[..])
      invariant leaks == |UnmarkedIn(h, memmap[..k])|
    {
      var a := memmap[k];
      assert a in memmap && a !in memmap[..k];
      ghost var live1, h1, m1 := hp.Live(), hp.hdr[..], hp.mem[..];
      CountUnmarked(h, memmap, k);
      assert a in live1 && h1[a] == h[a];
      if !hp.hdr[a].marked {
        leaks := leaks + 1;
      }
      ReleaseOrUnmark(hp, a);
      SweptListStep(h, live, m, pid, memmap, k, h1, live1, m1, hp.hdr[..], hp.Live(), hp.mem[..]);
    }
    assert memmap[..|memmap|] == memmap;
  }

  ghost function UnmarkedIn(h: seq<Header>, list: seq<int>): set<int> {
    set a | a in list && 0 <= a < |h| && !h[a].marked
  }

  lemma CountUnmarked(h: seq<Header>, list: seq<int>, k: int)
    requires 0 <= k < |list| && list[k] !in list[..k] && 0 <= list[k] < |h|
    ensures |UnmarkedIn(h, list[..k + 1])| == |UnmarkedIn(h, list[..k])| + if h[list[k]].marked then 0 else 1
  {
    assert list[..k + 1] == list[..k] + [list[k]];
    var u := UnmarkedIn(h, list[..k]);
    assert UnmarkedIn(h, list[..k + 1]) == if h[list[k]].marked then u else u + {list[k]};
  }

  // ---------------------------------------------------------------------------------------------
  // Counting and listing the module's areas
  // ---------------------------------------------------------------------------------------------

  ghost function OwnedBelow(live: Areas, pid: byte, b: int): set<int> {
    set a | a in live && live[a].owner == pid && a < b
  }

  ghost function OwnedBy(live: Areas, pid: byte): set<int> {
    set a | a in live && live[a].owner == pid
  }

  lemma OwnedStep(live: Areas, pid: byte, b: int, next: int)
    requires b < next && forall a :: a in live && b < a ==> next <= a
    ensures OwnedBelow(live, pid, next) ==
            OwnedBelow(live, pid, b) + if b in live && live[b].owner == pid then {b} else {}
    ensures forall a :: a in OwnedBelow(live, pid, b) ==> a < b
  {
  }

  lemma OwnedAll(h: seq<Header>, home: seq<int>, pid: byte)
    requires |home| < |h|
    ensures OwnedBelow(LiveOf(h, home), pid, |home|) == OwnedBy(LiveOf(h, home), pid)
    ensures OwnedBelow(LiveOf(h, home), pid, 0) == {}
  {
  }

  /** The walk to the area behind b. */
  method NextArea(hp: Heap, b: int, ghost live: Areas) returns (next: int)
    requires hp.Valid() && Start(hp.home, b) && hp.Live() == live
    ensures b < next <= hp.S() && (next < hp.S() ==> Start(hp.home, next))
    ensures forall a :: a in live && b < a ==> next <= a
  {
    assert Covers(hp.hdr[..], hp.home, b);
    SuccessorStarts(hp.hdr[..], hp.home, b);
    NoStartInside(hp.hdr[..], hp.home, b);
    next := b + hp.hdr[b].blocks;
  }

  method CountOwned(hp: Heap, pid: byte) returns (cnt: int)
    requires hp.Valid()
    ensures cnt == |OwnedBy(hp.Live(), pid)|
  {
    cnt := 0;
    var b := 0;
    ghost var live := hp.Live();
    FirstStarts(hp.hdr[..], hp.home);
    OwnedAll(hp.hdr[..], hp.home, pid);
    while b != hp.S()
      invariant 0 <= b <= hp.S() && (b < hp.S() ==> Start(hp.home, b))
      invariant cnt == |OwnedBelow(live, pid, b)|
      decreases hp.S() - b
    {
      var next := NextArea(hp, b, live);
      OwnedStep(live, pid, b, next);
      if hp.hdr[b].owner == pid && hp.hdr[b].reserved {
        cnt := cnt + 1;
      }
      b := next;
    }
  }

  /** The list holds the module's areas below b in address order, all of them unmarked. */
  ghost predicate ListedTo(h: seq<Header>, live: Areas, m: seq<byte>, pid: byte, b: int,
                           list: seq<int>, h1: seq<Header>, m1: seq<byte>) {
    && |h1| == |h| && (forall a :: a in live ==> 0 <= a < |h|)
    && Ascending(list) && (forall a :: a in list <==> a in OwnedBelow(live, pid, b))
    && |list| == |OwnedBelow(live, pid, b)|
    && (forall a :: a in live ==> h1[a] == if a < b then Unmarked(h[a], pid) else h[a])
    && SameAreaBytes(live, m, m1)
  }

  lemma ListedSkip(h: seq<Header>, live: Areas, m: seq<byte>, pid: byte, b: int, next: int,
                   list: seq<int>, h1: seq<Header>, m1: seq<byte>)
    requires ListedTo(h, live, m, pid, b, list, h1, m1)
    requires b < next && forall a :: a in live && b < a ==> next <= a
    requires b in live ==> live[b].owner != pid && h[b].owner != pid
    ensures ListedTo(h, live, m, pid, next, list, h1, m1)
  {
    OwnedStep(live, pid, b, next);
  }

  lemma ListedAdd(h: seq<Header>, live: Areas, m: seq<byte>, pid: byte, b: int, next: int,
                  list: seq<int>, h1: seq<Header>, m1: seq<byte>, h2: seq<Header>, m2: seq<byte>)
    requires ListedTo(h, live, m, pid, b, list, h1, m1)
    requires b < next && forall a :: a in live && b < a ==> next <= a
    requires b in live && live[b].owner == pid && h[b].owner == pid
    requires h2 == h1[b := h1[b].(marked := false)] && SameAreaBytes(live, m1, m2)
    ensures ListedTo(h, live, m, pid, next, list + [b], h2, m2)
  {
    hide SameAreaBytes, OwnedBelow;
    OwnedStep(live, pid, b, next);
    SameAreaBytesTrans(live, live, m, m1, m2);
    assert forall i :: 0 <= i < |list| ==> list[i] in list;
  }

  /** Clears the marks of the module's areas and lists them. */
  method ListOwned(hp: Heap, pid: byte) returns (memmap: seq<int>)
    requires hp.Valid()
    modifies hp.hdr, hp.mem
    ensures hp.Valid() && hp.Live() == old(hp.Live())
    ensures ListedTo(old(hp.hdr[..]), hp.Live(), old(hp.mem[..]), pid, hp.S(), memmap, hp.hdr[..], hp.mem[..])
  {
    ghost var live, h, m := hp.Live(), hp.hdr[..], hp.mem[..];
    memmap := [];
    var b := 0;
    FirstStarts(hp.hdr[..], hp.home);
    OwnedAll(hp.hdr[..], hp.home, pid);
    assert ListedTo(h, live, m, pid, 0, [], h, m);
    while b != hp.S()
      invariant 0 <= b <= hp.S() && (b < hp.S() ==> Start(hp.home, b))
      invariant hp.Valid() && hp.Live() == live
      invariant ListedTo(h, live, m, pid, b, memmap, hp.hdr[..], hp.mem[..])
      decreases hp.S() - b
    {
      var next := NextArea(hp, b, live);
      ghost var h1, m1 := hp.hdr[..], hp.mem[..];
      if hp.hdr[b].owner == pid && hp.hdr[b].reserved {
        assert b in live;
        SetMark(hp, b, false);
        ListedAdd(h, live, m, pid, b, next, memmap, h1, m1, hp.hdr[..], hp.mem[..]);
        memmap := memmap + [b];
      } else {
        ListedSkip(h, live, m, pid, b, next, memmap, h1, m1);
      }
      b := next;
    }
  }

  // ---------------------------------------------------------------------------------------------
  // The collection as a whole
  // ---------------------------------------------------------------------------------------------

  /** The areas of the module that are not kept and have an intact guard byte. */
  ghost function Garbage(g: Image, kept: set<int>): set<int> {
    set a | a in g.live && Owned(g, a) && a !in kept && 0 < End(g, a) <= |g.m| && g.m[End(g, a) - 1] == g.pid
  }

  /** What a collection from root does: h0 to h, g.live to live, g.m to m. */
  ghost predicate Collected(g: Image, root: int, kept: set<int>, h0: seq<Header>, h: seq<Header>,
                            live: Areas, m: seq<byte>, leaks: int) {
    && root in kept && kept <= OwnedBy(g.live, g.pid) && Closed(g, kept) && Justified(g, root, kept)
    && live == g.live - Garbage(g, kept) && leaks == |OwnedBy(g.live, g.pid) - kept|
    && |h| == |h0| && (forall a :: a in live ==> 0 <= a < |h| && h[a] == Unmarked(h0[a], g.pid))
    && SameAreaBytes(live, g.m, m)
  }

  /** A collection leaves no area of the module marked, and headers of other owners as they were. */
  lemma NoMarkIsLeft(g: Image, root: int, kept: set<int>, h0: seq<Header>, h: seq<Header>,
                     live: Areas, m: seq<byte>, leaks: int, a: int)
    requires Collected(g, root, kept, h0, h, live, m, leaks) && a in live
    ensures 0 <= a < |h| && if h[a].owner == g.pid then !h[a].marked else h[a] == h0[a]
  {
  }

  /**
    An area of the module survives when some kept area holds, at any offset, the two bytes of the address of
    its first user byte.
   */
  lemma PointedAreaSurvives(g: Image, root: int, kept: set<int>, h0: seq<Header>, h: seq<Header>,
                            live: Areas, m: seq<byte>, leaks: int, a: int, b: int, i: int)
    requires Collected(g, root, kept, h0, h, live, m, leaks) && a in kept && Owned(g, b)
    requires 0 < g.live[b].blocks && 0 <= g.base + BLOCK_SIZE * b + HEADER < 0x1_0000
    requires InArea(g.live, a, i) && InArea(g.live, a, i + 1) && 0 <= i && i + 1 < |g.m| && End(g, a) <= |g.m|
    requires g.m[i] == (g.base + BLOCK_SIZE * b + HEADER) % 256
    requires g.m[i + 1] == (g.base + BLOCK_SIZE * b + HEADER) / 256
    ensures b in kept && b in live
  {
    AddrIsFirstByte(g.live, g.base, b);
    WordIs(g.m[i], g.m[i + 1], Addr(g.base, b));
    assert Stored(g, a, b, i);
    assert Points(g, a, b);
  }

  /** The mark phase left exactly the kept areas of the list marked. */
  ghost predicate MarksAre(g: Image, list: seq<int>, h: seq<Header>, kept: set<int>) {
    && (forall a :: a in list <==> Owned(g, a))
    && (forall a :: a in g.live ==> 0 <= a < |h| && 0 < g.live[a].blocks)
    && (forall a :: a in list && 0 <= a < |h| ==> (h[a].marked <==> a in kept))
    && (forall a :: a in kept ==> a in list)
  }

  lemma GarbageIsLeaked(g: Image, list: seq<int>, h: seq<Header>, m: seq<byte>, kept: set<int>)
    requires MarksAre(g, list, h, kept) && SameAreaBytes(g.live, g.m, m)
    ensures LeakSet(h, g.live, m, g.pid) * Elems(list) == Garbage(g, kept)
    ensures UnmarkedIn(h, list) == OwnedBy(g.live, g.pid) - kept
  {
    forall a | a in g.live
      ensures LeakedIn(h, g.live, m, a, g.pid) <==> a in Garbage(g, kept)
    {
      assert InArea(g.live, a, End(g, a) - 1);
      assert Owned(g, a) <==> a in list;
    }
  }

  lemma CollectedFromPhases(g: Image, root: int, kept: set<int>, list: seq<int>, leaks: int,
                            h0: seq<Header>, h2: seq<Header>, m2: seq<byte>,
                            h3: seq<Header>, live3: Areas, m3: seq<byte>)
    requires MarksAre(g, list, h2, kept) && SameAreaBytes(g.live, g.m, m2) && |h2| == |h0|
    requires forall a :: a in g.live ==> h0[a].owner == g.live[a].owner
    requires forall a :: a in g.live ==> Unmarked(h2[a], g.pid) == Unmarked(h0[a], g.pid)
    requires root in kept && Closed(g, kept) && Justified(g, root, kept)
    requires SweptList(h2, g.live, m2, g.pid, list, |list|, h3, live3, m3)
    requires leaks == |UnmarkedIn(h2, list)|
    ensures Collected(g, root, kept, h0, h3, live3, m3, leaks)
  {
    hide Closed, Justified, Garbage, LeakSet, SameAreaBytes, UnmarkedIn;
    assert list[..|list|] == list;
    GarbageIsLeaked(g, list, h2, m2, kept);
    forall a | a in kept ensures a in OwnedBy(g.live, g.pid) {
      assert a in list;
    }
    forall a | a in live3 ensures 0 <= a < |h3| && h3[a] == Unmarked(h0[a], g.pid) {
      assert a in list <==> Owned(g, a);
    }
    SameAreaBytesTrans(g.live, live3, g.m, m2, m3);
  }

  lemma MarksFromScan(g: Image, list: seq<int>, kept: set<int>, b: int,
                      h0: seq<Header>, h1: seq<Header>, m1: seq<byte>, h2: seq<Header>)
    requires ListedTo(h0, g.live, g.m, g.pid, b, list, h1, m1) && MarkedIn(h1, h2, kept) && kept <= Elems(list)
    requires forall a :: a in g.live ==> 0 < g.live[a].blocks && a < b && h0[a].owner == g.live[a].owner
    ensures MarksAre(g, list, h2, kept)
    ensures forall a :: a in g.live ==> Unmarked(h2[a], g.pid) == Unmarked(h0[a], g.pid)
  {
  }

  /** The list of the module's areas, ready to be scanned. */
  method ListForScan(hp: Heap, pid: byte, ghost g: Image) returns (memmap: seq<int>, ghost h1: seq<Header>)
    requires hp.Valid() && g.live == hp.Live() && g.m == hp.mem[..] && g.pid == pid
    modifies hp.hdr, hp.mem
    ensures Scanning(hp, g, h1, memmap, {}) && |memmap| == |OwnedBy(g.live, pid)|
    ensures ListedTo(old(hp.hdr[..]), g.live, g.m, pid, hp.S(), memmap, h1, hp.mem[..])
    ensures forall a :: a in g.live ==>
              0 < g.live[a].blocks && a < hp.S() && old(hp.hdr[..])[a].owner == g.live[a].owner
  {
    assert forall a :: a in g.live ==> Covers(hp.hdr[..], hp.home, a);
    OwnedAll(hp.hdr[..], hp.home, pid);
    memmap := ListOwned(hp, pid);
    h1 := hp.hdr[..];
    assert forall a :: a in memmap <==> Owned(g, a);
  }

  /** List, mark and sweep with a stack of the given capacity. */
  method Collect(hp: Heap, base: int, pid: byte, root: int, capacity: int) returns (leaks: int, ghost kept: set<int>)
    requires hp.Valid() && root in hp.Live() && hp.Live()[root].owner == pid
    requires |OwnedBy(hp.Live(), pid)| <= capacity
    modifies hp`free, hp.hdr, hp.link, hp.mem
    ensures hp.Valid()
    ensures Collected(Image(old(hp.Live()), old(hp.mem[..]), base, pid), root, kept, old(hp.hdr[..]),
                      hp.hdr[..], hp.Live(), hp.mem[..], leaks)
  {
    ghost var g, h0 := Image(hp.Live(), hp.mem[..], base, pid), hp.hdr[..];
    var memmap;
    ghost var h1;
    memmap, h1 := ListForScan(hp, pid, g);
    ghost var m1 := hp.mem[..];
    var stack := new MarkStack(capacity);
    kept := MarkPhase(hp, base, memmap, stack, root, g, h1);
    ghost var h2, m2 := hp.hdr[..], hp.mem[..];
    MarksFromScan(g, memmap, kept, hp.S(), h0, h1, m1, h2);
    leaks := SweepPhase(hp, pid, memmap);
    CollectedFromPhases(g, root, kept, memmap, leaks, h0, h2, m2, hp.hdr[..], hp.Live(), hp.mem[..]);
  }

  // ---------------------------------------------------------------------------------------------
  // Large modules: mod_memmap and the stack come from the heap that is collected
  // ---------------------------------------------------------------------------------------------

  /** Adding areas of other owners does not change what the scan sees. */
  ghost predicate Extends(g: Image, g': Image) {
    && g'.base == g.base && g'.pid == g.pid && SameAreaBytes(g.live, g.m, g'.m)
    && (forall a :: a in g.live ==> a in g'.live && g'.live[a] == g.live[a] && 0 <= a && 0 < g.live[a].blocks)
    && (forall a :: a in g'.live && a !in g.live ==> g'.live[a].owner != g.pid)
  }

  lemma SameStored(g: Image, g': Image, a: int, b: int, i: int)
    requires Extends(g, g')
    ensures Stored(g', a, b, i) <==> Stored(g, a, b, i)
    ensures Suspected(g', a, b, i) <==> Suspected(g, a, b, i)
  {
    if Owned(g, a) && 0 <= i && UserPart(a) <= i < End(g, a) {
      assert InArea(g.live, a, i);
      assert i + 1 < End(g, a) ==> InArea(g.live, a, i + 1);
    }
  }

  lemma SamePoints(g: Image, g': Image)
    requires Extends(g, g')
    ensures forall a, b :: Points(g', a, b) <==> Points(g, a, b)
    ensures forall a, b :: MayPoint(g', a, b) <==> MayPoint(g, a, b)
  {
    forall a, b, i ensures Stored(g', a, b, i) <==> Stored(g, a, b, i) {
      SameStored(g, g', a, b, i);
    }
    forall a, b, i ensures Suspected(g', a, b, i) <==> Suspected(g, a, b, i) {
      SameStored(g, g', a, b, i);
    }
  }

  lemma SameJustified(g: Image, g': Image, root: int, kept: set<int>)
    requires Extends(g, g') && Justified(g', root, kept)
    ensures Justified(g, root, kept)
  {
    SamePoints(g, g');
    forall b | b in kept ensures exists p :: MayReach(g, root, p, b) {
      var p :| MayReach(g', root, p, b);
      assert MayReach(g, root, p, b);
    }
  }

  lemma SameGarbage(g: Image, g': Image, kept: set<int>)
    requires Extends(g, g')
    ensures Garbage(g', kept) == Garbage(g, kept) && OwnedBy(g'.live, g.pid) == OwnedBy(g.live, g.pid)
  {
    forall a | a in g.live ensures InArea(g.live, a, End(g, a) - 1) {
    }
    forall a ensures a in Garbage(g', kept) <==> a in Garbage(g, kept) {
      assert a in g.live ==> InArea(g.live, a, End(g, a) - 1);
    }
    forall a ensures a in OwnedBy(g'.live, g.pid) <==> a in OwnedBy(g.live, g.pid) {
    }
  }

  /** A collection of the extended heap, followed by the release of the added areas. */
  lemma CollectedWithout(g: Image, g': Image, root: int, kept: set<int>, leaks: int,
                         h0: seq<Header>, h0': seq<Header>, h1: seq<Header>, live1: Areas, m1: seq<byte>,
                         h2: seq<Header>, live2: Areas, m2: seq<byte>)
    requires Extends(g, g') && Collected(g', root, kept, h0', h1, live1, m1, leaks)
    requires |h0| == |h0'| == |h2| && forall a :: a in g.live ==> 0 <= a < |h0| && h0'[a] == h0[a]
    requires forall a :: a in g.live && a in live1 ==> a in live2 && h2[a] == h1[a]
    requires live2 == live1 - (g'.live.Keys - g.live.Keys) && SameAreaBytes(live2, m1, m2)
    ensures Collected(g, root, kept, h0, h2, live2, m2, leaks)
  {
    SamePoints(g, g');
    SameJustified(g, g', root, kept);
    SameGarbage(g, g', kept);
    forall a ensures a in live2 <==> a in g.live && a !in Garbage(g, kept) {
    }
    SameAreaBytesTrans(live1, live2, g'.m, m1, m2);
    SameAreaBytesTrans(g.live, live2, g.m, g'.m, m2);
  }

  /** There is no room for two areas of n blocks, the first of them placed by first fit. */
  ghost predicate NoRoomForTwo(live: Areas, s: int, n: int) {
    NoFit(live, s, n) || exists p :: FirstFit(live, s, n, p) && NoFit(live[p := Area(n, KER_MEM_PID)], s, n)
  }

  /** malloc_gc_module for a loaded module; done is false when the buffers could not be allocated. */
  method GcModule(hp: Heap, base: int, pid: byte, root: int)
    returns (leaks: int, ghost kept: set<int>, ghost done: bool)
    requires hp.Valid() && root in hp.Live() && hp.Live()[root].owner == pid
    requires pid != KER_MEM_PID && |OwnedBy(hp.Live(), pid)| <= 255
    modifies hp, hp.hdr, hp.link, hp.mem
    ensures hp.Valid()
    ensures done ==> Collected(Image(old(hp.Live()), old(hp.mem[..]), base, pid), root, kept, old(hp.hdr[..]),
                               hp.hdr[..], hp.Live(), hp.mem[..], leaks)
    ensures done <==> var cnt := |OwnedBy(old(hp.Live()), pid)|;
                      cnt < STACK_SIZE || !NoRoomForTwo(old(hp.Live()), hp.S(), ReqBlocks(2 * cnt))
    ensures !done ==> leaks == 0
    ensures !done ==> hp.Live() == old(hp.Live()) && forall a :: a in hp.Live() ==> hp.hdr[a] == old(hp.hdr[a])
    ensures !done ==> SameAreaBytes(hp.Live(), old(hp.mem[..]), hp.mem[..])
  {
    var cnt := CountOwned(hp, pid);
    if cnt < STACK_SIZE {
      leaks, kept := Collect(hp, base, pid, root, STACK_SIZE);
      return leaks, kept, true;
    }
    leaks, kept, done := CollectWithBuffers(hp, base, pid, root, cnt);
  }

  lemma HeapSized(hp: Heap)
    requires hp.Valid()
    ensures |hp.home| < hp.hdr.Length
    ensures forall a :: a in hp.Live() ==> 0 <= a < hp.hdr.Length && 0 < hp.Live()[a].blocks
  {
    assert forall a :: a in hp.Live() ==> Covers(hp.hdr[..], hp.home, a);
  }

  method CollectWithBuffers(hp: Heap, base: int, pid: byte, root: int, cnt: int)
    returns (leaks: int, ghost kept: set<int>, ghost done: bool)
    requires hp.Valid() && root in hp.Live() && hp.Live()[root].owner == pid
    requires pid != KER_MEM_PID && 0 < cnt <= 255 && cnt == |OwnedBy(hp.Live(), pid)|
    modifies hp, hp.hdr, hp.link, hp.mem
    ensures hp.Valid()
    ensures done ==> Collected(Image(old(hp.Live()), old(hp.mem[..]), base, pid), root, kept, old(hp.hdr[..]),
                               hp.hdr[..], hp.Live(), hp.mem[..], leaks)
    ensures done <==> !NoRoomForTwo(old(hp.Live()), hp.S(), ReqBlocks(2 * cnt))
    ensures !done ==> leaks == 0
    ensures !done ==> hp.Live() == old(hp.Live()) && forall a :: a in hp.Live() ==> hp.hdr[a] == old(hp.hdr[a])
    ensures !done ==> SameAreaBytes(hp.Live(), old(hp.mem[..]), hp.mem[..])
  {
    hide HeapInv, LiveOf, Collected, NoRoomForTwo;
    HeapSized(hp);
    ghost var g, h0 := Image(hp.Live(), hp.mem[..], base, pid), hp.hdr[..];
    leaks, kept, done := 0, {}, false;
    var b1, b2 := GetBuffers(hp, 2 * cnt);
    if b1 != NULL {
      leaks, kept := CollectAndDrop(hp, base, pid, root, cnt, b1, b2, g, h0);
      done := true;
    }
  }

  lemma NoRoomForOne(live: Areas, s: int, n: int)
    requires NoFit(live, s, n)
    ensures NoRoomForTwo(live, s, n)
  {
  }

  lemma OnlyFirstFit(live: Areas, s: int, n: int, p: int)
    requires FirstFit(live, s, n, p)
    ensures NoRoomForTwo(live, s, n) <==> NoFit(live[p := Area(n, KER_MEM_PID)], s, n)
  {
    forall q | FirstFit(live, s, n, q) ensures q == p {
    }
  }

  /** Both buffers, or none. */
  method GetBuffers(hp: Heap, size: int) returns (b1: int, b2: int)
    requires hp.Valid() && 0 < size <= 510
    modifies hp, hp.hdr, hp.link, hp.mem
    ensures hp.Valid() && SameAreaBytes(old(hp.Live()), old(hp.mem[..]), hp.mem[..])
    ensures forall a :: a in old(hp.Live()) ==> hp.hdr[a] == old(hp.hdr[a])
    ensures b1 == NULL <==> NoRoomForTwo(old(hp.Live()), hp.S(), ReqBlocks(size))
    ensures b1 == NULL ==> hp.Live() == old(hp.Live())
    ensures b1 != NULL ==> b1 != b2 && b1 !in old(hp.Live()) && b2 !in old(hp.Live())
    ensures b1 != NULL ==>
              var buffer := Area(ReqBlocks(size), KER_MEM_PID);
              hp.Live() == old(hp.Live())[b1 := buffer][b2 := buffer]
    ensures b1 != NULL ==> GuardIn(hp.Live(), hp.mem[..], b1) && GuardIn(hp.Live(), hp.mem[..], b2)
    ensures forall a :: a in old(hp.Live()) ==> 0 <= a && 0 < old(hp.Live())[a].blocks
  {
    hide HeapInv, LiveOf, NoRoomForTwo, NoFit, FirstFit;
    HeapSized(hp);
    ghost var live, m := hp.Live(), hp.mem[..];
    b2 := NULL;
    b1 := GetBuffer(hp, size);
    HeapSized(hp);
    if b1 == NULL {
      NoRoomForOne(live, hp.S(), ReqBlocks(size));
      return;
    }
    OnlyFirstFit(live, hp.S(), ReqBlocks(size), b1);
    ghost var live1, m1 := hp.Live(), hp.mem[..];
    b2 := GetBuffer(hp, size);
    HeapSized(hp);
    ghost var m2 := hp.mem[..];
    GuardKept(live1, m1, hp.Live(), m2, b1);
    SameAreaBytesGrow(live, live1, m, m1, m2);
    if b2 == NULL {
      GiveBack(hp, b1, live, m);
      b1 := NULL;
    }
  }

  method GiveBack(hp: Heap, b: int, ghost live: Areas, ghost m: seq<byte>)
    requires hp.Valid() && GuardIn(hp.Live(), hp.mem[..], b) && b !in live && hp.Live() == live[b := hp.Live()[b]]
    requires SameAreaBytes(live, m, hp.mem[..])
    modifies hp`free, hp.hdr, hp.link, hp.mem
    ensures hp.Valid() && hp.Live() == live && SameAreaBytes(live, m, hp.mem[..])
    ensures forall a :: a in live ==> hp.hdr[a] == old(hp.hdr[a])
  {
    ghost var m1 := hp.mem[..];
    DropBuffer(hp, b);
    assert hp.Live() == live;
    SameAreaBytesTrans(live, live, m, m1, hp.mem[..]);
  }

  lemma SameAreaBytesGrow(live: Areas, live1: Areas, m: seq<byte>, m1: seq<byte>, m2: seq<byte>)
    requires SameAreaBytes(live, m, m1) && SameAreaBytes(live1, m1, m2)
    requires forall a :: a in live ==> a in live1 && live[a] == live1[a]
    ensures SameAreaBytes(live, m, m2)
  {
    forall a, i | InArea(live, a, i) && 0 <= i < |m| ensures m2[i] == m[i] {
      assert InArea(live1, a, i);
    }
  }

  lemma GuardKept(live: Areas, m: seq<byte>, live1: Areas, m1: seq<byte>, b: int)
    requires GuardIn(live, m, b) && 0 < live[b].blocks && b in live1 && live1[b] == live[b]
    requires SameAreaBytes(live, m, m1) || SameAreaBytes(live1, m, m1)
    ensures GuardIn(live1, m1, b)
  {
    assert InArea(live, b, BLOCK_SIZE * (b + live[b].blocks) - 1);
    assert InArea(live1, b, BLOCK_SIZE * (b + live[b].blocks) - 1);
  }

  /** Releases both buffers. */
  method DropBuffers(hp: Heap, b1: int, b2: int)
    requires hp.Valid() && GuardIn(hp.Live(), hp.mem[..], b1) && GuardIn(hp.Live(), hp.mem[..], b2) && b1 != b2
    modifies hp`free, hp.hdr, hp.link, hp.mem
    ensures hp.Valid() && hp.Live() == old(hp.Live()) - {b1, b2}
    ensures forall a :: a in hp.Live() ==> hp.hdr[a] == old(hp.hdr[a])
    ensures SameAreaBytes(hp.Live(), old(hp.mem[..]), hp.mem[..])
  {
    ghost var live, m := hp.Live(), hp.mem[..];
    assert Covers(hp.hdr[..], hp.home, b2);
    DropBuffer(hp, b1);
    ghost var live1, m1 := hp.Live(), hp.mem[..];
    GuardKept(live, m, live1, m1, b2);
    DropBuffer(hp, b2);
    SameAreaBytesTrans(live1, hp.Live(), m, m1, hp.mem[..]);
  }

  method CollectAndDrop(hp: Heap, base: int, pid: byte, root: int, cnt: int, b1: int, b2: int,
                        ghost g: Image, ghost h0: seq<Header>)
    returns (leaks: int, ghost kept: set<int>)
    requires hp.Valid() && root in hp.Live() && hp.Live()[root].owner == pid
    requires Extends(g, Image(hp.Live(), hp.mem[..], base, pid)) && b1 != b2
    requires hp.Live().Keys == g.live.Keys + {b1, b2} && b1 !in g.live && b2 !in g.live
    requires GuardIn(hp.Live(), hp.mem[..], b1) && GuardIn(hp.Live(), hp.mem[..], b2)
    requires 0 < hp.Live()[b1].blocks && 0 < hp.Live()[b2].blocks && |OwnedBy(g.live, pid)| <= cnt
    requires |h0| == hp.hdr.Length && forall a :: a in g.live ==> 0 <= a < |h0| && hp.hdr[a] == h0[a]
    modifies hp, hp.hdr, hp.link, hp.mem
    ensures hp.Valid()
    ensures Collected(g, root, kept, h0, hp.hdr[..], hp.Live(), hp.mem[..], leaks)
  {
    hide HeapInv, LiveOf, Collected, SameAreaBytes;
    HeapSized(hp);
    ghost var g', h0' := Image(hp.Live(), hp.mem[..], base, pid), hp.hdr[..];
    SameGarbage(g, g', {});
    leaks, kept := Collect(hp, base, pid, root, cnt);
    ghost var h1, live1, m1 := hp.hdr[..], hp.Live(), hp.mem[..];
    BuffersSurvive(g, g', root, kept, h0', h1, live1, m1, leaks, b1);
    BuffersSurvive(g, g', root, kept, h0', h1, live1, m1, leaks, b2);
    DropBuffers(hp, b1, b2);
    assert g'.live.Keys - g.live.Keys == {b1, b2};
    CollectedWithout(g, g', root, kept, leaks, h0, h0', h1, live1, m1, hp.hdr[..], hp.Live(), hp.mem[..]);
  }

  lemma BuffersSurvive(g: Image, g': Image, root: int, kept: set<int>, h0: seq<Header>, h1: seq<Header>,
                       live1: Areas, m1: seq<byte>, leaks: int, b: int)
    requires Extends(g, g') && Collected(g', root, kept, h0, h1, live1, m1, leaks)
    requires b in g'.live && b !in g.live && 0 < g'.live[b].blocks && GuardIn(g'.live, g'.m, b)
    ensures GuardIn(live1, m1, b)
  {
    GuardKept(g'.live, g'.m, live1, m1, b);
  }

  /** ker_malloc for the collector itself. */
  method GetBuffer(hp: Heap, size: int) returns (b: int)
    requires hp.Valid() && 0 < size <= 510
    modifies hp, hp.hdr, hp.link, hp.mem
    ensures hp.Valid() && SameAreaBytes(old(hp.Live()), old(hp.mem[..]), hp.mem[..])
    ensures forall a :: a in old(hp.Live()) ==> hp.hdr[a] == old(hp.hdr[a])
    ensures b == NULL <==> NoFit(old(hp.Live()), hp.S(), ReqBlocks(size))
    ensures b == NULL ==> hp.Live() == old(hp.Live())
    ensures b != NULL ==> FirstFit(old(hp.Live()), hp.S(), ReqBlocks(size), b)
    ensures b != NULL ==> b !in old(hp.Live()) && hp.Live() == old(hp.Live())[b := Area(ReqBlocks(size), KER_MEM_PID)]
    ensures b != NULL ==> GuardIn(hp.Live(), hp.mem[..], b)
  {
    ghost var live := hp.Live();
    assert forall a :: a in live ==> Covers(hp.hdr[..], hp.home, a);
    b := hp.Alloc(size, KER_MEM_PID);
    if b != NULL {
      NewAreaApart(live, hp.S(), b, ReqBlocks(size));
      assert b in hp.Live() && Start(hp.home, b);
      assert Covers(hp.hdr[..], hp.home, b);
    }
  }

  method DropBuffer(hp: Heap, b: int)
    requires hp.Valid() && GuardIn(hp.Live(), hp.mem[..], b)
    modifies hp`free, hp.hdr, hp.link, hp.mem
    ensures hp.Valid() && hp.Live() == old(hp.Live()) - {b}
    ensures forall a :: a in hp.Live() ==> hp.hdr[a] == old(hp.hdr[a])
    ensures SameAreaBytes(hp.Live(), old(hp.mem[..]), hp.mem[..])
  {
    ghost var live := hp.Live();
    assert Covers(hp.hdr[..], hp.home, b);
    hp.Free(b);
    assert forall a, i :: InArea(hp.Live(), a, i) ==> InArea(live, a, i) && a != b;
  }
}
