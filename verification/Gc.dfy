/**
  The collectors of kernel/malloc.c: ker_gc_mark and malloc_gc, where kernel components mark what they
  use, and malloc_gc_module, which marks a module's areas by scanning them for pointers.
 */
module HeapGc {
  import opened Common
  import opened HeapModel
  import opened HeapSpec

  const KER_MEM_PID: byte := 3
  const STACK_SIZE := 16

  // ---------------------------------------------------------------------------------------------
  // Marks
  // ---------------------------------------------------------------------------------------------

  lemma MarkKeepsInv(h: seq<Header>, l: seq<Links>, home: seq<int>, free: set<int>, a: int, v: bool)
    requires HeapInv(h, l, home, free, NULL) && a in LiveOf(h, home)
    ensures var h1 := h[a := h[a].(marked := v)];
            HeapInv(h1, l, home, free, NULL) && LiveOf(h1, home) == LiveOf(h, home)
  {
    SameSizesKeepTiled(h, home, h[a := h[a].(marked := v)]);
  }

  method SetMark(hp: Heap, a: int, v: bool)
    requires hp.Valid() && a in hp.Live()
    modifies hp.hdr, hp.mem
    ensures hp.Valid() && hp.Live() == old(hp.Live())
    ensures hp.hdr[..] == old(hp.hdr[..])[a := old(hp.hdr[a]).(marked := v)]
    ensures SameAreaBytes(hp.Live(), old(hp.mem[..]), hp.mem[..])
  {
    ghost var h := hp.hdr[..];
    hp.SetHeader(a, hp.hdr[a].(marked := v));
    MarkKeepsInv(h, hp.link[..], hp.home, hp.free, a, v);
    AreaBytesKept(hp.hdr[..], hp.link[..], hp.home, hp.free, NULL);
    forall b, i | InArea(hp.Live(), b, i) && 0 <= i < hp.mem.Length ensures hp.mem[..][i] == old(hp.mem[..])[i] {
      assert Kept(hp.home, hp.free, i);
    }
  }

  /** No user byte of a live area differs. */
  ghost predicate SameAreaBytes(live: Areas, m: seq<byte>, m1: seq<byte>) {
    |m1| == |m| && forall a, i :: InArea(live, a, i) && 0 <= i < |m| ==> m1[i] == m[i]
  }

  /** Marks the area p for pid; any other pointer is refused. */
  method GcMark(hp: Heap, pid: byte, p: int) returns (ok: bool)
    requires hp.Valid()
    modifies hp.hdr, hp.mem
    ensures hp.Valid() && hp.Live() == old(hp.Live())
    ensures ok <==> p in hp.Live() && hp.Live()[p].owner == pid
    ensures hp.hdr[..] == if ok then old(hp.hdr[..])[p := old(hp.hdr[p]).(marked := true)] else old(hp.hdr[..])
    ensures SameAreaBytes(hp.Live(), old(hp.mem[..]), hp.mem[..])
  {
    if p < 0 || p >= hp.hdr.Length {
      return false;
    }
    var b := 0;
    FirstStarts(hp.hdr[..], hp.home);
    while b != hp.S()
      invariant 0 <= b <= hp.S() && (b < hp.S() ==> Start(hp.home, b))
      invariant p < b ==> p !in hp.Live()
      invariant hp.Valid() && hp.hdr[..] == old(hp.hdr[..]) && hp.mem[..] == old(hp.mem[..])
      decreases hp.S() - b
    {
      assert Covers(hp.hdr[..], hp.home, b);
      if b == p {
        if hp.hdr[b].owner == pid && hp.hdr[b].reserved {
          SetMark(hp, b, true);
          return true;
        }
        return false;
      }
      SuccessorStarts(hp.hdr[..], hp.home, b);
      NoStartInside(hp.hdr[..], hp.home, b);
      b := b + hp.hdr[b].blocks;
    }
    return false;
  }

  lemma SameAreaBytesTrans(live: Areas, live1: Areas, m: seq<byte>, m1: seq<byte>, m2: seq<byte>)
    requires SameAreaBytes(live, m, m1) && SameAreaBytes(live1, m1, m2)
    requires forall a :: a in live1 ==> a in live && live[a] == live1[a]
    ensures SameAreaBytes(live1, m, m2)
  {
    forall a, i | InArea(live1, a, i) && 0 <= i < |m| ensures m2[i] == m[i] {
      assert InArea(live, a, i);
    }
  }

  /** The guard byte of the live area b is intact. */
  ghost predicate GuardIn(live: Areas, m: seq<byte>, b: int) {
    && b in live && 0 < BLOCK_SIZE * (b + live[b].blocks) <= |m|
    && m[BLOCK_SIZE * (b + live[b].blocks) - 1] == live[b].owner
  }

  /** a is a live area of pid that is not marked, and its guard byte is intact. */
  ghost predicate LeakedIn(h: seq<Header>, live: Areas, m: seq<byte>, a: int, pid: byte) {
    && a in live && live[a].owner == pid && 0 <= a < |h| && !h[a].marked
    && 0 < BLOCK_SIZE * (a + live[a].blocks) <= |m| && m[BLOCK_SIZE * (a + live[a].blocks) - 1] == pid
  }

  lemma SameLeaked(h: seq<Header>, live: Areas, m: seq<byte>,
                   h1: seq<Header>, live1: Areas, m1: seq<byte>, a: int, pid: byte)
    requires a in live && a in live1 && live1[a] == live[a] && 0 < live[a].blocks
    requires |h1| == |h| && 0 <= a < |h| && h1[a] == h[a] && SameAreaBytes(live1, m, m1)
    ensures LeakedIn(h1, live1, m1, a, pid) == LeakedIn(h, live, m, a, pid)
  {
    assert InArea(live1, a, BLOCK_SIZE * (a + live[a].blocks) - 1);
  }

  /** The header after a sweep for pid: its own areas lose their mark. */
  function Unmarked(h: Header, pid: byte): Header {
    if h.owner == pid then h.(marked := false) else h
  }

  /** Frees the unmarked area a, or clears the mark of a marked one. */
  method ReleaseOrUnmark(hp: Heap, a: int)
    requires hp.Valid() && a in hp.Live()
    modifies hp`free, hp.hdr, hp.link, hp.mem
    ensures hp.Valid() && hp.home == old(hp.home)
    ensures hp.Live() == if LeakedIn(old(hp.hdr[..]), old(hp.Live()), old(hp.mem[..]), a, old(hp.hdr[a].owner))
                         then old(hp.Live()) - {a} else old(hp.Live())
    ensures forall x :: 0 <= x < hp.hdr.Length ==> hp.hdr[x].blocks == old(hp.hdr[x].blocks)
    ensures forall x :: 0 <= x < hp.hdr.Length && x != a ==> hp.hdr[x] == old(hp.hdr[x])
    ensures a in hp.Live() ==> hp.hdr[a] == old(hp.hdr[a]).(marked := false)
    ensures SameAreaBytes(hp.Live(), old(hp.mem[..]), hp.mem[..])
  {
    assert Covers(hp.hdr[..], hp.home, a);
    if !hp.hdr[a].marked {
      ghost var live := hp.Live();
      hp.Free(a);
      assert forall b, i :: InArea(hp.Live(), b, i) ==> InArea(live, b, i);
    } else {
      SetMark(hp, a, false);
    }
  }

  /** One step of the sweep at area b; returns the next area. */
  method SweepArea(hp: Heap, b: int, pid: byte) returns (next: int)
    requires hp.Valid() && Start(hp.home, b)
    modifies hp`free, hp.hdr, hp.link, hp.mem
    ensures hp.Valid() && hp.home == old(hp.home)
    ensures hp.Live() == if LeakedIn(old(hp.hdr[..]), old(hp.Live()), old(hp.mem[..]), b, pid)
                         then old(hp.Live()) - {b} else old(hp.Live())
    ensures forall x :: 0 <= x < hp.hdr.Length && x != b ==> hp.hdr[x] == old(hp.hdr[x])
    ensures b in hp.Live() ==> hp.hdr[b] == Unmarked(old(hp.hdr[b]), pid)
    ensures SameAreaBytes(hp.Live(), old(hp.mem[..]), hp.mem[..])
    ensures b < next <= hp.S() && (next < hp.S() ==> Start(hp.home, next))
    ensures forall a :: a in hp.Live() && b < a ==> next <= a
  {
    assert Covers(hp.hdr[..], hp.home, b);
    if hp.hdr[b].owner == pid && hp.hdr[b].reserved {
      assert b in hp.Live();
      ReleaseOrUnmark(hp, b);
    }
    SuccessorStarts(hp.hdr[..], hp.home, b);
    NoStartInside(hp.hdr[..], hp.home, b);
    next := b + hp.hdr[b].blocks;
  }

  /** The walk has reached block b: below it the areas in gone are freed and the others unmarked. */
  ghost predicate SweepingAt(h: seq<Header>, live: Areas, m: seq<byte>, pid: byte, b: int,
                             h1: seq<Header>, live1: Areas, m1: seq<byte>) {
    && |h1| == |h| && (forall a :: a in live ==> 0 <= a < |h| && 0 < live[a].blocks)
    && live1 == SweptTo(live, LeakSet(h, live, m, pid), b)
    && (forall a :: a in live1 ==> h1[a] == if a < b then Unmarked(h[a], pid) else h[a])
    && SameAreaBytes(live1, m, m1)
  }

  ghost function LeakSet(h: seq<Header>, live: Areas, m: seq<byte>, pid: byte): set<int> {
    set a | a in live && LeakedIn(h, live, m, a, pid)
  }

  lemma SweepingStep(h: seq<Header>, live: Areas, m: seq<byte>, pid: byte, b: int, next: int,
                     h1: seq<Header>, live1: Areas, m1: seq<byte>,
                     h2: seq<Header>, live2: Areas, m2: seq<byte>)
    requires SweepingAt(h, live, m, pid, b, h1, live1, m1) && b < next && |h2| == |h1|
    requires live2 == if LeakedIn(h1, live1, m1, b, pid) then live1 - {b} else live1
    requires forall x :: 0 <= x < |h2| && x != b ==> h2[x] == h1[x]
    requires b in live2 ==> h2[b] == Unmarked(h1[b], pid)
    requires SameAreaBytes(live2, m1, m2)
    requires forall a :: a in live2 && b < a ==> next <= a
    ensures SweepingAt(h, live, m, pid, next, h2, live2, m2)
  {
    if b in live {
      SameLeaked(h, live, m, h1, live1, m1, b, pid);
    }
    SweepStep(live, LeakSet(h, live, m, pid), b, next, live2);
    SameAreaBytesTrans(live1, live2, m, m1, m2);
  }

  lemma SweepingStart(h: seq<Header>, l: seq<Links>, home: seq<int>, free: set<int>, m: seq<byte>, pid: byte)
    requires HeapInv(h, l, home, free, NULL) && |m| == BLOCK_SIZE * |h|
    ensures SweepingAt(h, LiveOf(h, home), m, pid, 0, h, LiveOf(h, home), m)
  {
    assert forall a :: a in LiveOf(h, home) ==> Covers(h, home, a);
  }

  lemma SweepingEnd(h: seq<Header>, home: seq<int>, m: seq<byte>, pid: byte, h1: seq<Header>, live1: Areas,
                    m1: seq<byte>)
    requires |home| < |h| && SweepingAt(h, LiveOf(h, home), m, pid, |home|, h1, live1, m1)
    ensures live1 == LiveOf(h, home) - LeakSet(h, LiveOf(h, home), m, pid)
    ensures forall a :: a in live1 ==> 0 <= a < |h| == |h1| && h1[a] == Unmarked(h[a], pid)
    ensures SameAreaBytes(live1, m, m1)
  {
    SweptAll(h, home, LeakSet(h, LiveOf(h, home), m, pid));
  }

  /** Frees the unmarked areas of pid and clears the marks of the others. */
  method MallocGc(hp: Heap, pid: byte)
    requires hp.Valid()
    modifies hp`free, hp.hdr, hp.link, hp.mem
    ensures hp.Valid()
    ensures hp.Live() == old(hp.Live()) - LeakSet(old(hp.hdr[..]), old(hp.Live()), old(hp.mem[..]), pid)
    ensures forall a :: a in hp.Live() ==> hp.hdr[a] == Unmarked(old(hp.hdr[a]), pid)
    ensures forall a :: a in hp.Live() ==>
              if hp.hdr[a].owner == pid then !hp.hdr[a].marked else hp.hdr[a] == old(hp.hdr[a])
    ensures SameAreaBytes(hp.Live(), old(hp.mem[..]), hp.mem[..])
  {
    hide LiveOf, SweepingAt, LeakSet, Tiled, Linked;
    ghost var live, h, m := hp.Live(), hp.hdr[..], hp.mem[..];
    SweepingStart(h, hp.link[..], hp.home, hp.free, m, pid);
    var b := 0;
    FirstStarts(hp.hdr[..], hp.home);
    while b != hp.S()
      invariant 0 <= b <= hp.S() && (b < hp.S() ==> Start(hp.home, b))
      invariant hp.Valid() && hp.home == old(hp.home)
      invariant SweepingAt(h, live, m, pid, b, hp.hdr[..], hp.Live(), hp.mem[..])
      decreases hp.S() - b
    {
      ghost var live1, h1, m1 := hp.Live(), hp.hdr[..], hp.mem[..];
      var next := SweepArea(hp, b, pid);
      SweepingStep(h, live, m, pid, b, next, h1, live1, m1, hp.hdr[..], hp.Live(), hp.mem[..]);
      b := next;
    }
    SweepingEnd(h, hp.home, m, pid, hp.hdr[..], hp.Live(), hp.mem[..]);
  }
}
