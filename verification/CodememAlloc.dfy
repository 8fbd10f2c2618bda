/** The page bitmap and the salted handles of kernel/codemem.c. */
module CodememAlloc {
  import opened Bits
  import opened Common

  const PAGE := 256
  /** CODEMEM_MAX_LOADABLE_MODULES. */
  const SLOTS := 16

  /** codemem_hdr_t. */
  datatype Hdr = Hdr(start: int, size: int, salt: int)

  /** The number of pages that size bytes take. */
  function Pages(size: int): int { (size + PAGE - 1) / PAGE }

  /** As many pages as the bytes need, and not one more. */
  lemma PagesHold(size: int)
    requires 0 < size
    ensures PAGE * (Pages(size) - 1) < size <= PAGE * Pages(size)
  {
  }

  // ---------------------------------------------------------------------------------------------
  // The bitmap
  // ---------------------------------------------------------------------------------------------

  /** The pages start .. start + n are all clear. */
  ghost predicate Clear(v: seq<bv8>, start: int, n: int) {
    0 <= start && start + n <= 8 * |v| && forall k :: start <= k < start + n ==> !BitAt(v, k)
  }

  /** v1 is v with the bits of the range set to val. */
  ghost predicate Filled(v: seq<bv8>, v1: seq<bv8>, start: int, n: int, val: bool) {
    && |v1| == |v|
    && forall k :: 0 <= k < 8 * |v| ==> (BitAt(v1, k) <==> if start <= k < start + n then val else BitAt(v, k))
  }

  /** One step of flash_setbitmap. */
  function WriteBit(b: bv8, shift: bv8, val: bool): bv8 { if val then b | shift else b & !shift }

  lemma WriteBitFills(v0: seq<bv8>, v: seq<bv8>, start: int, n: int, i: int, j: int, val: bool)
    requires Filled(v0, v, start, n, val) && 0 <= i < |v| && 0 <= j < 8 && start + n == 8 * i + j && n >= 0
    ensures Filled(v0, v[i := WriteBit(v[i], Mask(j), val)], start, n + 1, val)
  {
    hide BitAt, WriteBit;
    var v1 := v[i := WriteBit(v[i], Mask(j), val)];
    forall k | 0 <= k < 8 * |v|
      ensures BitAt(v1, k) <==> if start <= k < start + n + 1 then val else BitAt(v0, k)
    {
      WriteBitAt(v, i, j, val, k);
    }
  }

  lemma WriteBitAt(v: seq<bv8>, i: int, j: int, val: bool, k: int)
    requires 0 <= i < |v| && 0 <= j < 8 && 0 <= k < 8 * |v|
    ensures BitAt(v[i := WriteBit(v[i], Mask(j), val)], k) <==> if k == 8 * i + j then val else BitAt(v, k)
  {
    hide Test, Mask, WriteBit;
    WriteBitTest(v[i], j, val, k % 8);
    assert k == 8 * (k / 8) + k % 8;
  }

  lemma WriteBitTest(b: bv8, j: int, val: bool, m: int)
    requires 0 <= j < 8 && 0 <= m < 8
    ensures Test(WriteBit(b, Mask(j), val), m) <==> if m == j then val else Test(b, m)
  {
  }

  /** The inner loops of flash_setbitmap: bits of byte i from bit j on, at most length of them. */
  method FillByte(bitmap: array<bv8>, i: int, j0: int, length: int, val: bool, ghost v0: seq<bv8>, ghost start: int,
                  ghost n: int)
    returns (done: int)
    requires 0 <= i < bitmap.Length && 0 <= j0 < 8 && 0 <= length && 0 <= n
    requires Filled(v0, bitmap[..], start, n, val) && start + n == 8 * i + j0
    modifies bitmap
    ensures done == (if length < 8 - j0 then length else 8 - j0) && Filled(v0, bitmap[..], start, n + done, val)
  {
    hide Filled, Mask, Shl, WriteBit;
    var j, shift := j0, Mask(j0);
    done := 0;
    while j < 8 && done < length
      invariant j0 <= j <= 8 && done == j - j0 && done <= length && shift == Mask(j)
      invariant Filled(v0, bitmap[..], start, n + done, val)
    {
      WriteBitFills(v0, bitmap[..], start, n + done, i, j, val);
      ghost var v := bitmap[..];
      bitmap[i] := WriteBit(bitmap[i], shift, val);
      assert bitmap[..] == v[i := WriteBit(v[i], Mask(j), val)];
      ShlMask(j);
      j, shift, done := j + 1, Shl(shift), done + 1;
    }
  }

  /** flash_setbitmap: exactly the bits of the range become val. */
  method SetBitmap(bitmap: array<bv8>, start: int, length: int, val: bool)
    requires 0 <= start && 0 < length && start + length <= 8 * bitmap.Length
    modifies bitmap
    ensures Filled(old(bitmap[..]), bitmap[..], start, length, val)
  {
    hide Filled;
    ghost var v0 := bitmap[..];
    var i := start / 8;
    FilledNothing(v0, start, val);
    var n := FillByte(bitmap, i, start % 8, length, val, v0, start, 0);
    i := i + 1;
    while i < bitmap.Length && n < length
      invariant 0 <= i <= bitmap.Length && 0 <= n <= length && (n < length ==> start + n == 8 * i)
      invariant Filled(v0, bitmap[..], start, n, val)
    {
      var done := FillByte(bitmap, i, 0, length - n, val, v0, start, n);
      n := n + done;
      i := i + 1;
    }
  }

  lemma FilledNothing(v: seq<bv8>, start: int, val: bool)
    ensures Filled(v, v, start, 0, val)
  {
  }

  /** Before page p: the last run of clear pages has length run, and no run of n clear pages has ended. */
  ghost predicate Searching(v: seq<bv8>, p: int, run: int, n: int) {
    && 0 <= run <= p <= 8 * |v| && run < n
    && Clear(v, p - run, run) && (run < p ==> BitAt(v, p - run - 1))
    && (forall s :: s + n <= p ==> !Clear(v, s, n))
  }

  lemma SearchStep(v: seq<bv8>, p: int, run: int, n: int)
    requires Searching(v, p, run, n) && p < 8 * |v|
    ensures BitAt(v, p) ==> Searching(v, p + 1, 0, n)
    ensures !BitAt(v, p) && run + 1 < n ==> Searching(v, p + 1, run + 1, n)
    ensures !BitAt(v, p) && run + 1 == n ==> FirstRun(v, p + 1 - n, n) && 0 <= p + 1 - n
    ensures 0 <= run < n
  {
  }

  /** The pages from page on are the lowest n consecutive clear ones. */
  ghost predicate FirstRun(v: seq<bv8>, page: int, n: int) {
    Clear(v, page, n) && forall s :: s < page ==> !Clear(v, s, n)
  }

  /** The inner loop of flash_alloc, over the bits of byte i; page is -1 when no run ends there. */
  method ScanByte(tmp: bv8, i: int, run0: int, n: int, ghost v: seq<bv8>) returns (run: int, page: int)
    requires 0 <= i < |v| && v[i] == tmp && Searching(v, 8 * i, run0, n)
    ensures page == -1 ==> Searching(v, 8 * i + 8, run, n)
    ensures page != -1 ==> FirstRun(v, page, n)
  {
    hide Clear, Searching, BitAt, Mask, FirstRun, Shl, Hit;
    MaskZero();
    var j, shift := 0, 1 as bv8;
    run := run0;
    while j < 8
      invariant 0 <= j <= 8 && shift == Mask(j) && Searching(v, 8 * i + j, run, n)
    {
      SearchStep(v, 8 * i + j, run, n);
      BitOf(v, i, j);
      run := if Hit(tmp, shift) then 0 else run + 1;
      if run == n {
        return run, 8 * i + j + 1 - n;
      }
      ShlMask(j);
      j, shift := j + 1, Shl(shift);
    }
    return run, -1;
  }

  /** The search of flash_alloc: the lowest run of n clear pages, or -1 if there is none. */
  method FindRun(bitmap: array<bv8>, n: int) returns (page: int)
    requires 1 <= n <= 255
    ensures page != -1 ==> FirstRun(bitmap[..], page, n)
    ensures page == -1 ==> forall s :: !Clear(bitmap[..], s, n)
  {
    ghost var v := bitmap[..];
    hide Clear, Searching, FirstRun;
    SearchStart(v, n);
    var i, run := 0, 0;
    while i < bitmap.Length
      invariant 0 <= i <= bitmap.Length && Searching(v, 8 * i, run, n)
    {
      run, page := ScanByte(bitmap[i], i, run, n, v);
      if page != -1 {
        return;
      }
      i := i + 1;
    }
    SearchEnd(v, run, n);
    return -1;
  }

  lemma SearchStart(v: seq<bv8>, n: int)
    requires n >= 1
    ensures Searching(v, 0, 0, n)
  {
  }

  lemma SearchEnd(v: seq<bv8>, run: int, n: int)
    requires Searching(v, 8 * |v|, run, n)
    ensures forall s :: !Clear(v, s, n)
  {
  }

  lemma BitOf(v: seq<bv8>, i: int, j: int)
    requires 0 <= i < |v| && 0 <= j < 8
    ensures BitAt(v, 8 * i + j) <==> Hit(v[i], Mask(j))
  {
  }

  // ---------------------------------------------------------------------------------------------
  // Handles
  // ---------------------------------------------------------------------------------------------

  /** (uint32_t)-ENOMEM, which flash_alloc returns as an address when it gets no cache page. */
  const NO_MEMORY := 0x1_0000_0000 - 12

  function FirstPage(h: Hdr, base: int): int { (h.start - base) / PAGE }

  /** The header owns page k. */
  predicate Owns(h: Hdr, base: int, k: int) { FirstPage(h, base) <= k < FirstPage(h, base) + Pages(h.size) }

  predicate OwnedBy(hs: seq<Option<Hdr>>, base: int, i: int, k: int) {
    0 <= i < |hs| && hs[i].Some? && Owns(hs[i].value, base, k)
  }

  predicate HdrOk(h: Hdr, base: int, pages: int) {
    && 1 <= Pages(h.size) <= 255
    && h.start == base + PAGE * FirstPage(h, base)
    && 0 <= FirstPage(h, base) && FirstPage(h, base) + Pages(h.size) <= pages
  }

  /** Every live handle is sound and carries the number of its allocation, modulo 256, as salt. */
  ghost predicate HandlesOk(hs: seq<Option<Hdr>>, base: int, pages: int, count: nat, born: seq<nat>) {
    && |hs| == |born| == SLOTS && 0 < base && base + PAGE * pages < NO_MEMORY
    && (forall i :: 0 <= i < SLOTS && hs[i].Some? ==>
          HdrOk(hs[i].value, base, pages) && 1 <= born[i] <= count && hs[i].value.salt == born[i] % 256)
    && (forall i, j :: 0 <= i < j < SLOTS && hs[i].Some? && hs[j].Some? ==> born[i] != born[j])
  }

  /** A bit is set exactly when one live handle owns the page, and no page has two owners. */
  ghost predicate BitmapOk(v: seq<bv8>, hs: seq<Option<Hdr>>, base: int) {
    && (forall k :: 0 <= k < 8 * |v| ==> (BitAt(v, k) <==> exists i :: OwnedBy(hs, base, i, k)))
    && (forall i, j, k {:trigger OwnedBy(hs, base, i, k), OwnedBy(hs, base, j, k)} ::
          OwnedBy(hs, base, i, k) && OwnedBy(hs, base, j, k) ==> i == j)
  }

  lemma AllocHandle(hs: seq<Option<Hdr>>, base: int, pages: int, count: nat, born: seq<nat>, i: int, h: Hdr)
    requires HandlesOk(hs, base, pages, count, born) && 0 <= i < SLOTS && hs[i].None?
    requires HdrOk(h, base, pages) && h.salt == (count + 1) % 256
    ensures HandlesOk(hs[i := Some(h)], base, pages, count + 1, born[i := count + 1])
  {
  }

  lemma FreeHandle(hs: seq<Option<Hdr>>, base: int, pages: int, count: nat, born: seq<nat>, i: int)
    requires HandlesOk(hs, base, pages, count, born) && 0 <= i < SLOTS
    ensures HandlesOk(hs[i := None], base, pages, count, born)
  {
  }

  lemma AllocBitmap(v: seq<bv8>, v1: seq<bv8>, hs: seq<Option<Hdr>>, base: int, i: int, h: Hdr)
    requires BitmapOk(v, hs, base) && 0 <= i < |hs| && hs[i].None?
    requires Clear(v, FirstPage(h, base), Pages(h.size)) && Filled(v, v1, FirstPage(h, base), Pages(h.size), true)
    requires forall j, k :: OwnedBy(hs, base, j, k) ==> 0 <= k < 8 * |v|
    ensures BitmapOk(v1, hs[i := Some(h)], base)
  {
    hide BitAt, Owns, Pages, FirstPage;
    var hs1 := hs[i := Some(h)];
    assert forall k :: Owns(h, base, k) <==> FirstPage(h, base) <= k < FirstPage(h, base) + Pages(h.size) by {
      OwnsMeans(h, base);
    }
    assert forall j, k :: OwnedBy(hs1, base, j, k) <==> if j == i then Owns(h, base, k) else OwnedBy(hs, base, j, k);
    forall k | 0 <= k < 8 * |v|
      ensures BitAt(v1, k) <==> exists j :: OwnedBy(hs1, base, j, k)
    {
      if Owns(h, base, k) {
        assert OwnedBy(hs1, base, i, k);
      } else if BitAt(v, k) {
        var j :| OwnedBy(hs, base, j, k);
        assert OwnedBy(hs1, base, j, k);
      }
    }
    forall a, b, k | OwnedBy(hs1, base, a, k) && OwnedBy(hs1, base, b, k)
      ensures a == b
    {
      if Owns(h, base, k) {
        assert !BitAt(v, k);
        assert a == i && b == i;
      }
    }
  }

  lemma OwnsMeans(h: Hdr, base: int)
    ensures forall k :: Owns(h, base, k) <==> FirstPage(h, base) <= k < FirstPage(h, base) + Pages(h.size)
  {
  }

  lemma FreeBitmap(v: seq<bv8>, v1: seq<bv8>, hs: seq<Option<Hdr>>, base: int, i: int)
    requires BitmapOk(v, hs, base) && 0 <= i < |hs| && hs[i].Some?
    requires var h := hs[i].value; Filled(v, v1, FirstPage(h, base), Pages(h.size), false)
    ensures BitmapOk(v1, hs[i := None], base)
  {
    hide BitAt, Owns, Pages, FirstPage;
    var h, hs1 := hs[i].value, hs[i := None];
    OwnsMeans(h, base);
    assert forall j, k :: OwnedBy(hs1, base, j, k) <==> j != i && OwnedBy(hs, base, j, k);
    assert forall k :: OwnedBy(hs, base, i, k) <==> Owns(h, base, k);
    forall k | 0 <= k < 8 * |v|
      ensures BitAt(v1, k) <==> exists j :: OwnedBy(hs1, base, j, k)
    {
      if BitAt(v1, k) {
        var j :| OwnedBy(hs, base, j, k);
        assert OwnedBy(hs1, base, j, k);
      }
      if j :| OwnedBy(hs1, base, j, k) {
        assert OwnedBy(hs, base, j, k) && !OwnedBy(hs, base, i, k);
      }
    }
  }

  lemma OwnedInside(hs: seq<Option<Hdr>>, base: int, pages: int, count: nat, born: seq<nat>)
    requires HandlesOk(hs, base, pages, count, born)
    ensures forall j, k :: OwnedBy(hs, base, j, k) ==> 0 <= k < pages
  {
  }

  /** The bytes of live handles lie in flash, and no two handles share one. */
  lemma BytesApart(v: seq<bv8>, hs: seq<Option<Hdr>>, base: int, count: nat, born: seq<nat>, i: int, j: int)
    requires HandlesOk(hs, base, 8 * |v|, count, born) && BitmapOk(v, hs, base)
    requires 0 <= i < SLOTS && 0 <= j < SLOTS && i != j && hs[i].Some? && hs[j].Some?
    ensures var a, b := hs[i].value, hs[j].value;
            && base <= a.start < a.start + a.size <= base + PAGE * (8 * |v|)
            && (a.start + a.size <= b.start || b.start + b.size <= a.start)
  {
    hide BitAt, Pages, FirstPage;
    var a, b := hs[i].value, hs[j].value;
    PagesPositive(a.size);
    PagesPositive(b.size);
    PagesHold(a.size);
    PagesHold(b.size);
    var k := if FirstPage(a, base) < FirstPage(b, base) then FirstPage(b, base) else FirstPage(a, base);
    assert !(OwnedBy(hs, base, i, k) && OwnedBy(hs, base, j, k));
  }

  lemma PagesPositive(size: int)
    ensures 1 <= Pages(size) ==> 0 < size
  {
  }

  /** The handle given out by the n-th allocation for a slot. */
  function Handle(slot: int, n: nat): int { slot + 256 * (n % 256) }

  /** check_codemem_t. */
  predicate Accepts(hs: seq<Option<Hdr>>, h: int)
    requires |hs| == SLOTS && 0 <= h < 0x1_0000
  {
    h % 256 < SLOTS && hs[h % 256].Some? && hs[h % 256].value.salt == h / 256
  }

  /** A handle is accepted exactly when its slot is live and was filled a multiple of 256 allocations later. */
  lemma StaleHandle(hs: seq<Option<Hdr>>, base: int, pages: int, count: nat, born: seq<nat>, slot: int, n: nat)
    requires HandlesOk(hs, base, pages, count, born) && 0 <= slot < SLOTS
    ensures 0 <= Handle(slot, n) < 0x1_0000
    ensures Accepts(hs, Handle(slot, n)) <==> hs[slot].Some? && (born[slot] - n) % 256 == 0
  {
    hide HdrOk;
    HandleParts(slot, n);
    SameSalt(born[slot], n);
  }

  lemma HandleParts(slot: int, n: nat)
    requires 0 <= slot < SLOTS
    ensures 0 <= Handle(slot, n) < 0x1_0000 && Handle(slot, n) % 256 == slot && Handle(slot, n) / 256 == n % 256
  {
  }

  lemma SameSalt(a: int, b: int)
    ensures a % 256 == b % 256 <==> (a - b) % 256 == 0
  {
  }

  class CodeMemory {
    const bitmap: array<bv8>
    const handles: array<Option<Hdr>>
    /** flash_start_page_addr. */
    const base: int
    /** codemem_salt. */
    var salt: int
    /** The number of allocations so far, and the number of the one that filled each slot. */
    ghost var count: nat
    ghost var born: seq<nat>

    ghost predicate Valid()
      reads this, bitmap, handles
    {
      && handles.Length == SLOTS && handles as object != bitmap && salt == count % 256
      && HandlesOk(handles[..], base, 8 * bitmap.Length, count, born)
      && BitmapOk(bitmap[..], handles[..], base)
    }

    /** codemem_init. */
    constructor (start: int, numPages: nat)
      requires 0 < start && start + PAGE * (numPages + 7) < NO_MEMORY && (numPages + 7) / 8 <= 255
      ensures Valid() && bitmap.Length == (numPages + 7) / 8 && count == 0 && fresh(bitmap) && fresh(handles)
      ensures forall i :: 0 <= i < SLOTS ==> handles[i].None?
    {
      base, salt, count := start, 0, 0;
      bitmap := new bv8[(numPages + 7) / 8](_ => 0);
      handles := new Option<Hdr>[SLOTS](_ => None);
      born := seq(SLOTS, _ => 0);
      new;
      forall k | 0 <= k < 8 * bitmap.Length
        ensures !BitAt(bitmap[..], k)
      {
        TestFull(k % 8);
      }
    }

    /** flash_free without the erasing of the pages. */
    method FlashFree(start: int, size: int)
      requires HdrOk(Hdr(start, size, 0), base, 8 * bitmap.Length)
      modifies bitmap
      ensures Filled(old(bitmap[..]), bitmap[..], FirstPage(Hdr(start, size, 0), base), Pages(size), false)
    {
      SetBitmap(bitmap, (start - base) / PAGE, (size + PAGE - 1) / PAGE, false);
    }

    /** flash_alloc; the address is zero when there is no room. */
    method FlashAlloc(size: int, cacheMem: bool) returns (start: int)
      requires 1 <= Pages(size) <= 255 && 0 < base
      modifies bitmap
      ensures !cacheMem ==> start == NO_MEMORY && bitmap[..] == old(bitmap[..])
      ensures cacheMem && start == 0 ==> bitmap[..] == old(bitmap[..]) && forall s :: !Clear(bitmap[..], s, Pages(size))
      ensures cacheMem && start != 0 ==> Placed(old(bitmap[..]), bitmap[..], base, Hdr(start, size, 0))
    {
      if !cacheMem {
        return NO_MEMORY;
      }
      var n := (size + PAGE - 1) / PAGE;
      hide FirstRun, Filled, Pages, Clear;
      var page := FindRun(bitmap, n);
      if page == -1 {
        return 0;
      }
      RunFits(bitmap[..], page, n);
      SetBitmap(bitmap, page, n, true);
      start := base + page * PAGE;
      assert FirstPage(Hdr(start, size, 0), base) == page;
    }

    /**
      ker_codemem_alloc for 1 to 255 pages; hdrMem and cacheMem: the header and the cache page can be had.
      Without a cache page the handle gets an address outside of flash: then, and only then, the handles
      and the bitmap no longer agree.
     */
    method Alloc(size: int, hdrMem: bool, cacheMem: bool) returns (r: Option<int>, ghost slot: int, ghost h: Hdr)
      requires Valid() && 1 <= Pages(size) <= 255
      modifies this`salt, this`count, this`born, bitmap, handles
      ensures r.None? <==> || (forall i :: 0 <= i < SLOTS ==> old(handles[..])[i].Some?) || !hdrMem
                           || (cacheMem && forall s :: !Clear(old(bitmap[..]), s, Pages(size)))
      ensures Valid() <==> cacheMem || r.None?
      ensures r.None? ==> bitmap[..] == old(bitmap[..]) && handles[..] == old(handles[..]) && count == old(count)
      ensures r.Some? ==> count == old(count) + 1 && r.value == Handle(slot, count) && h.size == size
                          && h.salt == count % 256 && Allocated(old(handles[..]), handles[..], slot, h)
      ensures r.Some? && cacheMem ==> Placed(old(bitmap[..]), bitmap[..], base, h)
      ensures r.Some? && !cacheMem ==> bitmap[..] == old(bitmap[..]) && h.start == NO_MEMORY
    {
      hide Clear, Placed, HandlesOk, BitmapOk, Pages, FirstPage, HdrOk, Handle;
      r, slot, h := None, 0, Hdr(0, 0, 0);
      var i := FreeSlot();
      if i == SLOTS || !hdrMem {
        return;
      }
      ghost var hs, v, n, b := handles[..], bitmap[..], count, born;
      assert HandlesOk(hs, base, 8 * |v|, n, b);
      HandlesMean(hs, base, 8 * |v|, n, b);
      var start := FlashAlloc(size, cacheMem);
      if start == 0 {
        return;
      }
      salt := (salt + 1) % 256;
      count := count + 1;
      born := born[i := count];
      handles[i] := Some(Hdr(start, size, salt));
      r, slot, h := Some(i + 256 * salt), i, Hdr(start, size, salt);
      assert handles[..] == hs[i := Some(h)];
      NextSalt(i, n);
      if cacheMem {
        PlacedKeeps(v, bitmap[..], hs, base, n, b, i, h);
      } else {
        BadHandle(hs, base, 8 * |v|, count, born, i, h);
      }
    }

    /** The search for an unused handle. */
    method FreeSlot() returns (i: int)
      requires handles.Length == SLOTS
      ensures 0 <= i <= SLOTS && (forall j :: 0 <= j < i ==> handles[..][j].Some?)
              && (i < SLOTS ==> handles[..][i].None?)
    {
      i := 0;
      while i < SLOTS && handles[i].Some?
        invariant 0 <= i <= SLOTS && forall j :: 0 <= j < i ==> handles[..][j].Some?
      {
        i := i + 1;
      }
    }

    /** check_codemem_t; a handle with slot 16 would be looked up behind the table. */
    method Check(h: int) returns (ok: bool)
      requires handles.Length == SLOTS && 0 <= h < 0x1_0000 && h % 256 != SLOTS
      ensures ok <==> Accepts(handles[..], h)
    {
      var slot, salt := h % 256, h / 256;
      if slot > SLOTS {
        return false;
      }
      if handles[slot].None? {
        return false;
      }
      return handles[slot].value.salt == salt;
    }

    /** ker_codemem_free: exactly the pages of the handle become free, and the slot with them. */
    method Free(h: int) returns (ok: bool)
      requires Valid() && 0 <= h < 0x1_0000 && h % 256 != SLOTS
      modifies bitmap, handles
      ensures Valid() && (ok <==> Accepts(old(handles[..]), h))
      ensures !ok ==> bitmap[..] == old(bitmap[..]) && handles[..] == old(handles[..])
      ensures ok ==> var slot := h % 256;
                     var hdr := old(handles[..])[slot].value;
                     && handles[..] == old(handles[..])[slot := None]
                     && Filled(old(bitmap[..]), bitmap[..], FirstPage(hdr, base), Pages(hdr.size), false)
    {
      hide HandlesOk, BitmapOk, Pages, FirstPage, HdrOk, Filled;
      ok := Check(h);
      if !ok {
        return;
      }
      var slot := h % 256;
      var hdr := handles[slot].value;
      ghost var hs, v := handles[..], bitmap[..];
      HandlesMean(hs, base, 8 * |v|, count, born);
      FlashFree(hdr.start, hdr.size);
      handles[slot] := None;
      assert handles[..] == hs[slot := None];
      FreeHandle(hs, base, 8 * |v|, count, born, slot);
      FreeBitmap(v, bitmap[..], hs, base, slot);
    }
  }

  lemma NextSalt(slot: int, n: nat)
    ensures (n % 256 + 1) % 256 == (n + 1) % 256
    ensures Handle(slot, n + 1) == slot + 256 * ((n + 1) % 256)
  {
  }

  lemma HandlesMean(hs: seq<Option<Hdr>>, base: int, pages: int, count: nat, born: seq<nat>)
    requires HandlesOk(hs, base, pages, count, born)
    ensures |hs| == |born| == SLOTS && 0 < base && base + PAGE * pages < NO_MEMORY
    ensures forall i :: 0 <= i < SLOTS && hs[i].Some? ==>
      && HdrOk(hs[i].value, base, pages)
      && HdrOk(Hdr(hs[i].value.start, hs[i].value.size, 0), base, pages)
      && FirstPage(Hdr(hs[i].value.start, hs[i].value.size, 0), base) == FirstPage(hs[i].value, base)
  {
  }

  lemma PlacedKeeps(v: seq<bv8>, v1: seq<bv8>, hs: seq<Option<Hdr>>, base: int, count: nat, born: seq<nat>,
                    i: int, h: Hdr)
    requires HandlesOk(hs, base, 8 * |v|, count, born) && BitmapOk(v, hs, base) && 0 <= i < SLOTS && hs[i].None?
    requires Placed(v, v1, base, Hdr(h.start, h.size, 0)) && 1 <= Pages(h.size) <= 255 && h.salt == (count + 1) % 256
    ensures HandlesOk(hs[i := Some(h)], base, 8 * |v1|, count + 1, born[i := count + 1])
    ensures BitmapOk(v1, hs[i := Some(h)], base) && Placed(v, v1, base, h)
    ensures exists s :: Clear(v, s, Pages(h.size))
  {
    hide HandlesOk, BitmapOk, Clear, BitAt;
    HandlesMean(hs, base, 8 * |v|, count, born);
    assert FirstPage(Hdr(h.start, h.size, 0), base) == FirstPage(h, base);
    RunFits(v, FirstPage(h, base), Pages(h.size));
    AllocHandle(hs, base, 8 * |v|, count, born, i, h);
    OwnedInside(hs, base, 8 * |v|, count, born);
    AllocBitmap(v, v1, hs, base, i, h);
  }

  lemma BadHandle(hs: seq<Option<Hdr>>, base: int, pages: int, count: nat, born: seq<nat>, i: int, h: Hdr)
    requires 0 <= i < |hs| && h.start == NO_MEMORY && base + PAGE * pages < NO_MEMORY
    ensures !HandlesOk(hs[i := Some(h)], base, pages, count, born)
  {
    assert hs[i := Some(h)][i].value == h;
  }

  lemma RunFits(v: seq<bv8>, page: int, n: int)
    requires FirstRun(v, page, n)
    ensures 0 <= page && page + n <= 8 * |v|
  {
  }

  /** The header got the lowest pages that were free, and they are now marked as used. */
  ghost predicate Placed(v: seq<bv8>, v1: seq<bv8>, base: int, h: Hdr) {
    && h.start == base + PAGE * FirstPage(h, base) && FirstRun(v, FirstPage(h, base), Pages(h.size))
    && Filled(v, v1, FirstPage(h, base), Pages(h.size), true)
  }

  /** The lowest free slot now holds h; the others are as before. */
  ghost predicate Allocated(hs: seq<Option<Hdr>>, hs1: seq<Option<Hdr>>, slot: int, h: Hdr) {
    && 0 <= slot < |hs| && hs[slot].None? && (forall j :: 0 <= j < slot ==> hs[j].Some?)
    && hs1 == hs[slot := Some(h)]
  }

  /** Modules in code memory do not overlap. */
  lemma ModulesApart(m: CodeMemory, i: int, j: int)
    requires m.Valid() && 0 <= i < SLOTS && 0 <= j < SLOTS && i != j
    requires m.handles[i].Some? && m.handles[j].Some?
    ensures var a, b := m.handles[i].value, m.handles[j].value;
            && m.base <= a.start < a.start + a.size <= m.base + PAGE * (8 * m.bitmap.Length)
            && (a.start + a.size <= b.start || b.start + b.size <= a.start)
  {
    hide HandlesOk, BitmapOk;
    BytesApart(m.bitmap[..], m.handles[..], m.base, m.count, m.born, i, j);
  }

  // ---------------------------------------------------------------------------------------------
  // Runs that go wrong
  // ---------------------------------------------------------------------------------------------

  /** An allocation without a cache page hands out a handle to memory that was never reserved. */
  method AllocWithoutCache() returns (m: CodeMemory, r: Option<int>)
    ensures fresh(m) && r == Some(256) && !m.Valid()
    ensures forall k :: 0 <= k < 8 * m.bitmap.Length ==> !BitAt(m.bitmap[..], k)
  {
    m := new CodeMemory(PAGE, 8);
    NothingOwned(m.bitmap[..], m.handles[..], m.base);
    ghost var hs := m.handles[..];
    ghost var slot, h;
    r, slot, h := m.Alloc(1, true, false);
    assert hs[0].None?;
  }

  lemma NothingOwned(v: seq<bv8>, hs: seq<Option<Hdr>>, base: int)
    requires BitmapOk(v, hs, base) && forall i :: 0 <= i < |hs| ==> hs[i].None?
    ensures forall k :: 0 <= k < 8 * |v| ==> !BitAt(v, k)
  {
  }

  /** One page is allocated in an empty code memory; it gets slot 0. */
  method AllocPage(m: CodeMemory) returns (r: int)
    requires m.Valid() && 0 < m.bitmap.Length && forall i :: 0 <= i < SLOTS ==> m.handles[i].None?
    modifies m`salt, m`count, m`born, m.bitmap, m.handles
    ensures m.Valid() && m.count == old(m.count) + 1 && r == Handle(0, m.count) && Accepts(m.handles[..], r)
    ensures forall i :: 0 < i < SLOTS ==> m.handles[i].None?
  {
    NothingOwned(m.bitmap[..], m.handles[..], m.base);
    assert Clear(m.bitmap[..], 0, Pages(1));
    ghost var hs := m.handles[..];
    ghost var slot, h;
    var o;
    o, slot, h := m.Alloc(1, true, true);
    assert hs[0].None?;
    assert m.handles[..][0].Some?;
    r := o.value;
  }

  /** After 255 other allocations and releases the first handle is given out again. */
  method ReusedHandle() returns (first: int, last: int, ok: bool)
    ensures first == last && ok
  {
    hide HandlesOk, BitmapOk, HdrOk;
    var m := new CodeMemory(PAGE, 8);
    first := AllocPage(m);
    var _ := m.Free(first);
    for n := 1 to 256
      invariant m.Valid() && m.count == n && 0 < m.bitmap.Length && forall i :: 0 <= i < SLOTS ==> m.handles[i].None?
    {
      var h := AllocPage(m);
      var _ := m.Free(h);
    }
    last := AllocPage(m);
    ok := m.Check(first);
  }
}
