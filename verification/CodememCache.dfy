/** The one-page write-back cache of kernel/codemem.c over flash memory. */
module CodememCache {
  import opened Common

  const PAGE := 256

  /** s with the bytes b in place of those from address a on. */
  function Patch(s: seq<byte>, a: int, b: seq<byte>): (r: seq<byte>)
    requires 0 <= a && a + |b| <= |s|
    ensures |r| == |s|
    ensures forall i :: 0 <= i < |s| ==> r[i] == if a <= i < a + |b| then b[i - a] else s[i]
  {
    s[..a] + b + s[a + |b|..]
  }

  predicate PageAt(addr: int, size: int) { 0 <= addr && addr % PAGE == 0 && addr + PAGE <= size }

  function PageOf(addr: int): int { addr - addr % PAGE }

  lemma PageOfIsPage(addr: int, n: int, size: int)
    requires 0 <= addr && size % PAGE == 0 && 0 <= n && addr % PAGE + n <= PAGE && addr + n <= size && n > 0
    ensures PageAt(PageOf(addr), size) && PageOf(addr) <= addr && addr + n <= PageOf(addr) + PAGE
  {
  }

  /** A write into the cached page is a write into the memory that the page stands for. */
  lemma PatchInPage(flash: seq<byte>, page: seq<byte>, at: int, a: int, b: seq<byte>)
    requires 0 <= at && at + PAGE <= |flash| && |page| == PAGE && at <= a && a + |b| <= at + PAGE
    ensures Patch(flash, at, Patch(page, a - at, b)) == Patch(Patch(flash, at, page), a, b)
  {
  }

  /** What codemem_cache_read returns. */
  function Fetch(flash: seq<byte>, page: seq<byte>, at: int, addr: int, n: int): seq<byte>
    requires |page| == PAGE && 0 <= addr && 0 <= n && addr + n <= |flash|
  {
    var offset := addr % PAGE;
    if at != PageOf(addr) then flash[addr..addr + n]
    else if n <= PAGE - offset then page[offset..offset + n]
    else page[offset..] + flash[addr + PAGE - offset..addr + n]
  }

  lemma FetchParts(flash: seq<byte>, page: seq<byte>, at: int, addr: int, n: int, i: int)
    requires |page| == PAGE && 0 <= addr && 0 <= n && addr + n <= |flash|
    requires i == if at == PageOf(addr) then (if n <= PAGE - addr % PAGE then n else PAGE - addr % PAGE) else 0
    ensures 0 <= i <= n && addr % PAGE + i <= PAGE
    ensures Fetch(flash, page, at, addr, n) == page[addr % PAGE..addr % PAGE + i] + flash[addr + i..addr + n]
  {
  }

  lemma FetchUncached(flash: seq<byte>, page: seq<byte>, addr: int, n: int)
    requires |page| == PAGE && PAGE <= addr && 0 <= n && addr + n <= |flash|
    ensures Fetch(flash, page, 0, addr, n) == flash[addr..addr + n]
  {
  }

  /** The part of the range that lies in the cached page is the same in flash. */
  predicate Clean(flash: seq<byte>, page: seq<byte>, at: int, addr: int, n: int)
    requires |page| == PAGE && 0 <= at && at + PAGE <= |flash|
  {
    forall i :: at <= i < at + PAGE && addr <= i < addr + n ==> page[i - at] == flash[i]
  }

  /**
    A read returns the logical contents exactly when it starts in the cached page, or the cached page
    has no change within the range that is not yet in flash.
   */
  lemma FetchIsViewIff(flash: seq<byte>, page: seq<byte>, at: int, addr: int, n: int)
    requires |page| == PAGE && PAGE <= addr && 0 <= n && addr + n <= |flash| && PageAt(at, |flash|)
    ensures Fetch(flash, page, at, addr, n) == Patch(flash, at, page)[addr..addr + n] <==>
            (at == PageOf(addr) || Clean(flash, page, at, addr, n))
  {
    var view := Patch(flash, at, page);
    var got := Fetch(flash, page, at, addr, n);
    if at == PageOf(addr) {
      assert got == view[addr..addr + n];
    } else if Clean(flash, page, at, addr, n) {
      assert got == view[addr..addr + n];
    } else {
      var i :| at <= i < at + PAGE && addr <= i < addr + n && page[i - at] != flash[i];
      assert got[i - addr] != view[addr..addr + n][i - addr];
    }
  }

  predicate FetchIsView(flash: seq<byte>, page: seq<byte>, at: int, addr: int, n: int)
    requires |page| == PAGE && 0 <= addr && 0 <= n && addr + n <= |flash| && PageAt(at, |flash|)
  {
    Fetch(flash, page, at, addr, n) == Patch(flash, at, page)[addr..addr + n]
  }

  /** Whatever the page holds: a read is right exactly when it starts in the cached page or does not reach it. */
  lemma FetchAlwaysViewIff(flash: seq<byte>, at: int, addr: int, n: int)
    requires PAGE <= addr && 0 <= n && addr + n <= |flash| && PageAt(at, |flash|)
    ensures (forall page: seq<byte> | |page| == PAGE :: FetchIsView(flash, page, at, addr, n)) <==>
            at == PageOf(addr) || addr + n <= at || at + PAGE <= addr || n == 0
  {
    forall page: seq<byte> | |page| == PAGE
      ensures FetchIsView(flash, page, at, addr, n) <==> at == PageOf(addr) || Clean(flash, page, at, addr, n)
    {
      FetchIsViewIff(flash, page, at, addr, n);
    }
    if at != PageOf(addr) && at < addr + n && addr < at + PAGE && n != 0 {
      var i := if addr < at then at else addr;
      var page := Other(flash[at..at + PAGE]);
      assert page[i - at] != flash[i];
      assert !FetchIsView(flash, page, at, addr, n);
    }
  }

  /** A page that differs everywhere. */
  function Other(s: seq<byte>): (r: seq<byte>)
    ensures |r| == |s| && forall i :: 0 <= i < |s| ==> r[i] != s[i]
  {
    seq(|s|, i requires 0 <= i < |s| => if s[i] == 0 then 1 else 0)
  }

  /** The logical contents: the cached page where there is one, flash elsewhere. */
  function Contents(flash: seq<byte>, page: seq<byte>, at: int): seq<byte>
    requires |page| == PAGE && PageAt(at, |flash|)
  {
    if at != 0 then Patch(flash, at, page) else flash
  }

  /** What codemem_cache_flush leaves in flash. */
  function Flushed(flash: seq<byte>, page: seq<byte>, present: bool, at: int): seq<byte>
    requires |page| == PAGE && PageAt(at, |flash|)
  {
    if present then Patch(flash, at, page) else flash
  }

  predicate FlushKeeps(flash: seq<byte>, page: seq<byte>, present: bool, at: int)
    requires |page| == PAGE && PageAt(at, |flash|)
  {
    Flushed(flash, page, present, at) == Contents(flash, page, at)
  }

  /** Whatever the page holds: a flush keeps the contents exactly when there is no page or it was filled. */
  lemma FlushAlwaysKeepsIff(flash: seq<byte>, present: bool, at: int)
    requires PageAt(at, |flash|) && (!present ==> at == 0)
    ensures (forall page: seq<byte> | |page| == PAGE :: FlushKeeps(flash, page, present, at)) <==> !present || at != 0
  {
    if present && at == 0 {
      var page := Other(flash[..PAGE]);
      assert Patch(flash, 0, page)[0] != flash[0];
      assert !FlushKeeps(flash, page, present, at);
    }
  }

  /** The flush of a page that was allocated and never filled overwrites the first page of flash. */
  method EmptyFlush() returns (before: byte, after: byte)
    ensures before == 0 && after == 7
  {
    var c := new FlashCache(512);
    c.flash[0], c.page[0] := 0, 7;
    var _ := c.CacheAlloc(true);
    before := c.flash[0];
    c.Flush();
    after := c.flash[0];
  }

  /** A range that does not reach the cached page is clean. */
  lemma ApartIsClean(flash: seq<byte>, page: seq<byte>, at: int, addr: int, n: int)
    requires |page| == PAGE && 0 <= at && at + PAGE <= |flash|
    requires addr + n <= at || at + PAGE <= addr
    ensures Clean(flash, page, at, addr, n)
  {
  }

  /** A read that runs from an uncached page into the cached one misses what was written there. */
  lemma StaleRead()
    ensures var flash: seq<byte> := seq(1024, _ => 0);
            var page: seq<byte> := seq(PAGE, _ => 7);
            && Patch(flash, 512, page)[511..513] == [0, 7]
            && Fetch(flash, page, 512, 511, 2) == [0, 0]
  {
  }

  /** The range lies in one page, or starts with one. */
  predicate Fits(addr: int, n: int) { addr % PAGE + n <= PAGE || addr % PAGE == 0 }

  lemma FitsOnePage(addr: int, n: int)
    requires Fits(addr, n)
    ensures n <= PAGE ==> addr % PAGE + n <= PAGE
    ensures n > PAGE && addr >= 0 ==> addr % PAGE == 0 && Fits(addr + PAGE, n - PAGE)
  {
  }

  lemma PageEnd(addr: int)
    ensures (addr + (PAGE - addr % PAGE)) % PAGE == 0
  {
  }

  class FlashCache {
    const flash: array<byte>
    /** flash_cache_page, and whether it is allocated. */
    const page: array<byte>
    var present: bool
    /** flash_cache_addr; zero stands for an empty cache. */
    var at: int

    ghost predicate Valid()
      reads this, flash, page
    {
      && flash != page && page.Length == PAGE && flash.Length % PAGE == 0 && PageAt(at, flash.Length)
      && (!present ==> at == 0)
    }

    ghost function View(): (v: seq<byte>)
      requires Valid()
      reads this, flash, page
      ensures |v| == flash.Length
    {
      Contents(flash[..], page[..], at)
    }

    constructor (size: nat)
      requires size % PAGE == 0 && size > 0
      ensures Valid() && flash.Length == size && !present && fresh(flash) && fresh(page)
    {
      flash := new byte[size];
      page := new byte[PAGE];
      present, at := false, 0;
    }

    /** codemem_cache_alloc; mem: ker_malloc succeeds. */
    method CacheAlloc(mem: bool) returns (ok: bool)
      requires Valid()
      modifies this`present, this`at
      ensures Valid() && ok == present == (old(present) || mem) && View() == old(View()) && at == old(at)
    {
      if !present {
        if !mem {
          return false;
        }
        at := 0;
        present := true;
      }
      return true;
    }

    /** flash_erase and flash_write of the cached page. */
    method WriteBack()
      requires Valid()
      modifies flash
      ensures flash[..] == Patch(old(flash[..]), at, page[..])
    {
      var i := 0;
      while i < PAGE
        invariant 0 <= i <= PAGE
        invariant flash[..] == Patch(old(flash[..]), at, page[..i])
      {
        flash[at + i] := page[i];
        i := i + 1;
      }
      assert page[..i] == page[..];
    }

    /** flash_read of a whole page into the cache. */
    method Load(start: int)
      requires Valid() && PageAt(start, flash.Length)
      modifies page
      ensures page[..] == flash[start..start + PAGE]
    {
      var i := 0;
      while i < PAGE
        invariant 0 <= i <= PAGE
        invariant page[..i] == flash[start..start + i]
      {
        page[i] := flash[start + i];
        i := i + 1;
      }
    }

    /** The eviction of codemem_cache_write: another page is cached, the contents do not change. */
    method Switch(start: int)
      requires Valid() && present && PageAt(start, flash.Length) && start != 0
      modifies this`at, flash, page
      ensures Valid() && at == start && View() == old(View())
    {
      if at != start {
        if at != 0 {
          WriteBack();
        }
        assert flash[..] == old(View());
        Load(start);
        at := start;
        assert View() == flash[..];
      }
    }

    /** The copying loop of codemem_cache_write. */
    method Store(first: int, buf: seq<byte>)
      requires page.Length == PAGE && 0 <= first && first + |buf| <= PAGE
      modifies page
      ensures page[..] == Patch(old(page[..]), first, buf)
    {
      ghost var p0 := page[..];
      var i, offset := 0, first;
      while i < |buf|
        invariant 0 <= i <= |buf| && offset == first + i
        invariant page[..] == Patch(p0, first, buf[..i])
      {
        page[offset] := buf[i];
        i, offset := i + 1, offset + 1;
      }
      assert buf[..i] == buf;
    }

    /** codemem_cache_write, within one page. */
    method CacheWrite(addr: int, buf: seq<byte>)
      requires Valid() && present && PAGE <= addr && buf != [] && addr % PAGE + |buf| <= PAGE
      requires addr + |buf| <= flash.Length
      modifies this`at, flash, page
      ensures Valid() && View() == Patch(old(View()), addr, buf)
    {
      PageOfIsPage(addr, |buf|, flash.Length);
      var start, first := PageOf(addr), addr % PAGE;
      assert first == addr - start && start != 0;
      hide PageOf, PageAt, Patch;
      Switch(start);
      PatchInPage(flash[..], page[..], at, addr, buf);
      Store(first, buf);
    }

    /** ker_codemem_direct_write: any number of bytes at any address above the first page. */
    method DirectWrite(addr: int, buf: seq<byte>, mem: bool) returns (ok: bool)
      requires Valid() && PAGE <= addr && addr + |buf| <= flash.Length
      modifies this`present, this`at, flash, page
      ensures Valid() && ok == (old(present) || mem)
      ensures View() == if ok then Patch(old(View()), addr, buf) else old(View())
    {
      ok := CacheAlloc(mem);
      if !ok {
        return;
      }
      var written := 0;
      var remaining := PAGE - addr % PAGE;
      ghost var v0 := View();
      assert buf[..0] == [] && Patch(v0, addr, []) == v0;
      if remaining < |buf| {
        CacheWrite(addr, buf[..remaining]);
        written := remaining;
        PageEnd(addr);
      }
      WriteRest(addr, buf, written, v0);
    }

    /** The loop of ker_codemem_direct_write: the rest is written page by page. */
    method WriteRest(addr: int, buf: seq<byte>, start: int, ghost v0: seq<byte>)
      requires Valid() && present && PAGE <= addr && 0 <= start <= |buf| && addr + |buf| <= flash.Length == |v0|
      requires Fits(addr + start, |buf| - start) && View() == Patch(v0, addr, buf[..start])
      modifies this`at, flash, page
      ensures Valid() && View() == Patch(v0, addr, buf)
    {
      hide Patch, Fits, FlashCache.View, PageAt;
      var written := start;
      while |buf| - written > PAGE
        invariant 0 <= written <= |buf| && Valid() && Fits(addr + written, |buf| - written)
        invariant View() == Patch(v0, addr, buf[..written])
      {
        FitsOnePage(addr + written, |buf| - written);
        CacheWrite(addr + written, buf[written..written + PAGE]);
        Piece(v0, addr, buf, written, written + PAGE);
        written := written + PAGE;
      }
      if |buf| - written != 0 {
        FitsOnePage(addr + written, |buf| - written);
        CacheWrite(addr + written, buf[written..]);
        Piece(v0, addr, buf, written, |buf|);
        assert buf[written..] == buf[written..|buf|];
      }
      assert buf[..|buf|] == buf;
    }

    /** codemem_cache_read. */
    method CacheRead(addr: int, n: int) returns (buf: seq<byte>)
      requires Valid() && PAGE <= addr && 0 <= n && addr + n <= flash.Length
      ensures buf == Fetch(flash[..], page[..], at, addr, n)
      ensures buf == View()[addr..addr + n] <==>
              at == 0 || at == PageOf(addr) || Clean(flash[..], page[..], at, addr, n)
    {
      var start, first := PageOf(addr), addr % PAGE;
      hide PageOf, Fetch, Patch, Clean, PageAt;
      var i, offset, left := 0, first, n;
      buf := [];
      if at == start {
        var tmp := PAGE - offset;
        while i < tmp && left != 0
          invariant 0 <= i <= tmp && 0 <= left && i + left == n && offset == first + i
          invariant buf == page[first..offset]
        {
          buf := buf + [page[offset]];
          i, offset, left := i + 1, offset + 1, left - 1;
        }
      }
      FetchParts(flash[..], page[..], at, addr, n, i);
      buf := buf + flash[..][addr + i..addr + n];
      FetchIsViewIff(flash[..], page[..], at, addr, n);
      if at == 0 {
        FetchUncached(flash[..], page[..], addr, n);
      }
    }

    /** codemem_cache_flush. */
    method Flush()
      requires Valid()
      modifies this`present, this`at, flash
      ensures Valid() && !present && flash[..] == Flushed(old(flash[..]), page[..], old(present), old(at))
      ensures View()[PAGE..] == old(View())[PAGE..]
      ensures View() == old(View()) <==> !old(present) || old(at) != 0 || page[..] == old(flash[..PAGE])
    {
      if present {
        WriteBack();
        present, at := false, 0;
      }
    }
  }

  lemma Piece(v: seq<byte>, addr: int, buf: seq<byte>, i: int, j: int)
    requires 0 <= addr && addr + |buf| <= |v| && 0 <= i <= j <= |buf|
    ensures Patch(Patch(v, addr, buf[..i]), addr + i, buf[i..j]) == Patch(v, addr, buf[..j])
  {
  }
}
