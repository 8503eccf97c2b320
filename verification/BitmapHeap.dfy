/**
  The allocator of Kernel/memory_manager/mem_bitmap.c as code: the global `heap_struct`
  is an object whose page map is scanned and overwritten in place. Every method is proved
  equal to the functions of `BitmapMap`.
 */
module BitmapHeap {
  import opened Wrappers
  import opened BitmapMap

  const MAX_MEM: nat := 408944640

  /** The rounding of `init_mm`: pages in the region, and pages for the map itself. */
  function RegionPages(amount: nat): nat {
    PagesFor(amount)
  }

  function MapPages(amount: nat): nat {
    PagesFor(RegionPages(amount))
  }

  class Heap {
    /** The address of the map; its bytes are `pages`. */
    var base: nat
    var start: nat
    var size: nat
    var end: nat
    var pageQty: nat
    var pageSize: nat
    var lastFreedPage: nat
    var pages: array<Page>

    /** The map lies before the pages it describes, and the pages fill `start .. end`. */
    ghost predicate Valid()
      reads this, pages
    {
      && pageSize == PAGE_SIZE && pages.Length == pageQty
      && base + pageQty <= start
      && end == start + pageQty * PAGE_SIZE
      && Tiled(pages[..])
    }

    /** The static `heap_struct`, all zeros. */
    constructor ()
      ensures pageQty == 0 && pages.Length == 0
    {
      base, start, size, end, pageQty, pageSize, lastFreedPage := 0, 0, 0, 0, 0, 0, 0;
      pages := new Page[0];
    }

    /** `init_mm`: nothing is set up when the region and its map are too large. */
    method InitMm(base: nat, amount: nat) returns (ok: bool)
      modifies this
      ensures ok <==> (RegionPages(amount) + MapPages(amount)) * PAGE_SIZE <= MAX_MEM
      ensures ok ==>
                && Valid() && fresh(pages) && pageQty == RegionPages(amount) && lastFreedPage == 0
                && this.base == base && start == base + MapPages(amount) * PAGE_SIZE
                && size == (RegionPages(amount) + MapPages(amount)) * PAGE_SIZE
                && forall i | 0 <= i < pageQty :: pages[i] == Free
      ensures !ok ==> unchanged(this)
    {
      var totalMemNeeded := amount;
      var bitmapSize := amount / PAGE_SIZE;
      if amount % PAGE_SIZE != 0 {
        bitmapSize := bitmapSize + 1;
        totalMemNeeded := bitmapSize * PAGE_SIZE;
      }
      assert bitmapSize == RegionPages(amount) && totalMemNeeded == bitmapSize * PAGE_SIZE;
      var bitmapPages := bitmapSize / PAGE_SIZE;
      if bitmapSize % PAGE_SIZE != 0 {
        bitmapPages := bitmapPages + 1;
      }
      totalMemNeeded := totalMemNeeded + bitmapPages * PAGE_SIZE;
      MapFits(amount);
      assert bitmapPages == MapPages(amount);
      hide RegionPages, MapPages, PagesFor, IsLeastPages;
      if totalMemNeeded > MAX_MEM {
        return false;
      }
      if bitmapPages > bitmapSize {
        return false;
      }
      this.base := base;
      pageSize := PAGE_SIZE;
      pageQty := bitmapSize;
      start := base + bitmapPages * PAGE_SIZE;
      size := totalMemNeeded;
      end := base + totalMemNeeded;
      lastFreedPage := 0;
      pages := new Page[pageQty];
      InitializePages();
      ok := true;
    }

    /** `initialize_pages` */
    method InitializePages()
      requires pages.Length == pageQty
      modifies pages
      ensures forall i | 0 <= i < pageQty :: pages[i] == Free
    {
      for i := 0 to pageQty
        invariant forall j | 0 <= j < i :: pages[j] == Free
      {
        pages[i] := Free;
      }
    }

    /** `size_to_num_of_pages` */
    method SizeToNumOfPages(size: nat) returns (k: nat)
      requires pageSize == PAGE_SIZE
      ensures k == PagesFor(size) && IsLeastPages(k, size)
    {
      k := size / pageSize;
      if size % pageSize != 0 {
        k := k + 1;
      }
      PagesAreLeast(size, k);
    }

    /** `find_pages` */
    method FindFreePages(k: nat, startPage: nat) returns (p: Option<nat>)
      requires pages.Length == pageQty
      ensures p == FindPages(pages[..], k, startPage)
    {
      var found := 0;
      var i := startPage;
      while i < pageQty
        invariant startPage <= i && found <= i - startPage
        invariant FindPages(pages[..], k, startPage) == Scan(pages[..], k, i, found)
        decreases pageQty - i
      {
        if pages[i] == Free {
          found := found + 1;
          if found == k {
            return Some(i + 1 - k);
          }
        } else {
          found := 0;
        }
        i := i + 1;
      }
      p := None;
    }

    /** `malloc`: the address of the block, or nothing where the C code returns NULL. */
    method AllocateBlock(size: nat) returns (addr: Option<nat>)
      requires Valid()
      modifies pages
      ensures Valid()
      ensures var (w, p) := Malloc(old(pages[..]), size, lastFreedPage);
              && pages[..] == w
              && addr == if p.Some? then Some(start + p.value * PAGE_SIZE) else None
      ensures addr.Some? ==>
                && start <= addr.value && addr.value + PagesFor(size) * PAGE_SIZE <= end
                && IsLeastPages(PagesFor(size), size)
                && base + pageQty <= addr.value
    {
      hide Tiled, Live, FindPages;
      ghost var was := pages[..];
      MallocContract(was, size, lastFreedPage);
      PagesAreLeast(size, PagesFor(size));
      var k := SizeToNumOfPages(size);
      var p := FindFreePages(k, lastFreedPage);
      if p.None? {
        p := FindFreePages(k, 0);
      }
      if p.None? {
        return None;
      }
      var first := p.value;
      ChoiceFits(was, k, lastFreedPage);
      var i := first;
      while i < first + k
        invariant first <= i <= first + k
        invariant forall j | 0 <= j < pageQty ::
                    pages[j] == if first <= j < i then Mark(k, j - first) else was[j]
      {
        if i == first {
          if k == 1 {
            pages[i] := Single;
          } else {
            pages[i] := Start;
          }
        } else if i == first + k - 1 {
          pages[i] := End;
        } else {
          pages[i] := Allocated;
        }
        i := i + 1;
      }
      assert pages[..] == Write(was, first, k);
      Distribute(first, k);
      addr := Some(start + first * pageSize);
    }

    /** `get_page_index` */
    method GetPageIndex(mem: nat) returns (i: Option<nat>)
      requires pageSize == PAGE_SIZE
      ensures i == if start <= mem <= end then Some((mem - start) / PAGE_SIZE) else None
    {
      if mem > end || mem < start {
        return None;
      }
      i := Some((mem - start) / pageSize);
    }

    /**
      Which accepted addresses are on a page of the map: all but `end`, for which the C code goes on
      to read the byte after the map.
     */
    lemma OnPageIff(mem: nat)
      requires Valid() && start <= mem <= end
      ensures (mem - start) / PAGE_SIZE < pageQty <==> mem != end
    {
      PageIndexBounds(mem - start, pageQty);
    }

    /** `get_first_page_index`: nothing for an address out of range or on a free page. */
    method GetFirstPageIndex(mem: nat) returns (i: Option<nat>)
      requires Valid() && mem != end
      ensures !(start <= mem < end) ==> i == None
      ensures start <= mem < end ==>
                var page, m := (mem - start) / PAGE_SIZE, pages[..];
                && page < |m|
                && i == if m[page] == Free then None
                        else if m[page] == Single then Some(page)
                        else Some(StartOf(m, page))
    {
      hide Tiled, StartOf;
      var page := GetPageIndex(mem);
      if page.None? {
        return None;
      }
      OnPageIff(mem);
      var p := page.value;
      if pages[p] == Single {
        return Some(p);
      }
      if pages[p] == Start {
        StartIs(pages[..], p);
        return Some(p);
      }
      if pages[p] == End || pages[p] == Allocated {
        var first := WalkBack(p);
        return Some(first);
      }
      i := None;
    }

    /** The loop back to the START page. */
    method WalkBack(page: nat) returns (i: nat)
      requires Valid() && page < pageQty && Continues(pages[page])
      ensures i == StartOf(pages[..], page)
    {
      hide Tiled;
      FindStart(pages[..], page);
      i := page;
      while pages[i] != Start
        invariant StartOf(pages[..], page) <= i <= page && StartOf(pages[..], page) == StartOf(pages[..], i)
        decreases i
      {
        i := i - 1;
      }
    }

    /** `free` of any address but `end`. */
    method FreeBlock(mem: nat)
      requires Valid() && mem != end
      modifies pages
      ensures Valid()
      ensures pages[..] == if start <= mem < end then Release(old(pages[..]), (mem - start) / PAGE_SIZE)
                           else old(pages[..])
    {
      hide Tiled, Live, StartOf, EndOf, BlockAt, Release, Clear;
      ghost var was := pages[..];
      var page := GetPageIndex(mem);
      if page.None? {
        return;
      }
      OnPageIff(mem);
      ReleaseSmall(was, page.value);
      FreeContract(was, page.value);
      if pages[page.value] == Free {
        return;
      }
      if pages[page.value] == Single {
        pages[page.value] := Free;
        assert pages[..] == was[page.value := Free];
        return;
      }
      var i := GetFirstPageIndex(mem);
      BlockEnds(was, page.value);
      ReleaseInside(was, page.value);
      ClearFrom(i.value, EndOf(was, i.value));
    }

    /** The loop of `free` that clears a block from its first page to its end mark. */
    method ClearFrom(first: nat, ghost last: nat)
      requires pages.Length == pageQty && first <= last < pageQty
      requires pages[last] == End && forall j | first <= j < last :: pages[j] != End
      modifies pages
      ensures pages[..] == Clear(old(pages[..]), first, last + 1 - first)
    {
      var i := first;
      while pages[i] != End
        invariant first <= i <= last
        invariant forall j | 0 <= j < pageQty :: pages[j] == if first <= j < i then Free else old(pages[j])
        decreases last - i
      {
        pages[i] := Free;
        i := i + 1;
      }
      pages[i] := Free;
    }

    /** `calculate_free_pages` */
    method CalculateFreePages() returns (n: nat)
      requires pages.Length == pageQty
      ensures n == CountFree(pages[..], 0)
    {
      n := 0;
      var i := 0;
      while i < pageQty
        invariant 0 <= i <= pageQty && n + CountFree(pages[..], i) == CountFree(pages[..], 0)
      {
        if pages[i] == Free {
          n := n + 1;
        }
        i := i + 1;
      }
    }
  }

  /** An offset is on a page of the map iff it is below the end of the last one. */
  lemma PageIndexBounds(offset: nat, pageQty: nat)
    requires offset <= pageQty * PAGE_SIZE
    ensures offset / PAGE_SIZE < pageQty <==> offset != pageQty * PAGE_SIZE
  {
  }

  lemma StartIs(m: seq<Page>, i: nat)
    requires i < |m| && m[i] == Start
    ensures StartOf(m, i) == i
  {
  }

  lemma ReleaseSmall(m: seq<Page>, i: nat)
    requires i < |m|
    ensures m[i] == Free ==> Release(m, i) == m
    ensures m[i] == Single ==> Release(m, i) == m[i := Free]
  {
  }

  /** The region gets the least pages that hold it, and the map the least that hold a byte for each of those. */
  lemma MapFits(amount: nat)
    ensures IsLeastPages(RegionPages(amount), amount)
    ensures IsLeastPages(MapPages(amount), RegionPages(amount))
    ensures MapPages(amount) <= RegionPages(amount)
  {
    PagesAreLeast(amount, RegionPages(amount));
    PagesAreLeast(RegionPages(amount), MapPages(amount));
  }

  lemma Distribute(i: nat, k: nat)
    ensures (i + k) * PAGE_SIZE == i * PAGE_SIZE + k * PAGE_SIZE
  {
  }
}
