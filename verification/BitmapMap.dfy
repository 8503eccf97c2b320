/**
  The page map of Kernel/memory_manager/mem_bitmap.c. One byte per page of 32 bytes:
  a block of one page is SINGLE, a longer one is START ALLOCATED* END, anything else is FREE.
 */
module BitmapMap {
  import opened Wrappers
  import opened Allocator

  const PAGE_SIZE: nat := 32

  datatype Page = Free | Allocated | Start | End | Single

  /** The byte at offset `j` of a block of `n` pages. */
  function Mark(n: nat, j: nat): Page {
    if n == 1 then Single
    else if j == 0 then Start
    else if j == n - 1 then End
    else Allocated
  }

  /** Pages `i .. i + n` are written as one block. */
  ghost predicate IsBlock(m: seq<Page>, i: nat, n: nat) {
    1 <= n && i + n <= |m| && forall j | i <= j < i + n :: m[j] == Mark(n, j - i)
  }

  /** Pages `i .. i + n` are free. */
  ghost predicate IsFreeRun(m: seq<Page>, i: nat, n: nat) {
    i + n <= |m| && forall j | i <= j < i + n :: m[j] == Free
  }

  predicate Opens(p: Page) {
    p == Start || p == Allocated
  }

  predicate Continues(p: Page) {
    p == Allocated || p == End
  }

  /** Each byte fits its neighbours. `TilingIff` shows that this is what a tiling is. */
  ghost predicate Tiled(m: seq<Page>) {
    && (forall i {:trigger Opens(m[i])} | 0 <= i < |m| && Opens(m[i]) :: i + 1 < |m| && Continues(m[i + 1]))
    && (forall i {:trigger Continues(m[i])} | 0 <= i < |m| && Continues(m[i]) :: i > 0 && Opens(m[i - 1]))
  }

  /** The allocated blocks, in pages. */
  ghost function Live(m: seq<Page>): set<Block> {
    set i, n | 0 <= i < |m| && 1 <= n <= |m| && IsBlock(m, i, n) :: Block(i, n)
  }

  lemma LiveIs(m: seq<Page>, b: Block)
    ensures b in Live(m) <==> IsBlock(m, b.start, b.size)
  {
  }

  // ---- The steps ---------------------------------------------------------

  /** `size_to_num_of_pages` */
  function PagesFor(size: nat): nat {
    size / PAGE_SIZE + if size % PAGE_SIZE != 0 then 1 else 0
  }

  /** The scan of `find_pages` from page `i`, with `found` free pages just before it. */
  function Scan(m: seq<Page>, k: nat, i: nat, found: nat): Option<nat>
    requires found <= i
    decreases |m| - i
  {
    if i >= |m| then None
    else if m[i] == Free then
      if found + 1 == k then Some(i + 1 - k) else Scan(m, k, i + 1, found + 1)
    else Scan(m, k, i + 1, 0)
  }

  /** `find_pages` */
  function FindPages(m: seq<Page>, k: nat, from: nat): Option<nat> {
    Scan(m, k, from, 0)
  }

  /** The page `malloc` settles for: from the hint, else from the beginning. */
  function Choose(m: seq<Page>, k: nat, hint: nat): Option<nat> {
    var p := FindPages(m, k, hint);
    if p.Some? then p else FindPages(m, k, 0)
  }

  function Write(m: seq<Page>, p: nat, k: nat): seq<Page>
    requires p + k <= |m|
  {
    seq(|m|, j requires 0 <= j < |m| => if p <= j < p + k then Mark(k, j - p) else m[j])
  }

  function Clear(m: seq<Page>, p: nat, k: nat): seq<Page>
    requires p + k <= |m|
  {
    seq(|m|, j requires 0 <= j < |m| => if p <= j < p + k then Free else m[j])
  }

  /** `get_first_page_index` from a page inside a block. */
  function StartOf(m: seq<Page>, i: nat): (s: nat)
    requires i < |m|
    ensures s <= i
  {
    if i == 0 || m[i] == Start then i else StartOf(m, i - 1)
  }

  /** Where the clearing loop of `free` stops. */
  function EndOf(m: seq<Page>, i: nat): (e: nat)
    requires i < |m|
    ensures i <= e < |m|
    decreases |m| - i
  {
    if i + 1 == |m| || m[i] == End then i else EndOf(m, i + 1)
  }

  /** `free` of an address on page `i`. */
  function Release(m: seq<Page>, i: nat): seq<Page>
    requires i < |m|
  {
    if m[i] == Free then m
    else if m[i] == Single then m[i := Free]
    else
      var s := StartOf(m, i);
      Clear(m, s, EndOf(m, s) + 1 - s)
  }

  /** Pages for a request, and the page found for it. */
  function Malloc(m: seq<Page>, size: nat, hint: nat): (seq<Page>, Option<nat>) {
    var k := PagesFor(size);
    var p := Choose(m, k, hint);
    if p.None? then (m, None)
    else
      ChoiceFits(m, k, hint);
      (Write(m, p.value, k), p)
  }

  // ---- Search ------------------------------------------------------------

  ghost predicate IsLowestRun(m: seq<Page>, k: nat, from: nat, p: nat) {
    from <= p && IsFreeRun(m, p, k) && forall q: nat | from <= q < p :: !IsFreeRun(m, q, k)
  }

  /** The scan finds the lowest run of `k` free pages from where it started, or there is none. */
  lemma {:induction false} ScanIsExact(m: seq<Page>, k: nat, i: nat, found: nat, from: nat)
    requires k >= 1 && from <= i && found < k && found <= i - from
    requires i <= |m| ==> IsFreeRun(m, i - found, found)
    requires forall q: nat | from <= q < i - found :: !IsFreeRun(m, q, k)
    ensures match Scan(m, k, i, found)
            case Some(p) => IsLowestRun(m, k, from, p)
            case None => forall q: nat | from <= q :: !IsFreeRun(m, q, k)
    decreases |m| - i
  {
    if i < |m| {
      if m[i] == Free {
        if found + 1 == k {
          assert IsFreeRun(m, i + 1 - k, k);
        } else {
          ScanIsExact(m, k, i + 1, found + 1, from);
        }
      } else {
        forall q: nat | from <= q < i + 1 ensures !IsFreeRun(m, q, k) {
          assert q >= i - found ==> q <= i < q + k;
        }
        ScanIsExact(m, k, i + 1, 0, from);
      }
    } else {
      forall q: nat | from <= q ensures !IsFreeRun(m, q, k) {
      }
    }
  }

  lemma {:induction false} ScanOfNothing(m: seq<Page>, i: nat, found: nat)
    requires found <= i
    ensures Scan(m, 0, i, found) == None
    decreases |m| - i
  {
    if i < |m| {
      ScanOfNothing(m, i + 1, if m[i] == Free then found + 1 else 0);
    }
  }

  lemma ChoiceFits(m: seq<Page>, k: nat, hint: nat)
    ensures Choose(m, k, hint).Some? ==> k >= 1 && IsFreeRun(m, Choose(m, k, hint).value, k)
  {
    if k == 0 {
      ScanOfNothing(m, hint, 0);
      ScanOfNothing(m, 0, 0);
    } else {
      ScanIsExact(m, k, hint, 0, hint);
      ScanIsExact(m, k, 0, 0, 0);
    }
  }

  /**
    Sound and complete search: for at least one page and any hint, the choice fails iff no run
    of that many free pages exists anywhere; otherwise it is the lowest run from the hint,
    or the lowest of all when there is none from there. A request for no pages always fails.
   */
  lemma ChoiceIsExact(m: seq<Page>, k: nat, hint: nat)
    ensures k == 0 ==> Choose(m, k, hint) == None
    ensures k >= 1 ==> (Choose(m, k, hint) == None <==> forall q: nat :: !IsFreeRun(m, q, k))
    ensures k >= 1 && Choose(m, k, hint).Some? ==>
              var p := Choose(m, k, hint).value;
              if exists q: nat :: hint <= q && IsFreeRun(m, q, k) then IsLowestRun(m, k, hint, p)
              else IsLowestRun(m, k, 0, p)
  {
    if k == 0 {
      ScanOfNothing(m, hint, 0);
      ScanOfNothing(m, 0, 0);
    } else {
      ScanIsExact(m, k, hint, 0, hint);
      ScanIsExact(m, k, 0, 0, 0);
    }
  }

  // ---- Tiling ------------------------------------------------------------

  /** Two blocks that share a page are the same block. */
  lemma BlocksApart(m: seq<Page>, i: nat, n: nat, j: nat, l: nat)
    requires IsBlock(m, i, n) && IsBlock(m, j, l) && i <= j < i + n
    ensures i == j && n == l
  {
    assert m[j] == Mark(l, 0) == Mark(n, j - i);
    var z := if n < l then n else l;
    assert m[i + z - 1] == Mark(n, z - 1);
    assert m[i + z - 1] == Mark(l, z - 1);
  }

  /** The allocated blocks are pairwise disjoint and inside the map. */
  lemma LiveIsSafe(m: seq<Page>)
    ensures Safe(Live(m), 0, |m|)
  {
    forall a, b | a in Live(m) && b in Live(m) && a != b ensures Separate(a, b) {
      if a.start <= b.start < a.start + a.size {
        BlocksApart(m, a.start, a.size, b.start, b.size);
      } else if b.start <= a.start < b.start + b.size {
        BlocksApart(m, b.start, b.size, a.start, a.size);
      }
    }
  }

  /** From any page of a tiled map that is not free: the block around it. */
  lemma {:induction false} FindStart(m: seq<Page>, i: nat)
    requires Tiled(m) && i < |m| && (m[i] == Start || Continues(m[i]))
    ensures var s := StartOf(m, i);
            s <= i && m[s] == Start && (forall j | s < j < i :: m[j] == Allocated) && (s < i ==> Continues(m[i]))
  {
    if m[i] != Start {
      assert Opens(m[i - 1]);
      FindStart(m, i - 1);
    }
  }

  lemma {:induction false} FindEnd(m: seq<Page>, i: nat)
    requires Tiled(m) && i < |m| && (Opens(m[i]) || m[i] == End)
    ensures var e := EndOf(m, i);
            i <= e < |m| && m[e] == End && forall j | i < j < e :: m[j] == Allocated
    decreases |m| - i
  {
    if m[i] != End {
      assert Continues(m[i + 1]);
      FindEnd(m, i + 1);
    }
  }

  /** Inside a block of several pages: where it starts and ends. */
  lemma BlockEnds(m: seq<Page>, i: nat)
    requires Tiled(m) && i < |m| && (m[i] == Start || Continues(m[i]))
    ensures var s, e := StartOf(m, i), EndOf(m, StartOf(m, i));
            m[s] == Start && m[e] == End && forall j | s <= j < e :: m[j] != End
  {
    hide *;
    var s := StartOf(m, i);
    FindStart(m, i);
    FindEnd(m, s) by {
      assert Opens(m[s]) by {
        StartOpens();
      }
    }
    forall j | s <= j < EndOf(m, s) ensures m[j] != End {
      assert j == s || m[j] == Allocated;
    }
  }

  lemma StartOpens()
    ensures Opens(Start)
  {
  }

  /** What free makes of it. */
  lemma ReleaseInside(m: seq<Page>, i: nat)
    requires i < |m| && m[i] != Free && m[i] != Single
    ensures var s, e := StartOf(m, i), EndOf(m, StartOf(m, i)); Release(m, i) == Clear(m, s, e + 1 - s)
  {
    hide StartOf, EndOf, Clear;
  }

  /** The block that holds page `i`. */
  ghost function BlockAt(m: seq<Page>, i: nat): Block
    requires i < |m|
  {
    if m[i] == Single then Block(i, 1)
    else
      Block(StartOf(m, i), EndOf(m, StartOf(m, i)) + 1 - StartOf(m, i))
  }

  /** Every page that is not free lies in one block. */
  lemma PageHasBlock(m: seq<Page>, i: nat)
    requires Tiled(m) && i < |m| && m[i] != Free
    ensures var b := BlockAt(m, i); IsBlock(m, b.start, b.size) && b.start <= i < b.start + b.size
  {
    hide Tiled;
    if m[i] != Single {
      FindStart(m, i);
      var s := StartOf(m, i);
      FindEnd(m, s);
      var e := EndOf(m, s);
      assert i <= e;
      forall j | s <= j < e + 1 ensures m[j] == Mark(e + 1 - s, j - s) {
      }
    }
  }

  /** Two maps have the same block at a place where they have the same pages. */
  lemma SameBlock(m: seq<Page>, w: seq<Page>, i: nat, n: nat)
    requires IsBlock(m, i, n) && |w| == |m| && forall j | i <= j < i + n :: w[j] == m[j]
    ensures IsBlock(w, i, n)
  {
  }

  /** Two blocks that are not the same one share no page. */
  lemma OtherBlock(m: seq<Page>, p: nat, k: nat, i: nat, n: nat)
    requires IsBlock(m, p, k) && IsBlock(m, i, n) && !(i == p && n == k)
    ensures i + n <= p || p + k <= i
  {
    if p <= i < p + k {
      BlocksApart(m, p, k, i, n);
    } else if i <= p < i + n {
      BlocksApart(m, i, n, p, k);
    }
  }

  lemma BlockIsNotFree(m: seq<Page>, i: nat, n: nat)
    requires IsBlock(m, i, n)
    ensures forall j | i <= j < i + n :: m[j] != Free
  {
  }

  lemma WriteTiles(m: seq<Page>, p: nat, k: nat)
    requires Tiled(m) && k >= 1 && IsFreeRun(m, p, k)
    ensures Tiled(Write(m, p, k)) && IsBlock(Write(m, p, k), p, k)
  {
    FreeRunFits(m, p, k);
    var w := Write(m, p, k);
    hide Tiled, IsFreeRun, Write;
    WriteIsBlock(m, p, k);
    forall i: nat | i < |w| ensures FitsAt(w, i) {
      WriteFitsAt(m, p, k, i);
    }
    FitsTile(w);
  }

  /** The byte at page `i` fits its neighbours. */
  ghost predicate FitsAt(m: seq<Page>, i: nat)
    requires i < |m|
  {
    && (Opens(m[i]) ==> i + 1 < |m| && Continues(m[i + 1]))
    && (Continues(m[i]) ==> i > 0 && Opens(m[i - 1]))
  }

  lemma WriteFitsAt(m: seq<Page>, p: nat, k: nat, i: nat)
    requires Tiled(m) && k >= 1 && IsFreeRun(m, p, k) && i < |m|
    ensures |Write(m, p, k)| == |m| && FitsAt(Write(m, p, k), i)
  {
    hide Tiled, IsFreeRun;
    FreeRunFits(m, p, k);
    var w := Write(m, p, k);
    if p <= i < p + k {
      MarkFits(k, i - p);
      assert w[i] == Mark(k, i - p);
      assert i + 1 < p + k ==> w[i + 1] == Mark(k, i + 1 - p);
      assert i > p ==> w[i - 1] == Mark(k, i - 1 - p);
    } else {
      OutsideFits(m, p, k, i);
    }
  }

  lemma WriteIsBlock(m: seq<Page>, p: nat, k: nat)
    requires k >= 1 && p + k <= |m|
    ensures |Write(m, p, k)| == |m| && IsBlock(Write(m, p, k), p, k)
  {
  }

  lemma FreeRunFits(m: seq<Page>, p: nat, k: nat)
    requires IsFreeRun(m, p, k)
    ensures p + k <= |m|
  {
  }

  lemma FitsTile(m: seq<Page>)
    requires forall i: nat | i < |m| :: FitsAt(m, i)
    ensures Tiled(m)
  {
    assert forall i: nat | i < |m| && Opens(m[i]) :: FitsAt(m, i);
    assert forall i: nat | i < |m| && Continues(m[i]) :: FitsAt(m, i);
  }

  lemma MarkFits(k: nat, j: nat)
    requires j < k
    ensures Opens(Mark(k, j)) ==> j + 1 < k && Continues(Mark(k, j + 1))
    ensures Continues(Mark(k, j)) ==> j > 0 && Opens(Mark(k, j - 1))
  {
  }

  /** A page beside a free run does not depend on what is written over the run. */
  lemma OutsideFits(m: seq<Page>, p: nat, k: nat, i: nat)
    requires Tiled(m) && k >= 1 && IsFreeRun(m, p, k) && i < |m| && !(p <= i < p + k)
    ensures Opens(m[i]) ==> i + 1 < |m| && Continues(m[i + 1]) && !(p <= i + 1 < p + k)
    ensures Continues(m[i]) ==> i > 0 && Opens(m[i - 1]) && !(p <= i - 1 < p + k)
  {
    assert m[p] == Free && m[p + k - 1] == Free;
  }

  /** malloc adds exactly one block to the tiling. */
  lemma WriteAdds(m: seq<Page>, p: nat, k: nat)
    requires Tiled(m) && k >= 1 && IsFreeRun(m, p, k)
    ensures var w := Write(m, p, k);
            && Tiled(w) && IsBlock(w, p, k)
            && forall i: nat, n: nat :: IsBlock(w, i, n) <==> IsBlock(m, i, n) || (i == p && n == k)
  {
    var w := Write(m, p, k);
    WriteTiles(m, p, k);
    hide Tiled;
    forall i: nat, n: nat ensures IsBlock(w, i, n) <==> IsBlock(m, i, n) || (i == p && n == k) {
      if IsBlock(w, i, n) && !(i == p && n == k) {
        OtherBlock(w, p, k, i, n);
        SameBlock(w, m, i, n);
      }
      if IsBlock(m, i, n) {
        BlockIsNotFree(m, i, n);
        SameBlock(m, w, i, n);
      }
    }
  }

  lemma ClearTiles(m: seq<Page>, p: nat, k: nat)
    requires Tiled(m) && IsBlock(m, p, k)
    ensures Tiled(Clear(m, p, k)) && IsFreeRun(Clear(m, p, k), p, k)
  {
    var c := Clear(m, p, k);
    assert m[p + k - 1] == Mark(k, k - 1) && m[p] == Mark(k, 0);
    forall i | 0 <= i < |c| && Opens(c[i]) ensures i + 1 < |c| && Continues(c[i + 1]) {
      assert Opens(m[i]) && i + 1 != p;
    }
    forall i | 0 <= i < |c| && Continues(c[i]) ensures i > 0 && Opens(c[i - 1]) {
      assert Continues(m[i]) && i != p + k;
    }
  }

  /** free removes exactly one block from the tiling. */
  lemma ClearRemoves(m: seq<Page>, p: nat, k: nat)
    requires Tiled(m) && IsBlock(m, p, k)
    ensures var c := Clear(m, p, k);
            && Tiled(c) && IsFreeRun(c, p, k)
            && forall i: nat, n: nat :: IsBlock(c, i, n) <==> IsBlock(m, i, n) && !(i == p && n == k)
  {
    var c := Clear(m, p, k);
    ClearTiles(m, p, k);
    hide Tiled;
    forall i: nat, n: nat ensures IsBlock(c, i, n) <==> IsBlock(m, i, n) && !(i == p && n == k) {
      if IsBlock(c, i, n) {
        BlockIsNotFree(c, i, n);
        SameBlock(c, m, i, n);
        assert c[p] == Free;
      }
      if IsBlock(m, i, n) && !(i == p && n == k) {
        OtherBlock(m, p, k, i, n);
        SameBlock(m, c, i, n);
      }
    }
  }

  // ---- The contracts -----------------------------------------------------

  /** `k` pages hold `size` bytes, and no smaller number of pages does. */
  ghost predicate IsLeastPages(k: nat, size: nat) {
    k * PAGE_SIZE >= size && (k > 0 ==> (k - 1) * PAGE_SIZE < size)
  }

  /** The rounding of a size to pages is the only number of pages that is exact. */
  lemma PagesAreLeast(size: nat, k: nat)
    ensures IsLeastPages(k, size) <==> k == PagesFor(size)
    ensures PagesFor(size) == 0 <==> size == 0
  {
  }

  /** Some `k` pages in a row that are exact for `size` bytes are free. */
  ghost predicate HasRoom(m: seq<Page>, size: nat) {
    exists k: nat, q: nat :: IsLeastPages(k, size) && IsFreeRun(m, q, k)
  }

  /**
    malloc keeps the tiling. It fails, changing nothing, iff nothing was asked for or no run of
    free pages just long enough exists; otherwise such a run becomes one new block.
   */
  lemma MallocContract(m: seq<Page>, size: nat, hint: nat)
    requires Tiled(m)
    ensures var (w, p) := Malloc(m, size, hint);
            && Tiled(w) && |w| == |m|
            && (p == None <==> size == 0 || !HasRoom(m, size))
            && (p == None ==> w == m)
            && (p.Some? ==>
                  exists k: nat ::
                    && IsLeastPages(k, size)
                    && IsFreeRun(m, p.value, k)
                    && Allocates(Live(m), Live(w), k, Block(p.value, k)))
  {
    var (w, p) := Malloc(m, size, hint);
    var k := PagesFor(size);
    PagesAreLeast(size, k);
    ChoiceIsExact(m, k, hint);
    ChoiceFits(m, k, hint);
    RoomIs(m, size);
    if p.Some? {
      WriteAdds(m, p.value, k);
      LiveAfter(m, w, Block(p.value, k));
      assert m[p.value] == Free;
    }
  }

  lemma RoomIs(m: seq<Page>, size: nat)
    ensures HasRoom(m, size) <==> exists q: nat :: IsFreeRun(m, q, PagesFor(size))
  {
    hide IsFreeRun;
    PagesAreLeast(size, PagesFor(size));
    if HasRoom(m, size) {
      var k: nat, q: nat :| IsLeastPages(k, size) && IsFreeRun(m, q, k);
      PagesAreLeast(size, k);
    }
  }

  lemma LiveAfter(m: seq<Page>, w: seq<Page>, b: Block)
    requires |w| == |m|
    requires forall i: nat, n: nat :: IsBlock(w, i, n) <==> IsBlock(m, i, n) || (i == b.start && n == b.size)
    requires IsBlock(w, b.start, b.size)
    ensures Live(w) == Live(m) + {b}
  {
  }

  /** What `free` does, in terms of the block around the page. */
  lemma ReleaseIsClear(m: seq<Page>, i: nat)
    requires Tiled(m) && i < |m| && m[i] != Free
    ensures var b := BlockAt(m, i);
            b.start + b.size <= |m| && Release(m, i) == Clear(m, b.start, b.size)
  {
    PageHasBlock(m, i);
    if m[i] == Single {
      assert m[i := Free] == Clear(m, i, 1);
    }
  }

  /**
    free of any address inside an allocated block frees exactly that block's pages and keeps
    every other block; on a free page it changes nothing.
   */
  lemma FreeContract(m: seq<Page>, i: nat)
    requires Tiled(m) && i < |m|
    ensures Tiled(Release(m, i)) && |Release(m, i)| == |m|
    ensures m[i] == Free ==> Release(m, i) == m
    ensures m[i] != Free ==>
              var b, c := BlockAt(m, i), Release(m, i);
              && b.Covers(i) && Releases(Live(m), Live(c), b)
              && forall j | 0 <= j < |m| :: c[j] == if b.Covers(j) then Free else m[j]
  {
    if m[i] != Free {
      var b, c := BlockAt(m, i), Release(m, i);
      ReleaseIsClear(m, i);
      PageHasBlock(m, i);
      ClearRemoves(m, b.start, b.size);
      forall x ensures x in Live(c) <==> x in Live(m) - {b} {
        LiveIs(c, x);
        LiveIs(m, x);
      }
    }
  }

  /** Freeing any address of the block malloc just made restores the map exactly. */
  lemma ReleaseUndoesMalloc(m: seq<Page>, size: nat, hint: nat, i: nat)
    requires Tiled(m)
    requires var p := Malloc(m, size, hint).1; p.Some? && p.value <= i < p.value + PagesFor(size)
    ensures i < |m| && Release(Malloc(m, size, hint).0, i) == m
  {
    var (w, p) := Malloc(m, size, hint);
    var k := PagesFor(size);
    ChoiceFits(m, k, hint);
    WriteAdds(m, p.value, k);
    assert w[i] == Mark(k, i - p.value);
    PageHasBlock(w, i);
    var b := BlockAt(w, i);
    if p.value <= b.start {
      BlocksApart(w, p.value, k, b.start, b.size);
    } else {
      BlocksApart(w, b.start, b.size, p.value, k);
    }
    ReleaseIsClear(w, i);
  }

  // ---- The map as a concatenation ----------------------------------------

  /** From page `i` on the map is a concatenation of free pages and whole blocks. */
  ghost predicate IsConcatenation(m: seq<Page>, i: nat)
    decreases |m| - i
  {
    || i == |m|
    || (i < |m| && m[i] == Free && IsConcatenation(m, i + 1))
    || exists n: nat :: IsBlock(m, i, n) && i + n > i && IsConcatenation(m, i + n)
  }

  /** A page where a block may begin. */
  predicate IsBoundary(m: seq<Page>, i: nat) {
    i == |m| || (i < |m| && !Continues(m[i]))
  }

  lemma {:induction false} TiledConcatenates(m: seq<Page>, i: nat)
    requires Tiled(m) && IsBoundary(m, i)
    ensures IsConcatenation(m, i)
    decreases |m| - i
  {
    if i < |m| {
      if m[i] == Free {
        NextBoundary(m, i, 1);
        TiledConcatenates(m, i + 1);
      } else {
        var n := LengthAt(m, i);
        BlockAtBoundary(m, i);
        NextBoundary(m, i, n);
        TiledConcatenates(m, i + n);
      }
    }
  }

  /** The length of the block that begins at page `i`. */
  function LengthAt(m: seq<Page>, i: nat): (n: nat)
    requires i < |m|
    ensures 1 <= n <= |m| - i
  {
    if m[i] == Single then 1 else EndOf(m, i) + 1 - i
  }

  lemma BlockAtBoundary(m: seq<Page>, i: nat)
    requires Tiled(m) && i < |m| && m[i] != Free && !Continues(m[i])
    ensures IsBlock(m, i, LengthAt(m, i))
  {
    PageHasBlock(m, i);
  }

  /** After a free page or a whole block comes a boundary. */
  lemma NextBoundary(m: seq<Page>, i: nat, n: nat)
    requires Tiled(m) && i < |m|
    requires (m[i] == Free && n == 1) || IsBlock(m, i, n)
    ensures IsBoundary(m, i + n)
  {
  }

  lemma {:induction false} ConcatenationFits(m: seq<Page>, i: nat)
    requires IsConcatenation(m, i)
    ensures IsBoundary(m, i)
    ensures forall j | i <= j < |m| && Opens(m[j]) :: j + 1 < |m| && Continues(m[j + 1])
    ensures forall j | i <= j < |m| && Continues(m[j]) :: j > i && Opens(m[j - 1])
    decreases |m| - i
  {
    if i < |m| {
      if m[i] == Free && IsConcatenation(m, i + 1) {
        ConcatenationFits(m, i + 1);
      } else {
        var n: nat :| IsBlock(m, i, n) && i + n > i && IsConcatenation(m, i + n);
        ConcatenationFits(m, i + n);
        assert m[i] == Mark(n, 0);
        forall j | i <= j < i + n
          ensures Opens(m[j]) ==> j + 1 < |m| && Continues(m[j + 1])
          ensures Continues(m[j]) ==> j > i && Opens(m[j - 1])
        {
          assert m[j] == Mark(n, j - i);
          assert j + 1 < i + n ==> m[j + 1] == Mark(n, j + 1 - i);
          assert j > i ==> m[j - 1] == Mark(n, j - 1 - i);
        }
      }
    }
  }

  /** Bytes that fit their neighbours are the same thing as a concatenation of FREE, SINGLE and START ALLOCATED* END. */
  lemma TilingIff(m: seq<Page>)
    ensures Tiled(m) <==> IsConcatenation(m, 0)
  {
    if Tiled(m) {
      assert IsBoundary(m, 0);
      TiledConcatenates(m, 0);
    }
    if IsConcatenation(m, 0) {
      ConcatenationFits(m, 0);
    }
  }

  // ---- Conservation ------------------------------------------------------

  /** `calculate_free_pages`, from page `i` on. */
  function CountFree(m: seq<Page>, i: nat): nat
    decreases |m| - i
  {
    if i >= |m| then 0 else (if m[i] == Free then 1 else 0) + CountFree(m, i + 1)
  }

  /** The allocated blocks from page `i` on, in address order. */
  function Blocks(m: seq<Page>, i: nat): seq<Block>
    decreases |m| - i
  {
    if i >= |m| then []
    else if m[i] == Free then Blocks(m, i + 1)
    else [Block(i, LengthAt(m, i))] + Blocks(m, i + LengthAt(m, i))
  }

  function Lengths(bs: seq<Block>): nat {
    if bs == [] then 0 else bs[0].size + Lengths(bs[1..])
  }

  /** The list of blocks has every live block once. */
  lemma {:induction false} BlocksAreLive(m: seq<Page>, i: nat)
    requires Tiled(m) && IsBoundary(m, i)
    ensures forall b :: b in Blocks(m, i) <==> IsBlock(m, b.start, b.size) && b.start >= i
    ensures forall x, y | 0 <= x < y < |Blocks(m, i)| :: Blocks(m, i)[x] != Blocks(m, i)[y]
    decreases |m| - i
  {
    hide Tiled;
    if i < |m| {
      if m[i] == Free {
        NextBoundary(m, i, 1);
        BlocksAreLive(m, i + 1);
        forall b: Block | IsBlock(m, b.start, b.size) ensures b.start != i {
          assert m[b.start] == Mark(b.size, 0);
        }
      } else {
        var n := LengthAt(m, i);
        BlockAtBoundary(m, i);
        NextBoundary(m, i, n);
        BlocksAreLive(m, i + n);
        forall b: Block | IsBlock(m, b.start, b.size) && i <= b.start < i + n ensures b == Block(i, n) {
          BlocksApart(m, i, n, b.start, b.size);
        }
      }
    }
  }

  lemma {:induction false} NoFreeInBlock(m: seq<Page>, i: nat, e: nat)
    requires i <= e <= |m| && forall j | i <= j < e :: m[j] != Free
    ensures CountFree(m, i) == CountFree(m, e)
    decreases e - i
  {
    if i < e {
      NoFreeInBlock(m, i + 1, e);
    }
  }

  /** Free pages plus the lengths of the allocated blocks are all the pages. */
  lemma {:induction false} PagesAreConserved(m: seq<Page>, i: nat)
    requires Tiled(m) && IsBoundary(m, i)
    ensures CountFree(m, i) + Lengths(Blocks(m, i)) == |m| - i
    decreases |m| - i
  {
    hide Tiled;
    if i < |m| {
      if m[i] == Free {
        NextBoundary(m, i, 1);
        PagesAreConserved(m, i + 1);
      } else {
        var n := LengthAt(m, i);
        BlockAtBoundary(m, i);
        NextBoundary(m, i, n);
        PagesAreConserved(m, i + n);
        NoFreeInBlock(m, i, i + n);
      }
    }
  }

  // ---- Runs --------------------------------------------------------------

  datatype Call = MallocCall(size: nat, hint: nat) | FreeCall(page: nat)

  function Step(m: seq<Page>, c: Call): seq<Page> {
    match c
    case MallocCall(size, hint) => Malloc(m, size, hint).0
    case FreeCall(i) => if i < |m| then Release(m, i) else m
  }

  function Run(m: seq<Page>, calls: seq<Call>): seq<Page>
    decreases |calls|
  {
    if calls == [] then m else Run(Step(m, calls[0]), calls[1..])
  }

  /** Every run keeps the tiling, the disjointness of the blocks and the page count. */
  lemma {:induction false} RunsAreTiled(m: seq<Page>, calls: seq<Call>)
    requires Tiled(m)
    ensures var r := Run(m, calls);
            && |r| == |m| && IsConcatenation(r, 0)
            && Safe(Live(r), 0, |m|)
            && CountFree(r, 0) + Lengths(Blocks(r, 0)) == |m|
    decreases |calls|
  {
    if calls == [] {
      TilingIff(m);
      ConcatenationFits(m, 0);
      LiveIsSafe(m);
      PagesAreConserved(m, 0);
    } else {
      match calls[0] {
        case MallocCall(size, hint) => MallocContract(m, size, hint);
        case FreeCall(i) => if i < |m| { FreeContract(m, i); }
      }
      RunsAreTiled(Step(m, calls[0]), calls[1..]);
    }
  }
}
