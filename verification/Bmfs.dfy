/**
  File creation and deletion in Bootloader/BMFS/bmfs.c: a directory of 64 entries whose files
  occupy contiguous runs of blocks, and a search for the first gap that holds a new one.

  `qsort` is library code: whatever it returns is a parameter, constrained by its contract.
 */
module Bmfs {
  import opened Wrappers
  import opened Words

  const ENTRIES: nat := 64
  /** The smallest disk `initialize` makes, in MiB. */
  const MINIMUM_DISK_SIZE: nat := 6

  /** A directory record, told apart by the first byte of its name: 0x00, 0x01 or a name. */
  datatype Entry =
    | EndMarker
    | Deleted(start: nat, blocks: nat)
    | Used(name: string, start: nat, blocks: nat)

  /** Unsigned 64-bit subtraction. */
  function Sub64(a: nat, b: nat): nat {
    (a - b) % TWO_TO_THE_64
  }

  /** An unsigned 64-bit value returned as a C `int`. */
  function ToInt(x: nat): int {
    var low := x % TWO_TO_THE_32;
    if low < 0x8000_0000 then low else low - TWO_TO_THE_32
  }

  /** `StartingBlockCmp` */
  function StartingBlockCmp(a: Entry, b: Entry): int
    requires !a.EndMarker? && !b.EndMarker?
  {
    if a.Deleted? then 1
    else if b.Deleted? then -1
    else ToInt(Sub64(a.start, b.start))
  }

  /**
    What `qsort(used)` is asked for. Of two deleted entries the comparison puts each behind the
    other, so their order among themselves is left open.
   */
  ghost predicate IsQsort(used: seq<Entry>, sorted: seq<Entry>) {
    && multiset(used) == multiset(sorted)
    && (forall i | 0 <= i < |sorted| :: !sorted[i].EndMarker?)
    && forall i, j | 0 <= i < j < |sorted| ::
         (sorted[i].Deleted? && sorted[j].Deleted?) || StartingBlockCmp(sorted[i], sorted[j]) <= 0
  }

  // ---- The steps ---------------------------------------------------------

  /** The first end marker, or the length. */
  function EndOf(d: seq<Entry>): (n: nat)
    ensures n <= |d| && (n < |d| ==> d[n].EndMarker?)
    ensures forall i | 0 <= i < n :: !d[i].EndMarker?
  {
    if d == [] || d[0].EndMarker? then 0 else 1 + EndOf(d[1..])
  }

  /** `num_used_entries` stays 0 unless an end marker is met. */
  function NumUsed(d: seq<Entry>): (n: nat)
    ensures n <= |d| && forall i | 0 <= i < n :: !d[i].EndMarker?
  {
    if EndOf(d) < |d| then EndOf(d) else 0
  }

  /** `first_free_entry`: the first deleted entry or the end marker, whichever comes first. */
  function FirstFree(d: seq<Entry>): (f: Option<nat>)
    ensures f.Some? ==> f.value < |d| && !d[f.value].Used? && forall i | 0 <= i < f.value :: d[i].Used?
    ensures f.None? ==> forall i | 0 <= i < |d| :: d[i].Used?
  {
    if d == [] then None
    else if !d[0].Used? then Some(0)
    else match FirstFree(d[1..]) case Some(i) => Some(i + 1) case None => None
  }

  /** The entry that `findfile` finds. */
  function SlotOf(d: seq<Entry>, name: string): (slot: Option<nat>)
    ensures slot.Some? ==> slot.value < EndOf(d) && d[slot.value].Used? && d[slot.value].name == name
    ensures slot.Some? ==> forall i | 0 <= i < slot.value && d[i].Used? :: d[i].name != name
    ensures slot.None? ==> forall i | 0 <= i < EndOf(d) && d[i].Used? :: d[i].name != name
  {
    if d == [] || d[0].EndMarker? then None
    else if d[0].Used? && d[0].name == name then Some(0)
    else match SlotOf(d[1..], name) case Some(i) => Some(i + 1) case None => None
  }

  /** The blocks for a size in MiB; an odd size is rounded up, in 64 bits. */
  function BlocksFor(maxsize: nat): nat {
    (if maxsize % 2 != 0 then (maxsize + 1) % TWO_TO_THE_64 else maxsize) / 2
  }

  /** The least number of 2 MiB blocks that hold the size; the largest 64-bit size asks for none, as 0 does. */
  lemma BlocksAreLeast(maxsize: nat, b: nat)
    requires maxsize < TWO_TO_THE_64
    ensures BlocksFor(maxsize) == 0 <==> maxsize == 0 || maxsize == TWO_TO_THE_64 - 1
    ensures 0 < maxsize < TWO_TO_THE_64 - 1 ==> (b == BlocksFor(maxsize) <==> 2 * (b - 1) < maxsize <= 2 * b)
  {
  }

  /** The gap search from entry `i` of the sorted copy: a start block, or 0. */
  function Search(q: seq<Entry>, i: nat, prevEnd: nat, wanted: nat, numBlocks: nat): nat
    requires i <= |q| && forall j | 0 <= j < |q| :: !q[j].EndMarker?
    decreases |q| - i
  {
    var thisStart := if i == |q| || q[i].Deleted? then Sub64(numBlocks, 1) else q[i].start;
    if Sub64(thisStart, prevEnd) >= wanted then prevEnd
    else if i < |q| then Search(q, i + 1, (q[i].start + q[i].blocks) % TWO_TO_THE_64, wanted, numBlocks)
    else 0
  }

  datatype Outcome = Created(start: nat) | FileExists | NoFreeEntry | NoSpace

  /** The new record in `slot`, and an end marker behind it if it took the old one's place. */
  function Enter(d: seq<Entry>, slot: nat, file: Entry): (e: seq<Entry>)
    requires |d| == ENTRIES && slot < ENTRIES
    ensures |e| == ENTRIES
  {
    var e := d[slot := file];
    if slot == NumUsed(d) && NumUsed(d) + 1 < ENTRIES then e[NumUsed(d) + 1 := EndMarker] else e
  }

  /** `create` on a disk of `diskSize` MiB. */
  function Create(d: seq<Entry>, diskSize: nat, name: string, maxsize: nat, sorted: seq<Entry>): (seq<Entry>, Outcome)
    requires |d| == ENTRIES && forall i | 0 <= i < |sorted| :: !sorted[i].EndMarker?
  {
    if SlotOf(d, name).Some? then (d, FileExists)
    else if FirstFree(d).None? then (d, NoFreeEntry)
    else
      var start := Search(sorted, 0, 1, BlocksFor(maxsize), diskSize / 2);
      if start == 0 then (d, NoSpace)
      else (Enter(d, FirstFree(d).value, Used(name, start, BlocksFor(maxsize))), Created(start))
  }

  /** `delete`: only the first byte of the name changes, so the extent stays behind. */
  function Delete(d: seq<Entry>, name: string): seq<Entry> {
    match SlotOf(d, name)
    case Some(i) => d[i := Deleted(d[i].start, d[i].blocks)]
    case None => d
  }

  // ---- Sound directories -------------------------------------------------

  ghost predicate Apart(a: Entry, b: Entry)
    requires a.Used? && b.Used?
  {
    a.start + a.blocks <= b.start || b.start + b.blocks <= a.start
  }

  /** Extents lie in blocks 1 .. numBlocks - 1 and are not empty, and those of files do not overlap. */
  ghost predicate SoundFiles(files: seq<Entry>, numBlocks: nat) {
    && (forall i | 0 <= i < |files| ::
          !files[i].EndMarker? && 1 <= files[i].start && 1 <= files[i].blocks
          && files[i].start + files[i].blocks <= numBlocks - 1)
    && forall i, j | 0 <= i < j < |files| && files[i].Used? && files[j].Used? :: Apart(files[i], files[j])
  }

  /** Deleted entries are sound as long as their old extents are; an end marker is not asked for. */
  ghost predicate Sound(d: seq<Entry>, diskSize: nat) {
    && |d| == ENTRIES && MINIMUM_DISK_SIZE <= diskSize < TWO_TO_THE_32
    && SoundFiles(d[..EndOf(d)], diskSize / 2)
  }

  /** A run of `wanted` blocks from `s` is inside the disk and free of files. */
  ghost predicate Fits(files: seq<Entry>, numBlocks: nat, s: nat, wanted: nat) {
    && 1 <= s && s + wanted <= numBlocks - 1
    && forall i | 0 <= i < |files| && files[i].Used? ::
         s + wanted <= files[i].start || files[i].start + files[i].blocks <= s
  }

  ghost predicate HasGap(files: seq<Entry>, numBlocks: nat, wanted: nat) {
    exists s: nat :: Fits(files, numBlocks, s, wanted)
  }

  /** Behind no deleted entry's old extent are there `wanted` blocks before the end of the disk. */
  ghost predicate DeletedEndLate(files: seq<Entry>, numBlocks: nat, wanted: nat) {
    forall i | 0 <= i < |files| && files[i].Deleted? :: files[i].start + files[i].blocks + wanted > numBlocks - 1
  }

  // ---- Sorting -----------------------------------------------------------

  /** Deleted entries come last, and each file lies behind the one before it. */
  ghost predicate InOrder(q: seq<Entry>, numBlocks: nat) {
    && SoundFiles(q, numBlocks)
    && forall a, b | 0 <= a < b < |q| && q[b].Used? :: q[a].Used? && q[a].start + q[a].blocks <= q[b].start
  }

  /** Between blocks of one disk the comparison of truncated differences is the order of the starts. */
  lemma CmpIsOrder(a: Entry, b: Entry, diskSize: nat)
    requires a.Used? && b.Used? && diskSize < TWO_TO_THE_32
    requires a.start < diskSize / 2 && b.start < diskSize / 2
    ensures StartingBlockCmp(a, b) <= 0 <==> a.start <= b.start
  {
    var diff := a.start - b.start;
    if diff >= 0 {
      assert Sub64(a.start, b.start) == diff;
    } else {
      assert Sub64(a.start, b.start) == diff + TWO_TO_THE_64;
      assert (diff + TWO_TO_THE_64) % TWO_TO_THE_32 == diff + TWO_TO_THE_32;
    }
  }

  /** A file that is not empty overlaps itself, so no file is listed twice. */
  lemma {:induction false} FilesOnce(files: seq<Entry>, numBlocks: nat, x: Entry)
    requires SoundFiles(files, numBlocks) && x.Used?
    ensures multiset(files)[x] <= 1
  {
    if files != [] {
      assert files == [files[0]] + files[1..];
      assert multiset(files) == multiset{files[0]} + multiset(files[1..]);
      FilesOnce(files[1..], numBlocks, x);
      forall j | 1 <= j < |files| && files[0].Used? ensures files[j] != files[0] {
        assert files[j].Used? ==> Apart(files[0], files[j]);
      }
    }
  }

  lemma {:induction false} IndicesCountTwice(q: seq<Entry>, i: nat, j: nat)
    requires i < j < |q| && q[i] == q[j]
    ensures multiset(q)[q[i]] >= 2
  {
    assert q == q[..j] + q[j..];
    assert multiset(q) == multiset(q[..j]) + multiset(q[j..]);
    assert q[..j][i] in multiset(q[..j]) && q[j..][0] in multiset(q[j..]);
  }

  lemma SortedMember(used: seq<Entry>, sorted: seq<Entry>, i: nat) returns (a: nat)
    requires multiset(used) == multiset(sorted) && i < |sorted|
    ensures a < |used| && used[a] == sorted[i]
  {
    assert sorted[i] in multiset(sorted);
    assert sorted[i] in used;
    a :| 0 <= a < |used| && used[a] == sorted[i];
  }

  /** Two files of the sorted copy are disjoint. */
  lemma SortedApart(used: seq<Entry>, sorted: seq<Entry>, numBlocks: nat, i: nat, j: nat)
    requires SoundFiles(used, numBlocks) && multiset(used) == multiset(sorted)
    requires i < j < |sorted| && sorted[i].Used? && sorted[j].Used?
    ensures Apart(sorted[i], sorted[j])
  {
    var a := SortedMember(used, sorted, i);
    var b := SortedMember(used, sorted, j);
    FilesOnce(used, numBlocks, sorted[i]);
    if sorted[i] == sorted[j] {
      IndicesCountTwice(sorted, i, j);
      assert false;
    }
    assert a < b ==> Apart(used[a], used[b]);
    assert b < a ==> Apart(used[b], used[a]);
  }

  /** Sorting keeps the files sound, puts each one behind the one before it, and the deleted entries last. */
  lemma SortedFiles(used: seq<Entry>, sorted: seq<Entry>, diskSize: nat)
    requires SoundFiles(used, diskSize / 2) && IsQsort(used, sorted) && diskSize < TWO_TO_THE_32
    ensures InOrder(sorted, diskSize / 2)
  {
    var numBlocks := diskSize / 2;
    forall i | 0 <= i < |sorted|
      ensures 1 <= sorted[i].start && 1 <= sorted[i].blocks && sorted[i].start + sorted[i].blocks <= numBlocks - 1
    {
      var a := SortedMember(used, sorted, i);
    }
    forall i, j | 0 <= i < j < |sorted| && sorted[j].Used?
      ensures sorted[i].Used? && Apart(sorted[i], sorted[j]) && sorted[i].start + sorted[i].blocks <= sorted[j].start
    {
      assert StartingBlockCmp(sorted[i], sorted[j]) <= 0;
      SortedApart(used, sorted, numBlocks, i, j);
      CmpIsOrder(sorted[i], sorted[j], diskSize);
    }
  }

  // ---- The search --------------------------------------------------------

  /** The gap before file `i` of a list in order, or behind the last file. */
  ghost predicate Gap(q: seq<Entry>, numBlocks: nat, i: nat, from: nat, to: nat) {
    && InOrder(q, numBlocks) && i <= |q| && numBlocks >= 2 && (i > 0 ==> q[i - 1].Used?)
    && from == (if i == 0 then 1 else q[i - 1].start + q[i - 1].blocks)
    && to == (if i < |q| && q[i].Used? then q[i].start else numBlocks - 1)
  }

  lemma GapHolds(q: seq<Entry>, numBlocks: nat, i: nat, from: nat, to: nat, wanted: nat)
    requires Gap(q, numBlocks, i, from, to)
    ensures 1 <= from <= to <= numBlocks - 1
    ensures from + wanted <= to ==> Fits(q, numBlocks, from, wanted)
  {
    forall a | 0 <= a < |q| && q[a].Used? ensures to <= q[a].start || q[a].start + q[a].blocks <= from {
      assert a < i - 1 ==> q[a].start + q[a].blocks <= q[i - 1].start;
      assert i < a ==> q[i].Used? && q[i].start + q[i].blocks <= q[a].start;
    }
  }

  /** A gap that is too small rules out every start up to the end of the file behind it. */
  lemma GapTooSmall(q: seq<Entry>, numBlocks: nat, i: nat, from: nat, to: nat, wanted: nat, s: nat)
    requires Gap(q, numBlocks, i, from, to) && to < from + wanted && wanted >= 1
    requires from <= s && (i < |q| && q[i].Used? ==> s < q[i].start + q[i].blocks)
    ensures !Fits(q, numBlocks, s, wanted)
  {
  }

  /** Among the deleted entries the search stops behind the first old extent that ends early enough. */
  lemma {:induction false} SearchDeleted(q: seq<Entry>, i: nat, prevEnd: nat, wanted: nat, numBlocks: nat)
    requires i <= |q| && 2 <= numBlocks < TWO_TO_THE_32 && 1 <= prevEnd <= numBlocks - 1
    requires forall j | 0 <= j < |q| :: !q[j].EndMarker?
    requires forall j | i <= j < |q| :: q[j].Deleted? && 1 <= q[j].start && q[j].start + q[j].blocks <= numBlocks - 1
    ensures Search(q, i, prevEnd, wanted, numBlocks) == 0
            <==> prevEnd + wanted > numBlocks - 1
                 && forall j | i <= j < |q| :: q[j].start + q[j].blocks + wanted > numBlocks - 1
    decreases |q| - i
  {
    assert Sub64(numBlocks, 1) == numBlocks - 1;
    assert Sub64(numBlocks - 1, prevEnd) == numBlocks - 1 - prevEnd;
    if prevEnd + wanted > numBlocks - 1 && i < |q| {
      var next := q[i].start + q[i].blocks;
      assert next % TWO_TO_THE_64 == next;
      SearchDeleted(q, i + 1, next, wanted, numBlocks);
    }
  }

  /**
    What the search answers. If some start fits, it is the lowest one. If none does, it is 0 iff
    every deleted entry's old extent ends too late; otherwise it is a start that does not fit.
   */
  ghost predicate Answers(q: seq<Entry>, numBlocks: nat, wanted: nat, r: nat) {
    && (HasGap(q, numBlocks, wanted) ==>
          Fits(q, numBlocks, r, wanted) && forall s: nat | s < r :: !Fits(q, numBlocks, s, wanted))
    && (!HasGap(q, numBlocks, wanted) ==> (r == 0 <==> DeletedEndLate(q, numBlocks, wanted)))
  }

  lemma {:induction false} SearchIsExact(q: seq<Entry>, i: nat, from: nat, to: nat, wanted: nat, numBlocks: nat)
    requires Gap(q, numBlocks, i, from, to) && numBlocks < TWO_TO_THE_32 && wanted >= 1
    requires forall s: nat | s < from :: !Fits(q, numBlocks, s, wanted)
    ensures Answers(q, numBlocks, wanted, Search(q, i, from, wanted, numBlocks))
    decreases |q| - i
  {
    hide Fits;
    GapHolds(q, numBlocks, i, from, to, wanted);
    assert Sub64(numBlocks, 1) == numBlocks - 1;
    assert Sub64(to, from) == to - from;
    if to - from < wanted {
      forall s: nat | from <= s && (i < |q| && q[i].Used? ==> s < q[i].start + q[i].blocks)
        ensures !Fits(q, numBlocks, s, wanted)
      {
        GapTooSmall(q, numBlocks, i, from, to, wanted, s);
      }
      if i < |q| && q[i].Used? {
        var next := q[i].start + q[i].blocks;
        assert next % TWO_TO_THE_64 == next;
        var nextTo := if i + 1 < |q| && q[i + 1].Used? then q[i + 1].start else numBlocks - 1;
        SearchIsExact(q, i + 1, next, nextTo, wanted, numBlocks);
      } else {
        NoneFits(q, i, from, to, wanted, numBlocks);
      }
    }
  }

  lemma NoneFits(q: seq<Entry>, i: nat, from: nat, to: nat, wanted: nat, numBlocks: nat)
    requires Gap(q, numBlocks, i, from, to) && numBlocks < TWO_TO_THE_32 && wanted >= 1
    requires (i < |q| ==> q[i].Deleted?) && to - from < wanted
    requires forall s: nat :: !Fits(q, numBlocks, s, wanted)
    ensures Answers(q, numBlocks, wanted, Search(q, i, from, wanted, numBlocks))
  {
    hide Fits;
    GapHolds(q, numBlocks, i, from, to, wanted);
    assert forall j | i <= j < |q| :: q[j].Deleted?;
    assert forall j | 0 <= j < i :: q[j].Used?;
    SearchDeleted(q, i, from, wanted, numBlocks);
  }

  // ---- The contract of create --------------------------------------------

  lemma {:induction false} EndOfIs(d: seq<Entry>, n: nat)
    requires n <= |d| && (n < |d| ==> d[n].EndMarker?) && forall i | 0 <= i < n :: !d[i].EndMarker?
    ensures EndOf(d) == n
  {
    if n > 0 {
      assert forall i | 0 <= i < n - 1 :: d[1..][i] == d[i + 1];
      EndOfIs(d[1..], n - 1);
    }
  }

  /** The list of files with a new one in a deleted entry, or at the end. */
  function WithFile(files: seq<Entry>, slot: nat, file: Entry): seq<Entry>
    requires slot <= |files|
  {
    if slot < |files| then files[slot := file] else files + [file]
  }

  /** A new file leaves the files sound iff it is not empty and its blocks are free. */
  lemma WithFileIsSoundIff(files: seq<Entry>, slot: nat, file: Entry, numBlocks: nat)
    requires SoundFiles(files, numBlocks) && slot <= |files| && (slot < |files| ==> files[slot].Deleted?) && file.Used?
    ensures SoundFiles(WithFile(files, slot, file), numBlocks)
            <==> file.blocks >= 1 && Fits(files, numBlocks, file.start, file.blocks)
  {
    var g := WithFile(files, slot, file);
    assert g[slot] == file;
    forall i | 0 <= i < |files| && i != slot ensures g[i] == files[i] {
    }
    if SoundFiles(g, numBlocks) {
      forall i | 0 <= i < |files| && files[i].Used?
        ensures file.start + file.blocks <= files[i].start || files[i].start + files[i].blocks <= file.start
      {
        assert i < slot ==> Apart(g[i], g[slot]);
        assert slot < i ==> Apart(g[slot], g[i]);
      }
    }
  }

  lemma SameFits(used: seq<Entry>, sorted: seq<Entry>, numBlocks: nat, s: nat, wanted: nat)
    requires multiset(used) == multiset(sorted)
    ensures Fits(used, numBlocks, s, wanted) <==> Fits(sorted, numBlocks, s, wanted)
    ensures DeletedEndLate(used, numBlocks, wanted) <==> DeletedEndLate(sorted, numBlocks, wanted)
  {
    forall x ensures x in used <==> x in sorted {
      assert x in used <==> x in multiset(used);
      assert x in sorted <==> x in multiset(sorted);
    }
    assert forall i | 0 <= i < |used| :: used[i] in sorted;
    assert forall i | 0 <= i < |sorted| :: sorted[i] in used;
  }

  lemma SameAnswers(used: seq<Entry>, sorted: seq<Entry>, numBlocks: nat, wanted: nat, r: nat)
    requires multiset(used) == multiset(sorted)
    ensures Answers(used, numBlocks, wanted, r) <==> Answers(sorted, numBlocks, wanted, r)
  {
    hide Fits, DeletedEndLate;
    forall s: nat ensures Fits(used, numBlocks, s, wanted) <==> Fits(sorted, numBlocks, s, wanted) {
      SameFits(used, sorted, numBlocks, s, wanted);
    }
    SameFits(used, sorted, numBlocks, 0, wanted);
  }

  /** Where the search looks for a place, in any order that qsort may return. */
  lemma SearchAnswers(d: seq<Entry>, diskSize: nat, wanted: nat, sorted: seq<Entry>)
    requires Sound(d, diskSize) && IsQsort(d[..NumUsed(d)], sorted) && wanted >= 1
    ensures Answers(d[..NumUsed(d)], diskSize / 2, wanted, Search(sorted, 0, 1, wanted, diskSize / 2))
  {
    hide Fits, Answers;
    var used, numBlocks := d[..NumUsed(d)], diskSize / 2;
    assert NumUsed(d) < EndOf(d) ==> used == [];
    SortedFiles(used, sorted, diskSize);
    NothingBelowOne(sorted, numBlocks, wanted);
    var to := if sorted != [] && sorted[0].Used? then sorted[0].start else numBlocks - 1;
    SearchIsExact(sorted, 0, 1, to, wanted, numBlocks);
    SameAnswers(used, sorted, numBlocks, wanted, Search(sorted, 0, 1, wanted, numBlocks));
  }

  lemma NothingBelowOne(q: seq<Entry>, numBlocks: nat, wanted: nat)
    ensures forall s: nat | s < 1 :: !Fits(q, numBlocks, s, wanted)
  {
  }

  /** create with the size zero asks for no blocks, and gets them at block 1. */
  lemma SearchForNothing(sorted: seq<Entry>, diskSize: nat)
    requires (forall i | 0 <= i < |sorted| :: !sorted[i].EndMarker?) && diskSize >= MINIMUM_DISK_SIZE
    ensures Search(sorted, 0, 1, 0, diskSize / 2) == 1
  {
  }

  lemma SlotBeforeEnd(d: seq<Entry>)
    ensures FirstFree(d).Some? ==> FirstFree(d).value <= EndOf(d)
    ensures FirstFree(d).Some? && FirstFree(d).value < EndOf(d) ==> d[FirstFree(d).value].Deleted?
    ensures EndOf(d) < |d| ==> FirstFree(d).Some?
  {
  }

  /** With the end marker there, the new record joins the files, and the directory ends behind them as before. */
  lemma EnterBeforeMarker(d: seq<Entry>, file: Entry)
    requires |d| == ENTRIES && EndOf(d) < ENTRIES && file.Used?
    ensures FirstFree(d).Some? && FirstFree(d).value <= EndOf(d)
    ensures var slot, n := FirstFree(d).value, EndOf(d);
            var e := Enter(d, slot, file);
            && EndOf(e) == (if slot == n then n + 1 else n)
            && e[..EndOf(e)] == WithFile(d[..n], slot, file)
  {
    hide EndOf, FirstFree;
    SlotBeforeEnd(d);
    var n, e := EndOf(d), Enter(d, FirstFree(d).value, file);
    EndOfIs(e, if FirstFree(d).value == n then n + 1 else n);
  }

  /**
    Without one, the record in the first entry cuts the directory off behind itself; in any other
    it joins the files.
   */
  lemma EnterWithoutMarker(d: seq<Entry>, file: Entry)
    requires |d| == ENTRIES && EndOf(d) == ENTRIES && FirstFree(d).Some? && file.Used?
    ensures var slot := FirstFree(d).value;
            var e := Enter(d, slot, file);
            if slot == 0 then EndOf(e) == 1 && e[..1] == [file]
            else EndOf(e) == ENTRIES && e == WithFile(d, slot, file)
  {
    var slot := FirstFree(d).value;
    var e := Enter(d, slot, file);
    EndOfIs(e, if slot == 0 then 1 else ENTRIES);
  }

  /** The directory is sound, and no file of the old one is gone. */
  ghost predicate Keeps(d: seq<Entry>, e: seq<Entry>, diskSize: nat) {
    Sound(e, diskSize) && forall i | 0 <= i < EndOf(d) && d[i].Used? :: d[i] in e[..EndOf(e)]
  }

  ghost predicate NoFiles(d: seq<Entry>) {
    forall i | 0 <= i < |d| :: !d[i].Used?
  }

  /**
    What a caller can check before the call. With an end marker: some gap holds the file, or every
    deleted entry's old extent ends too late for it. Without one: blocks 1 .. wanted are free, or there
    are not as many, and the first entry is in use or nothing is.
   */
  ghost predicate SafeCall(d: seq<Entry>, diskSize: nat, name: string, wanted: nat) {
    var files, numBlocks := d[..EndOf(d)], diskSize / 2;
    || SlotOf(d, name).Some? || FirstFree(d).None?
    || (wanted >= 1 &&
        if EndOf(d) < ENTRIES then HasGap(files, numBlocks, wanted) || DeletedEndLate(files, numBlocks, wanted)
        else wanted > numBlocks - 2 || (Fits(files, numBlocks, 1, wanted) && (d[0].Used? || NoFiles(d))))
  }

  /** A record in front of the end marker loses no file. */
  lemma WithFileKeeps(files: seq<Entry>, slot: nat, file: Entry)
    requires slot <= |files| && (slot < |files| ==> files[slot].Deleted?)
    ensures forall i | 0 <= i < |files| && files[i].Used? :: files[i] in WithFile(files, slot, file)
  {
    forall i | 0 <= i < |files| && files[i].Used? ensures files[i] in WithFile(files, slot, file) {
      assert WithFile(files, slot, file)[i] == files[i];
    }
  }

  /** A new record is right iff its blocks are free and the directory is not cut off before other files. */
  lemma EnterKeepsIff(d: seq<Entry>, diskSize: nat, name: string, start: nat, wanted: nat)
    requires Sound(d, diskSize) && SlotOf(d, name).None? && FirstFree(d).Some?
    ensures var e := Enter(d, FirstFree(d).value, Used(name, start, wanted));
            Keeps(d, e, diskSize)
            <==> wanted >= 1 && Fits(d[..EndOf(d)], diskSize / 2, start, wanted)
                 && (EndOf(d) < ENTRIES || d[0].Used? || NoFiles(d))
  {
    var files, slot, file := d[..EndOf(d)], FirstFree(d).value, Used(name, start, wanted);
    SlotBeforeEnd(d);
    if EndOf(d) < ENTRIES {
      hide Enter, Fits, SoundFiles, WithFile;
      EnterBeforeMarker(d, file);
      WithFileIsSoundIff(files, slot, file, diskSize / 2);
      WithFileKeeps(files, slot, file);
      assert forall i | 0 <= i < EndOf(d) :: d[i] == files[i];
    } else if slot > 0 {
      hide Enter, Fits, SoundFiles, WithFile;
      assert files == d;
      EnterWithoutMarker(d, file);
      WithFileIsSoundIff(d, slot, file, diskSize / 2);
      WithFileKeeps(d, slot, file);
      assert WithFile(d, slot, file)[..ENTRIES] == WithFile(d, slot, file);
    } else {
      CutOffKeepsIff(d, diskSize, file);
    }
  }

  lemma CutOffKeepsIff(d: seq<Entry>, diskSize: nat, file: Entry)
    requires Sound(d, diskSize) && EndOf(d) == ENTRIES && FirstFree(d) == Some(0) && file.Used?
    requires forall i | 0 <= i < ENTRIES && d[i].Used? :: d[i].name != file.name
    ensures Keeps(d, Enter(d, 0, file), diskSize)
            <==> file.blocks >= 1 && Fits(d, diskSize / 2, file.start, file.blocks) && NoFiles(d)
    ensures d[..EndOf(d)] == d
  {
    hide Enter;
    var e := Enter(d, 0, file);
    EnterWithoutMarker(d, file);
    assert d[..EndOf(d)] == d && e[..EndOf(e)] == [file];
    forall i | 0 <= i < EndOf(d) && d[i].Used? ensures d[i] !in e[..EndOf(e)] {
      assert d[i] != file;
    }
    WithFileIsSoundIff([], 0, file, diskSize / 2);
    assert WithFile([], 0, file) == [file];
    var n := diskSize / 2;
    assert NoFiles(d) ==> (Fits(d, n, file.start, file.blocks) <==> Fits([], n, file.start, file.blocks));
  }

  lemma SameKeeps(d: seq<Entry>, diskSize: nat)
    requires Sound(d, diskSize)
    ensures Keeps(d, d, diskSize)
  {
    assert forall i | 0 <= i < EndOf(d) :: d[i] == d[..EndOf(d)][i];
  }

  /** Without an end marker nothing is sorted, and the search answers block 1 if there are as many blocks. */
  lemma SearchWithoutMarker(d: seq<Entry>, diskSize: nat, wanted: nat, sorted: seq<Entry>)
    requires Sound(d, diskSize) && IsQsort(d[..NumUsed(d)], sorted) && EndOf(d) == ENTRIES && wanted >= 1
    ensures Search(sorted, 0, 1, wanted, diskSize / 2) == if wanted <= diskSize / 2 - 2 then 1 else 0
  {
    var numBlocks := diskSize / 2;
    var r := Search(sorted, 0, 1, wanted, numBlocks);
    SearchAnswers(d, diskSize, wanted, sorted);
    assert d[..NumUsed(d)] == [];
    if wanted <= numBlocks - 2 {
      assert Fits([], numBlocks, 1, wanted);
      assert !(r > 1);
    } else {
      assert forall s: nat :: !Fits([], numBlocks, s, wanted);
    }
  }

  /**
    The exact condition on create, for every directory with sound extents, with deleted entries
    and with or without an end marker, and for whatever order qsort returns: the files stay
    disjoint, in bounds and listed iff the call is safe.
   */
  lemma CreateKeepsIff(d: seq<Entry>, diskSize: nat, name: string, maxsize: nat, sorted: seq<Entry>)
    requires Sound(d, diskSize) && IsQsort(d[..NumUsed(d)], sorted)
    ensures Keeps(d, Create(d, diskSize, name, maxsize, sorted).0, diskSize)
            <==> SafeCall(d, diskSize, name, BlocksFor(maxsize))
  {
    hide Keeps, Enter, DeletedEndLate, Search;
    var wanted, files, numBlocks := BlocksFor(maxsize), d[..EndOf(d)], diskSize / 2;
    SameKeeps(d, diskSize);
    if SlotOf(d, name).None? && FirstFree(d).Some? {
      var start := Search(sorted, 0, 1, wanted, numBlocks);
      if wanted == 0 {
        SearchForNothing(sorted, diskSize);
      } else if EndOf(d) < ENTRIES {
        SearchAnswers(d, diskSize, wanted, sorted);
      } else {
        SearchWithoutMarker(d, diskSize, wanted, sorted);
        SlotBeforeEnd(d);
      }
      if start != 0 {
        EnterKeepsIff(d, diskSize, name, start, wanted);
      }
    }
  }

  /**
    What create does, for a size that is not zero and whatever order qsort returns. It refuses an
    existing name and a directory without a free entry, and a refusal changes nothing. With an end
    marker it takes the lowest blocks that fit, and refuses for want of space iff none fit and
    every deleted entry's old extent ends too late. The record goes into the first free entry.
   */
  lemma CreateContract(d: seq<Entry>, diskSize: nat, name: string, maxsize: nat, sorted: seq<Entry>)
    requires Sound(d, diskSize) && IsQsort(d[..NumUsed(d)], sorted) && BlocksFor(maxsize) >= 1
    ensures var (e, r) := Create(d, diskSize, name, maxsize, sorted);
            var n, files, numBlocks, wanted := EndOf(d), d[..EndOf(d)], diskSize / 2, BlocksFor(maxsize);
            && (r == FileExists <==> exists i :: 0 <= i < n && d[i].Used? && d[i].name == name)
            && (r == NoFreeEntry <==> r != FileExists && forall i | 0 <= i < ENTRIES :: d[i].Used?)
            && (!r.Created? ==> e == d)
            && (r.Created? || r == NoSpace ==>
                  if n < ENTRIES then Answers(files, numBlocks, wanted, if r.Created? then r.start else 0)
                  else r == if wanted <= numBlocks - 2 then Created(1) else NoSpace)
            && (r.Created? ==>
                  && r.start >= 1 && FirstFree(d).Some?
                  && e == Enter(d, FirstFree(d).value, Used(name, r.start, wanted)))
  {
    hide Keeps, Enter, DeletedEndLate, Search, Answers;
    if SlotOf(d, name).None? && FirstFree(d).Some? {
      if EndOf(d) < ENTRIES {
        SearchAnswers(d, diskSize, BlocksFor(maxsize), sorted);
      } else {
        SearchWithoutMarker(d, diskSize, BlocksFor(maxsize), sorted);
      }
    }
  }

  /** In a directory without deleted entries: no space iff no gap fits, and the file joins the others at the end. */
  lemma CreateInCleanDirectory(d: seq<Entry>, diskSize: nat, name: string, maxsize: nat, sorted: seq<Entry>)
    requires Sound(d, diskSize) && Clean(d) && IsQsort(d[..NumUsed(d)], sorted) && BlocksFor(maxsize) >= 1
    ensures var (e, r) := Create(d, diskSize, name, maxsize, sorted);
            var n, files, numBlocks, wanted := EndOf(d), d[..EndOf(d)], diskSize / 2, BlocksFor(maxsize);
            && Keeps(d, e, diskSize) && Clean(e)
            && (r == NoSpace <==> r != FileExists && n < ENTRIES && !HasGap(files, numBlocks, wanted))
            && (r.Created? ==>
                  && Fits(files, numBlocks, r.start, wanted)
                  && (forall s: nat | s < r.start :: !Fits(files, numBlocks, s, wanted))
                  && EndOf(e) == n + 1 && e[..n + 1] == files + [Used(name, r.start, wanted)])
  {
    hide Keeps, Enter, Search, Fits, SoundFiles, DeletedEndLate, EndOf, FirstFree, SafeCall, Create, Answers, Clean;
    var (e, r) := Create(d, diskSize, name, maxsize, sorted);
    var files, numBlocks, wanted := d[..EndOf(d)], diskSize / 2, BlocksFor(maxsize);
    CreateContract(d, diskSize, name, maxsize, sorted);
    CreateKeepsIff(d, diskSize, name, maxsize, sorted);
    SlotBeforeEnd(d);
    CleanIs(d, numBlocks, wanted);
    CleanAnswers(files, numBlocks, wanted, if r.Created? then r.start else 0);
    CleanCallIsSafe(d, diskSize, name, wanted);
    if r.Created? {
      EnterBeforeMarker(d, Used(name, r.start, wanted));
      AppendIsClean(d, e, Used(name, r.start, wanted));
    }
  }

  lemma CleanIs(d: seq<Entry>, numBlocks: nat, wanted: nat)
    requires Clean(d)
    ensures DeletedEndLate(d[..EndOf(d)], numBlocks, wanted)
    ensures FirstFree(d).Some? ==> FirstFree(d).value == EndOf(d) < |d|
    ensures EndOf(d) == |d| ==> forall i | 0 <= i < |d| :: d[i].Used?
  {
    SlotBeforeEnd(d);
  }

  lemma CleanAnswers(files: seq<Entry>, numBlocks: nat, wanted: nat, r: nat)
    requires DeletedEndLate(files, numBlocks, wanted)
    ensures Answers(files, numBlocks, wanted, r) ==>
              if r == 0 then !HasGap(files, numBlocks, wanted)
              else Fits(files, numBlocks, r, wanted) && forall s: nat | s < r :: !Fits(files, numBlocks, s, wanted)
  {
    NothingBelowOne(files, numBlocks, wanted);
  }

  lemma CleanCallIsSafe(d: seq<Entry>, diskSize: nat, name: string, wanted: nat)
    requires |d| == ENTRIES && Clean(d) && wanted >= 1
    ensures SafeCall(d, diskSize, name, wanted)
  {
    hide EndOf, Clean, DeletedEndLate;
    CleanIs(d, diskSize / 2, wanted);
  }

  lemma AppendIsClean(d: seq<Entry>, e: seq<Entry>, file: Entry)
    requires Clean(d) && file.Used?
    requires EndOf(e) == EndOf(d) + 1 && e[..EndOf(e)] == WithFile(d[..EndOf(d)], EndOf(d), file)
    ensures Clean(e) && e[..EndOf(d) + 1] == d[..EndOf(d)] + [file]
  {
    assert forall i | 0 <= i < EndOf(e) :: e[i] == e[..EndOf(e)][i];
  }

  /** No deleted entry before the end. */
  ghost predicate Clean(d: seq<Entry>) {
    forall i | 0 <= i < EndOf(d) :: d[i].Used?
  }

  // ---- How it fails ------------------------------------------------------

  function Directory(files: seq<Entry>): (d: seq<Entry>)
    requires |files| < ENTRIES && forall i | 0 <= i < |files| :: !files[i].EndMarker?
    ensures |d| == ENTRIES && EndOf(d) == |files| && d[..|files|] == files && NumUsed(d) == |files|
  {
    var d := files + seq(ENTRIES - |files|, _ => EndMarker);
    EndOfIs(d, |files|);
    d
  }

  /**
    Without an end marker, a file of at most `numBlocks - 2` blocks goes to block 1 even if a file is
    there; and if the first entry is the free one, the directory then ends behind it.
   */
  lemma NoMarkerMisleads(d: seq<Entry>, diskSize: nat, name: string, maxsize: nat, sorted: seq<Entry>, i: nat)
    requires Sound(d, diskSize) && EndOf(d) == ENTRIES && IsQsort(d[..NumUsed(d)], sorted)
    requires SlotOf(d, name).None? && FirstFree(d).Some? && 1 <= BlocksFor(maxsize) <= diskSize / 2 - 2
    requires i < ENTRIES && d[i].Used?
    ensures var (e, r) := Create(d, diskSize, name, maxsize, sorted);
            && r == Created(1)
            && (d[i].start <= BlocksFor(maxsize) ==>
                  !Fits(d, diskSize / 2, 1, BlocksFor(maxsize)) && !Keeps(d, e, diskSize))
            && (d[0].Deleted? ==> EndOf(e) == 1 && !Keeps(d, e, diskSize))
  {
    hide Keeps, Search, SoundFiles;
    CreateKeepsIff(d, diskSize, name, maxsize, sorted);
    SearchWithoutMarker(d, diskSize, BlocksFor(maxsize), sorted);
    EnterWithoutMarker(d, Used(name, 1, BlocksFor(maxsize)));
    assert d[..EndOf(d)] == d;
    StartsAtOne(d, diskSize / 2, i);
  }

  lemma StartsAtOne(files: seq<Entry>, numBlocks: nat, i: nat)
    requires SoundFiles(files, numBlocks) && i < |files|
    ensures files[i].start >= 1 && files[i].blocks >= 1
  {
  }

  /** A create whose search answers `start`, on a directory with room behind its entries. */
  lemma CreateStep(files: seq<Entry>, slot: nat, diskSize: nat, name: string, maxsize: nat, sorted: seq<Entry>,
                   start: nat)
    requires |files| + 1 < ENTRIES && forall i | 0 <= i < |files| :: !files[i].EndMarker?
    requires slot <= |files| && (forall i | 0 <= i < slot :: files[i].Used?)
    requires slot < |files| ==> files[slot].Deleted?
    requires forall i | 0 <= i < |files| && files[i].Used? :: files[i].name != name
    requires forall i | 0 <= i < |sorted| :: !sorted[i].EndMarker?
    requires Search(sorted, 0, 1, BlocksFor(maxsize), diskSize / 2) == start && start >= 1
    ensures var g := WithFile(files, slot, Used(name, start, BlocksFor(maxsize)));
            && (forall i | 0 <= i < |g| :: !g[i].EndMarker?)
            && Create(Directory(files), diskSize, name, maxsize, sorted) == (Directory(g), Created(start))
  {
    hide Search;
    var d, g := Directory(files), WithFile(files, slot, Used(name, start, BlocksFor(maxsize)));
    assert forall i | 0 <= i < |files| :: d[i] == files[i];
    assert SlotOf(d, name).None?;
    assert !d[slot].Used?;
    assert FirstFree(d) == Some(slot);
    assert Enter(d, slot, Used(name, start, BlocksFor(maxsize))) == Directory(g);
  }

  lemma DeleteStep(files: seq<Entry>, i: nat)
    requires |files| < ENTRIES && (forall j | 0 <= j < |files| :: !files[j].EndMarker?)
    requires i < |files| && files[i].Used? && forall j | 0 <= j < i && files[j].Used? :: files[j].name != files[i].name
    ensures Delete(Directory(files), files[i].name) == Directory(files[i := Deleted(files[i].start, files[i].blocks)])
  {
    var d := Directory(files);
    assert forall j | 0 <= j < |files| :: d[j] == files[j];
    assert SlotOf(d, files[i].name) == Some(i);
  }

  /** A used file at the same place as a deleted one's old extent: 89 blocks from 1, and the old extent 2 .. 9. */
  const STALE: seq<Entry> := [Used("a", 1, 89), Deleted(2, 8)]

  /**
    The search goes on behind the extent a deleted entry once had: on a disk of 100 blocks, where no gap
    holds 20, it hands out block 10 of the file that has blocks 1 to 89.
   */
  lemma DeletedMisleads()
    ensures Sound(Directory(STALE), 200) && IsQsort(Directory(STALE)[..NumUsed(Directory(STALE))], STALE)
    ensures var (e, r) := Create(Directory(STALE), 200, "b", 40, STALE);
            r == Created(10) && !Fits(STALE, 100, 10, 20) && !Keeps(Directory(STALE), e, 200)
  {
    hide IsQsort;
    StaleIsSound();
    StaleSearch();
    CreateStep(STALE, 1, 200, "b", 40, STALE, 10);
    CreateKeepsIff(Directory(STALE), 200, "b", 40, STALE);
    NoGapInStale();
    assert STALE[1].Deleted?;
  }

  lemma StaleIsSound()
    ensures Sound(Directory(STALE), 200) && IsQsort(Directory(STALE)[..NumUsed(Directory(STALE))], STALE)
  {
  }

  lemma StaleSearch()
    ensures Search(STALE, 0, 1, 20, 100) == 10
  {
    assert Search(STALE, 2, 10, 20, 100) == 10;
    assert Search(STALE, 1, 90, 20, 100) == Search(STALE, 2, 10, 20, 100);
    assert Search(STALE, 0, 1, 20, 100) == Search(STALE, 1, 90, 20, 100);
  }

  lemma NoGapInStale()
    ensures !HasGap(STALE, 100, 20) && !DeletedEndLate(STALE, 100, 20)
  {
    forall s: nat ensures !Fits(STALE, 100, s, 20) {
      assert STALE[0].Used?;
    }
    assert STALE[1].Deleted?;
  }

  /**
    Why empty files must not be: sorted behind a file at the same block, one makes the search hand out
    the first block of the next file. create itself accepts the size 0; the command line, which asks
    for at least 1, never passes it.
   */
  lemma EmptyFileMisleads()
    ensures IsQsort(Directory(WITH_EMPTY)[..NumUsed(Directory(WITH_EMPTY))], WITH_EMPTY)
    ensures Create(Directory(WITH_EMPTY), 200, "c", 2, WITH_EMPTY).1 == Created(6) && !Fits(WITH_EMPTY, 100, 6, 1)
  {
    hide Search, IsQsort;
    EmptyIsSorted();
    EmptySearch();
    CreateStep(WITH_EMPTY, 3, 200, "c", 2, WITH_EMPTY, 6);
    assert WITH_EMPTY[2].Used?;
  }

  const WITH_EMPTY: seq<Entry> := [Used("a", 1, 5), Used("z", 1, 0), Used("b", 6, 2)]

  lemma EmptyIsSorted()
    ensures IsQsort(Directory(WITH_EMPTY)[..NumUsed(Directory(WITH_EMPTY))], WITH_EMPTY)
  {
    assert Sub64(1, 6) == TWO_TO_THE_64 - 5;
    assert Sub64(1, 6) % TWO_TO_THE_32 == TWO_TO_THE_32 - 5;
  }

  lemma EmptySearch()
    ensures Search(WITH_EMPTY, 0, 1, 1, 100) == 6
  {
    assert Sub64(1, 6) == TWO_TO_THE_64 - 5;
    assert Search(WITH_EMPTY, 1, 6, 1, 100) == 6;
    assert Search(WITH_EMPTY, 0, 1, 1, 100) == Search(WITH_EMPTY, 1, 6, 1, 100);
  }

  // ---- Runs --------------------------------------------------------------

  /** One command; `sorted` is what create's qsort returned. */
  datatype Command =
    | CreateFile(name: string, maxsize: nat, sorted: seq<Entry>)
    | DeleteFile(name: string)

  /** The command line passes sizes from 1 up, in 32 bits. */
  ghost predicate Possible(d: seq<Entry>, c: Command) {
    |d| == ENTRIES && (c.CreateFile? ==> 1 <= c.maxsize < TWO_TO_THE_32 && IsQsort(d[..NumUsed(d)], c.sorted))
  }

  ghost function After(d: seq<Entry>, diskSize: nat, c: Command): (e: seq<Entry>)
    requires Possible(d, c)
    ensures |e| == ENTRIES
  {
    match c
    case CreateFile(name, maxsize, sorted) => Create(d, diskSize, name, maxsize, sorted).0
    case DeleteFile(name) => Delete(d, name)
  }

  ghost predicate AllPossible(d: seq<Entry>, diskSize: nat, run: seq<Command>)
    decreases |run|
  {
    run == [] || (Possible(d, run[0]) && AllPossible(After(d, diskSize, run[0]), diskSize, run[1..]))
  }

  ghost function Run(d: seq<Entry>, diskSize: nat, run: seq<Command>): seq<Entry>
    requires AllPossible(d, diskSize, run)
    decreases |run|
  {
    if run == [] then d else Run(After(d, diskSize, run[0]), diskSize, run[1..])
  }

  /** Every create of the run is safe in the directory it finds. */
  ghost predicate AllSafe(d: seq<Entry>, diskSize: nat, run: seq<Command>)
    requires AllPossible(d, diskSize, run)
    decreases |run|
  {
    run == [] ||
    (&& (run[0].CreateFile? ==> SafeCall(d, diskSize, run[0].name, BlocksFor(run[0].maxsize)))
     && AllSafe(After(d, diskSize, run[0]), diskSize, run[1..]))
  }

  lemma BlocksForIsPositive(maxsize: nat)
    requires 1 <= maxsize < TWO_TO_THE_32
    ensures BlocksFor(maxsize) == (maxsize + 1) / 2 >= 1
  {
  }

  /** delete keeps the directory sound and takes exactly one file out. */
  lemma DeleteContract(d: seq<Entry>, diskSize: nat, name: string)
    requires Sound(d, diskSize)
    ensures var e := Delete(d, name);
            && Sound(e, diskSize) && EndOf(e) == EndOf(d)
            && (SlotOf(d, name).None? ==> e == d)
            && (SlotOf(d, name).Some? ==>
                  forall i | 0 <= i < ENTRIES ::
                    e[i] == if i == SlotOf(d, name).value then Deleted(d[i].start, d[i].blocks) else d[i])
  {
    var e, files := Delete(d, name), d[..EndOf(d)];
    EndOfIs(e, EndOf(d));
    if SlotOf(d, name).Some? {
      var i := SlotOf(d, name).value;
      assert files[i] == d[i];
      assert e[..EndOf(d)] == files[i := Deleted(d[i].start, d[i].blocks)];
      DeletedIsSound(files, i, diskSize / 2);
    }
  }

  lemma DeletedIsSound(files: seq<Entry>, i: nat, numBlocks: nat)
    requires SoundFiles(files, numBlocks) && i < |files|
    ensures SoundFiles(files[i := Deleted(files[i].start, files[i].blocks)], numBlocks)
  {
  }

  /** Every run of creates and deletes whose creates are safe keeps the extents disjoint and in bounds. */
  lemma {:induction false} RunsAreSound(d: seq<Entry>, diskSize: nat, run: seq<Command>)
    requires Sound(d, diskSize) && AllPossible(d, diskSize, run) && AllSafe(d, diskSize, run)
    ensures Sound(Run(d, diskSize, run), diskSize)
    decreases |run|
  {
    hide Sound, IsQsort, SafeCall, Create, Delete;
    if run != [] {
      match run[0] {
        case CreateFile(name, maxsize, sorted) => SafeCreate(d, diskSize, name, maxsize, sorted);
        case DeleteFile(name) => DeleteContract(d, diskSize, name);
      }
      RunsAreSound(After(d, diskSize, run[0]), diskSize, run[1..]);
    }
  }

  lemma SafeCreate(d: seq<Entry>, diskSize: nat, name: string, maxsize: nat, sorted: seq<Entry>)
    requires Sound(d, diskSize) && IsQsort(d[..NumUsed(d)], sorted) && SafeCall(d, diskSize, name, BlocksFor(maxsize))
    ensures Sound(Create(d, diskSize, name, maxsize, sorted).0, diskSize)
  {
    hide SafeCall, Create;
    CreateKeepsIff(d, diskSize, name, maxsize, sorted);
  }

  /** Without deletes every create is safe: no file overlaps, moves or is lost. */
  lemma {:induction false} CreatesAreSafe(d: seq<Entry>, diskSize: nat, run: seq<Command>)
    requires Sound(d, diskSize) && Clean(d) && AllPossible(d, diskSize, run)
    requires forall c | c in run :: c.CreateFile?
    ensures var e := Run(d, diskSize, run);
            Sound(e, diskSize) && Clean(e) && d[..EndOf(d)] <= e[..EndOf(e)]
    decreases |run|
  {
    hide Sound, IsQsort, Create, Clean;
    if run != [] {
      var c := run[0];
      BlocksForIsPositive(c.maxsize);
      CleanCreate(d, diskSize, c.name, c.maxsize, c.sorted);
      CreatesAreSafe(After(d, diskSize, c), diskSize, run[1..]);
    }
  }

  lemma CleanCreate(d: seq<Entry>, diskSize: nat, name: string, maxsize: nat, sorted: seq<Entry>)
    requires Sound(d, diskSize) && Clean(d) && IsQsort(d[..NumUsed(d)], sorted) && BlocksFor(maxsize) >= 1
    ensures var e := Create(d, diskSize, name, maxsize, sorted).0;
            Sound(e, diskSize) && Clean(e) && d[..EndOf(d)] <= e[..EndOf(e)]
  {
    hide Clean, Create;
    CreateInCleanDirectory(d, diskSize, name, maxsize, sorted);
    CreateContract(d, diskSize, name, maxsize, sorted);
  }

  lemma FormattedIsSound(diskSize: nat)
    requires MINIMUM_DISK_SIZE <= diskSize < TWO_TO_THE_32
    ensures Sound(Directory([]), diskSize) && Clean(Directory([]))
  {
  }

  /** The directory of `DeletedMisleads` is that of a disk after four files were created and two deleted. */
  function StaleRun(): seq<Command> {
    [CreateFile("x", 2, [])] + ([CreateFile("y", 16, [Used("x", 1, 1)])] + ([DeleteFile("x")] + ([DeleteFile("y")]
      + ([CreateFile("a", 178, [Deleted(1, 1), Deleted(2, 8)])] + []))))
  }

  ghost predicate Leads(d: seq<Entry>, c: Command, e: seq<Entry>) {
    Possible(d, c) && After(d, 200, c) == e
  }

  lemma Follow(d: seq<Entry>, c: Command, e: seq<Entry>, run: seq<Command>)
    requires Leads(d, c, e) && AllPossible(e, 200, run)
    ensures AllPossible(d, 200, [c] + run) && Run(d, 200, [c] + run) == Run(e, 200, run)
  {
    hide Possible, After;
    assert ([c] + run)[1..] == run;
  }

  lemma Stale1()
    ensures Leads(Directory([]), CreateFile("x", 2, []), Directory([Used("x", 1, 1)]))
  {
    CreateStep([], 0, 200, "x", 2, [], 1);
    assert WithFile([], 0, Used("x", 1, 1)) == [Used("x", 1, 1)];
  }

  lemma Stale2()
    ensures Leads(Directory([Used("x", 1, 1)]), CreateFile("y", 16, [Used("x", 1, 1)]),
                  Directory([Used("x", 1, 1), Used("y", 2, 8)]))
  {
    var x, y := Used("x", 1, 1), Used("y", 2, 8);
    assert Search([x], 1, 2, 8, 100) == 2;
    CreateStep([x], 1, 200, "y", 16, [x], 2);
    assert WithFile([x], 1, y) == [x, y];
  }

  lemma Stale3()
    ensures Leads(Directory([Used("x", 1, 1), Used("y", 2, 8)]), DeleteFile("x"),
                  Directory([Deleted(1, 1), Used("y", 2, 8)]))
  {
    var x, y := Used("x", 1, 1), Used("y", 2, 8);
    DeleteStep([x, y], 0);
    assert [x, y][0 := Deleted(1, 1)] == [Deleted(1, 1), y];
  }

  lemma Stale4()
    ensures Leads(Directory([Deleted(1, 1), Used("y", 2, 8)]), DeleteFile("y"),
                  Directory([Deleted(1, 1), Deleted(2, 8)]))
  {
    var x, y := Deleted(1, 1), Used("y", 2, 8);
    DeleteStep([x, y], 1);
    assert [x, y][1 := Deleted(2, 8)] == [x, Deleted(2, 8)];
  }

  lemma Stale5()
    ensures Leads(Directory([Deleted(1, 1), Deleted(2, 8)]), CreateFile("a", 178, [Deleted(1, 1), Deleted(2, 8)]),
                  Directory(STALE))
  {
    var q := [Deleted(1, 1), Deleted(2, 8)];
    CreateStep(q, 0, 200, "a", 178, q, 1);
    assert WithFile(q, 0, Used("a", 1, 89)) == STALE;
  }

  lemma StaleIsReached()
    ensures AllPossible(Directory([]), 200, StaleRun()) && Run(Directory([]), 200, StaleRun()) == Directory(STALE)
  {
    hide Directory, Leads;
    var x, y, dx, dy := Used("x", 1, 1), Used("y", 2, 8), Deleted(1, 1), Deleted(2, 8);
    var run5 := [CreateFile("a", 178, [dx, dy])] + [];
    var run4 := [DeleteFile("y")] + run5;
    var run3 := [DeleteFile("x")] + run4;
    var run2 := [CreateFile("y", 16, [x])] + run3;
    Stale5();
    Follow(Directory([dx, dy]), CreateFile("a", 178, [dx, dy]), Directory(STALE), []);
    Stale4();
    Follow(Directory([dx, y]), DeleteFile("y"), Directory([dx, dy]), run5);
    Stale3();
    Follow(Directory([x, y]), DeleteFile("x"), Directory([dx, y]), run4);
    Stale2();
    Follow(Directory([x]), CreateFile("y", 16, [x]), Directory([x, y]), run3);
    Stale1();
    Follow(Directory([]), CreateFile("x", 2, []), Directory([x]), run2);
  }

  // ---- The order qsort leaves --------------------------------------------

  predicate GoesBefore(a: Entry, b: Entry) {
    !a.EndMarker? && !b.EndMarker? && (b.Deleted? || (a.Used? && a.start <= b.start))
  }

  ghost predicate ByStart(q: seq<Entry>) {
    && (forall i | 0 <= i < |q| :: !q[i].EndMarker?)
    && forall i, j | 0 <= i < j < |q| :: GoesBefore(q[i], q[j])
  }

  lemma TailByStart(q: seq<Entry>)
    requires ByStart(q) && q != []
    ensures ByStart(q[1..]) && forall k | 1 <= k < |q| :: GoesBefore(q[0], q[k])
  {
  }

  lemma InsertBehind(first: Entry, x: Entry, tail: seq<Entry>, rest: seq<Entry>)
    requires ByStart(rest) && GoesBefore(first, x) && forall k | 0 <= k < |tail| :: GoesBefore(first, tail[k])
    requires multiset(rest) == multiset(tail) + multiset{x}
    ensures ByStart([first] + rest)
  {
    forall i | 0 <= i < |rest| ensures GoesBefore(first, rest[i]) {
      assert rest[i] in multiset(rest);
      if rest[i] != x {
        assert rest[i] in multiset(tail);
      }
    }
  }

  ghost function Insert(x: Entry, q: seq<Entry>): (r: seq<Entry>)
    requires !x.EndMarker? && ByStart(q)
    ensures ByStart(r) && multiset(r) == multiset(q) + multiset{x}
  {
    if q == [] || GoesBefore(x, q[0]) then
      FrontByStart(x, q);
      [x] + q
    else
      TailByStart(q);
      assert q == [q[0]] + q[1..];
      var rest := Insert(x, q[1..]);
      InsertBehind(q[0], x, q[1..], rest);
      [q[0]] + rest
  }

  lemma FrontByStart(x: Entry, q: seq<Entry>)
    requires !x.EndMarker? && ByStart(q) && (q != [] ==> GoesBefore(x, q[0]))
    ensures ByStart([x] + q)
  {
    forall j | 0 <= j < |q| ensures GoesBefore(x, q[j]) {
      assert j > 0 ==> GoesBefore(q[0], q[j]);
    }
  }

  ghost function Sort(files: seq<Entry>): (q: seq<Entry>)
    requires forall i | 0 <= i < |files| :: !files[i].EndMarker?
    ensures ByStart(q) && multiset(q) == multiset(files)
  {
    if files == [] then []
    else
      assert files == [files[0]] + files[1..];
      Insert(files[0], Sort(files[1..]))
  }

  /** Every sound directory has an order that satisfies what qsort is asked for. */
  lemma QsortCanReturn(d: seq<Entry>, diskSize: nat)
    requires Sound(d, diskSize)
    ensures exists sorted :: IsQsort(d[..NumUsed(d)], sorted)
  {
    var used := d[..NumUsed(d)];
    assert forall i | 0 <= i < |used| :: used[i] == d[..EndOf(d)][i];
    var q := Sort(used);
    forall i | 0 <= i < |q| ensures q[i].start < diskSize / 2 {
      var a := SortedMember(used, q, i);
    }
    forall i, j | 0 <= i < j < |q| && q[i].Used? && q[j].Used? ensures StartingBlockCmp(q[i], q[j]) <= 0 {
      assert GoesBefore(q[i], q[j]);
      CmpIsOrder(q[i], q[j], diskSize);
    }
    forall i, j | 0 <= i < j < |q| ensures (q[i].Deleted? && q[j].Deleted?) || StartingBlockCmp(q[i], q[j]) <= 0 {
      assert GoesBefore(q[i], q[j]);
    }
    assert IsQsort(used, q);
  }
}
