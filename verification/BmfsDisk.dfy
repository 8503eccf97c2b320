/**
  The directory buffer of Bootloader/BMFS/bmfs.c and the two operations on it, each proved
  equal to its specification in Bmfs.
 */
module BmfsDisk {
  import opened Wrappers
  import opened Words
  import opened Bmfs

  lemma EndOfIsFirst(d: seq<Entry>, i: nat)
    requires i < |d| && d[i].EndMarker? && forall j | 0 <= j < i :: !d[j].EndMarker?
    ensures EndOf(d) == i && NumUsed(d) == i
  {
    EndOfIs(d, i);
  }

  lemma NoEnd(d: seq<Entry>)
    requires forall j | 0 <= j < |d| :: !d[j].EndMarker?
    ensures NumUsed(d) == 0
  {
    EndOfIs(d, |d|);
  }

  /** The first free entry, as an index or -1. */
  ghost function FreeIndex(d: seq<Entry>): int {
    match FirstFree(d) case Some(i) => i case None => -1
  }

  lemma FreeIndexIs(d: seq<Entry>, i: int)
    requires -1 <= i < |d| && forall j | 0 <= j < (if i == -1 then |d| else i) :: d[j].Used?
    requires i >= 0 ==> !d[i].Used?
    ensures FreeIndex(d) == i
  {
  }

  class Disk {
    const diskSize: nat
    const directory: array<Entry>

    ghost predicate Valid() {
      directory.Length == ENTRIES
    }

    /** A formatted disk. */
    constructor (diskSize: nat)
      ensures Valid() && fresh(directory) && this.diskSize == diskSize
      ensures directory[..] == seq(ENTRIES, _ => EndMarker)
    {
      this.diskSize := diskSize;
      directory := new Entry[ENTRIES](_ => EndMarker);
    }

    /** `findfile` */
    method FindFile(name: string) returns (found: bool, slot: nat)
      requires Valid()
      ensures (if found then Some(slot) else None) == SlotOf(directory[..], name)
    {
      ghost var d := directory[..];
      found, slot := false, 0;
      var tint: nat := 0;
      ghost var seen := 0;
      while tint < ENTRIES
        invariant seen <= ENTRIES && (seen == tint || (tint > ENTRIES && seen < ENTRIES && d[seen].EndMarker?))
        invariant forall i | 0 <= i < seen :: d[i].Deleted? || (d[i].Used? && d[i].name != name)
      {
        if directory[tint].EndMarker? {
          tint := ENTRIES;
        } else {
          if directory[tint].Used? && directory[tint].name == name {
            found, slot := true, tint;
            assert d[slot] == directory[tint];
            return;
          }
          seen := seen + 1;
        }
        tint := tint + 1;
      }
      EndOfIs(d, seen);
    }

    /** The scan of `create`: the number of entries before the end marker, and where a new one goes. */
    method CountEntries() returns (numUsed: nat, free: int)
      requires Valid()
      ensures numUsed == NumUsed(directory[..])
      ensures free == FreeIndex(directory[..])
    {
      numUsed, free := 0, -1;
      ghost var d := directory[..];
      var tint: nat := 0;
      while tint < ENTRIES
        invariant 0 <= tint <= ENTRIES && -1 <= free < tint && numUsed == 0
        invariant forall i | 0 <= i < tint :: !d[i].EndMarker?
        invariant free == -1 ==> forall i | 0 <= i < tint :: d[i].Used?
        invariant free >= 0 ==> d[free].Deleted? && forall i | 0 <= i < free :: d[i].Used?
      {
        if directory[tint].EndMarker? {
          numUsed := tint;
          EndOfIsFirst(d, tint);
          if free == -1 {
            free := tint;
          }
          FreeIndexIs(d, free);
          return;
        } else if directory[tint].Deleted? {
          if free == -1 {
            free := tint;
          }
        }
        tint := tint + 1;
      }
      NoEnd(d);
      FreeIndexIs(d, free);
    }

    /** The gap loop of `create` over the sorted copy. */
    static method FindGap(sorted: seq<Entry>, wanted: nat, numBlocks: nat) returns (newFileStart: nat)
      requires forall i | 0 <= i < |sorted| :: !sorted[i].EndMarker?
      ensures newFileStart == Search(sorted, 0, 1, wanted, numBlocks)
    {
      newFileStart := 0;
      var prevFileEnd: nat := 1;
      var tint: nat := 0;
      while tint < |sorted| + 1
        invariant 0 <= tint <= |sorted| + 1
        invariant tint <= |sorted| ==>
                    Search(sorted, 0, 1, wanted, numBlocks) == Search(sorted, tint, prevFileEnd, wanted, numBlocks)
        invariant tint == |sorted| + 1 ==> Search(sorted, 0, 1, wanted, numBlocks) == 0
        decreases |sorted| + 1 - tint
      {
        var thisFileStart: nat;
        if tint == |sorted| || sorted[tint].Deleted? {
          thisFileStart := Sub64(numBlocks, 1);
        } else {
          thisFileStart := sorted[tint].start;
        }
        if Sub64(thisFileStart, prevFileEnd) >= wanted {
          newFileStart := prevFileEnd;
          return;
        }
        if tint < |sorted| {
          prevFileEnd := (sorted[tint].start + sorted[tint].blocks) % TWO_TO_THE_64;
        }
        tint := tint + 1;
      }
    }

    /** `create`; `sorted` is the copy of the counted entries as qsort leaves it. */
    method CreateFile(name: string, maxsize: nat, sorted: seq<Entry>) returns (outcome: Outcome)
      requires Valid() && IsQsort(directory[..NumUsed(directory[..])], sorted)
      modifies directory
      ensures (directory[..], outcome) == Create(old(directory[..]), diskSize, name, maxsize, sorted)
    {
      var size := maxsize;
      if size % 2 != 0 {
        size := (size + 1) % TWO_TO_THE_64;
      }
      var found, _ := FindFile(name);
      if found {
        return FileExists;
      }
      var wanted, numBlocks := size / 2, diskSize / 2;
      var numUsed, free := CountEntries();
      if free == -1 {
        return NoFreeEntry;
      }
      var newFileStart := FindGap(sorted, wanted, numBlocks);
      if newFileStart == 0 {
        return NoSpace;
      }
      directory[free] := Used(name, newFileStart, wanted);
      if free == numUsed && numUsed + 1 < ENTRIES {
        directory[numUsed + 1] := EndMarker;
      }
      outcome := Created(newFileStart);
    }

    /** `delete`, and whether there was such a file. */
    method DeleteFile(name: string) returns (found: bool)
      requires Valid()
      modifies directory
      ensures directory[..] == Delete(old(directory[..]), name)
      ensures found == SlotOf(old(directory[..]), name).Some?
    {
      var slot;
      found, slot := FindFile(name);
      if found {
        directory[slot] := Deleted(directory[slot].start, directory[slot].blocks);
      }
    }
  }
}
