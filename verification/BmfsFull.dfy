/**
  How a directory of Bootloader/BMFS/bmfs.c comes to have no end marker: 64 files fill it, and
  deleting one of them then makes room for a create that goes wrong.
 */
module BmfsFull {
  import opened Wrappers
  import opened Bmfs

  /** A disk of 200 MiB has 100 blocks. */
  const DISK: nat := 200

  /** Names of two letters, one for each entry. */
  function NameOf(i: nat): (name: string)
    requires i < ENTRIES
    ensures |name| == 2
  {
    ['a' + (i / 8) as char, 'a' + (i % 8) as char]
  }

  lemma NamesDiffer(i: nat, j: nat)
    requires i < ENTRIES && j < ENTRIES && NameOf(i) == NameOf(j)
    ensures i == j
  {
    assert NameOf(i)[0] == NameOf(j)[0] && NameOf(i)[1] == NameOf(j)[1];
  }

  /** The first `k` entries, each with one block behind that of the one before. */
  function Files(k: nat): (files: seq<Entry>)
    requires k <= ENTRIES
    ensures |files| == k && forall i | 0 <= i < k :: files[i] == Used(NameOf(i), i + 1, 1)
  {
    seq(k, i requires 0 <= i < k => Used(NameOf(i), i + 1, 1))
  }

  function DirectoryOf(k: nat): seq<Entry>
    requires k <= ENTRIES
  {
    if k < ENTRIES then Directory(Files(k)) else Files(ENTRIES)
  }

  lemma SearchPasses(q: seq<Entry>, i: nat)
    requires i < |q| && forall j | 0 <= j < |q| :: !q[j].EndMarker?
    requires q[i].Used? && q[i].start == i + 1 && q[i].blocks == 1 && i < ENTRIES
    ensures Search(q, i, i + 1, 1, DISK / 2) == Search(q, i + 1, i + 2, 1, DISK / 2)
  {
    assert Sub64(i + 1, i + 1) == 0;
  }

  lemma SearchEnds(q: seq<Entry>)
    requires |q| < ENTRIES && forall j | 0 <= j < |q| :: !q[j].EndMarker?
    ensures Search(q, |q|, |q| + 1, 1, DISK / 2) == |q| + 1
  {
    assert Sub64(100, 1) == 99;
    assert Sub64(99, |q| + 1) == 98 - |q|;
  }

  lemma {:induction false} SearchFiles(k: nat, i: nat)
    requires i <= k < ENTRIES
    ensures Search(Files(k), i, i + 1, 1, DISK / 2) == k + 1
    decreases k - i
  {
    hide Search, Files;
    if i < k {
      SearchPasses(Files(k), i);
      SearchFiles(k, i + 1);
    } else {
      SearchEnds(Files(k));
    }
  }

  lemma FilesAreSorted(k: nat)
    requires k < ENTRIES
    ensures IsQsort(DirectoryOf(k)[..NumUsed(DirectoryOf(k))], Files(k))
  {
    hide Files, Directory, EndOf, NumUsed, NameOf, StartingBlockCmp;
    var files := Files(k);
    forall i, j | 0 <= i < j < k ensures StartingBlockCmp(files[i], files[j]) <= 0 {
      CmpIsOrder(files[i], files[j], DISK);
    }
  }

  function Creation(k: nat): Command
    requires k < ENTRIES
  {
    CreateFile(NameOf(k), 2, Files(k))
  }

  lemma NameIsNew(k: nat)
    requires k < ENTRIES
    ensures forall i | 0 <= i < k :: Files(k)[i].name != NameOf(k)
  {
    hide Files, NameOf;
    forall i | 0 <= i < k ensures Files(k)[i].name != NameOf(k) {
      if NameOf(i) == NameOf(k) {
        NamesDiffer(i, k);
      }
    }
  }

  /** One more file. */
  lemma CreateNext(k: nat)
    requires k < ENTRIES
    ensures Leads(DirectoryOf(k), Creation(k), DirectoryOf(k + 1))
  {
    hide Search, IsQsort, Files, Directory, Create, NumUsed, NameOf;
    FilesAreSorted(k);
    NameIsNew(k);
    SearchFiles(k, 0);
    var file := Used(NameOf(k), k + 1, 1);
    if k + 1 < ENTRIES {
      CreateStep(Files(k), k, DISK, NameOf(k), 2, Files(k), k + 1);
      assert WithFile(Files(k), k, file) == Files(k + 1);
    } else {
      LastCreate();
    }
  }

  /** The last entry takes the end marker's place, and there is none behind it. */
  lemma LastCreate()
    ensures Create(Directory(Files(63)), DISK, NameOf(63), 2, Files(63)) == (Files(64), Created(64))
  {
    hide Search, Files, Directory, EndOf, SlotOf, FirstFree, NameOf;
    var files, file := Files(63), Used(NameOf(63), 64, 1);
    var d := Directory(files);
    NameIsNew(63);
    SearchFiles(63, 0);
    assert forall i | 0 <= i < 63 :: d[i] == files[i];
    assert SlotOf(d, NameOf(63)).None?;
    assert !d[63].Used?;
    assert FirstFree(d) == Some(63);
    assert d[63 := file] == Files(64);
  }

  function Creations(k: nat): seq<Command>
    requires k <= ENTRIES
    decreases ENTRIES - k
  {
    if k == ENTRIES then [] else [Creation(k)] + Creations(k + 1)
  }

  lemma {:induction false} FillUp(k: nat, run: seq<Command>)
    requires k <= ENTRIES && AllPossible(Files(ENTRIES), DISK, run)
    ensures AllPossible(DirectoryOf(k), DISK, Creations(k) + run)
    ensures Run(DirectoryOf(k), DISK, Creations(k) + run) == Run(Files(ENTRIES), DISK, run)
    decreases ENTRIES - k
  {
    hide Leads, DirectoryOf, Files, Creation, Creations, Run, AllPossible;
    CreationsUnfold(k, run);
    if k == ENTRIES {
      FullIs();
    } else {
      CreateNext(k);
      FillUp(k + 1, run);
      Follow(DirectoryOf(k), Creation(k), DirectoryOf(k + 1), Creations(k + 1) + run);
    }
  }

  lemma CreationsUnfold(k: nat, run: seq<Command>)
    requires k <= ENTRIES
    ensures k == ENTRIES ==> Creations(k) + run == run
    ensures k < ENTRIES ==> Creations(k) + run == [Creation(k)] + (Creations(k + 1) + run)
  {
    hide Creation;
  }

  lemma FullIs()
    ensures DirectoryOf(ENTRIES) == Files(ENTRIES)
  {
  }

  /** A full directory with entry `i` deleted. */
  function Holed(i: nat): seq<Entry>
    requires i < ENTRIES
  {
    Files(ENTRIES)[i := Deleted(i + 1, 1)]
  }

  lemma DeleteLeads(i: nat)
    requires i < ENTRIES
    ensures Leads(Files(ENTRIES), DeleteFile(NameOf(i)), Holed(i))
  {
    hide Files, EndOf, SlotOf, NameOf;
    var d := Files(ENTRIES);
    EndOfIs(d, ENTRIES);
    forall j | 0 <= j < i ensures d[j].name != NameOf(i) {
      if NameOf(j) == NameOf(i) {
        NamesDiffer(j, i);
      }
    }
    assert d[i].name == NameOf(i);
    assert SlotOf(d, NameOf(i)) == Some(i);
  }

  /** From a formatted disk, 64 creates and one delete lead to a directory without an end marker. */
  lemma NoMarkerIsReached(i: nat)
    requires i < ENTRIES
    ensures var run := Creations(0) + ([DeleteFile(NameOf(i))] + []);
            && AllPossible(Directory([]), DISK, run) && Run(Directory([]), DISK, run) == Holed(i)
    ensures Sound(Holed(i), DISK) && EndOf(Holed(i)) == ENTRIES && FirstFree(Holed(i)) == Some(i)
  {
    DeleteLeads(i);
    Follow(Files(ENTRIES), DeleteFile(NameOf(i)), Holed(i), []);
    FillUp(0, [DeleteFile(NameOf(i))] + []);
    assert DirectoryOf(0) == Directory([]) by { assert Files(0) == []; }
    HoledIsSound(i);
  }

  lemma HoledIsSound(i: nat)
    requires i < ENTRIES
    ensures Sound(Holed(i), DISK) && EndOf(Holed(i)) == ENTRIES && FirstFree(Holed(i)) == Some(i)
  {
    hide Files, EndOf, FirstFree, NameOf;
    var d := Holed(i);
    EndOfIs(d, ENTRIES);
    assert d[..ENTRIES] == d;
    assert forall j | 0 <= j < ENTRIES && j != i :: d[j] == Used(NameOf(j), j + 1, 1);
    assert !d[i].Used?;
  }

  /** There the next create goes over the file at block 1, or cuts all other files off if the first one was deleted. */
  lemma NextCreateFails(i: nat)
    requires i < ENTRIES
    ensures IsQsort(Holed(i)[..NumUsed(Holed(i))], [])
    ensures var (e, r) := Create(Holed(i), DISK, "new", 2, []);
            && r == Created(1) && !Keeps(Holed(i), e, DISK)
            && (if i == 0 then EndOf(e) == 1 else !Fits(Holed(i), DISK / 2, 1, 1))
  {
    hide Keeps, Sound, Fits, Create;
    HoledIsSound(i);
    NewIsNew(i);
    assert Holed(i)[..NumUsed(Holed(i))] == [];
    NoMarkerMisleads(Holed(i), DISK, "new", 2, [], if i == 0 then 1 else 0);
  }

  lemma NewIsNew(i: nat)
    requires i < ENTRIES
    ensures SlotOf(Holed(i), "new").None?
  {
    assert forall j | 0 <= j < ENTRIES && j != i :: |Holed(i)[j].name| == 2;
  }
}
