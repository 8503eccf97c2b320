/**
  The arena the kernel gives the buddy allocator: `init_mm(0x600000, 0x2700000)` puts the nodes
  at 0x600000 and the blocks at 0x2700000, so what lies between is all the room for nodes. It is
  enough for requests from 129 bytes up, and for smaller ones it is not.
 */
module BuddyKernel {
  import opened Words
  import opened Allocator
  import opened PowersOfTwo
  import opened BuddyTree
  import opened BuddySlots
  import opened BuddyHeap
  import opened BuddyArena

  const NODE_BASE: nat := 0x60_0000
  const REGION: nat := 0x270_0000
  /** `sizeof(Node)`: six fields of eight bytes. */
  const NODE_BYTES: nat := 48
  const CELLS: nat := 720896

  /** `CELLS` nodes, and no more, lie below the block region, which starts at the address that equals its size. */
  lemma CellsBelowRegion()
    ensures NODE_BASE + CELLS * NODE_BYTES <= Init(REGION).start < NODE_BASE + (CELLS + 1) * NODE_BYTES
  {
  }

  // ---- Powers and halves -------------------------------------------------

  function Power(d: nat): (p: nat)
    ensures p > 0
  {
    if d == 0 then 1 else 2 * Power(d - 1)
  }

  /** The size of the kernel's blocks at depth `d`. */
  function SizeAt(d: nat): nat {
    if d == 0 then REGION else SizeAt(d - 1) / 2
  }

  lemma Powers()
    ensures Power(17) == 0x2_0000 && Power(18) == 0x4_0000 && Power(19) == 0x8_0000
  {
    assert Power(4) == 16;
    assert Power(8) == 256;
    assert Power(12) == 0x1000;
    assert Power(16) == 0x1_0000;
  }

  lemma Sizes()
    ensures SizeAt(17) == 312 && SizeAt(18) == 156 && SizeAt(19) == 78 && SizeAt(20) == 39
  {
    assert SizeAt(4) == 2555904;
    assert SizeAt(8) == 159744;
    assert SizeAt(12) == 9984;
    assert SizeAt(16) == 624;
    assert SizeAt(18) == 156;
  }

  lemma {:induction false} SizesArePow2(d: nat)
    requires IsPow2(REGION) && SizeAt(d) >= 1
    ensures IsPow2(SizeAt(d))
    decreases d
  {
    if d > 0 {
      SizesArePow2(d - 1);
    }
  }

  /** The kernel's region is 39 * 2^20 bytes, so its `mem_allocated` can be wrong. */
  lemma KernelMiscounts() returns (calls: seq<Call>)
    ensures !IsPow2(REGION) && !Accounted(Run(Init(REGION), calls))
  {
    Sizes();
    assert !IsPow2(39);
    if IsPow2(REGION) {
      SizesArePow2(20);
      assert false;
    }
    calls := OverCount(REGION);
  }

  /** The size of the block that malloc cuts from a free one. */
  function CutSize(size: nat, bytes: nat): nat
    requires bytes > 0
    decreases size
  {
    if size / 2 < bytes then size else CutSize(size / 2, bytes)
  }

  lemma {:induction false} CutIsLive(start: nat, size: nat, bytes: nat)
    requires 0 < bytes <= size && start > 0
    ensures var (t, a) := Take(FreeLeaf, start, size, bytes);
            a == start && Live(t, start, size) == {Block(start, CutSize(size, bytes))}
    decreases size
  {
    if size / 2 >= bytes {
      CutIsLive(start, size / 2, bytes);
    }
  }

  lemma {:induction false} CutSizeAt(d: nat, bytes: nat)
    requires 0 < bytes && (d > 0 ==> bytes <= SizeAt(d))
    ensures CutSize(REGION, bytes) == CutSize(SizeAt(d), bytes)
    decreases d
  {
    if d > 0 {
      CutSizeAt(d - 1, bytes);
    }
  }

  lemma PageIsCut()
    ensures Rounded(4096) == 4096 && CutSize(REGION, 4096) == 4992
  {
    assert IsPow2(16) && IsPow2(256) && IsPow2(4096);
    BitTrick(4096);
    assert SizeAt(4) == 2555904;
    assert SizeAt(8) == 159744;
    assert SizeAt(12) == 9984;
    assert SizeAt(13) == 4992;
    CutSizeAt(13, 4096);
  }

  lemma PageIsLive()
    ensures var (h, a) := Malloc(Init(REGION), 4096);
            a == REGION && h.memAllocated == 4096 && BuddyHeap.Valid(h) && LiveBlocks(h) == {Block(REGION, 4992)}
  {
    hide Live, Take;
    PageIsCut();
    CutIsLive(REGION, REGION, 4096);
    var b, g := MallocContract(Init(REGION), 4096);
  }

  /** In the kernel one malloc of 4096 bytes and its free leave the counter 896 below 0, in 64 bits. */
  lemma KernelWraps()
    ensures var (h, a) := Malloc(Init(REGION), 4096);
            a == REGION && h.memAllocated == 4096 && BuddyHeap.Free(h, a).memAllocated == 0xffff_ffff_ffff_fc80
  {
    hide *;
    PageIsLive();
    ReleaseWraps(Malloc(Init(REGION), 4096).0);
  }

  lemma ReleaseWraps(h: Heap)
    requires BuddyHeap.Valid(h) && h.memAllocated == 4096 && LiveBlocks(h) == {Block(REGION, 4992)}
    ensures BuddyHeap.Free(h, REGION).memAllocated == 0xffff_ffff_ffff_fc80
  {
    hide BuddyHeap.Valid, LiveBlocks, BuddyHeap.Free;
    assert Block(REGION, 4992) in LiveBlocks(h);
    FreeCounts(h, REGION);
    BelowZero(BuddyHeap.Free(h, REGION).memAllocated);
  }

  lemma BelowZero(x: nat)
    requires x < TWO_TO_THE_64 && (x + 4992) % TWO_TO_THE_64 == 4096
    ensures x == 0xffff_ffff_ffff_fc80
  {
    assert (x + 4992) / TWO_TO_THE_64 == 1;
  }

  // ---- How deep a request reaches ----------------------------------------

  /** The cells an arena needs so that under index `i` a block of `size` can be halved for a request of `bytes`. */
  ghost function Needed(i: nat, size: nat, bytes: nat): nat
    requires bytes > 0
    decreases size
  {
    if size / 2 < bytes then Slot(i) + 1 else Needed(2 * i + 2, size / 2, bytes)
  }

  lemma {:induction false} NeededGrows(i: nat, j: nat, size: nat, bytes: nat)
    requires i <= j && bytes > 0
    ensures Slot(i) < Needed(i, size, bytes) <= Needed(j, size, bytes)
    decreases size
  {
    hide Slot;
    if i < j {
      SlotIncreases(i, j);
    }
    if size / 2 >= bytes {
      SlotIncreases(i, 2 * i + 2);
      NeededGrows(2 * i + 2, 2 * j + 2, size / 2, bytes);
    }
  }

  /** The children fit if the block may be halved, or if they are there already. */
  lemma FitsChildren(length: nat, i: nat, size: nat, bytes: nat)
    requires bytes > 0 && Needed(i, size, bytes) <= length && (size / 2 >= bytes || Slot(2 * i + 2) < length)
    ensures Needed(2 * i + 1, size / 2, bytes) <= length && Needed(2 * i + 2, size / 2, bytes) <= length
    ensures Slot(2 * i + 1) < length && Slot(2 * i + 2) < length
  {
    NeededGrows(2 * i + 1, 2 * i + 2, size / 2, bytes);
    NeededGrows(2 * i + 2, 2 * i + 2, size / 2, bytes);
  }

  /** With that many cells there is room for the tree after the request, if there was for the tree before. */
  lemma {:induction false} NeededIsRoom(length: nat, i: nat, t: Tree, start: nat, size: nat, bytes: nat)
    requires bytes > 0 && Needed(i, size, bytes) <= length && Room(length, i, t)
    ensures Room(length, i, Take(t, start, size, bytes).0)
    decreases t, size
  {
    if t.Split? {
      FitsChildren(length, i, size, bytes);
      NeededIsRoom(length, 2 * i + 1, t.left, start, size / 2, bytes);
      NeededIsRoom(length, 2 * i + 2, t.right, start + size / 2, size / 2, bytes);
    } else if t.FreeLeaf? && size / 2 >= bytes {
      FitsChildren(length, i, size, bytes);
      NeededIsRoom(length, 2 * i + 1, FreeLeaf, start, size / 2, bytes);
    }
  }

  /** free never needs more room. */
  lemma {:induction false} GiveKeepsRoom(length: nat, i: nat, t: Tree, start: nat, size: nat, addr: nat)
    requires Room(length, i, t)
    ensures Room(length, i, Give(t, start, size, addr))
    decreases t
  {
    if t.Split? {
      GiveKeepsRoom(length, 2 * i + 1, t.left, start, size / 2, addr);
      GiveKeepsRoom(length, 2 * i + 2, t.right, start + size / 2, size / 2, addr);
    }
  }

  /** The slot at depth `d` of the rightmost path. */
  lemma {:induction false} RightmostSlot(d: nat)
    ensures Slot(2 * Power(d) - 2) == 4 * Power(d) - 4 - 2 * d
    decreases d
  {
    if d > 0 {
      RightmostSlot(d - 1);
      ChildSlots(2 * Power(d - 1) - 2);
    }
  }

  lemma {:induction false} NeededAt(d: nat, bytes: nat)
    requires 0 < bytes && (d > 0 ==> bytes <= SizeAt(d))
    ensures Needed(0, REGION, bytes) == Needed(2 * Power(d) - 2, SizeAt(d), bytes)
    decreases d
  {
    if d > 0 {
      NeededAt(d - 1, bytes);
    }
  }

  lemma {:induction false} NeededShrinks(i: nat, size: nat, a: nat, b: nat)
    requires 0 < a <= b
    ensures Needed(i, size, b) <= Needed(i, size, a)
    decreases size
  {
    if size / 2 >= b {
      NeededShrinks(2 * i + 2, size / 2, a, b);
    } else {
      NeededGrows(i, i, size, a);
    }
  }

  /** The kernel's arena has room for a request in every tree iff `malloc_rec` is asked for more than 156 bytes. */
  lemma KernelRoomIff(bytes: nat)
    requires bytes > 0
    ensures Needed(0, REGION, bytes) <= CELLS <==> bytes > 156
  {
    hide Slot, Power, SizeAt;
    Powers();
    Sizes();
    if bytes > 156 {
      NeededAt(17, 157);
      RightmostSlot(17);
      NeededShrinks(0, REGION, 157, bytes);
    } else {
      NeededAt(18, 156);
      RightmostSlot(18);
      NeededShrinks(0, REGION, bytes, 156);
    }
  }

  /** A request of more than 128 bytes is rounded to at least 256 and finds its room. */
  lemma KernelHasRoom(h: Heap, bytes: nat)
    requires h.size == REGION && Room(CELLS, 0, h.root) && bytes > 128
    ensures Room(CELLS, 0, Malloc(h, bytes).0.root)
  {
    RoundedIsPow2(bytes);
    assert IsPow2(256);
    if Rounded(bytes) < 256 {
      Pow2Squeeze(Rounded(bytes), 256);
    }
    KernelRoomIff(Rounded(bytes));
    NeededIsRoom(CELLS, 0, h.root, h.start, h.size, Rounded(bytes));
  }

  /** In every run of such requests and of frees, every malloc finds its room in the kernel's arena. */
  lemma {:induction false} KernelRunsHaveRoom(h: Heap, calls: seq<Call>)
    requires h.size == REGION && Room(CELLS, 0, h.root)
    requires forall c | c in calls :: c.MallocCall? ==> c.bytes > 128
    ensures Room(CELLS, 0, Run(h, calls).root)
    decreases |calls|
  {
    if calls != [] {
      match calls[0] {
        case MallocCall(n) => KernelHasRoom(h, n);
        case FreeCall(a) => GiveKeepsRoom(CELLS, 0, h.root, h.start, h.size, a);
      }
      KernelRunsHaveRoom(Step(h, calls[0]), calls[1..]);
    }
  }

  /** From `init_mm` on, runs with requests of more than 128 bytes stay in the kernel's arena. */
  lemma KernelArenaSuffices(calls: seq<Call>)
    requires forall c | c in calls :: c.MallocCall? ==> c.bytes > 128
    ensures Room(CELLS, 0, Run(Init(REGION), calls).root)
  {
    KernelRunsHaveRoom(Init(REGION), calls);
  }

  // ---- Where it runs over ------------------------------------------------

  /** The index of the block that malloc cuts from a free one. */
  function Cut(i: nat, size: nat, bytes: nat): nat
    requires bytes > 0
    decreases size
  {
    if size / 2 < bytes then i else Cut(2 * i + 1, size / 2, bytes)
  }

  lemma {:induction false} LeftmostSlot(d: nat)
    ensures Slot(Power(d) - 1) == 2 * Power(d) - 2 - d
    decreases d
  {
    if d > 0 {
      LeftmostSlot(d - 1);
      ChildSlots(Power(d - 1) - 1);
    }
  }

  lemma {:induction false} CutAt(d: nat, bytes: nat)
    requires 0 < bytes && (d > 0 ==> bytes <= SizeAt(d))
    ensures Cut(0, REGION, bytes) == Cut(Power(d) - 1, SizeAt(d), bytes)
    decreases d
  {
    if d > 0 {
      CutAt(d - 1, bytes);
    }
  }

  /** The same two in the right half of the region. */
  lemma {:induction false} RightHalfSlot(d: nat)
    ensures Slot(3 * Power(d) - 1) == 6 * Power(d) - 4 - d
    decreases d
  {
    if d > 0 {
      RightHalfSlot(d - 1);
      ChildSlots(3 * Power(d - 1) - 1);
    } else {
      assert Slot(2) == 2;
    }
  }

  lemma {:induction false} RightHalfCutAt(d: nat, bytes: nat)
    requires 0 < bytes && (d > 0 ==> bytes <= SizeAt(d + 1))
    ensures Cut(2, REGION / 2, bytes) == Cut(3 * Power(d) - 1, SizeAt(d + 1), bytes)
    decreases d
  {
    if d > 0 {
      RightHalfCutAt(d - 1, bytes);
    } else {
      assert SizeAt(1) == SizeAt(0) / 2;
    }
  }

  lemma {:induction false} CutBelow(i: nat, size: nat, bytes: nat)
    requires bytes > 0
    ensures i <= Cut(i, size, bytes)
    decreases size
  {
    if size / 2 >= bytes {
      CutBelow(2 * i + 1, size / 2, bytes);
    }
  }

  lemma {:induction false} CutShrinks(i: nat, size: nat, a: nat, b: nat)
    requires 0 < a <= b
    ensures Cut(i, size, b) <= Cut(i, size, a)
    decreases size
  {
    if size / 2 >= b {
      CutShrinks(2 * i + 1, size / 2, a, b);
    } else {
      CutBelow(i, size, a);
    }
  }

  /** Room for the tree after a cut is room for the cut's own cell. */
  lemma {:induction false} CutNeedsRoom(length: nat, i: nat, start: nat, size: nat, bytes: nat)
    requires 0 < bytes <= size && Room(length, i, Take(FreeLeaf, start, size, bytes).0)
    ensures Slot(Cut(i, size, bytes)) < length
    decreases size
  {
    if size / 2 >= bytes {
      CutNeedsRoom(length, 2 * i + 1, start, size / 2, bytes);
    }
  }

  lemma RoundedBelow(n: nat, p: nat)
    requires IsPow2(p) && n <= p
    ensures Rounded(n) <= p && (p / 2 < n ==> Rounded(n) == p)
  {
    RoundedIsPow2(n);
    if Rounded(n) > p {
      Pow2Squeeze(p, Rounded(n));
    } else if p / 2 < n {
      Pow2Squeeze(Rounded(n), p);
    }
  }

  lemma SmallCut(bytes: nat)
    requires 0 < bytes <= 64
    ensures Slot(Cut(0, REGION, bytes)) >= CELLS
  {
    hide Slot, Power, SizeAt;
    Powers();
    Sizes();
    CutAt(19, 64);
    LeftmostSlot(19);
    CutShrinks(0, REGION, bytes, 64);
    if Cut(0, REGION, 64) < Cut(0, REGION, bytes) {
      SlotIncreases(Cut(0, REGION, 64), Cut(0, REGION, bytes));
    }
  }

  /** A first request of at most 64 bytes needs a node inside the block region. */
  lemma SmallRequestRunsOver(n: nat)
    requires n <= 64
    ensures !Room(CELLS, 0, Malloc(Init(REGION), n).0.root)
  {
    RoundedIsPow2(n);
    assert IsPow2(64);
    RoundedBelow(n, 64);
    SmallCut(Rounded(n));
    if Room(CELLS, 0, Malloc(Init(REGION), n).0.root) {
      CutNeedsRoom(CELLS, 0, REGION, REGION, Rounded(n));
      assert false;
    }
  }

  /** The tree after a request of 16 MiB and one of 65 to 128 bytes. */
  lemma TwoRequests(n: nat)
    requires 64 < n <= 128
    ensures Run(Init(REGION), [MallocCall(0x100_0000), MallocCall(n)]).root
            == Split(UsedLeaf, Take(FreeLeaf, REGION + REGION / 2, REGION / 2, 128).0)
  {
    assert IsPow2(128);
    RoundedBelow(n, 128);
    LargePower();
    var h := Malloc(Init(REGION), 0x100_0000).0;
    assert h.root == Split(UsedLeaf, FreeLeaf);
    RunOfTwo(Init(REGION), MallocCall(0x100_0000), MallocCall(n));
  }

  lemma {:induction false} PowerIsPow2(d: nat)
    ensures IsPow2(Power(d))
  {
    if d > 0 {
      PowerIsPow2(d - 1);
    }
  }

  lemma LargePower()
    ensures Rounded(0x100_0000) == 0x100_0000
  {
    Powers();
    assert Power(22) == 0x40_0000;
    assert Power(24) == 0x100_0000;
    PowerIsPow2(24);
    BitTrick(0x100_0000);
  }

  lemma RunOfTwo(h: Heap, a: Call, b: Call)
    ensures Run(h, [a, b]) == Step(Step(h, a), b)
  {
    assert [a, b][1..] == [b] && [b][1..] == [];
    assert Run(h, [a, b]) == Run(Step(h, a), [b]);
    assert Run(Step(h, a), [b]) == Run(Step(Step(h, a), b), []);
  }

  /** A request of 65 to 128 bytes does when it comes behind one of 16 MiB. */
  lemma SecondRequestRunsOver(n: nat)
    requires 64 < n <= 128
    ensures !Room(CELLS, 0, Run(Init(REGION), [MallocCall(0x100_0000), MallocCall(n)]).root)
  {
    hide Run, Take, Slot, Power, SizeAt;
    TwoRequests(n);
    Powers();
    Sizes();
    RightHalfCutAt(17, 128);
    RightHalfSlot(17);
    if Room(CELLS, 0, Run(Init(REGION), [MallocCall(0x100_0000), MallocCall(n)]).root) {
      CutNeedsRoom(CELLS, 2, REGION + REGION / 2, REGION / 2, 128);
      assert false;
    }
  }
}
