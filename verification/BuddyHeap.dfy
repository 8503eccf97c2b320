/**
  `malloc`, `free` and `mem_allocated` of Kernel/memory_manager/mem_buddy.c over
  whole runs. Machine integers: addresses and sizes are 64 bits wide, so the one
  counter that can leave its range, `mem_allocated`, is kept modulo 2^64.
 */
module BuddyHeap {
  import opened Words
  import opened Allocator
  import opened PowersOfTwo
  import opened BuddyTree

  /** The allocator's state; `memAllocated` is the C global `mem_allocated`. */
  datatype Heap = Heap(root: Tree, start: nat, size: nat, memAllocated: nat)

  /** `init_mm`: the block region starts at the address that equals its size. */
  function Init(memory: nat): Heap {
    Heap(FreeLeaf, memory, memory, 0)
  }

  /** The rounding loop of `malloc`: double `i` until it reaches `bytes`. */
  function Double(i: nat, bytes: nat): nat
    requires i > 0
    decreases bytes - i
  {
    if i < bytes then Double(2 * i, bytes) else i
  }

  /** The size `malloc` asks the tree for. */
  function Rounded(bytes: nat): nat {
    if bytes != 0 && BitAnd(bytes, bytes - 1) == 0 then bytes else Double(1, bytes)
  }

  function Malloc(h: Heap, bytes: nat): (Heap, nat) {
    if h.size < bytes then (h, NULL)
    else
      RoundedIsPow2(bytes);
      var (t, a) := Take(h.root, h.start, h.size, Rounded(bytes));
      (h.(root := t,
          memAllocated := if a == NULL then h.memAllocated else (h.memAllocated + Rounded(bytes)) % TWO_TO_THE_64), a)
  }

  function Free(h: Heap, addr: nat): Heap {
    h.(root := Give(h.root, h.start, h.size, addr),
       memAllocated := (h.memAllocated - GivenBack(h.root, h.start, h.size, addr)) % TWO_TO_THE_64)
  }

  ghost function LiveBlocks(h: Heap): set<Block> {
    Live(h.root, h.start, h.size)
  }

  /** What every run keeps: a fully coalesced tree over a region that does not start at NULL. */
  ghost predicate Valid(h: Heap) {
    Tidy(h.root, h.size) && (h.size > 0 ==> h.start > 0)
  }

  // ---- Rounding ----------------------------------------------------------

  lemma {:induction false} DoubleIsLeast(i: nat, bytes: nat)
    requires IsPow2(i) && (i == 1 || i / 2 < bytes)
    ensures var r := Double(i, bytes);
            IsPow2(r) && bytes <= r && (r == 1 || r / 2 < bytes)
    decreases bytes - i
  {
    if i < bytes {
      Pow2Double(i);
      DoubleIsLeast(2 * i, bytes);
    }
  }

  /** A request is rounded to the least power of two that is not below it. */
  lemma RoundedIsPow2(bytes: nat)
    ensures var r := Rounded(bytes);
            IsPow2(r) && bytes <= r && (r == 1 || r / 2 < bytes)
  {
    BitTrick(bytes);
    DoubleIsLeast(1, bytes);
  }

  // ---- One call ----------------------------------------------------------

  /**
    malloc either fails and changes nothing, or hands out a fresh block at the
    left end of the leftmost gap that holds the rounded size. It fails iff no gap does.
   */
  lemma MallocContract(h: Heap, bytes: nat) returns (b: Block, g: Block)
    requires Valid(h)
    ensures var (h', a) := Malloc(h, bytes);
            && Valid(h')
            && (a == NULL <==> !HasFit(h.root, h.start, h.size, Rounded(bytes)))
            && (a == NULL ==> h' == h)
            && (a != NULL ==>
                  && a == b.start == g.start
                  && b.size / 2 < Rounded(bytes) <= b.size
                  && IsLeftmostFit(h.root, h.start, h.size, Rounded(bytes), g)
                  && Allocates(LiveBlocks(h), LiveBlocks(h'), bytes, b))
  {
    RoundedIsPow2(bytes);
    b, g := Block(0, 0), Block(0, 0);
    GapSizes(h.root, h.start, h.size);
    if HasFit(h.root, h.start, h.size, Rounded(bytes)) {
      b, g := TakeSucceeds(h.root, h.start, h.size, Rounded(bytes));
    } else if h.size >= bytes {
      TakeFails(h.root, h.start, h.size, Rounded(bytes));
    }
  }

  lemma {:induction false} GapSizes(t: Tree, start: nat, size: nat)
    ensures forall g | g in Gaps(t, start, size) :: g.size <= size
  {
    if t.Split? {
      GapSizes(t.left, start, size / 2);
      GapSizes(t.right, start + size / 2, size / 2);
    }
  }

  /** free releases the live block at `addr` if there is one, and otherwise changes nothing. */
  lemma FreeContract(h: Heap, addr: nat)
    requires Valid(h) && h.memAllocated < TWO_TO_THE_64
    ensures Valid(Free(h, addr))
    ensures (forall b | b in LiveBlocks(h) :: b.start != addr) ==> Free(h, addr) == h
    ensures forall b | b in LiveBlocks(h) && b.start == addr ::
              Releases(LiveBlocks(h), LiveBlocks(Free(h, addr)), b)
  {
    GiveRemoves(h.root, h.start, h.size, addr);
    LiveIsSafe(h.root, h.start, h.size);
    GivenBackIsBlock(h.root, h.start, h.size, addr);
    if forall b | b in LiveBlocks(h) :: b.start != addr {
      GiveMisses(h.root, h.start, h.size, addr);
    }
    forall b | b in LiveBlocks(h) && b.start == addr
      ensures Releases(LiveBlocks(h), LiveBlocks(Free(h, addr)), b)
    {
      forall c | c in LiveBlocks(h) && c != b ensures c.start != addr {
        assert Separate(b, c);
      }
      assert LiveBlocks(Free(h, addr)) == LiveBlocks(h) - {b};
    }
  }

  /** `mem_allocated` drops by the size of the block that is released. */
  lemma {:induction false} GivenBackIsBlock(t: Tree, start: nat, size: nat, addr: nat)
    requires Tidy(t, size)
    ensures var n := GivenBack(t, start, size, addr); n != 0 ==> Block(addr, n) in Live(t, start, size)
    ensures forall b | b in Live(t, start, size) && b.start == addr :: GivenBack(t, start, size, addr) == b.size
  {
    if t.Split? {
      var mid := start + size / 2;
      LiveIsSafe(t.left, start, size / 2);
      LiveIsSafe(t.right, mid, size / 2);
      GivenBackIsBlock(t.left, start, size / 2, addr);
      GivenBackIsBlock(t.right, mid, size / 2, addr);
    }
  }

  // ---- Runs --------------------------------------------------------------

  datatype Call = MallocCall(bytes: nat) | FreeCall(addr: nat)

  function Step(h: Heap, c: Call): Heap {
    match c
    case MallocCall(n) => Malloc(h, n).0
    case FreeCall(a) => Free(h, a)
  }

  function Run(h: Heap, calls: seq<Call>): Heap
    decreases |calls|
  {
    if calls == [] then h else Run(Step(h, calls[0]), calls[1..])
  }

  /** After any run the live blocks are disjoint, non-empty and inside the region. */
  lemma {:induction false} RunsAreSafe(h: Heap, calls: seq<Call>)
    requires Valid(h) && h.memAllocated < TWO_TO_THE_64
    ensures var h' := Run(h, calls);
            && Valid(h') && h'.start == h.start && h'.size == h.size
            && h'.memAllocated < TWO_TO_THE_64
            && Safe(LiveBlocks(h'), h.start, h.start + h.size)
    decreases |calls|
  {
    if calls == [] {
      LiveIsSafe(h.root, h.start, h.size);
    } else {
      match calls[0] {
        case MallocCall(n) => var b, g := MallocContract(h, n);
        case FreeCall(a) => FreeContract(h, a);
      }
      RunsAreSafe(Step(h, calls[0]), calls[1..]);
    }
  }

  /** The tree does not remember its history: equal live blocks, equal trees. */
  lemma RunsAreCanonical(memory: nat, calls: seq<Call>, others: seq<Call>)
    requires LiveBlocks(Run(Init(memory), calls)) == LiveBlocks(Run(Init(memory), others))
    ensures Run(Init(memory), calls).root == Run(Init(memory), others).root
  {
    RunsAreSafe(Init(memory), calls);
    RunsAreSafe(Init(memory), others);
    TreeIsCanonical(Run(Init(memory), calls).root, Run(Init(memory), others).root, memory, memory);
  }

  /** On any reachable heap, free undoes malloc on the whole tree. */
  lemma RunsUndo(memory: nat, calls: seq<Call>, bytes: nat)
    ensures var h := Run(Init(memory), calls);
            var (h', a) := Malloc(h, bytes);
            a != NULL ==> Free(h', a).root == h.root
  {
    RunsAreSafe(Init(memory), calls);
    var h := Run(Init(memory), calls);
    RoundedIsPow2(bytes);
    if h.size >= bytes && h.size > 0 {
      GiveUndoesTake(h.root, h.start, h.size, Rounded(bytes));
    }
  }

  // ---- mem_allocated -----------------------------------------------------

  /** The sum of the sizes of the live blocks. */
  ghost function Total(t: Tree, size: nat): nat {
    match t
    case FreeLeaf => 0
    case UsedLeaf => size
    case Split(l, r) => Total(l, size / 2) + Total(r, size / 2)
  }

  lemma {:induction false} TotalFits(t: Tree, size: nat)
    ensures Total(t, size) <= size
  {
    if t.Split? {
      TotalFits(t.left, size / 2);
      TotalFits(t.right, size / 2);
    }
  }

  /** Under a power-of-two root, malloc adds exactly the rounded size. */
  lemma {:induction false} TakeAdds(t: Tree, start: nat, size: nat, bytes: nat)
    requires IsPow2(bytes) && IsPow2(size) && start > 0 && Tidy(t, size)
    ensures var (t', a) := Take(t, start, size, bytes);
            Total(t', size) == Total(t, size) + (if a == NULL then 0 else bytes)
    decreases t, size
  {
    if t.Split? {
      TakeFailsIff(t.left, start, size / 2, bytes);
      TakeAdds(t.left, start, size / 2, bytes);
      TakeAdds(t.right, start + size / 2, size / 2, bytes);
    } else if t.FreeLeaf? && bytes <= size {
      if size / 2 >= bytes {
        TakeAdds(FreeLeaf, start, size / 2, bytes);
      } else {
        Pow2Squeeze(bytes, size);
      }
    }
  }

  lemma {:induction false} GiveSubtracts(t: Tree, start: nat, size: nat, addr: nat)
    requires Tidy(t, size)
    ensures Total(t, size) == Total(Give(t, start, size, addr), size) + GivenBack(t, start, size, addr)
  {
    if t.Split? {
      var mid := start + size / 2;
      GiveSubtracts(t.left, start, size / 2, addr);
      GiveSubtracts(t.right, mid, size / 2, addr);
      GiveRemoves(t.left, start, size / 2, addr);
      GiveRemoves(t.right, mid, size / 2, addr);
      TidyFree(Give(t.left, start, size / 2, addr), size / 2);
      TidyFree(Give(t.right, mid, size / 2, addr), size / 2);
      TidyFree(t.left, size / 2);
      TidyFree(t.right, size / 2);
    }
  }

  /** `mem_allocated` is the sum of the live blocks. */
  ghost predicate Accounted(h: Heap) {
    h.memAllocated == Total(h.root, h.size)
  }

  lemma MallocAccounts(h: Heap, bytes: nat)
    requires Valid(h) && IsPow2(h.size) && h.size < TWO_TO_THE_64 && Accounted(h)
    ensures Accounted(Malloc(h, bytes).0)
  {
    RoundedIsPow2(bytes);
    TakeAdds(h.root, h.start, h.size, Rounded(bytes));
    TotalFits(Malloc(h, bytes).0.root, h.size);
  }

  lemma FreeAccounts(h: Heap, addr: nat)
    requires Valid(h) && h.size < TWO_TO_THE_64 && Accounted(h)
    ensures Accounted(Free(h, addr))
  {
    GiveSubtracts(h.root, h.start, h.size, addr);
    TotalFits(h.root, h.size);
  }

  lemma {:induction false} RunsAccount(h: Heap, calls: seq<Call>)
    requires Valid(h) && IsPow2(h.size) && h.size < TWO_TO_THE_64 && Accounted(h)
    ensures Accounted(Run(h, calls))
    decreases |calls|
  {
    if calls != [] {
      TotalFits(h.root, h.size);
      match calls[0] {
        case MallocCall(n) =>
          MallocAccounts(h, n);
          var b, g := MallocContract(h, n);
        case FreeCall(a) =>
          FreeAccounts(h, a);
          FreeContract(h, a);
      }
      RunsAccount(Step(h, calls[0]), calls[1..]);
    }
  }

  /**
    `mem_allocated` is the sum of the live blocks after every run exactly when
    the region's size is a power of two (or there is no region at all).
    The kernel's region of 0x2700000 bytes is neither.
   */
  lemma AccountingIff(memory: nat)
    requires memory < TWO_TO_THE_64
    ensures (IsPow2(memory) || memory == 0)
            <==> forall calls :: Accounted(Run(Init(memory), calls))
  {
    if IsPow2(memory) {
      forall calls ensures Accounted(Run(Init(memory), calls)) {
        RunsAccount(Init(memory), calls);
      }
    } else if memory == 0 {
      forall calls ensures Accounted(Run(Init(memory), calls)) {
        EmptyRegion(Init(0), calls);
      }
    } else {
      var calls := OverCount(memory);
    }
  }

  lemma {:induction false} EmptyRegion(h: Heap, calls: seq<Call>)
    requires h == Init(0)
    ensures Run(h, calls) == h
    decreases |calls|
  {
    if calls != [] {
      match calls[0] {
        case MallocCall(n) => RoundedIsPow2(n);
        case FreeCall(a) =>
      }
      EmptyRegion(Step(h, calls[0]), calls[1..]);
    }
  }

  /** Elsewhere one malloc is enough: the whole region is taken for fewer bytes than it has. */
  lemma OverCount(memory: nat) returns (calls: seq<Call>)
    requires 0 < memory < TWO_TO_THE_64 && !IsPow2(memory)
    ensures !Accounted(Run(Init(memory), calls))
  {
    var p := Pow2Below(memory);
    BitTrick(p);
    calls := [MallocCall(p)];
    var h := Step(Init(memory), calls[0]);
    assert h == Heap(UsedLeaf, memory, memory, p);
    assert Run(h, []) == h;
    assert calls[1..] == [];
  }

  // ---- The counter over any region ---------------------------------------

  /** malloc adds the least power of two that is not below the request, in 64 bits, and nothing when it fails. */
  lemma MallocCounts(h: Heap, bytes: nat) returns (n: nat)
    ensures IsPow2(n) && bytes <= n && (n == 1 || n / 2 < bytes)
    ensures var (h', a) := Malloc(h, bytes);
            h'.memAllocated == if a == NULL then h.memAllocated else (h.memAllocated + n) % TWO_TO_THE_64
  {
    n := Rounded(bytes);
    RoundedIsPow2(bytes);
  }

  /** free takes off the size of the block released, in 64 bits, also below 0, and nothing when there is none. */
  lemma FreeCounts(h: Heap, addr: nat)
    requires Valid(h) && h.memAllocated < TWO_TO_THE_64
    ensures Free(h, addr).memAllocated < TWO_TO_THE_64
    ensures forall b | b in LiveBlocks(h) && b.start == addr ::
              (Free(h, addr).memAllocated + b.size) % TWO_TO_THE_64 == h.memAllocated
    ensures (forall b | b in LiveBlocks(h) :: b.start != addr) ==> Free(h, addr).memAllocated == h.memAllocated
  {
    GivenBackIsBlock(h.root, h.start, h.size, addr);
    var n := GivenBack(h.root, h.start, h.size, addr);
    WrapsBack(h.memAllocated, n);
    if forall b | b in LiveBlocks(h) :: b.start != addr {
      assert n == 0;
    }
  }

  lemma WrapsBack(x: nat, n: nat)
    requires x < TWO_TO_THE_64
    ensures 0 <= (x - n) % TWO_TO_THE_64 < TWO_TO_THE_64
    ensures ((x - n) % TWO_TO_THE_64 + n) % TWO_TO_THE_64 == x
  {
    var q := (x - n) / TWO_TO_THE_64;
    assert x - n == q * TWO_TO_THE_64 + (x - n) % TWO_TO_THE_64;
    SameRemainder(x, (x - n) % TWO_TO_THE_64 + n, q);
  }

  lemma SameRemainder(x: int, y: int, q: int)
    requires x == y + q * TWO_TO_THE_64
    ensures x % TWO_TO_THE_64 == y % TWO_TO_THE_64
  {
  }

  /** What a call hands out: the rounded request, if there is room. */
  ghost function HandedOut(h: Heap, c: Call): nat {
    if c.MallocCall? && Malloc(h, c.bytes).1 != NULL then Rounded(c.bytes) else 0
  }

  /** What a call releases: the size of the live block at the address, if there is one. */
  ghost function Released(h: Heap, c: Call): nat {
    if c.FreeCall? && exists b :: b in LiveBlocks(h) && b.start == c.addr
    then var b :| b in LiveBlocks(h) && b.start == c.addr; b.size
    else 0
  }

  ghost function AllHandedOut(h: Heap, calls: seq<Call>): nat
    decreases |calls|
  {
    if calls == [] then 0 else HandedOut(h, calls[0]) + AllHandedOut(Step(h, calls[0]), calls[1..])
  }

  ghost function AllReleased(h: Heap, calls: seq<Call>): nat
    decreases |calls|
  {
    if calls == [] then 0 else Released(h, calls[0]) + AllReleased(Step(h, calls[0]), calls[1..])
  }

  lemma StepCounts(h: Heap, c: Call)
    requires Valid(h) && h.memAllocated < TWO_TO_THE_64
    ensures Step(h, c).memAllocated < TWO_TO_THE_64
    ensures (Step(h, c).memAllocated + Released(h, c)) % TWO_TO_THE_64
            == (h.memAllocated + HandedOut(h, c)) % TWO_TO_THE_64
  {
    hide Malloc, Free, Rounded, LiveBlocks;
    match c {
      case MallocCall(n) => MallocAdds(h, n);
      case FreeCall(a) => FreeCounts(h, a);
    }
  }

  lemma MallocAdds(h: Heap, bytes: nat)
    requires h.memAllocated < TWO_TO_THE_64
    ensures var (h', a) := Malloc(h, bytes);
            h'.memAllocated == (h.memAllocated + if a == NULL then 0 else Rounded(bytes)) % TWO_TO_THE_64
  {
  }

  lemma AddBoth(x: nat, y: nat, a: nat, b: nat, c: nat, d: nat, z: nat)
    requires (y + a) % TWO_TO_THE_64 == (x + b) % TWO_TO_THE_64
    requires (z + c) % TWO_TO_THE_64 == (y + d) % TWO_TO_THE_64
    ensures (z + (a + c)) % TWO_TO_THE_64 == (x + (b + d)) % TWO_TO_THE_64
  {
    var p, q := (y + a) / TWO_TO_THE_64 - (x + b) / TWO_TO_THE_64, (z + c) / TWO_TO_THE_64 - (y + d) / TWO_TO_THE_64;
    assert y + a == x + b + p * TWO_TO_THE_64;
    assert z + c == y + d + q * TWO_TO_THE_64;
    assert z + (a + c) == x + (b + d) + (p + q) * TWO_TO_THE_64;
    SameRemainder(z + (a + c), x + (b + d), p + q);
  }

  /** Over every run and any region the counter is what was handed out less what was released, in 64 bits. */
  lemma {:induction false} RunsCount(h: Heap, calls: seq<Call>)
    requires Valid(h) && h.memAllocated < TWO_TO_THE_64
    ensures Run(h, calls).memAllocated < TWO_TO_THE_64
    ensures (Run(h, calls).memAllocated + AllReleased(h, calls)) % TWO_TO_THE_64
            == (h.memAllocated + AllHandedOut(h, calls)) % TWO_TO_THE_64
    decreases |calls|
  {
    hide Step, HandedOut, Released, Valid;
    if calls != [] {
      var t := Step(h, calls[0]);
      StepCounts(h, calls[0]);
      StepIsValid(h, calls[0]);
      RunsCount(t, calls[1..]);
      AddBoth(h.memAllocated, t.memAllocated, Released(h, calls[0]), HandedOut(h, calls[0]),
              AllReleased(t, calls[1..]), AllHandedOut(t, calls[1..]), Run(h, calls).memAllocated);
    }
  }

  lemma StepIsValid(h: Heap, c: Call)
    requires Valid(h) && h.memAllocated < TWO_TO_THE_64
    ensures Valid(Step(h, c))
  {
    match c {
      case MallocCall(n) => var b, g := MallocContract(h, n);
      case FreeCall(a) => FreeContract(h, a);
    }
  }

  // ---- Sizes and alignment -----------------------------------------------

  /** Under a power-of-two root every live block is a power of two, aligned to its own size. */
  lemma {:induction false} LiveIsAligned(t: Tree, start: nat, size: nat, b: Block) returns (k: nat)
    requires Tidy(t, size) && IsPow2(size) && b in Live(t, start, size)
    ensures IsPow2(b.size) && b.size <= size && b.start == start + k * b.size
  {
    if t.UsedLeaf? {
      k := 0;
    } else if b in Live(t.left, start, size / 2) {
      k := LiveIsAligned(t.left, start, size / 2, b);
    } else {
      var j := LiveIsAligned(t.right, start + size / 2, size / 2, b);
      var d := Pow2Divides(b.size, size / 2);
      k := j + d;
      Distributes(j, d, b.size);
    }
  }

  lemma Distributes(j: nat, d: nat, n: nat)
    ensures (j + d) * n == j * n + d * n
  {
  }

  /** Under a power-of-two root malloc hands out exactly the rounded size. */
  lemma MallocIsExact(h: Heap, bytes: nat) returns (b: Block)
    requires Valid(h) && IsPow2(h.size) && Malloc(h, bytes).1 != NULL
    ensures b == Block(Malloc(h, bytes).1, Rounded(bytes))
    ensures Allocates(LiveBlocks(h), LiveBlocks(Malloc(h, bytes).0), bytes, b)
  {
    var g;
    b, g := MallocContract(h, bytes);
    RoundedIsPow2(bytes);
    var k := LiveIsAligned(Malloc(h, bytes).0.root, h.start, h.size, b);
    Pow2Squeeze(Rounded(bytes), b.size);
  }
}
