/**
  The buddy allocator of Kernel/memory_manager/mem_buddy.c as a function on trees.

  A tree node knows neither its start nor its size here: both follow from the
  root's by halving, so they are passed down. `BuddyArena` proves that the
  pointer program keeps exactly such a tree in memory.
 */
module BuddyTree {
  import opened Allocator

  /** Address 0 stands for the C program's NULL. */
  const NULL: nat := 0

  datatype State = Free | Allocated | Partial

  datatype Tree =
    | FreeLeaf
    | UsedLeaf
    | Split(left: Tree, right: Tree)

  /** `check_state` for a node with two children. */
  function Merge(left: State, right: State): State {
    if right.Free? && left.Free? then Free
    else if left.Allocated? && right.Allocated? then Allocated
    else Partial
  }

  function StateOf(t: Tree): State {
    match t
    case FreeLeaf => Free
    case UsedLeaf => Allocated
    case Split(l, r) => Merge(StateOf(l), StateOf(r))
  }

  /** `malloc_rec`: the new tree and the address, NULL if nothing was taken. */
  function Take(t: Tree, start: nat, size: nat, bytes: nat): (Tree, nat)
    requires bytes > 0
    decreases t, size
  {
    if StateOf(t).Allocated? then (t, NULL)
    else if t.Split? then
      var (l, a) := Take(t.left, start, size / 2, bytes);
      if a != NULL then (Split(l, t.right), a)
      else
        var (r, b) := Take(t.right, start + size / 2, size / 2, bytes);
        (Split(l, r), b)
    else if bytes > size then (t, NULL)
    else if size / 2 >= bytes then
      var (l, a) := Take(FreeLeaf, start, size / 2, bytes);
      (Split(l, FreeLeaf), a)
    else (UsedLeaf, start)
  }

  /** `free_rec`: walk to the leaf that could hold `addr`, coalescing on the way back. */
  function Give(t: Tree, start: nat, size: nat, addr: nat): Tree {
    match t
    case FreeLeaf => FreeLeaf
    case UsedLeaf => if start == addr then FreeLeaf else UsedLeaf
    case Split(l, r) =>
      var l' := if start + size / 2 > addr then Give(l, start, size / 2, addr) else l;
      var r' := if start + size / 2 > addr then r else Give(r, start + size / 2, size / 2, addr);
      if Merge(StateOf(l'), StateOf(r')).Free? then FreeLeaf else Split(l', r')
  }

  /** The bytes `free_rec` takes off `mem_allocated`. */
  function GivenBack(t: Tree, start: nat, size: nat, addr: nat): nat {
    match t
    case FreeLeaf => 0
    case UsedLeaf => if start == addr then size else 0
    case Split(l, r) =>
      if start + size / 2 > addr then GivenBack(l, start, size / 2, addr)
      else GivenBack(r, start + size / 2, size / 2, addr)
  }

  /** The blocks handed out and not yet freed. */
  ghost function Live(t: Tree, start: nat, size: nat): set<Block> {
    match t
    case FreeLeaf => {}
    case UsedLeaf => {Block(start, size)}
    case Split(l, r) => Live(l, start, size / 2) + Live(r, start + size / 2, size / 2)
  }

  /** The free leaves: the places `malloc` may cut from. */
  ghost function Gaps(t: Tree, start: nat, size: nat): set<Block> {
    match t
    case FreeLeaf => {Block(start, size)}
    case UsedLeaf => {}
    case Split(l, r) => Gaps(l, start, size / 2) + Gaps(r, start + size / 2, size / 2)
  }

  /** No leaf in use is empty, and no two buddies are both free. */
  ghost predicate Tidy(t: Tree, size: nat) {
    match t
    case FreeLeaf => true
    case UsedLeaf => size >= 1
    case Split(l, r) =>
      size >= 2 && Tidy(l, size / 2) && Tidy(r, size / 2) && !(l.FreeLeaf? && r.FreeLeaf?)
  }

  // ---- Live blocks -------------------------------------------------------

  lemma {:induction false} TidyFree(t: Tree, size: nat)
    requires Tidy(t, size)
    ensures StateOf(t).Free? <==> t.FreeLeaf?
  {
    if t.Split? {
      TidyFree(t.left, size / 2);
      TidyFree(t.right, size / 2);
    }
  }

  /** Live blocks are pairwise disjoint and inside the root's range. */
  lemma {:induction false} LiveIsSafe(t: Tree, start: nat, size: nat)
    requires Tidy(t, size)
    ensures Safe(Live(t, start, size), start, start + size)
  {
    if t.Split? {
      LiveIsSafe(t.left, start, size / 2);
      LiveIsSafe(t.right, start + size / 2, size / 2);
    }
  }

  lemma {:induction false} LiveSizes(t: Tree, start: nat, size: nat)
    ensures forall b | b in Live(t, start, size) :: b.size <= size
  {
    if t.Split? {
      LiveSizes(t.left, start, size / 2);
      LiveSizes(t.right, start + size / 2, size / 2);
    }
  }

  lemma {:induction false} NothingLive(t: Tree, start: nat, size: nat)
    requires Tidy(t, size) && Live(t, start, size) == {}
    ensures t.FreeLeaf?
  {
    if t.Split? {
      NothingLive(t.left, start, size / 2);
      NothingLive(t.right, start + size / 2, size / 2);
    }
  }

  ghost function StartingBelow(blocks: set<Block>, mid: nat): set<Block> {
    set b | b in blocks && b.start < mid
  }

  /** A split tree's live blocks fall into its halves by their start. */
  lemma LiveHalves(l: Tree, r: Tree, start: nat, size: nat)
    requires Tidy(Split(l, r), size)
    ensures var mid := start + size / 2;
            var all := Live(Split(l, r), start, size);
            && Live(l, start, size / 2) == StartingBelow(all, mid)
            && Live(r, mid, size / 2) == all - StartingBelow(all, mid)
  {
    LiveIsSafe(l, start, size / 2);
    LiveIsSafe(r, start + size / 2, size / 2);
  }

  /** The live blocks determine the tree: there is one fully coalesced tree for them. */
  lemma {:induction false} TreeIsCanonical(t: Tree, u: Tree, start: nat, size: nat)
    requires Tidy(t, size) && Tidy(u, size)
    requires Live(t, start, size) == Live(u, start, size)
    ensures t == u
  {
    if t.FreeLeaf? {
      NothingLive(u, start, size);
    } else if u.FreeLeaf? {
      NothingLive(t, start, size);
    } else if t.Split? && u.Split? {
      LiveHalves(t.left, t.right, start, size);
      LiveHalves(u.left, u.right, start, size);
      assert t == Split(t.left, t.right) && u == Split(u.left, u.right);
      TreeIsCanonical(t.left, u.left, start, size / 2);
      TreeIsCanonical(t.right, u.right, start + size / 2, size / 2);
    } else if t.Split? || u.Split? {
      var s := if t.Split? then t else u;
      assert Block(start, size) in Live(s, start, size);
      LiveSizes(s.left, start, size / 2);
      LiveSizes(s.right, start + size / 2, size / 2);
    }
  }

  // ---- malloc ------------------------------------------------------------

  /** The leftmost gap of at least `bytes`. */
  ghost predicate IsLeftmostFit(t: Tree, start: nat, size: nat, bytes: nat, g: Block) {
    && g in Gaps(t, start, size) && bytes <= g.size
    && forall h | h in Gaps(t, start, size) && bytes <= h.size :: g.start <= h.start
  }

  ghost predicate HasFit(t: Tree, start: nat, size: nat, bytes: nat) {
    exists g :: g in Gaps(t, start, size) && bytes <= g.size
  }

  lemma {:induction false} FullHasNoGaps(t: Tree, start: nat, size: nat)
    ensures StateOf(t).Allocated? ==> Gaps(t, start, size) == {}
  {
    if t.Split? {
      FullHasNoGaps(t.left, start, size / 2);
      FullHasNoGaps(t.right, start + size / 2, size / 2);
    }
  }

  lemma {:induction false} GapsInRange(t: Tree, start: nat, size: nat)
    requires Tidy(t, size)
    ensures forall g | g in Gaps(t, start, size) :: start <= g.start && g.start + g.size <= start + size
  {
    if t.Split? {
      GapsInRange(t.left, start, size / 2);
      GapsInRange(t.right, start + size / 2, size / 2);
    }
  }

  /** malloc on one free leaf cuts its left end. */
  lemma {:induction false} TakeFromGap(start: nat, size: nat, bytes: nat)
    returns (b: Block)
    requires 0 < bytes <= size && start > 0
    ensures var (t', a) := Take(FreeLeaf, start, size, bytes);
            && a == start && Tidy(t', size) && !t'.FreeLeaf?
            && b.start == start && b.size / 2 < bytes <= b.size
            && Live(t', start, size) == {b}
    decreases size
  {
    if size / 2 >= bytes {
      b := TakeFromGap(start, size / 2, bytes);
    } else {
      b := Block(start, size);
    }
  }

  /** malloc fails when no gap is large enough, and then leaves the tree as it was. */
  lemma {:induction false} TakeFails(t: Tree, start: nat, size: nat, bytes: nat)
    requires bytes > 0 && Tidy(t, size) && !HasFit(t, start, size, bytes)
    ensures Take(t, start, size, bytes) == (t, NULL)
    decreases t
  {
    if t.FreeLeaf? {
      assert Block(start, size) in Gaps(t, start, size);
    } else if t.Split? && !StateOf(t).Allocated? {
      assert forall g | g in Gaps(t.left, start, size / 2) :: g in Gaps(t, start, size);
      assert forall g | g in Gaps(t.right, start + size / 2, size / 2) :: g in Gaps(t, start, size);
      TakeFails(t.left, start, size / 2, bytes);
      TakeFails(t.right, start + size / 2, size / 2, bytes);
    }
  }

  /**
    malloc succeeds when some gap is large enough: it cuts the left end of the
    leftmost such gap, and the cut is less than twice what was asked for.
   */
  lemma {:induction false} TakeSucceeds(t: Tree, start: nat, size: nat, bytes: nat)
    returns (b: Block, g: Block)
    requires bytes > 0 && start > 0 && Tidy(t, size) && HasFit(t, start, size, bytes)
    ensures var (t', a) := Take(t, start, size, bytes);
            && IsLeftmostFit(t, start, size, bytes, g)
            && a == b.start == g.start && a != NULL
            && b.size / 2 < bytes <= b.size
            && Tidy(t', size) && !t'.FreeLeaf?
            && Allocates(Live(t, start, size), Live(t', start, size), bytes, b)
    decreases t
  {
    if t.FreeLeaf? {
      b := TakeFromGap(start, size, bytes);
      g := Block(start, size);
    } else {
      FullHasNoGaps(t, start, size);
      var half, mid := size / 2, start + size / 2;
      if HasFit(t.left, start, half, bytes) {
        b, g := TakeSucceeds(t.left, start, half, bytes);
        TakeInLeft(t.left, t.right, start, size, bytes, b, g);
      } else {
        TakeFails(t.left, start, half, bytes);
        b, g := TakeSucceeds(t.right, mid, half, bytes);
        TakeInRight(t.left, t.right, start, size, bytes, b, g);
      }
    }
  }

  /** What malloc does in a left half with a fit, it does in the whole. */
  lemma TakeInLeft(l: Tree, r: Tree, start: nat, size: nat, bytes: nat, b: Block, g: Block)
    requires bytes > 0 && start > 0 && Tidy(Split(l, r), size)
    requires IsLeftmostFit(l, start, size / 2, bytes, g)
    requires var (l', a) := Take(l, start, size / 2, bytes);
             Tidy(l', size / 2) && Allocates(Live(l, start, size / 2), Live(l', start, size / 2), bytes, b)
    ensures IsLeftmostFit(Split(l, r), start, size, bytes, g)
    ensures var l' := Take(l, start, size / 2, bytes).0;
            Allocates(Live(Split(l, r), start, size), Live(Split(l', r), start, size), bytes, b)
  {
    hide Take, Tidy, Allocates, Gaps, Live;
    var l' := Take(l, start, size / 2, bytes).0;
    Halves(l, r, start, size);
    Halves(l', r, start, size);
    GapsInRange(l, start, size / 2);
    GapsInRange(r, start + size / 2, size / 2);
    LiveIsSafe(l', start, size / 2);
    LiveIsSafe(r, start + size / 2, size / 2);
    var mid := start + size / 2;
    AllocatesBeside(Live(l, start, size / 2), Live(l', start, size / 2), Live(r, mid, size / 2), bytes, b, mid);
  }

  /** What a split tree is made of. */
  lemma Halves(l: Tree, r: Tree, start: nat, size: nat)
    ensures Live(Split(l, r), start, size) == Live(l, start, size / 2) + Live(r, start + size / 2, size / 2)
    ensures Gaps(Split(l, r), start, size) == Gaps(l, start, size / 2) + Gaps(r, start + size / 2, size / 2)
    ensures Tidy(Split(l, r), size) ==> Tidy(l, size / 2) && Tidy(r, size / 2)
  {
  }

  /** A block allocated below `mid` is allocated beside blocks from `mid` on. */
  lemma AllocatesBeside(before: set<Block>, after: set<Block>, others: set<Block>, bytes: nat, b: Block, mid: nat)
    requires Allocates(before, after, bytes, b)
    requires forall c | c in after :: 0 < c.size && c.start + c.size <= mid
    requires forall c | c in others :: mid <= c.start
    ensures Allocates(before + others, after + others, bytes, b)
  {
    assert b in after;
    assert after + others == before + others + {b};
  }

  /** With no fit on the left, what malloc does in the right half, it does in the whole. */
  lemma TakeInRight(l: Tree, r: Tree, start: nat, size: nat, bytes: nat, b: Block, g: Block)
    requires bytes > 0 && start > 0 && Tidy(Split(l, r), size) && !HasFit(l, start, size / 2, bytes)
    requires IsLeftmostFit(r, start + size / 2, size / 2, bytes, g)
    requires var mid := start + size / 2;
             var (r', a) := Take(r, mid, size / 2, bytes);
             Tidy(r', size / 2) && Allocates(Live(r, mid, size / 2), Live(r', mid, size / 2), bytes, b)
    ensures IsLeftmostFit(Split(l, r), start, size, bytes, g)
    ensures var r' := Take(r, start + size / 2, size / 2, bytes).0;
            Allocates(Live(Split(l, r), start, size), Live(Split(l, r'), start, size), bytes, b)
  {
    var mid := start + size / 2;
    var r' := Take(r, mid, size / 2, bytes).0;
    LiveIsSafe(l, start, size / 2);
    LiveIsSafe(r', mid, size / 2);
    assert b in Live(r', mid, size / 2);
    assert Live(Split(l, r'), start, size) == Live(Split(l, r), start, size) + {b};
  }

  /** malloc fails iff no free leaf is large enough. */
  lemma TakeFailsIff(t: Tree, start: nat, size: nat, bytes: nat)
    requires bytes > 0 && start > 0 && Tidy(t, size)
    ensures Take(t, start, size, bytes).1 == NULL <==> !HasFit(t, start, size, bytes)
    ensures Take(t, start, size, bytes).1 == NULL ==> Take(t, start, size, bytes).0 == t
    ensures Tidy(Take(t, start, size, bytes).0, size)
  {
    if HasFit(t, start, size, bytes) {
      var b, g := TakeSucceeds(t, start, size, bytes);
    } else {
      TakeFails(t, start, size, bytes);
    }
  }

  // ---- free --------------------------------------------------------------

  ghost function Without(blocks: set<Block>, addr: nat): set<Block> {
    set b | b in blocks && b.start != addr
  }

  /** free removes the live block that starts at `addr`, and nothing else. */
  lemma {:induction false} GiveRemoves(t: Tree, start: nat, size: nat, addr: nat)
    requires Tidy(t, size)
    ensures Tidy(Give(t, start, size, addr), size)
    ensures Live(Give(t, start, size, addr), start, size) == Without(Live(t, start, size), addr)
  {
    if t.Split? {
      var mid, half := start + size / 2, size / 2;
      var l' := if mid > addr then Give(t.left, start, half, addr) else t.left;
      var r' := if mid > addr then t.right else Give(t.right, mid, half, addr);
      if mid > addr {
        GiveRemoves(t.left, start, half, addr);
        GiveMissesRange(t.right, mid, half, addr);
      } else {
        GiveRemoves(t.right, mid, half, addr);
        GiveMissesRange(t.left, start, half, addr);
      }
      TidyFree(l', half);
      TidyFree(r', half);
      assert Live(l', start, half) + Live(r', mid, half) == Without(Live(t, start, size), addr);
    }
  }

  lemma GiveMissesRange(t: Tree, start: nat, size: nat, addr: nat)
    requires Tidy(t, size) && !(start <= addr < start + size)
    ensures Without(Live(t, start, size), addr) == Live(t, start, size)
  {
    LiveIsSafe(t, start, size);
  }

  /** A free of an address that starts no live block changes nothing. */
  lemma GiveMisses(t: Tree, start: nat, size: nat, addr: nat)
    requires Tidy(t, size)
    requires forall b | b in Live(t, start, size) :: b.start != addr
    ensures Give(t, start, size, addr) == t
  {
    GiveRemoves(t, start, size, addr);
    assert Live(Give(t, start, size, addr), start, size) == Live(t, start, size);
    TreeIsCanonical(Give(t, start, size, addr), t, start, size);
  }

  /** Freeing what malloc just returned restores the tree exactly. */
  lemma GiveUndoesTake(t: Tree, start: nat, size: nat, bytes: nat)
    requires bytes > 0 && start > 0 && Tidy(t, size)
    ensures var (t', a) := Take(t, start, size, bytes);
            a != NULL ==> Give(t', start, size, a) == t
  {
    var (t', a) := Take(t, start, size, bytes);
    if HasFit(t, start, size, bytes) {
      var b, g := TakeSucceeds(t, start, size, bytes);
      LiveIsSafe(t', start, size);
      GiveRemoves(t', start, size, a);
      var back := Live(Give(t', start, size, a), start, size);
      forall c | c in Live(t, start, size) ensures c.start != a {
        assert Separate(b, c);
      }
      assert back == Live(t, start, size);
      TreeIsCanonical(Give(t', start, size, a), t, start, size);
    } else {
      TakeFails(t, start, size, bytes);
    }
  }

  /** Two frees commute. */
  lemma GivesCommute(t: Tree, start: nat, size: nat, a: nat, b: nat)
    requires Tidy(t, size)
    ensures Give(Give(t, start, size, a), start, size, b) == Give(Give(t, start, size, b), start, size, a)
  {
    var ta, tb := Give(t, start, size, a), Give(t, start, size, b);
    GiveRemoves(t, start, size, a);
    GiveRemoves(t, start, size, b);
    GiveRemoves(ta, start, size, b);
    GiveRemoves(tb, start, size, a);
    assert Live(Give(ta, start, size, b), start, size) == Live(Give(tb, start, size, a), start, size);
    TreeIsCanonical(Give(ta, start, size, b), Give(tb, start, size, a), start, size);
  }

  function GiveAll(t: Tree, start: nat, size: nat, addrs: seq<nat>): Tree
    decreases |addrs|
  {
    if addrs == [] then t
    else GiveAll(Give(t, start, size, addrs[0]), start, size, addrs[1..])
  }

  /** Freeing every live block, in any order, leaves one free root leaf. */
  lemma {:induction false} GiveAllEmpties(t: Tree, start: nat, size: nat, addrs: seq<nat>)
    requires Tidy(t, size)
    requires forall b | b in Live(t, start, size) :: b.start in addrs
    ensures GiveAll(t, start, size, addrs) == FreeLeaf
    decreases |addrs|
  {
    if addrs == [] {
      assert Live(t, start, size) == {};
      NothingLive(t, start, size);
    } else {
      GiveRemoves(t, start, size, addrs[0]);
      GiveAllEmpties(Give(t, start, size, addrs[0]), start, size, addrs[1..]);
    }
  }
}
