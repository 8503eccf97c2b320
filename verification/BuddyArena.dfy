/**
  The pointer program of Kernel/memory_manager/mem_buddy.c: tree nodes live in an
  arena of cells, are found by slot arithmetic and updated in place. Every method
  is proved equal to the tree functions of `BuddyTree` and `BuddyHeap`.

  Hypotheses: the arena does not overlap the blocks it manages, it has a cell for every node
  of the tree, and cells not yet used have NULL children (`CreateChilds` does not clear them).
 */
module BuddyArena {
  import opened Words
  import opened PowersOfTwo
  import opened BuddyTree
  import opened BuddySlots
  import BuddyHeap

  datatype Pointer = Null | At(slot: nat)

  /** One C struct Node. */
  datatype Cell = Cell(start: nat, size: nat, state: State, index: nat, left: Pointer, right: Pointer)

  /** No cell strictly below index `i` has children. */
  ghost predicate Blank(cs: seq<Cell>, i: nat) {
    forall j {:trigger Below(i, j)} | Below(i, j) && j != i && Slot(j) < |cs| ::
      cs[Slot(j)].left.Null? && cs[Slot(j)].right.Null?
  }

  /** The cells below index `i` hold exactly the tree `t`. */
  ghost predicate Represents(cs: seq<Cell>, i: nat, start: nat, size: nat, t: Tree)
    decreases t
  {
    && Slot(i) < |cs|
    && var c := cs[Slot(i)];
    && c.start == start && c.size == size && c.index == i && c.state == StateOf(t)
    && match t
       case Split(l, r) =>
         && c.left == At(Slot(2 * i + 1)) && c.right == At(Slot(2 * i + 2))
         && Represents(cs, 2 * i + 1, start, size / 2, l)
         && Represents(cs, 2 * i + 2, start + size / 2, size / 2, r)
       case _ => c.left.Null? && c.right.Null? && Blank(cs, i)
  }

  ghost predicate SameBelow(cs: seq<Cell>, ds: seq<Cell>, i: nat) {
    |cs| == |ds| && forall j {:trigger Below(i, j)} | Below(i, j) && Slot(j) < |cs| :: ds[Slot(j)] == cs[Slot(j)]
  }

  ghost predicate SameOutside(cs: seq<Cell>, ds: seq<Cell>, i: nat) {
    |cs| == |ds| && forall j {:trigger Below(i, j)} | !Below(i, j) && Slot(j) < |cs| :: ds[Slot(j)] == cs[Slot(j)]
  }

  /** An arena of `length` cells has one for every node of the tree under index `i`. */
  ghost predicate Room(length: nat, i: nat, t: Tree)
    decreases t
  {
    Slot(i) < length && (t.Split? ==> Room(length, 2 * i + 1, t.left) && Room(length, 2 * i + 2, t.right))
  }

  /** Room is what it takes to represent a tree. */
  lemma {:induction false} RepresentsNeedsRoom(cs: seq<Cell>, i: nat, start: nat, size: nat, t: Tree)
    requires Represents(cs, i, start, size, t)
    ensures Room(|cs|, i, t)
    decreases t
  {
    if t.Split? {
      RepresentsNeedsRoom(cs, 2 * i + 1, start, size / 2, t.left);
      RepresentsNeedsRoom(cs, 2 * i + 2, start + size / 2, size / 2, t.right);
    }
  }

  lemma RoomBelow(length: nat, i: nat, l: Tree, r: Tree)
    requires Room(length, i, Split(l, r))
    ensures Room(length, 2 * i + 1, l) && Room(length, 2 * i + 2, r)
    ensures Slot(2 * i + 1) < length && Slot(2 * i + 2) < length
  {
  }

  lemma {:induction false} RepresentsFrame(cs: seq<Cell>, ds: seq<Cell>, i: nat, start: nat, size: nat, t: Tree)
    requires Represents(cs, i, start, size, t) && SameBelow(cs, ds, i)
    ensures Represents(ds, i, start, size, t)
    decreases t
  {
    assert Below(i, i);
    if t.Split? {
      var a, b := 2 * i + 1, 2 * i + 2;
      forall j | Below(a, j) ensures Below(i, j) {
        BelowChild(i, a, j);
      }
      forall j | Below(b, j) ensures Below(i, j) {
        BelowChild(i, b, j);
      }
      RepresentsFrame(cs, ds, a, start, size / 2, t.left);
      RepresentsFrame(cs, ds, b, start + size / 2, size / 2, t.right);
    }
  }

  /** Only the cell of index `i` differs. */
  ghost predicate OnlyCell(cs: seq<Cell>, ds: seq<Cell>, i: nat) {
    |cs| == |ds| && Slot(i) < |cs| && forall k | 0 <= k < |cs| && k != Slot(i) :: ds[k] == cs[k]
  }

  lemma CellChange(cs: seq<Cell>, ds: seq<Cell>, i: nat)
    requires OnlyCell(cs, ds, i)
    ensures SameOutside(cs, ds, i) && SameBelow(cs, ds, 2 * i + 1) && SameBelow(cs, ds, 2 * i + 2)
    ensures forall j | j != i && Slot(j) < |cs| :: ds[Slot(j)] == cs[Slot(j)]
  {
    forall j | j != i && Slot(j) < |cs| ensures ds[Slot(j)] == cs[Slot(j)] {
      SlotsDiffer(i, j);
    }
  }

  lemma OutsideReflexive(cs: seq<Cell>, i: nat)
    ensures SameOutside(cs, cs, i)
  {
  }

  lemma OutsideTransitive(cs: seq<Cell>, ds: seq<Cell>, es: seq<Cell>, i: nat)
    requires SameOutside(cs, ds, i) && SameOutside(ds, es, i)
    ensures SameOutside(cs, es, i)
  {
  }

  /** The cell of `i` is `c`, an inner node whose children hold `l` and `r`; its state may be out of date. */
  ghost predicate Branch(cs: seq<Cell>, i: nat, c: Cell, start: nat, size: nat, l: Tree, r: Tree) {
    && Slot(i) < |cs| && cs[Slot(i)] == c
    && c == Cell(start, size, c.state, i, At(Slot(2 * i + 1)), At(Slot(2 * i + 2)))
    && Represents(cs, 2 * i + 1, start, size / 2, l)
    && Represents(cs, 2 * i + 2, start + size / 2, size / 2, r)
  }

  /** What a cell tells about the tree it represents. */
  lemma Unfold(cs: seq<Cell>, i: nat, start: nat, size: nat, t: Tree)
    requires Represents(cs, i, start, size, t)
    ensures Slot(i) < |cs|
    ensures var c := cs[Slot(i)];
            && c.start == start && c.size == size && c.state == StateOf(t)
            && c.left.At? == c.right.At? == t.Split?
            && (!t.Split? ==> t == if c.state.Allocated? then UsedLeaf else FreeLeaf)
            && (t.Split? ==>
                  && Represents(cs, 2 * i + 1, start, size / 2, t.left)
                  && Represents(cs, 2 * i + 2, start + size / 2, size / 2, t.right)
                  && c.index == i && c.left == At(Slot(2 * i + 1)) && c.right == At(Slot(2 * i + 2))
                  && Slot(2 * i + 2) < |cs| && cs[Slot(2 * i + 2)].start == start + size / 2)
  {
  }

  /** A change confined to the left child's subtree keeps the parent's cell and the right child. */
  lemma LeftChange(cs: seq<Cell>, ds: seq<Cell>, i: nat, start: nat, size: nat, r: Tree)
    requires SameOutside(cs, ds, 2 * i + 1) && Represents(cs, 2 * i + 2, start, size, r)
    ensures Represents(ds, 2 * i + 2, start, size, r) && SameOutside(cs, ds, i)
    ensures |ds| == |cs| && (Slot(i) < |cs| ==> ds[Slot(i)] == cs[Slot(i)])
  {
    var a, b := 2 * i + 1, 2 * i + 2;
    assert !Below(a, i);
    forall j: nat | Below(a, j) ensures Below(i, j) {
      BelowChild(i, a, j);
    }
    forall j: nat ensures !(Below(a, j) && Below(b, j)) {
      ChildrenApart(i, j);
    }
    RepresentsFrame(cs, ds, b, start, size, r);
  }

  /** A change confined to the right child's subtree keeps the parent's cell and the left child. */
  lemma RightChange(cs: seq<Cell>, ds: seq<Cell>, i: nat, start: nat, size: nat, l: Tree)
    requires SameOutside(cs, ds, 2 * i + 2) && Represents(cs, 2 * i + 1, start, size, l)
    ensures Represents(ds, 2 * i + 1, start, size, l) && SameOutside(cs, ds, i)
    ensures |ds| == |cs| && (Slot(i) < |cs| ==> ds[Slot(i)] == cs[Slot(i)])
  {
    var a, b := 2 * i + 1, 2 * i + 2;
    assert !Below(b, i);
    forall j: nat | Below(b, j) ensures Below(i, j) {
      BelowChild(i, b, j);
    }
    forall j: nat ensures !(Below(a, j) && Below(b, j)) {
      ChildrenApart(i, j);
    }
    RepresentsFrame(cs, ds, a, start, size, l);
  }

  /** The cell of `node` once `check_state` has looked at its children. */
  ghost function Checked(cs: seq<Cell>, node: nat): Cell
    requires node < |cs|
  {
    var c := cs[node];
    c.(state := if c.left.At? && c.right.At? && c.left.slot < |cs| && c.right.slot < |cs|
                then Merge(cs[c.left.slot].state, cs[c.right.slot].state)
                else Free)
  }

  /** `check_state` completes an inner node. */
  lemma Join(cs: seq<Cell>, i: nat, c: Cell, start: nat, size: nat, l: Tree, r: Tree)
    requires Slot(i) < |cs| && cs[Slot(i)] == c
    requires c == Cell(start, size, c.state, i, At(Slot(2 * i + 1)), At(Slot(2 * i + 2)))
    requires Represents(cs, 2 * i + 1, start, size / 2, l)
    requires Represents(cs, 2 * i + 2, start + size / 2, size / 2, r)
    ensures Slot(i) < |cs| && cs[Slot(i)] == c && c.left == At(Slot(2 * i + 1)) && c.right == At(Slot(2 * i + 2))
    ensures Slot(2 * i + 1) < |cs| && Slot(2 * i + 2) < |cs|
    ensures var ds := cs[Slot(i) := Checked(cs, Slot(i))];
            Represents(ds, i, start, size, Split(l, r)) && SameOutside(cs, ds, i)
  {
    hide Represents, StateOf, Slot, SameOutside, SameBelow, OnlyCell;
    RepresentsHead(cs, 2 * i + 1, start, size / 2, l);
    RepresentsHead(cs, 2 * i + 2, start + size / 2, size / 2, r);
    var ds := cs[Slot(i) := Checked(cs, Slot(i))];
    OneChange(cs, i, Checked(cs, Slot(i)));
    CellChange(cs, ds, i);
    RepresentsFrame(cs, ds, 2 * i + 1, start, size / 2, l);
    RepresentsFrame(cs, ds, 2 * i + 2, start + size / 2, size / 2, r);
    MakeSplit(ds, i, start, size, l, r);
  }

  lemma RepresentsHead(cs: seq<Cell>, i: nat, start: nat, size: nat, t: Tree)
    requires Represents(cs, i, start, size, t)
    ensures Slot(i) < |cs| && cs[Slot(i)].state == StateOf(t)
  {
  }

  lemma OneChange(cs: seq<Cell>, i: nat, c: Cell)
    requires Slot(i) < |cs|
    ensures OnlyCell(cs, cs[Slot(i) := c], i)
  {
  }

  lemma MakeSplit(cs: seq<Cell>, i: nat, start: nat, size: nat, l: Tree, r: Tree)
    requires Slot(i) < |cs|
    requires cs[Slot(i)]
             == Cell(start, size, Merge(StateOf(l), StateOf(r)), i, At(Slot(2 * i + 1)), At(Slot(2 * i + 2)))
    requires Represents(cs, 2 * i + 1, start, size / 2, l)
    requires Represents(cs, 2 * i + 2, start + size / 2, size / 2, r)
    ensures Represents(cs, i, start, size, Split(l, r))
  {
  }

  /** A leaf changes between free and in use by its state alone. */
  lemma Relabel(cs: seq<Cell>, i: nat, start: nat, size: nat, t: Tree, u: Tree)
    requires Represents(cs, i, start, size, t) && !t.Split? && !u.Split?
    ensures var ds := cs[Slot(i) := cs[Slot(i)].(state := StateOf(u))];
            Represents(ds, i, start, size, u) && SameOutside(cs, ds, i)
  {
    CellChange(cs, cs[Slot(i) := cs[Slot(i)].(state := StateOf(u))], i);
  }

  /** Two free children under a parent whose pointers are cleared make one free leaf. */
  lemma Coalesce(cs: seq<Cell>, i: nat, c: Cell, start: nat, size: nat)
    requires Branch(cs, i, c, start, size, FreeLeaf, FreeLeaf)
    ensures var ds := cs[Slot(i) := c.(state := Free, left := Null, right := Null)];
            Represents(ds, i, start, size, FreeLeaf) && SameOutside(cs, ds, i)
  {
    var ds := cs[Slot(i) := c.(state := Free, left := Null, right := Null)];
    CellChange(cs, ds, i);
    forall j | Below(i, j) && j != i && Slot(j) < |ds|
      ensures ds[Slot(j)].left.Null? && ds[Slot(j)].right.Null?
    {
      BelowSplits(i, j);
    }
  }

  /** The writes of `create_childs` to a free leaf: two fresh children, the rest of the arena as it was. */
  lemma Halve(cs: seq<Cell>, ds: seq<Cell>, i: nat, l: nat, r: nat, c: Cell, half: nat)
    requires Slot(i) < |cs| && cs[Slot(i)] == c && c.index == i && c.size / 2 == half && Blank(cs, i)
    requires l == Slot(2 * i + 1) < |cs| && r == Slot(2 * i + 2) < |cs|
    requires ds == cs[Slot(i) := c.(left := At(l), right := At(r))]
                     [l := cs[l].(start := c.start, size := half, state := Free, index := 2 * i + 1)]
                     [r := cs[r].(start := c.start + half, size := half, state := Free, index := 2 * i + 2)]
    ensures SameOutside(cs, ds, i) && Branch(ds, i, ds[Slot(i)], c.start, c.size, FreeLeaf, FreeLeaf)
  {
    var a, b := 2 * i + 1, 2 * i + 2;
    SlotIncreases(i, a);
    SlotIncreases(a, b);
    assert Below(a, a) && Below(b, b);
    BelowChild(i, a, a);
    BelowChild(i, b, b);
    forall j | j != i && j != a && j != b && Slot(j) < |cs| ensures ds[Slot(j)] == cs[Slot(j)] {
      SlotsDiffer(i, j);
      SlotsDiffer(a, j);
      SlotsDiffer(b, j);
    }
    forall j | Below(a, j) && j != a ensures Below(i, j) && j != i && j != b {
      BelowChild(i, a, j);
      ChildrenApart(i, j);
    }
    forall j | Below(b, j) && j != b ensures Below(i, j) && j != i && j != a {
      BelowChild(i, b, j);
    }
    assert Blank(ds, a) && Blank(ds, b);
  }

  lemma TakeFull(t: Tree, start: nat, size: nat, bytes: nat)
    requires bytes > 0 && StateOf(t).Allocated?
    ensures Take(t, start, size, bytes) == (t, NULL)
  {
  }

  /** `Take` on an inner node that is not full, in terms of what it makes of the children. */
  lemma TakeAtSplit(t: Tree, start: nat, size: nat, bytes: nat)
    requires t.Split? && bytes > 0 && !StateOf(t).Allocated? && Tidy(t, size)
    ensures size >= 2 && Tidy(t.left, size / 2) && Tidy(t.right, size / 2)
    ensures var half := size / 2;
            var (l', a) := Take(t.left, start, half, bytes);
            var (r', b) := Take(t.right, start + half, half, bytes);
            Take(t, start, size, bytes) == if a != NULL then (Split(l', t.right), a) else (Split(l', r'), b)
  {
  }

  /** `Give` on an inner node, in terms of what it makes of the children. */
  lemma GiveAtSplit(t: Tree, start: nat, size: nat, addr: nat) returns (l': Tree, r': Tree)
    requires t.Split? && Tidy(t, size)
    ensures Tidy(t.left, size / 2) && Tidy(t.right, size / 2)
    ensures var mid, half := start + size / 2, size / 2;
            && l' == (if mid > addr then Give(t.left, start, half, addr) else t.left)
            && r' == (if mid > addr then t.right else Give(t.right, mid, half, addr))
            && GivenBack(t, start, size, addr)
               == (if mid > addr then GivenBack(t.left, start, half, addr) else GivenBack(t.right, mid, half, addr))
    ensures Merge(StateOf(l'), StateOf(r')).Free? <==> l'.FreeLeaf? && r'.FreeLeaf?
    ensures Give(t, start, size, addr) == if l'.FreeLeaf? && r'.FreeLeaf? then FreeLeaf else Split(l', r')
  {
    var mid, half := start + size / 2, size / 2;
    l' := if mid > addr then Give(t.left, start, half, addr) else t.left;
    r' := if mid > addr then t.right else Give(t.right, mid, half, addr);
    GiveRemoves(t.left, start, half, addr);
    GiveRemoves(t.right, mid, half, addr);
    TidyFree(l', half);
    TidyFree(r', half);
  }

  /** `mem_allocated` less `n`, in 64 bits. */
  function Drop(total: nat, n: nat): nat {
    if n == 0 then total else (total - n) % TWO_TO_THE_64
  }

  class Arena {
    const cells: array<Cell>
    /** The C global `mem_allocated`, an unsigned 64-bit integer. */
    var memAllocated: nat
    ghost var tree: Tree

    ghost predicate Valid()
      reads this, cells
    {
      && 0 < cells.Length
      && var c := cells[0];
      && Represents(cells[..], 0, c.start, c.size, tree)
      && memAllocated < TWO_TO_THE_64
      && BuddyHeap.Valid(Abstract())
    }

    ghost function Abstract(): BuddyHeap.Heap
      requires 0 < cells.Length
      reads this, cells
    {
      BuddyHeap.Heap(tree, cells[0].start, cells[0].size, memAllocated)
    }

    /** `init_mm`: writes the root cell only. */
    constructor (arena: array<Cell>, memory: nat)
      requires 0 < arena.Length
      requires forall k | 0 <= k < arena.Length :: arena[k].left.Null? && arena[k].right.Null?
      modifies arena
      ensures Valid() && Abstract() == BuddyHeap.Init(memory) && cells == arena
    {
      cells := arena;
      memAllocated := 0;
      tree := FreeLeaf;
      new;
      cells[0] := Cell(memory, memory, State.Free, 0, Null, Null);
    }

    /** `check_state` */
    method CheckState(node: nat)
      requires node < cells.Length
      requires var c := cells[node];
               c.left.At? && c.right.At? ==> c.left.slot < cells.Length && c.right.slot < cells.Length
      modifies cells
      ensures cells[..] == old(cells[..])[node := Checked(old(cells[..]), node)]
    {
      var c := cells[node];
      if c.left.Null? || c.right.Null? {
        cells[node] := c.(state := State.Free);
        return;
      }
      var l, r := cells[c.left.slot].state, cells[c.right.slot].state;
      if r.Free? && l.Free? {
        cells[node] := c.(state := State.Free);
      } else if l.Allocated? && r.Allocated? {
        cells[node] := c.(state := Allocated);
      } else {
        cells[node] := c.(state := Partial);
      }
    }

    /** `create_childs`: the children's own child pointers are not written. */
    method CreateChilds(node: nat, ghost i: nat)
      requires node == Slot(i) < cells.Length && cells[node].index == i
      requires Blank(cells[..], i) && Slot(2 * i + 1) < cells.Length && Slot(2 * i + 2) < cells.Length
      modifies cells
      ensures SameOutside(old(cells[..]), cells[..], i)
      ensures var c := old(cells[node]);
              Branch(cells[..], i, cells[node], c.start, c.size, FreeLeaf, FreeLeaf)
    {
      hide *;
      ghost var was := cells[..];
      var c := cells[node];
      var leftIndex := 2 * c.index + 1;
      var rightIndex := leftIndex + 1;
      var newSize := c.size / 2;
      var l, r := node + leftIndex, node + rightIndex;
      ChildSlots(i);
      SlotIncreases(i, 2 * i + 1);
      SlotIncreases(2 * i + 1, 2 * i + 2);
      ghost var was1 := was[node := c.(left := At(l))];
      ghost var was2 := was1[l := was1[l].(start := c.start, size := newSize, state := State.Free, index := leftIndex)];
      ghost var was3 := was2[node := was2[node].(right := At(r))];
      cells[node] := cells[node].(left := At(l));
      assert cells[..] == was1;
      cells[l] := cells[l].(start := c.start, size := newSize, state := State.Free, index := leftIndex);
      assert cells[..] == was2;
      cells[node] := cells[node].(right := At(r));
      assert cells[..] == was3;
      cells[r] := cells[r].(start := c.start + newSize, size := newSize, state := State.Free, index := rightIndex);
      Halve(was, cells[..], i, l, r, c, newSize);
    }

    /** `malloc_rec` */
    method MallocRec(node: nat, bytes: nat, ghost i: nat, ghost start: nat, ghost size: nat, ghost t: Tree)
      returns (addr: nat)
      requires node == Slot(i) && bytes > 0
      requires Represents(cells[..], i, start, size, t) && Room(cells.Length, i, Take(t, start, size, bytes).0)
      requires Tidy(t, size) && (size > 0 ==> start > 0)
      modifies this`memAllocated, cells
      ensures addr == Take(t, start, size, bytes).1
      ensures Represents(cells[..], i, start, size, Take(t, start, size, bytes).0)
      ensures memAllocated == if addr == NULL then old(memAllocated)
                              else (old(memAllocated) + bytes) % TWO_TO_THE_64
      ensures SameOutside(old(cells[..]), cells[..], i)
      decreases t, size, 1
    {
      hide *;
      Unfold(cells[..], i, start, size, t);
      var c := cells[node];
      ghost var was, half := cells[..], size / 2;
      if c.state.Allocated? {
        TakeFull(t, start, size, bytes);
        OutsideReflexive(was, i);
        return NULL;
      }
      if c.left.At? || c.right.At? {
        ghost var l, r := t.left, t.right;
        TakeAtSplit(t, start, size, bytes);
        ghost var after := Take(t, start, size, bytes).0;
        RoomBelow(cells.Length, i, after.left, after.right);
        addr := MallocRec(c.left.slot, bytes, 2 * i + 1, start, half, l);
        ghost var mid, l' := cells[..], Take(l, start, half, bytes).0;
        LeftChange(was, mid, i, start + half, half, r);
        if addr == NULL {
          addr := MallocRec(c.right.slot, bytes, 2 * i + 2, start + half, half, r);
          ghost var r' := Take(r, start + half, half, bytes).0;
          RightChange(mid, cells[..], i, start, half, l');
          OutsideTransitive(was, mid, cells[..], i);
          r := r';
        }
        ghost var late := cells[..];
        Join(late, i, c, start, size, l', r);
        CheckState(node);
        OutsideTransitive(was, late, cells[..], i);
      } else {
        addr := MallocLeaf(node, bytes, i, start, size);
      }
    }

    /** The half of `malloc_rec` that deals with a free leaf: refuse it, halve it, or take it whole. */
    method MallocLeaf(node: nat, bytes: nat, ghost i: nat, ghost start: nat, ghost size: nat) returns (addr: nat)
      requires node == Slot(i) && bytes > 0 && (size > 0 ==> start > 0)
      requires Represents(cells[..], i, start, size, FreeLeaf)
      requires Room(cells.Length, i, Take(FreeLeaf, start, size, bytes).0)
      modifies this`memAllocated, cells
      ensures addr == Take(FreeLeaf, start, size, bytes).1
      ensures Represents(cells[..], i, start, size, Take(FreeLeaf, start, size, bytes).0)
      ensures memAllocated == if addr == NULL then old(memAllocated)
                              else (old(memAllocated) + bytes) % TWO_TO_THE_64
      ensures SameOutside(old(cells[..]), cells[..], i)
      decreases FreeLeaf, size, 0
    {
      var c := cells[node];
      ghost var was, half := cells[..], size / 2;
      if bytes > c.size {
        return NULL;
      }
      if c.size / 2 >= bytes {
        RoomBelow(cells.Length, i, Take(FreeLeaf, start, half, bytes).0, FreeLeaf);
        CreateChilds(node, i);
        ghost var mid, d := cells[..], cells[node];
        addr := MallocRec(cells[node].left.slot, bytes, 2 * i + 1, start, half, FreeLeaf);
        ghost var late, l := cells[..], Take(FreeLeaf, start, half, bytes).0;
        LeftChange(mid, late, i, start + half, half, FreeLeaf);
        OutsideTransitive(was, mid, late, i);
        Join(late, i, d, start, size, l, FreeLeaf);
        CheckState(node);
        OutsideTransitive(was, late, cells[..], i);
        return;
      }
      cells[node] := c.(state := State.Allocated);
      assert cells[..] == was[Slot(i) := c.(state := State.Allocated)];
      Relabel(was, i, start, size, FreeLeaf, UsedLeaf);
      memAllocated := (memAllocated + bytes) % TWO_TO_THE_64;
      return c.start;
    }

    /** The way back up in `free_rec`: update the state, and drop two free children. */
    method CheckAndCoalesce(node: nat, ghost i: nat, ghost start: nat, ghost size: nat, ghost l: Tree, ghost r: Tree)
      requires node == Slot(i) < cells.Length && Branch(cells[..], i, cells[node], start, size, l, r)
      requires Merge(StateOf(l), StateOf(r)).Free? <==> l.FreeLeaf? && r.FreeLeaf?
      modifies cells
      ensures Represents(cells[..], i, start, size, if l.FreeLeaf? && r.FreeLeaf? then FreeLeaf else Split(l, r))
      ensures SameOutside(old(cells[..]), cells[..], i)
    {
      ghost var was, c := cells[..], cells[node];
      CheckState(node);
      if cells[node].state.Free? {
        cells[node] := cells[node].(left := Null, right := Null);
        assert cells[..] == was[Slot(i) := c.(state := State.Free, left := Null, right := Null)];
        Coalesce(was, i, c, start, size);
      } else {
        Join(was, i, c, start, size, l, r);
      }
    }

    /** `free_rec`, which does nothing at a null pointer. */
    method FreeRec(node: Pointer, addr: nat, ghost i: nat, ghost start: nat, ghost size: nat, ghost t: Tree)
      requires node.At? ==> node.slot == Slot(i) && Represents(cells[..], i, start, size, t) && Tidy(t, size)
      modifies this`memAllocated, cells
      ensures node.Null? ==> cells[..] == old(cells[..]) && memAllocated == old(memAllocated)
      ensures node.At? ==> Represents(cells[..], i, start, size, Give(t, start, size, addr))
      ensures node.At? ==> SameOutside(old(cells[..]), cells[..], i)
      ensures node.At? ==> memAllocated == Drop(old(memAllocated), GivenBack(t, start, size, addr))
      decreases t, 1
    {
      if node.At? {
        FreeNode(node.slot, addr, i, start, size, t);
      }
    }

    /** `free_rec` at a node. */
    method FreeNode(node: nat, addr: nat, ghost i: nat, ghost start: nat, ghost size: nat, ghost t: Tree)
      requires node == Slot(i) && Represents(cells[..], i, start, size, t) && Tidy(t, size)
      modifies this`memAllocated, cells
      ensures Represents(cells[..], i, start, size, Give(t, start, size, addr))
      ensures SameOutside(old(cells[..]), cells[..], i)
      ensures memAllocated == Drop(old(memAllocated), GivenBack(t, start, size, addr))
      decreases t, 0
    {
      hide *;
      Unfold(cells[..], i, start, size, t);
      var c := cells[node];
      ghost var was, half := cells[..], size / 2;
      if c.left.At? || c.right.At? {
        ghost var l, r := t.left, t.right;
        ghost var l', r' := GiveAtSplit(t, start, size, addr);
        if cells[c.right.slot].start > addr {
          FreeRec(c.left, addr, 2 * i + 1, start, half, l);
          LeftChange(was, cells[..], i, start + half, half, r);
        } else {
          FreeRec(c.right, addr, 2 * i + 2, start + half, half, r);
          RightChange(was, cells[..], i, start, half, l);
        }
        ghost var late := cells[..];
        CheckAndCoalesce(node, i, start, size, l', r');
        OutsideTransitive(was, late, cells[..], i);
      } else {
        FreeLeafAt(node, addr, i, start, size, t);
      }
    }

    /** `free_rec` on a leaf. */
    method FreeLeafAt(node: nat, addr: nat, ghost i: nat, ghost start: nat, ghost size: nat, ghost t: Tree)
      requires node == Slot(i) && Represents(cells[..], i, start, size, t) && Tidy(t, size) && !t.Split?
      modifies this`memAllocated, cells
      ensures Represents(cells[..], i, start, size, Give(t, start, size, addr))
      ensures SameOutside(old(cells[..]), cells[..], i)
      ensures memAllocated == Drop(old(memAllocated), GivenBack(t, start, size, addr))
    {
      ghost var was := cells[..];
      var c := cells[node];
      if c.state.Allocated? {
        if c.start == addr {
          cells[node] := c.(state := State.Free);
          assert cells[..] == was[Slot(i) := c.(state := State.Free)];
          Relabel(was, i, start, size, t, FreeLeaf);
          memAllocated := (memAllocated - c.size) % TWO_TO_THE_64;
        }
      }
    }

    /**
      `malloc`. The C loop counts in a signed 32-bit `i`; the second precondition keeps
      it in range. The third asks for a cell for every node of the tree after the call, which is
      what it takes (`RepresentsNeedsRoom`). Requests above the root size fail before the loop.
     */
    method Malloc(bytes: nat) returns (addr: nat)
      requires Valid()
      requires bytes <= 0x4000_0000 || IsPow2(bytes) || cells[0].size < bytes
      requires Room(cells.Length, 0, BuddyHeap.Malloc(Abstract(), bytes).0.root)
      modifies this, cells
      ensures Valid() && (Abstract(), addr) == BuddyHeap.Malloc(old(Abstract()), bytes)
    {
      var c := cells[0];
      if c.size < bytes {
        return NULL;
      }
      var wanted := bytes;
      BitTrick(bytes);
      if !(bytes != 0 && BitAnd(bytes, bytes - 1) == 0) {
        wanted := RoundUp(bytes);
      }
      BuddyHeap.RoundedIsPow2(bytes);
      ghost var g, b;
      b, g := BuddyHeap.MallocContract(Abstract(), bytes);
      assert Below(0, 0);
      addr := MallocRec(0, wanted, 0, c.start, c.size, tree);
      tree := Take(tree, c.start, c.size, wanted).0;
    }

    /** `free` */
    method Free(addr: nat)
      requires Valid()
      modifies this, cells
      ensures Valid() && Abstract() == BuddyHeap.Free(old(Abstract()), addr)
    {
      ghost var c := cells[0];
      BuddyHeap.FreeContract(Abstract(), addr);
      FreeRec(At(0), addr, 0, c.start, c.size, tree);
      tree := Give(tree, c.start, c.size, addr);
    }
  }

  const INT_MAX: nat := 0x7fff_ffff

  /** The rounding loop of `malloc`; `i` stays a non-negative 32-bit `int`. */
  method RoundUp(bytes: nat) returns (i: nat)
    requires bytes <= 0x4000_0000
    ensures i == BuddyHeap.Double(1, bytes) && i <= INT_MAX
    ensures IsPow2(i) && bytes <= i && (i == 1 || i / 2 < bytes)
  {
    i := 1;
    while i < bytes
      invariant IsPow2(i) && i <= INT_MAX && (i == 1 || i / 2 < bytes)
      invariant BuddyHeap.Double(i, bytes) == BuddyHeap.Double(1, bytes)
      decreases bytes - i
    {
      Pow2Double(i);
      i := i * 2;
    }
  }
}
