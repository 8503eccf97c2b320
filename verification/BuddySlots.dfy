/**
  Where `create_childs` of Kernel/memory_manager/mem_buddy.c puts a tree node.
  Nodes carry the index of a complete binary tree, but a child is placed at its
  parent's slot plus its own index, so slots and indices drift apart.
 */
module BuddySlots {

  function Slot(i: nat): nat {
    if i == 0 then 0 else Slot((i - 1) / 2) + i
  }

  /** The pointer arithmetic of `create_childs`: a child's slot is its parent's plus the child's index. */
  lemma ChildSlots(i: nat)
    ensures Slot(2 * i + 1) == Slot(i) + (2 * i + 1)
    ensures Slot(2 * i + 2) == Slot(i) + (2 * i + 2)
  {
  }

  /** Slots grow with the index, so no two nodes share one. */
  lemma {:induction false} SlotIncreases(i: nat, j: nat)
    requires i < j
    ensures Slot(i) < Slot(j)
  {
    if i > 0 && (i - 1) / 2 < (j - 1) / 2 {
      SlotIncreases((i - 1) / 2, (j - 1) / 2);
    }
  }

  lemma SlotsDiffer(i: nat, j: nat)
    requires i != j
    ensures Slot(i) != Slot(j)
  {
    if i < j {
      SlotIncreases(i, j);
    } else {
      SlotIncreases(j, i);
    }
  }

  /** The drift is bounded: a node's slot is below twice its index. */
  lemma {:induction false} SlotBelowDouble(i: nat)
    requires i >= 1
    ensures i <= Slot(i) < 2 * i
  {
    if i > 2 {
      SlotBelowDouble((i - 1) / 2);
    }
  }

  /** Index `j` lies in the subtree of index `i`. */
  ghost predicate Below(i: nat, j: nat)
    decreases j
  {
    j == i || (j > i && Below(i, (j - 1) / 2))
  }

  /** What lies below a child lies strictly below the parent. */
  lemma {:induction false} BelowChild(i: nat, c: nat, j: nat)
    requires (c == 2 * i + 1 || c == 2 * i + 2) && Below(c, j)
    ensures Below(i, j) && j > i
    decreases j
  {
    if j != c {
      BelowChild(i, c, (j - 1) / 2);
    }
  }

  /** The two subtrees of a node share no index. */
  lemma {:induction false} ChildrenApart(i: nat, j: nat)
    ensures !(Below(2 * i + 1, j) && Below(2 * i + 2, j))
    decreases j
  {
    if j > 2 * i + 2 {
      ChildrenApart(i, (j - 1) / 2);
    }
  }

  /** Everything strictly below a node lies below one of its children. */
  lemma {:induction false} BelowSplits(i: nat, j: nat)
    requires Below(i, j) && j != i
    ensures Below(2 * i + 1, j) || Below(2 * i + 2, j)
    decreases j
  {
    if (j - 1) / 2 != i {
      BelowSplits(i, (j - 1) / 2);
    }
  }
}
