/**
  What both memory managers are for, in one place: a set of live blocks of
  addresses that never overlap. `BuddyTree` and `BitmapMap` each prove that
  their operations are steps of this machine.
 */
module Allocator {

  /** The addresses `start .. start + size`. */
  datatype Block = Block(start: nat, size: nat) {
    ghost predicate Covers(addr: int) {
      start <= addr < start + size
    }
  }

  ghost predicate Separate(a: Block, b: Block) {
    a.start + a.size <= b.start || b.start + b.size <= a.start
  }

  /** Live blocks are non-empty, lie in `lo .. hi` and are pairwise disjoint. */
  ghost predicate Safe(live: set<Block>, lo: nat, hi: nat) {
    && (forall b | b in live :: 0 < b.size && lo <= b.start && b.start + b.size <= hi)
    && (forall a, b | a in live && b in live && a != b :: Separate(a, b))
  }

  /** A new block of at least `request` addresses joins the live ones. */
  ghost predicate Allocates(before: set<Block>, after: set<Block>, request: nat, b: Block) {
    b !in before && request <= b.size && after == before + {b}
  }

  /** One live block leaves. */
  ghost predicate Releases(before: set<Block>, after: set<Block>, b: Block) {
    b in before && after == before - {b}
  }
}
