/** The loader of Kernel/moduleLoader.c, and the round trip from the packer's image to memory. */
module ModuleLoader {
  import opened Words
  import opened Bytes
  import opened MemCopy
  import opened ModulePacker

  // ---- The steps ---------------------------------------------------------

  /** A size at `p` and that many bytes behind it are in memory, and so is the target. */
  ghost predicate CanLoad(m: seq<byte>, p: nat, target: nat) {
    && p + 4 <= |m| && p + 4 + Number(m[p..p + 4]) <= |m| && target + Number(m[p..p + 4]) <= |m|
  }

  /** `load_module`: memory, and the address behind the module. */
  ghost function Load(m: seq<byte>, p: nat, target: nat): (r: (seq<byte>, nat))
    requires CanLoad(m, p, target)
    ensures |r.0| == |m|
  {
    var size := Number(m[p..p + 4]);
    (Copied(m, target, p + 4, size), p + 4 + size)
  }

  ghost predicate CanLoadAll(m: seq<byte>, p: nat, targets: seq<nat>)
    decreases |targets|
  {
    targets == [] ||
    (CanLoad(m, p, targets[0]) && CanLoadAll(Load(m, p, targets[0]).0, Load(m, p, targets[0]).1, targets[1..]))
  }

  ghost function LoadAll(m: seq<byte>, p: nat, targets: seq<nat>): (r: seq<byte>)
    requires CanLoadAll(m, p, targets)
    ensures |r| == |m|
    decreases |targets|
  {
    if targets == [] then m
    else LoadAll(Load(m, p, targets[0]).0, Load(m, p, targets[0]).1, targets[1..])
  }

  // ---- The round trip ----------------------------------------------------

  /** The bytes `b` lie in memory from address `p`. */
  ghost predicate Holds(m: seq<byte>, p: nat, b: seq<byte>) {
    p + |b| <= |m| && forall i {:trigger b[i]} | 0 <= i < |b| :: m[p + i] == b[i]
  }

  ghost predicate Apart(a: nat, n: nat, b: nat, k: nat) {
    n == 0 || k == 0 || a + n <= b || b + k <= a
  }

  /** The modules' destinations are in memory, and clear of `size` bytes from `p` and of each other. */
  ghost predicate Placed(modules: seq<seq<byte>>, targets: seq<nat>, p: nat, size: nat, memory: nat) {
    && |modules| == |targets|
    && (forall i | 0 <= i < |modules| :: |modules[i]| < TWO_TO_THE_32 && targets[i] + |modules[i]| <= memory)
    && (forall i | 0 <= i < |modules| :: Apart(targets[i], |modules[i]|, p, size))
    && forall i, j | 0 <= i < j < |modules| :: Apart(targets[i], |modules[i]|, targets[j], |modules[j]|)
  }

  ghost predicate Outside(a: nat, modules: seq<seq<byte>>, targets: seq<nat>)
    requires |modules| == |targets|
  {
    forall i | 0 <= i < |modules| :: !(targets[i] <= a < targets[i] + |modules[i]|)
  }

  /** Every module is at its target, and nothing else has changed. */
  ghost predicate Loaded(m: seq<byte>, r: seq<byte>, modules: seq<seq<byte>>, targets: seq<nat>)
    requires |modules| == |targets|
  {
    && |r| == |m|
    && (forall i | 0 <= i < |modules| :: Holds(r, targets[i], modules[i]))
    && forall a: nat | a < |m| && Outside(a, modules, targets) :: r[a] == m[a]
  }

  lemma HoldsSplits(m: seq<byte>, p: nat, b: seq<byte>, c: seq<byte>)
    requires Holds(m, p, b + c)
    ensures Holds(m, p, b) && Holds(m, p + |b|, c)
  {
    assert forall i | 0 <= i < |b| :: (b + c)[i] == b[i];
    assert forall i | 0 <= i < |c| :: (b + c)[|b| + i] == c[i];
  }

  lemma HoldsNumber(m: seq<byte>, p: nat, n: nat)
    requires n < TWO_TO_THE_32 && Holds(m, p, FourBytes(n))
    ensures p + 4 <= |m| && Number(m[p..p + 4]) == n
  {
    NumberOfFourBytes(n);
    assert m[p..p + 4] == FourBytes(n);
  }

  /** Bytes clear of what a copy writes stay where they are. */
  lemma CopyKeeps(m: seq<byte>, dst: nat, src: nat, k: nat, p: nat, b: seq<byte>)
    requires dst + k <= |m| && src + k <= |m| && Holds(m, p, b) && Apart(dst, k, p, |b|)
    ensures Holds(Copied(m, dst, src, k), p, b)
  {
    CopiedFrame(m, dst, src, k);
  }

  /** A copy between two places that are apart puts what the one holds at the other. */
  lemma CopyPuts(m: seq<byte>, dst: nat, src: nat, b: seq<byte>)
    requires dst + |b| <= |m| && Holds(m, src, b) && Apart(dst, |b|, src, |b|)
    ensures Holds(Copied(m, dst, src, |b|), dst, b)
  {
    if b != [] {
      CopiedMoves(m, dst, src, |b|);
    }
  }

  /** Loading the first of the packed modules. */
  lemma LoadFirst(m: seq<byte>, p: nat, modules: seq<seq<byte>>, targets: seq<nat>)
    requires modules != [] && Holds(m, p, Packed(modules)) && Placed(modules, targets, p, |Packed(modules)|, |m|)
    ensures CanLoad(m, p, targets[0])
    ensures var (r, q) := Load(m, p, targets[0]);
            && Holds(r, targets[0], modules[0])
            && (forall a: nat | a < |m| && !(targets[0] <= a < targets[0] + |modules[0]|) :: r[a] == m[a])
            && q == p + 4 + |modules[0]| && Holds(r, q, Packed(modules[1..]))
  {
    hide Holds, Copied, Packed, FourBytes, Number, IsMove;
    var size, rest := |modules[0]|, Packed(modules[1..]);
    FirstIsHeld(m, p, modules);
    assert Apart(targets[0], size, p, |Packed(modules)|);
    CopiedFrame(m, targets[0], p + 4, size);
    CopyKeeps(m, targets[0], p + 4, size, p + 4 + size, rest);
    CopyPuts(m, targets[0], p + 4, modules[0]);
  }

  /** What packed modules in memory say of the first one. */
  lemma FirstIsHeld(m: seq<byte>, p: nat, modules: seq<seq<byte>>)
    requires modules != [] && |modules[0]| < TWO_TO_THE_32 && Holds(m, p, Packed(modules))
    ensures |Packed(modules)| == 4 + |modules[0]| + |Packed(modules[1..])| && p + |Packed(modules)| <= |m|
    ensures Number(m[p..p + 4]) == |modules[0]|
    ensures Holds(m, p + 4, modules[0]) && Holds(m, p + 4 + |modules[0]|, Packed(modules[1..]))
  {
    hide Holds, FourBytes, Number;
    var head, rest := FourBytes(Cut(|modules[0]|)), Packed(modules[1..]);
    assert Packed(modules) == head + modules[0] + rest;
    HoldsInside(m, p, Packed(modules));
    HoldsSplits(m, p, head + modules[0], rest);
    HoldsSplits(m, p, head, modules[0]);
    HoldsNumber(m, p, |modules[0]|);
  }

  lemma HoldsInside(m: seq<byte>, p: nat, b: seq<byte>)
    requires Holds(m, p, b)
    ensures p + |b| <= |m|
  {
  }

  lemma PlacedRest(modules: seq<seq<byte>>, targets: seq<nat>, p: nat, memory: nat)
    requires modules != [] && Placed(modules, targets, p, |Packed(modules)|, memory)
    ensures Placed(modules[1..], targets[1..], p + 4 + |modules[0]|, |Packed(modules[1..])|, memory)
  {
  }

  /** Loading from the packed modules puts each at its target. */
  lemma {:induction false} LoadAllLoads(m: seq<byte>, p: nat, modules: seq<seq<byte>>, targets: seq<nat>)
    requires Holds(m, p, Packed(modules)) && Placed(modules, targets, p, |Packed(modules)|, |m|)
    ensures CanLoadAll(m, p, targets) && Loaded(m, LoadAll(m, p, targets), modules, targets)
    decreases |modules|
  {
    if modules != [] {
      LoadFirst(m, p, modules, targets);
      var (m1, q) := Load(m, p, targets[0]);
      PlacedRest(modules, targets, p, |m|);
      LoadAllLoads(m1, q, modules[1..], targets[1..]);
      LoadedFirst(m, m1, LoadAll(m1, q, targets[1..]), modules, targets);
    }
  }

  lemma LoadedFirst(m: seq<byte>, m1: seq<byte>, r: seq<byte>, modules: seq<seq<byte>>, targets: seq<nat>)
    requires modules != [] && |m1| == |m| && |modules| == |targets| && Holds(m1, targets[0], modules[0])
    requires forall a: nat | a < |m| && !(targets[0] <= a < targets[0] + |modules[0]|) :: m1[a] == m[a]
    requires Loaded(m1, r, modules[1..], targets[1..])
    requires forall j | 0 < j < |modules| :: Apart(targets[0], |modules[0]|, targets[j], |modules[j]|)
    ensures Loaded(m, r, modules, targets)
  {
  }

  /**
    The round trip: with a packed image in memory at `base`, the loader started behind the
    kernel finds the number of modules, and puts each one's exact bytes at its target.
   */
  lemma PackThenLoad(m: seq<byte>, base: nat, kernel: seq<byte>, modules: seq<seq<byte>>, targets: seq<nat>)
    requires Holds(m, base, Image(kernel, modules)) && |modules| < 0x8000_0000
    requires Placed(modules, targets, base + |kernel|, 4 + |Packed(modules)|, |m|)
    ensures var p := base + |kernel|;
            && p + 4 <= |m| && Number(m[p..p + 4]) == |modules|
            && CanLoadAll(m, p + 4, targets) && Loaded(m, LoadAll(m, p + 4, targets), modules, targets)
  {
    var p := base + |kernel|;
    hide Holds;
    HoldsSplits(m, base, kernel + FourBytes(Cut(|modules|)), Packed(modules));
    HoldsSplits(m, base, kernel, FourBytes(Cut(|modules|)));
    HoldsNumber(m, p, |modules|);
    forall i | 0 <= i < |modules| ensures Apart(targets[i], |modules[i]|, p + 4, |Packed(modules)|) {
      assert Apart(targets[i], |modules[i]|, p, 4 + |Packed(modules)|);
    }
    LoadAllLoads(m, p + 4, modules, targets);
  }

  // ---- The program -------------------------------------------------------

  /** `read_uint_32`: a number and the address behind it. */
  method ReadUint32(mem: array<byte>, address: nat) returns (result: nat, next: nat)
    requires address + 4 <= mem.Length
    ensures result == Number(mem[address..address + 4]) && next == address + 4
  {
    result := Number(mem[address..address + 4]);
    next := address + 4;
  }

  /** `load_module` */
  method LoadModule(mem: array<byte>, current: nat, target: nat) returns (next: nat)
    requires CanLoad(mem[..], current, target)
    modifies mem
    ensures (mem[..], next) == Load(old(mem[..]), current, target)
  {
    assert mem[current..current + 4] == mem[..][current..current + 4];
    var size, start := ReadUint32(mem, current);
    Memcpy(mem, target, start, size);
    next := start + size;
  }

  /** `load_modules`; a table of targets longer than the count is used in part. */
  method LoadModules(mem: array<byte>, payloadStart: nat, targets: seq<nat>)
    requires payloadStart + 4 <= mem.Length
    requires Number(mem[payloadStart..payloadStart + 4]) <= |targets|
    requires CanLoadAll(mem[..], payloadStart + 4, targets[..Number(mem[payloadStart..payloadStart + 4])])
    modifies mem
    ensures var count := old(Number(mem[payloadStart..payloadStart + 4]));
            mem[..] == LoadAll(old(mem[..]), payloadStart + 4, targets[..count])
  {
    var count, current := ReadUint32(mem, payloadStart);
    ghost var used := targets[..count];
    var i := 0;
    while i < count
      invariant 0 <= i <= count
      invariant CanLoadAll(mem[..], current, used[i..])
      invariant LoadAll(mem[..], current, used[i..]) == old(LoadAll(mem[..], payloadStart + 4, used))
    {
      assert used[i..][0] == targets[i] && used[i..][1..] == used[i + 1..];
      current := LoadModule(mem, current, targets[i]);
      i := i + 1;
    }
  }
}
