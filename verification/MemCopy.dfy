/**
  `memcpy` of Kernel/lib.c, and the screen scroll built on it. Memory is one array, so source
  and destination may overlap.
 */
module MemCopy {
  import opened Bytes

  /** The memory after `k` bytes have been copied one by one, lowest first. */
  ghost function Copied(m: seq<byte>, dst: nat, src: nat, k: nat): (r: seq<byte>)
    requires dst + k <= |m| && src + k <= |m|
    ensures |r| == |m|
  {
    if k == 0 then m
    else
      var p := Copied(m, dst, src, k - 1);
      p[dst + k - 1 := p[src + k - 1]]
  }

  /** What a copy is for: the destination holds what the source held. */
  ghost predicate IsMove(m: seq<byte>, r: seq<byte>, dst: nat, src: nat, k: nat)
    requires dst + k <= |m| && src + k <= |m|
  {
    && |r| == |m|
    && (forall a | dst <= a < dst + k :: r[a] == m[a - dst + src])
    && forall a | 0 <= a < |m| && !(dst <= a < dst + k) :: r[a] == m[a]
  }

  lemma {:induction false} CopiedFrame(m: seq<byte>, dst: nat, src: nat, k: nat)
    requires dst + k <= |m| && src + k <= |m|
    ensures forall a | 0 <= a < |m| && !(dst <= a < dst + k) :: Copied(m, dst, src, k)[a] == m[a]
  {
    if k > 0 {
      CopiedFrame(m, dst, src, k - 1);
    }
  }

  /** With the destination below the source, or clear of it, the copy is a move. */
  lemma {:induction false} CopiedMoves(m: seq<byte>, dst: nat, src: nat, k: nat)
    requires dst + k <= |m| && src + k <= |m|
    requires dst <= src || src + k <= dst
    ensures IsMove(m, Copied(m, dst, src, k), dst, src, k)
  {
    if k > 0 {
      CopiedMoves(m, dst, src, k - 1);
      CopiedFrame(m, dst, src, k - 1);
      var p := Copied(m, dst, src, k - 1);
      assert p[src + k - 1] == m[src + k - 1];
    }
  }

  /**
    However the ranges overlap, the destination ends up equal to what then lies `dst - src`
    bytes below it: inside the source, the bytes before the destination repeat.
   */
  lemma {:induction false} CopiedRepeats(m: seq<byte>, dst: nat, src: nat, k: nat, j: nat)
    requires dst + k <= |m| && src + k <= |m| && src <= dst && j < k
    ensures Copied(m, dst, src, k)[dst + j] == Copied(m, dst, src, k)[src + j]
  {
    if j < k - 1 {
      CopiedRepeats(m, dst, src, k - 1, j);
    }
  }

  /** The exact condition: memcpy moves every memory's bytes iff the destination does not start inside the source. */
  lemma CopyMovesIff(size: nat, dst: nat, src: nat, k: nat)
    requires dst + k <= size && src + k <= size
    ensures (forall m: seq<byte> | |m| == size :: IsMove(m, Copied(m, dst, src, k), dst, src, k))
            <==> dst <= src || src + k <= dst
  {
    if dst <= src || src + k <= dst {
      forall m: seq<byte> | |m| == size ensures IsMove(m, Copied(m, dst, src, k), dst, src, k) {
        CopiedMoves(m, dst, src, k);
      }
    } else {
      OverlapFails(size, dst, src, k);
    }
  }

  lemma OverlapFails(size: nat, dst: nat, src: nat, k: nat)
    requires dst + k <= size && src < dst < src + k
    ensures exists m: seq<byte> :: |m| == size && !IsMove(m, Copied(m, dst, src, k), dst, src, k)
  {
    hide Copied;
    var m: seq<byte> := seq(size, a => if a == dst then 1 else 0);
    var r, period := Copied(m, dst, src, k), dst - src;
    CopiedRepeats(m, dst, src, k, 0);
    CopiedRepeats(m, dst, src, k, period);
    CopiedFrame(m, dst, src, k);
    assert r[src] == m[src] == 0;
    assert r[dst + period] == r[dst] == r[src];
    assert !IsMove(m, r, dst, src, k);
  }

  // ---- Words -------------------------------------------------------------

  lemma {:induction false} CopiedSplits(m: seq<byte>, dst: nat, src: nat, j: nat, k: nat)
    requires j <= k && dst + k <= |m| && src + k <= |m|
    ensures Copied(m, dst, src, k) == Copied(Copied(m, dst, src, j), dst + j, src + j, k - j)
  {
    if j < k {
      CopiedSplits(m, dst, src, j, k - 1);
    }
  }

  /** Aligned words are the same or apart, so a word goes over as its four bytes would one by one. */
  lemma WordIsBytes(m: seq<byte>, dst: nat, src: nat, j: nat)
    requires dst % 4 == 0 && src % 4 == 0 && j % 4 == 0
    requires dst + j + 4 <= |m| && src + j + 4 <= |m|
    ensures IsMove(Copied(m, dst, src, j), Copied(m, dst, src, j + 4), dst + j, src + j, 4)
  {
    CopiedSplits(m, dst, src, j, j + 4);
    CopiedMoves(Copied(m, dst, src, j), dst + j, src + j, 4);
  }

  lemma CopiedNothing(m: seq<byte>, dst: nat, src: nat)
    requires dst <= |m| && src <= |m|
    ensures Copied(m, dst, src, 0) == m
  {
  }

  lemma SameMove(m: seq<byte>, r: seq<byte>, r': seq<byte>, dst: nat, src: nat, k: nat)
    requires dst + k <= |m| && src + k <= |m|
    requires IsMove(m, r, dst, src, k) && IsMove(m, r', dst, src, k)
    ensures r == r'
  {
  }

  /** `d[i] = s[i]` on 32-bit words. */
  method StoreWord(mem: array<byte>, d: nat, s: nat)
    requires d + 4 <= mem.Length && s + 4 <= mem.Length
    modifies mem
    ensures IsMove(old(mem[..]), mem[..], d, s, 4)
  {
    mem[d], mem[d + 1], mem[d + 2], mem[d + 3] := mem[s], mem[s + 1], mem[s + 2], mem[s + 3];
  }

  /** The word path: `words` aligned 32-bit words. */
  method CopyWords(mem: array<byte>, dst: nat, src: nat, words: nat)
    requires dst + 4 * words <= mem.Length && src + 4 * words <= mem.Length
    requires dst % 4 == 0 && src % 4 == 0
    modifies mem
    ensures mem[..] == Copied(old(mem[..]), dst, src, 4 * words)
  {
    hide Copied, IsMove;
    CopiedNothing(mem[..], dst, src);
    var i := 0;
    while i < words
      invariant 0 <= i <= words
      invariant mem[..] == Copied(old(mem[..]), dst, src, 4 * i)
    {
      WordIsBytes(old(mem[..]), dst, src, 4 * i);
      ghost var was := mem[..];
      StoreWord(mem, dst + 4 * i, src + 4 * i);
      SameMove(was, mem[..], Copied(old(mem[..]), dst, src, 4 * i + 4), dst + 4 * i, src + 4 * i, 4);
      i := i + 1;
    }
  }

  /** The byte path. */
  method CopyBytes(mem: array<byte>, dst: nat, src: nat, length: nat)
    requires dst + length <= mem.Length && src + length <= mem.Length
    modifies mem
    ensures mem[..] == Copied(old(mem[..]), dst, src, length)
  {
    var i := 0;
    while i < length
      invariant 0 <= i <= length
      invariant mem[..] == Copied(old(mem[..]), dst, src, i)
    {
      mem[dst + i] := mem[src + i];
      i := i + 1;
    }
  }

  /** `memcpy`: both paths leave what the byte-by-byte copy leaves, however the ranges overlap. */
  method Memcpy(mem: array<byte>, dst: nat, src: nat, length: nat)
    requires dst + length <= mem.Length && src + length <= mem.Length
    modifies mem
    ensures mem[..] == Copied(old(mem[..]), dst, src, length)
  {
    if dst % 4 == 0 && src % 4 == 0 && length % 4 == 0 {
      CopyWords(mem, dst, src, length / 4);
    } else {
      CopyBytes(mem, dst, src, length);
    }
  }

  // ---- Scrolling ---------------------------------------------------------

  lemma Distributes(p: nat, a: nat, b: nat)
    ensures p * (a + b) == p * a + p * b
  {
  }

  /** The copy of `move_one_line_up`: the screen goes up by `lines` rows of `pitch` bytes. */
  method MoveOneLineUp(mem: array<byte>, framebuffer: nat, pitch: nat, height: nat, lines: nat)
    requires lines <= height && framebuffer + pitch * height <= mem.Length
    modifies mem
    ensures framebuffer + pitch * lines + pitch * (height - lines) <= mem.Length
    ensures IsMove(old(mem[..]), mem[..], framebuffer, framebuffer + pitch * lines, pitch * (height - lines))
  {
    Distributes(pitch, lines, height - lines);
    Memcpy(mem, framebuffer, framebuffer + pitch * lines, pitch * (height - lines));
    CopiedMoves(old(mem[..]), framebuffer, framebuffer + pitch * lines, pitch * (height - lines));
  }

  /** Every row then shows what was `lines` rows below it. */
  lemma ScrollMovesRows(m: seq<byte>, r: seq<byte>, framebuffer: nat, pitch: nat, height: nat, lines: nat,
                        y: nat, x: nat)
    requires lines <= height && framebuffer + pitch * lines + pitch * (height - lines) <= |m|
    requires IsMove(m, r, framebuffer, framebuffer + pitch * lines, pitch * (height - lines))
    requires y < height - lines && x < pitch
    ensures framebuffer + pitch * (y + lines) + x < |m| == |r|
    ensures r[framebuffer + pitch * y + x] == m[framebuffer + pitch * (y + lines) + x]
  {
    var rest := height - lines - y - 1;
    Distributes(pitch, y, 1 + rest);
    Distributes(pitch, 1, rest);
    Distributes(pitch, y, lines);
  }
}
