/** Powers of two and the bit trick the kernel uses to recognise them. */
module PowersOfTwo {

  predicate IsPow2(x: nat) {
    x == 1 || (x > 1 && x % 2 == 0 && IsPow2(x / 2))
  }

  lemma Pow2Double(x: nat)
    requires IsPow2(x)
    ensures IsPow2(2 * x)
  {
    assert (2 * x) / 2 == x;
  }

  /** Bitwise `x & y` on unsigned integers. */
  function BitAnd(x: nat, y: nat): nat {
    if x == 0 || y == 0 then 0
    else 2 * BitAnd(x / 2, y / 2) + (if x % 2 == 1 && y % 2 == 1 then 1 else 0)
  }

  lemma {:induction false} BitAndSelf(x: nat)
    ensures BitAnd(x, x) == x
  {
    if x > 0 {
      BitAndSelf(x / 2);
    }
  }

  /** `x != 0 && (x & (x - 1)) == 0` holds of the powers of two and of nothing else. */
  lemma {:induction false} BitTrick(x: nat)
    ensures (x != 0 && BitAnd(x, x - 1) == 0) <==> IsPow2(x)
  {
    if x > 1 {
      if x % 2 == 1 {
        assert (x - 1) / 2 == x / 2;
        BitAndSelf(x / 2);
      } else {
        assert (x - 1) / 2 == x / 2 - 1;
        BitTrick(x / 2);
      }
    }
  }

  /** Between half of a power of two (exclusive) and the whole lies one power only. */
  lemma {:induction false} Pow2Squeeze(a: nat, b: nat)
    requires IsPow2(a) && IsPow2(b) && b / 2 < a <= b
    ensures a == b
  {
    if a > 1 {
      Pow2Squeeze(a / 2, b / 2);
    }
  }

  /** Every positive number has a power of two between it and its half. */
  lemma {:induction false} Pow2Below(x: nat) returns (p: nat)
    requires x > 0
    ensures IsPow2(p) && p <= x < 2 * p
  {
    if x == 1 {
      p := 1;
    } else {
      var q := Pow2Below(x / 2);
      p := 2 * q;
    }
  }

  /** A power of two is a multiple of every smaller one. */
  lemma {:induction false} Pow2Divides(a: nat, b: nat) returns (k: nat)
    requires IsPow2(a) && IsPow2(b) && a <= b
    ensures b == k * a
  {
    if a == 1 {
      k := b;
    } else {
      k := Pow2Divides(a / 2, b / 2);
      assert b == 2 * (b / 2) == 2 * (k * (a / 2)) == k * (2 * (a / 2));
    }
  }
}
