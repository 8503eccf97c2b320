/** Sequences as circular lists read from their current node. */
module Rings {

  ghost predicate Distinct<T>(q: seq<T>) {
    forall i, j | 0 <= i < j < |q| :: q[i] != q[j]
  }

  /** The list without its first `x`. */
  function Remove<T(==)>(q: seq<T>, x: T): seq<T> {
    if q == [] then []
    else if q[0] == x then q[1..]
    else [q[0]] + Remove(q[1..], x)
  }

  /** The list read from its `k`th node. */
  function Rotate<T>(q: seq<T>, k: nat): seq<T>
    requires k <= |q|
  {
    q[k..] + q[..k]
  }

  lemma {:induction false} RemoveDeletes<T>(q: seq<T>, x: T)
    requires Distinct(q)
    ensures Distinct(Remove(q, x))
    ensures forall y :: y in Remove(q, x) <==> y in q && y != x
  {
    if q != [] && q[0] != x {
      assert q == [q[0]] + q[1..];
      RemoveDeletes(q[1..], x);
      var r := Remove(q[1..], x);
      assert q[0] !in q[1..];
      forall i, j | 0 <= i < j < |[q[0]] + r| ensures ([q[0]] + r)[i] != ([q[0]] + r)[j] {
        if i == 0 {
          assert r[j - 1] in r;
        }
      }
    }
  }

  /** Removing from a position tells where the later elements go. */
  lemma {:induction false} RemoveAt<T>(q: seq<T>, k: nat)
    requires k < |q| && q[k] !in q[..k]
    ensures Remove(q, q[k]) == q[..k] + q[k + 1..]
  {
    if k > 0 {
      assert q[0] in q[..k];
      assert q[1..][k - 1] == q[k] && q[1..][..k - 1] == q[..k][1..];
      RemoveAt(q[1..], k - 1);
      assert q[..k] + q[k + 1..] == [q[0]] + (q[1..][..k - 1] + q[1..][k..]);
    }
  }

  lemma {:induction false} RemoveAbsent<T>(q: seq<T>, x: T)
    requires x !in q
    ensures Remove(q, x) == q
  {
    if q != [] {
      RemoveAbsent(q[1..], x);
    }
  }

  lemma DistinctAppend<T>(q: seq<T>, x: T)
    requires Distinct(q) && x !in q
    ensures Distinct(q + [x]) && forall y :: y in q + [x] <==> y in q || y == x
  {
  }

  lemma RotateKeeps<T>(q: seq<T>, k: nat)
    requires k <= |q| && Distinct(q)
    ensures Distinct(Rotate(q, k))
    ensures forall y :: y in Rotate(q, k) <==> y in q
  {
    assert q == q[..k] + q[k..];
  }

  /** The list without everything in `gone`, in its order. */
  function Survivors<T(==)>(q: seq<T>, gone: seq<T>): seq<T> {
    if q == [] then []
    else (if q[0] in gone then [] else [q[0]]) + Survivors(q[1..], gone)
  }

  lemma {:induction false} RemoveSurvives<T>(q: seq<T>, x: T)
    requires Distinct(q)
    ensures Survivors(q, [x]) == Remove(q, x)
  {
    if q != [] {
      if q[0] == x {
        SurvivesWhole(q[1..], [x]);
      } else {
        RemoveSurvives(q[1..], x);
      }
    }
  }

  lemma {:induction false} SurvivesWhole<T>(q: seq<T>, gone: seq<T>)
    requires forall x | x in q :: x !in gone
    ensures Survivors(q, gone) == q
  {
    if q != [] {
      SurvivesWhole(q[1..], gone);
    }
  }

  lemma {:induction false} SurviveTwice<T>(q: seq<T>, first: seq<T>, second: seq<T>)
    ensures Survivors(Survivors(q, first), second) == Survivors(q, first + second)
  {
    if q != [] {
      SurviveTwice(q[1..], first, second);
      var left := Survivors(q[1..], first);
      assert q[0] in first + second <==> q[0] in first || q[0] in second;
      if q[0] in first {
        assert Survivors(q, first) == left;
      } else {
        assert Survivors(q, first) == [q[0]] + left;
        assert ([q[0]] + left)[1..] == left;
      }
    }
  }
}
