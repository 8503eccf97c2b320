/**
  The dining philosophers of Userland/SampleCodeModule/phylo.c. A table is the sequence of its
  seats; each section held under `mutex_id` is one step.
 */
module Philosophers {

  const MAX_PHILOSOPHERS: nat := 20

  datatype Mood = Thinking | Hungry | Eating

  lemma ModHolds(x: nat, n: nat)
    requires n > 0 && x < 2 * n
    ensures x % n == if x < n then x else x - n
  {
  }

  function Left(i: nat, n: nat): (k: nat)
    requires i < n
    ensures k < n && k == if i == 0 then n - 1 else i - 1
  {
    ModHolds(i + n - 1, n);
    (i + n - 1) % n
  }

  function Right(i: nat, n: nat): (k: nat)
    requires i < n
    ensures k < n && k == if i == n - 1 then 0 else i + 1
  {
    ModHolds(i + 1, n);
    (i + 1) % n
  }

  /** Each seat is the right neighbour of its left one and the left neighbour of its right one. */
  lemma NeighboursInvert(i: nat, n: nat)
    requires i < n
    ensures Right(Left(i, n), n) == i && Left(Right(i, n), n) == i
    ensures n >= 2 ==> Left(i, n) != i && Right(i, n) != i
  {
  }

  // ---- The steps ---------------------------------------------------------

  ghost predicate CanEat(t: seq<Mood>, i: nat)
    requires i < |t|
  {
    t[i] == Hungry && t[Left(i, |t|)] != Eating && t[Right(i, |t|)] != Eating
  }

  /** `test` */
  ghost function Test(t: seq<Mood>, i: nat): (r: seq<Mood>)
    requires i < |t|
    ensures |r| == |t|
  {
    if CanEat(t, i) then t[i := Eating] else t
  }

  datatype Section = Take(seat: nat) | Put(seat: nat) | Add(created: bool)

  ghost predicate Enabled(t: seq<Mood>, s: Section) {
    match s
    case Take(i) => i < |t|
    case Put(i) => i < |t|
    case Add(_) => |t| < MAX_PHILOSOPHERS
  }

  ghost function Step(t: seq<Mood>, s: Section): (r: seq<Mood>)
    requires Enabled(t, s)
    ensures |r| == |t| || (s == Add(true) && |r| == |t| + 1)
  {
    match s
    case Take(i) => Test(t[i := Hungry], i)
    case Put(i) => Test(Test(t[i := Thinking], Left(i, |t|)), Right(i, |t|))
    case Add(created) => if created then t + [Thinking] else t
  }

  ghost predicate CanRun(t: seq<Mood>, run: seq<Section>)
    decreases |run|
  {
    run == [] || (Enabled(t, run[0]) && CanRun(Step(t, run[0]), run[1..]))
  }

  ghost function Run(t: seq<Mood>, run: seq<Section>): seq<Mood>
    requires CanRun(t, run)
    decreases |run|
  {
    if run == [] then t else Run(Step(t, run[0]), run[1..])
  }

  /** take_forks: the seat eats iff neither neighbour does, else it is hungry; nobody else changes. */
  lemma TakeContract(t: seq<Mood>, i: nat)
    requires i < |t|
    ensures var r, left, right := Step(t, Take(i)), Left(i, |t|), Right(i, |t|);
            && |r| == |t|
            && (r[i] == Eating || r[i] == Hungry)
            && (r[i] == Hungry <==> (left != i && t[left] == Eating) || (right != i && t[right] == Eating))
            && forall k: nat | k < |t| && k != i :: r[k] == t[k]
  {
  }

  /**
    put_forks looks to the left first. Beside the seat that stops, a hungry left neighbour eats iff the
    seat beyond it did not eat before, and a hungry right one iff the seat beyond it does not eat after.
   */
  lemma PutContract(t: seq<Mood>, i: nat)
    requires i < |t|
    ensures var r, left, right := Step(t, Put(i)), Left(i, |t|), Right(i, |t|);
            && |r| == |t| && r[i] == Thinking
            && (forall k: nat | k < |t| && k != i ::
                  r[k] == t[k] || ((k == left || k == right) && t[k] == Hungry && r[k] == Eating))
            && (left != i && t[left] == Hungry ==>
                  (r[left] == Eating <==> Left(left, |t|) == i || t[Left(left, |t|)] != Eating))
            && (right != i && t[right] == Hungry ==>
                  (r[right] == Eating <==> Right(right, |t|) == i || r[Right(right, |t|)] != Eating))
  {
    NeighboursInvert(i, |t|);
  }

  /** A new philosopher sits down at the end of the row and thinks; without a process nothing changes. */
  lemma AddContract(t: seq<Mood>)
    requires |t| < MAX_PHILOSOPHERS
    ensures var r := Step(t, Add(true)); |r| == |t| + 1 && r[..|t|] == t && r[|t|] == Thinking
    ensures Step(t, Add(false)) == t
  {
  }

  // ---- What holds of a table ---------------------------------------------

  /** No two neighbours eat. */
  ghost predicate Exclusive(t: seq<Mood>) {
    |t| >= 2 ==> forall i: nat | i < |t| :: t[i] == Eating ==> t[Left(i, |t|)] != Eating && t[Right(i, |t|)] != Eating
  }

  ghost predicate HasEater(t: seq<Mood>, i: nat)
    requires i < |t|
  {
    t[Left(i, |t|)] == Eating || t[Right(i, |t|)] == Eating
  }

  /** Who waits has a neighbour who will put down a fork. */
  ghost predicate Served(t: seq<Mood>) {
    forall i: nat | i < |t| :: t[i] == Hungry ==> HasEater(t, i)
  }

  ghost predicate ServedBut(t: seq<Mood>, hungry: set<nat>) {
    forall i: nat | i < |t| && i !in hungry :: t[i] == Hungry ==> HasEater(t, i)
  }

  lemma TestKeepsExclusive(t: seq<Mood>, i: nat)
    requires Exclusive(t) && i < |t|
    ensures Exclusive(Test(t, i))
  {
  }

  lemma StopKeepsExclusive(t: seq<Mood>, i: nat, m: Mood)
    requires Exclusive(t) && i < |t| && m != Eating
    ensures Exclusive(t[i := m])
  {
  }

  /** The seat tested is served afterwards, and no one else loses a neighbour who eats. */
  lemma TestServes(t: seq<Mood>, i: nat, hungry: set<nat>)
    requires i < |t| && ServedBut(t, hungry)
    ensures ServedBut(Test(t, i), hungry - {i})
  {
    NeighboursInvert(i, |t|);
  }

  lemma StopServes(t: seq<Mood>, i: nat)
    requires i < |t| && Served(t)
    ensures ServedBut(t[i := Thinking], {Left(i, |t|), Right(i, |t|)})
  {
    NeighboursInvert(i, |t|);
  }

  /** No section puts two neighbours at their food, on a table of any size, also as it grows. */
  lemma StepKeepsExclusive(t: seq<Mood>, s: Section)
    requires Exclusive(t) && Enabled(t, s)
    ensures Exclusive(Step(t, s))
  {
    match s
    case Take(i) =>
      StopKeepsExclusive(t, i, Hungry);
      TestKeepsExclusive(t[i := Hungry], i);
    case Put(i) =>
      StopKeepsExclusive(t, i, Thinking);
      TestKeepsExclusive(t[i := Thinking], Left(i, |t|));
      TestKeepsExclusive(Test(t[i := Thinking], Left(i, |t|)), Right(i, |t|));
    case Add(created) =>
      if created {
        AddKeepsExclusive(t);
      }
  }

  lemma AddKeepsExclusive(t: seq<Mood>)
    requires Exclusive(t)
    ensures Exclusive(t + [Thinking])
  {
    var r, n := t + [Thinking], |t|;
    forall i: nat | i < n + 1 && r[i] == Eating
      ensures r[Left(i, n + 1)] != Eating && r[Right(i, n + 1)] != Eating
    {
      NeighboursInvert(i, n);
      NeighboursInvert(i, n + 1);
    }
  }

  /**
    On a table that does not grow, every section leaves a neighbour who eats beside everyone
    who is hungry. Philosophers may come to take_forks and put_forks in any mood.
   */
  lemma StepKeepsServed(t: seq<Mood>, s: Section)
    requires Exclusive(t) && Served(t) && Enabled(t, s) && s != Add(true)
    ensures Served(Step(t, s))
  {
    match s
    case Take(i) =>
      TakeKeepsServed(t, i);
    case Put(i) =>
      var l, r := Left(i, |t|), Right(i, |t|);
      StopServes(t, i);
      TestServes(t[i := Thinking], l, {l, r});
      TestServes(Test(t[i := Thinking], l), r, {l, r} - {l});
    case Add(_) =>
  }

  lemma TakeKeepsServed(t: seq<Mood>, i: nat)
    requires Exclusive(t) && Served(t) && i < |t|
    ensures Served(Test(t[i := Hungry], i))
  {
  }

  /** A table where someone is hungry has someone who eats, so it is never stuck. */
  lemma ServedIsNotStuck(t: seq<Mood>)
    requires Served(t) && Hungry in t
    ensures Eating in t
  {
  }

  /** put_forks hands the fork on: a hungry neighbour eats unless the one beyond it does. */
  lemma PutHandsOn(t: seq<Mood>, i: nat, k: nat, beyond: nat)
    requires Exclusive(t) && i < |t| && |t| >= 2 && t[i] == Eating && k < |t| && t[k] == Hungry
    requires (k == Left(i, |t|) && beyond == Left(k, |t|)) || (k == Right(i, |t|) && beyond == Right(k, |t|))
    ensures var r := Step(t, Put(i)); r[i] == Thinking && (r[k] == Eating <==> r[beyond] != Eating)
    ensures beyond != Left(i, |t|) && beyond != Right(i, |t|) && beyond != i ==> Step(t, Put(i))[beyond] == t[beyond]
  {
    NeighboursInvert(i, |t|);
  }

  /**
    Seating one more keeps everyone served iff neither end of the row was hungry with its only
    eating neighbour across the seam.
   */
  lemma AddKeepsServedIff(t: seq<Mood>)
    requires Served(t) && 0 < |t| < MAX_PHILOSOPHERS
    ensures Served(Step(t, Add(true))) <==>
              && (t[0] == Hungry ==> |t| > 1 && t[1] == Eating)
              && (t[|t| - 1] == Hungry ==> |t| > 1 && t[|t| - 2] == Eating)
  {
    var r, n := t + [Thinking], |t|;
    assert HasEater(r, 0) <==> n > 1 && t[1] == Eating;
    assert HasEater(r, n - 1) <==> n > 1 && t[n - 2] == Eating;
    forall i: nat | 0 < i < n - 1 ensures HasEater(r, i) <==> HasEater(t, i) {
    }
    assert r[0] == t[0] && r[n - 1] == t[n - 1];
    assert forall i: nat | 0 < i < n - 1 :: r[i] == t[i];
  }

  // ---- Runs --------------------------------------------------------------

  lemma {:induction false} RunsAreExclusive(t: seq<Mood>, run: seq<Section>)
    requires Exclusive(t) && CanRun(t, run)
    ensures Exclusive(Run(t, run))
    decreases |run|
  {
    if run != [] {
      StepKeepsExclusive(t, run[0]);
      RunsAreExclusive(Step(t, run[0]), run[1..]);
    }
  }

  lemma {:induction false} RunsAreServed(t: seq<Mood>, run: seq<Section>)
    requires Exclusive(t) && Served(t) && CanRun(t, run)
    requires forall i | 0 <= i < |run| :: run[i] != Add(true)
    ensures Served(Run(t, run)) && Exclusive(Run(t, run))
    ensures Hungry in Run(t, run) ==> Eating in Run(t, run)
    decreases |run|
  {
    if run == [] {
      if Hungry in t {
        ServedIsNotStuck(t);
      }
    } else {
      StepKeepsExclusive(t, run[0]);
      StepKeepsServed(t, run[0]);
      RunsAreServed(Step(t, run[0]), run[1..]);
    }
  }

  /** Why the table must not grow: here nobody eats, and philosopher 0 is hungry. */
  lemma AddStrands()
    ensures var run := [Add(true), Add(true), Add(true), Take(2), Take(0), Add(true), Put(2)];
            CanRun([], run) && Run([], run) == [Hungry, Thinking, Thinking, Thinking]
  {
  }

  /** Two neighbours can keep a third from eating for ever, by turns. */
  function Turns(k: nat): seq<Section> {
    if k == 0 then [] else [Take(2)] + ([Put(0)] + ([Take(0)] + ([Put(2)] + Turns(k - 1))))
  }

  lemma Follow(t: seq<Mood>, s: Section, u: seq<Mood>, run: seq<Section>)
    requires Enabled(t, s) && Step(t, s) == u && CanRun(u, run)
    ensures CanRun(t, [s] + run) && Run(t, [s] + run) == Run(u, run)
  {
    hide Step;
    assert ([s] + run)[1..] == run;
  }

  /** One round: both neighbours of seat 1 have eaten in turn, and seat 1 has not. */
  lemma OneTurn(run: seq<Section>)
    requires CanRun([Eating, Hungry, Thinking, Thinking], run)
    ensures var t := [Eating, Hungry, Thinking, Thinking];
            var turn := [Take(2)] + ([Put(0)] + ([Take(0)] + ([Put(2)] + run)));
            CanRun(t, turn) && Run(t, turn) == Run(t, run)
  {
    hide CanRun, Run;
    var t := [Eating, Hungry, Thinking, Thinking];
    var a, b := [Eating, Hungry, Eating, Thinking], [Thinking, Hungry, Eating, Thinking];
    Follow(a, Put(2), t, run);
    Follow(b, Take(0), a, [Put(2)] + run);
    Follow(a, Put(0), b, [Take(0)] + ([Put(2)] + run));
    Follow(t, Take(2), a, [Put(0)] + ([Take(0)] + ([Put(2)] + run)));
  }

  lemma {:induction false} TurnsStarve(k: nat)
    ensures var t := [Eating, Hungry, Thinking, Thinking]; CanRun(t, Turns(k)) && Run(t, Turns(k)) == t
  {
    hide Step;
    if k > 0 {
      TurnsStarve(k - 1);
      OneTurn(Turns(k - 1));
    }
  }

  // ---- The program -------------------------------------------------------

  class Table {
    const forkStates: array<Mood>
    var numPhilosophers: nat

    ghost predicate Valid()
      reads this
    {
      forkStates.Length == MAX_PHILOSOPHERS && numPhilosophers <= MAX_PHILOSOPHERS
    }

    ghost function Seats(): (t: seq<Mood>)
      reads this, forkStates
      requires Valid()
    {
      forkStates[..numPhilosophers]
    }

    /** The start of `phylo`. */
    constructor ()
      ensures Valid() && fresh(forkStates) && Seats() == []
    {
      forkStates := new Mood[MAX_PHILOSOPHERS](_ => Thinking);
      numPhilosophers := 0;
    }

    /** `test`; `posted` says that it signalled the fork semaphore. */
    method TestSeat(i: nat) returns (posted: bool)
      requires Valid() && i < numPhilosophers
      modifies forkStates
      ensures Valid() && Seats() == Test(old(Seats()), i)
      ensures posted <==> old(CanEat(Seats(), i))
      ensures forall k | numPhilosophers <= k < MAX_PHILOSOPHERS :: forkStates[k] == old(forkStates[k])
    {
      NeighboursInvert(i, numPhilosophers);
      posted := forkStates[i] == Hungry
                && forkStates[Left(i, numPhilosophers)] != Eating
                && forkStates[Right(i, numPhilosophers)] != Eating;
      if posted {
        forkStates[i] := Eating;
      }
    }

    /** `take_forks`; `waits` says that the caller goes on to wait for its fork semaphore. */
    method TakeForks(i: nat) returns (waits: bool)
      requires Valid() && i < numPhilosophers
      modifies forkStates
      ensures Valid() && Seats() == Step(old(Seats()), Take(i))
      ensures waits <==> Seats()[i] == Hungry
    {
      forkStates[i] := Hungry;
      assert Seats() == old(Seats())[i := Hungry];
      var posted := TestSeat(i);
      assert forkStates[i] == Seats()[i];
      waits := forkStates[i] != Eating;
    }

    /** `put_forks` */
    method PutForks(i: nat)
      requires Valid() && i < numPhilosophers
      modifies forkStates
      ensures Valid() && Seats() == Step(old(Seats()), Put(i))
    {
      NeighboursInvert(i, numPhilosophers);
      forkStates[i] := Thinking;
      assert Seats() == old(Seats())[i := Thinking];
      var _ := TestSeat(Left(i, numPhilosophers));
      var _ := TestSeat(Right(i, numPhilosophers));
    }

    /** `add_philosopher`; `created` says that the new process could be made. */
    method AddPhilosopher(created: bool)
      requires Valid() && numPhilosophers < MAX_PHILOSOPHERS
      modifies this`numPhilosophers, forkStates
      ensures Valid() && Seats() == Step(old(Seats()), Add(created))
    {
      forkStates[numPhilosophers] := Thinking;
      if !created {
        assert Seats() == old(Seats());
        return;
      }
      numPhilosophers := numPhilosophers + 1;
      assert Seats() == old(Seats()) + [Thinking];
      var posted := TestSeat(numPhilosophers - 1);
    }
  }
}
