/**
  No starvation: while nobody is created, killed, blocked or given another priority, a READY
  process of rings 1 to 3 is selected within S + n context switches, where n counts the
  processes of those rings and S adds up how far each of them stands above LOW. Kills and
  creations that are still queued are allowed for: a queued creation counts as one process
  that stands two levels above LOW.
 */
module SchedulerFairness {
  import opened Rings
  import opened Scheduler
  import opened SchedulerSteps
  import opened SchedulerRuns

  ghost predicate Quiet(s: State) {
    s.removal == [] && s.creation == []
  }

  ghost predicate Waits(s: State, p: Pid) {
    s.Listed(p) && s.Is(p, Ready) && s.Of(p).priority >= LOW
  }

  /** S: the levels the processes of rings 2 and 3 can still fall. */
  function Height(s: State): nat {
    |s.rings[2]| + 2 * |s.rings[HIGH]|
  }

  /** n: the processes of rings 1 to 3. */
  function Population(s: State): nat {
    |s.rings[LOW]| + |s.rings[2]| + |s.rings[HIGH]|
  }

  function IndexOf(q: seq<Pid>, p: Pid): (i: nat)
    ensures i <= |q|
  {
    if q == [] || q[0] == p then 0 else 1 + IndexOf(q[1..], p)
  }

  /** `k` context switches, each at the end of a quantum. */
  function Switches(s: State, k: nat): State
    decreases k
  {
    if k == 0 then s else Switches(Yield(s), k - 1)
  }

  /** The state a switch chooses from. */
  function Candidates(s: State): State {
    Prepared(s.SetTicks(s.current, QUANTUM))
  }

  /** The same when both queues are empty: the current process stepped down. */
  function Demoted(s: State): State {
    Stop(s.SetTicks(s.current, QUANTUM))
  }

  /** What stands between a waiting process and its selection, once the current process stepped down. */
  function Distance(m: State, p: Pid): nat {
    Height(m) + if m.Of(p).priority == LOW then IndexOf(m.rings[LOW], p) else 0
  }

  lemma {:induction false} IndexOfIsFirst(q: seq<Pid>, p: Pid)
    requires p in q
    ensures IndexOf(q, p) < |q| && q[IndexOf(q, p)] == p && p !in q[..IndexOf(q, p)]
  {
    if q[0] != p {
      IndexOfIsFirst(q[1..], p);
      var i := IndexOf(q[1..], p);
      assert q[..1 + i] == [q[0]] + q[1..][..i];
    }
  }

  lemma {:induction false} IndexOfAt(q: seq<Pid>, p: Pid, i: nat)
    requires i < |q| && q[i] == p && p !in q[..i]
    ensures IndexOf(q, p) == i
  {
    if i > 0 {
      assert q[0] in q[..i] && q[1..][..i - 1] == q[..i][1..];
      IndexOfAt(q[1..], p, i - 1);
    }
  }

  /** Turning a ring past position `k` brings everything behind `k` forward. */
  lemma IndexAfterRotate(q: seq<Pid>, p: Pid, k: nat)
    requires p in q && Distinct(q) && k < IndexOf(q, p)
    ensures IndexOf(Rotate(q, k + 1), p) == IndexOf(q, p) - (k + 1)
  {
    IndexOfIsFirst(q, p);
    var i := IndexOf(q, p);
    var r := Rotate(q, k + 1);
    assert r[i - (k + 1)] == p;
    assert forall j | 0 <= j < i - (k + 1) :: r[j] == q[j + k + 1];
    IndexOfAt(r, p, i - (k + 1));
  }

  lemma IndexAfterAppend(q: seq<Pid>, p: Pid, x: Pid)
    requires p in q
    ensures IndexOf(q + [x], p) == IndexOf(q, p)
  {
    IndexOfIsFirst(q, p);
    var i := IndexOf(q, p);
    assert (q + [x])[..i] == q[..i];
    IndexOfAt(q + [x], p, i);
  }

  lemma {:induction false} RemoveShortens(q: seq<Pid>, p: Pid)
    requires p in q
    ensures |Remove(q, p)| == |q| - 1
  {
    if q[0] != p {
      RemoveShortens(q[1..], p);
    }
  }

  // ---- One switch --------------------------------------------------------

  lemma QuietPrepared(s: State)
    requires Inv(s) && Quiet(s)
    ensures Candidates(s) == Demoted(s)
  {
  }

  lemma TicksSwitchable(s: State)
    requires Inv(s)
    ensures Switchable(s.SetTicks(s.current, QUANTUM))
  {
    TicksKeepInv(s, s.current, QUANTUM);
  }

  /** A demotion takes one level off, and passes nobody who waits in the lowest ring. */
  lemma DemotionMoves(s: State)
    requires Inv(s)
    ensures var m := Demoted(s);
            && Height(m) == (if LOW < s.Of(s.current).priority <= HIGH then Height(s) - 1 else Height(s))
            && Population(m) == Population(s)
            && (forall p | p in s.rings[LOW] ::
                  p in m.rings[LOW] && IndexOf(m.rings[LOW], p) == IndexOf(s.rings[LOW], p))
  {
    var t := s.SetTicks(s.current, QUANTUM);
    var c := s.Of(s.current).priority;
    ListedByPriority(s, s.current);
    ListedByPriority(t, s.current);
    if LOW < c <= HIGH {
      RemoveShortens(s.rings[c], s.current);
      forall p | p in s.rings[LOW] ensures IndexOf(s.rings[LOW] + [s.current], p) == IndexOf(s.rings[LOW], p) {
        IndexAfterAppend(s.rings[LOW], p, s.current);
      }
    }
  }

  lemma DemotionKeeps(s: State)
    requires Inv(s)
    ensures var m := Demoted(s);
            && Shaped(m) && m.current == s.current
            && (forall p :: m.Listed(p) <==> s.Listed(p))
            && (forall p | p in s.procs :: p in m.procs && m.Of(p).status == s.Of(p).status)
            && (forall p | p in s.procs && p != s.current :: m.Of(p).priority == s.Of(p).priority)
            && (s.Of(s.current).priority >= LOW ==> m.Of(s.current).priority >= LOW)
  {
    var t := s.SetTicks(s.current, QUANTUM);
    TicksKeepInv(s, s.current, QUANTUM);
    TicksKeepLists(s, s.current, QUANTUM);
    StopDemotes(t);
  }

  lemma TicksKeepLists(s: State, p: Pid, n: nat)
    ensures var t := s.SetTicks(p, n);
            && (forall q :: t.Listed(q) <==> s.Listed(q)) && t.procs.Keys == s.procs.Keys
            && (forall q | q in s.procs ::
                  t.procs[q].status == s.procs[q].status && t.procs[q].priority == s.procs[q].priority)
  {
  }

  /** A switch that selects somebody else brings a waiting process closer. */
  lemma SwitchProgress(s: State, p: Pid)
    requires Inv(s) && Waits(Candidates(s), p) && Yield(s).current != p
    ensures var r := Yield(s);
            && Inv(r) && Waits(Candidates(r), p)
            && Distance(Candidates(r), p) < Distance(Candidates(s), p)
  {
    hide Inv, Distance, Chosen, Succeeds, Switch;
    var t, m, r := s.SetTicks(s.current, QUANTUM), Candidates(s), Yield(s);
    TicksSwitchable(s);
    PreparedShape(t);
    var level, k := SwitchDecides(t);
    QuietPrepared(r);
    SomebodyReady(m, r, level, k, p);
    CloserAfterChoice(m, r, level, k, p);
  }

  lemma SomebodyReady(m: State, r: State, level: nat, k: nat, p: Pid)
    requires Shaped(m) && Chosen(m, r, level, k) && Waits(m, p)
    ensures level > 0
  {
    ListedByPriority(m, p);
    assert p in m.rings[m.Of(p).priority];
  }

  lemma CloserAfterChoice(m: State, r: State, level: nat, k: nat, p: Pid)
    requires Shaped(m) && Inv(r) && Succeeds(m, r) && Chosen(m, r, level, k) && level > 0
    requires Waits(m, p) && r.current != p
    ensures Waits(Demoted(r), p) && Distance(Demoted(r), p) < Distance(m, p)
  {
    hide Demoted, Distance, Inv, Height, Population, IndexOf;
    StillWaits(m, r, p);
    DemotionKeeps(r);
    DemotionMoves(r);
    ChosenDistance(m, r, level, k, p);
    DistanceIs(m, p);
    DistanceIs(Demoted(r), p);
  }

  lemma StillWaits(m: State, r: State, p: Pid)
    requires Shaped(m) && Inv(r) && Succeeds(m, r) && Waits(m, p) && r.current != p
    ensures Waits(Demoted(r), p) && Demoted(r).Of(p).priority == m.Of(p).priority
    ensures m.Of(p).priority == LOW ==> p in m.rings[LOW] && p in r.rings[LOW]
  {
    hide Demoted;
    ListedByPriority(m, p);
    ListedByPriority(r, p);
    DemotionKeeps(r);
  }

  lemma DistanceIs(m: State, p: Pid)
    ensures Distance(m, p) == Height(m) + if m.Of(p).priority == LOW then IndexOf(m.rings[LOW], p) else 0
  {
  }

  /** The choice turns one ring: a process in the lowest ring comes forward, or the one that runs will step down. */
  lemma ChosenDistance(m: State, r: State, level: nat, k: nat, p: Pid)
    requires Shaped(m) && Inv(r) && Succeeds(m, r) && Chosen(m, r, level, k) && level > 0
    requires Waits(m, p) && r.current != p && (m.Of(p).priority == LOW ==> p in m.rings[LOW])
    ensures Height(r) == Height(m) && r.Of(r.current).priority == level && LOW <= level <= HIGH
    ensures m.Of(p).priority == LOW ==>
              if level == LOW then IndexOf(r.rings[LOW], p) < IndexOf(m.rings[LOW], p) else r.rings[LOW] == m.rings[LOW]
    ensures m.Of(p).priority != LOW ==> level > LOW
  {
    hide Inv, IndexOf;
    var q := m.rings[level];
    ListedByPriority(m, p);
    if m.Of(p).priority == LOW && level == LOW {
      IndexOfIsFirst(q, p);
      assert k < IndexOf(q, p);
      IndexAfterRotate(q, p, k);
    }
  }

  // ---- Runs --------------------------------------------------------------

  /** A candidate is selected after at most its distance plus one switches. */
  lemma {:induction false} SelectedWithin(s: State, p: Pid) returns (k: nat)
    requires Inv(s) && Waits(Candidates(s), p)
    ensures 1 <= k <= Distance(Candidates(s), p) + 1 && Switches(s, k).current == p
    decreases Distance(Candidates(s), p)
  {
    hide Yield, Inv, Candidates, Distance, Waits;
    if Yield(s).current == p {
      k := 1;
      assert Switches(s, 1) == Switches(Yield(s), 0);
    } else {
      SwitchProgress(s, p);
      var j := SelectedWithin(Yield(s), p);
      k := j + 1;
    }
  }

  /** A process that waits, or whose creation is queued, is a candidate of the next switch. */
  lemma WaitingIsCandidate(s: State, p: Pid)
    requires Inv(s) && (Waits(s, p) || p in s.creation)
    ensures Waits(Candidates(s), p)
  {
    hide Prepared;
    var t := s.SetTicks(s.current, QUANTUM);
    TicksSwitchable(s);
    TicksKeepLists(s, s.current, QUANTUM);
    PreparedShape(t);
  }

  lemma {:induction false} RemoveIsShorter(q: seq<Pid>, p: Pid)
    ensures |Remove(q, p)| <= |q|
  {
    if q != [] && q[0] != p {
      RemoveIsShorter(q[1..], p);
    }
  }

  /** The measure of a ring of the state: the bound on how long its processes can be passed. */
  function Bound(s: State): nat {
    Height(s) + Population(s)
  }

  lemma UnlistLowersBound(s: State, p: Pid)
    ensures Bound(Unlist(s, p)) <= Bound(s)
  {
    if p in s.procs && s.procs[p].priority < 4 {
      RemoveIsShorter(s.rings[s.procs[p].priority], p);
    }
  }

  lemma {:induction false} KillAllLowersBound(s: State)
    ensures Bound(KillAll(s)) <= Bound(s)
    decreases |s.removal|
  {
    hide Unlist;
    if s.removal != [] {
      var t := Unlist(s, s.removal[0]).(removal := s.removal[1..]);
      UnlistLowersBound(s, s.removal[0]);
      KillAllLowersBound(t);
    }
  }

  lemma StopLowersBound(s: State)
    requires Shaped(s) && s.Of(s.current).ticks >= QUANTUM
    ensures Bound(Stop(s)) <= Bound(s)
  {
    var c := s.Of(s.current).priority;
    ListedByPriority(s, s.current);
    if s.Listed(s.current) && LOW < c <= HIGH {
      RemoveShortens(s.rings[c], s.current);
    }
  }

  /** A switch's candidates are those before it and the queued creations. */
  lemma CandidatesBound(s: State)
    requires Inv(s)
    ensures Bound(Candidates(s)) <= Bound(s) + 3 * |s.creation|
  {
    hide KillAll, CreateAll, Stop, Bound;
    var t := s.SetTicks(s.current, QUANTUM);
    TicksSwitchable(s);
    QueuesAreFit(t);
    KillAllLowersBound(t);
    KillAllRemoves(t);
    CreateAllAdds(KillAll(t));
    CreationsRaiseBound(KillAll(t), CreateAll(KillAll(t)));
    StopLowersBound(CreateAll(KillAll(t)));
    SameBound(s, t);
  }

  lemma QueuesAreFit(s: State)
    requires Inv(s)
    ensures Shaped(s) && Distinct(s.removal) && Distinct(s.creation)
    ensures forall p | p in s.removal :: s.Listed(p) && p != s.IdlePid()
    ensures forall p | p in s.creation :: p !in s.procs
    ensures s.current in s.procs
  {
  }

  lemma SameBound(s: State, t: State)
    requires s.rings == t.rings
    ensures Bound(s) == Bound(t)
  {
  }

  lemma CreationsRaiseBound(s: State, t: State)
    requires t.rings[HIGH] == s.rings[HIGH] + s.creation && forall i | 0 <= i < HIGH :: t.rings[i] == s.rings[i]
    ensures Bound(t) == Bound(s) + 3 * |s.creation|
  {
  }

  lemma DistanceBelowBound(m: State, p: Pid)
    requires Shaped(m) && Waits(m, p)
    ensures Distance(m, p) < Bound(m)
  {
    ListedByPriority(m, p);
    assert p in m.rings[m.Of(p).priority];
    if m.Of(p).priority == LOW {
      IndexOfIsFirst(m.rings[LOW], p);
    }
  }

  /**
    Starvation freedom in context switches: S + n of them are enough, and three more for each
    queued creation. It holds for the processes in that queue as well.
   */
  lemma NoStarvation(s: State, p: Pid) returns (k: nat)
    requires Inv(s) && (Waits(s, p) || p in s.creation)
    ensures 1 <= k <= Height(s) + Population(s) + 3 * |s.creation| && Switches(s, k).current == p
  {
    hide Inv, Candidates, Distance, Waits;
    WaitingIsCandidate(s, p);
    CandidatesAreShaped(s);
    CandidatesBound(s);
    DistanceBelowBound(Candidates(s), p);
    k := SelectedWithin(s, p);
  }

  lemma CandidatesAreShaped(s: State)
    requires Inv(s)
    ensures Shaped(Candidates(s))
  {
    TicksSwitchable(s);
    PreparedShape(s.SetTicks(s.current, QUANTUM));
  }

  // ---- Timer interrupts --------------------------------------------------

  function TimerRun(k: nat): seq<Event> {
    if k == 0 then [] else [TimerEvent] + TimerRun(k - 1)
  }

  lemma {:induction false} TimerRunAllowed(s: State, k: nat)
    ensures AllAllowed(s, TimerRun(k))
    decreases k
  {
    hide Tick;
    if k > 0 {
      TimerRunAllowed(Tick(s), k - 1);
      assert TimerRun(k)[1..] == TimerRun(k - 1);
    }
  }

  lemma {:induction false} TimerRunTicks(s: State, k: nat)
    ensures AllAllowed(s, TimerRun(k)) && Run(s, TimerRun(k)) == Ticks(s, k)
    decreases k
  {
    hide Tick;
    TimerRunAllowed(s, k);
    if k > 0 {
      TimerRunTicks(Tick(s), k - 1);
      assert TimerRun(k)[1..] == TimerRun(k - 1);
    }
  }

  function Ticks(s: State, k: nat): State
    decreases k
  {
    if k == 0 then s else Ticks(Tick(s), k - 1)
  }

  lemma {:induction false} TicksAdd(s: State, a: nat, b: nat)
    ensures Ticks(s, a + b) == Ticks(Ticks(s, a), b)
    decreases a
  {
    hide Tick;
    if a > 0 {
      TicksAdd(Tick(s), a - 1, b);
    }
  }

  /** Interrupts within the quantum only count, and leave everything else as it is. */
  lemma {:induction false} TicksCount(s: State, k: nat)
    requires Inv(s) && s.Of(s.current).ticks + k <= QUANTUM
    ensures Ticks(s, k) == s.SetTicks(s.current, s.Of(s.current).ticks + k)
    decreases k
  {
    var c, n := s.current, s.Of(s.current).ticks;
    assert c in s.procs;
    if k == 0 {
      assert s.SetTicks(c, n) == s;
    } else {
      var t := Tick(s);
      assert t == s.SetTicks(c, n + 1);
      TicksKeepInv(s, c, n + 1);
      TicksCount(t, k - 1);
      assert t.SetTicks(c, n + k) == s.SetTicks(c, n + k);
    }
  }

  /**
    The interrupt that switches: exactly when what is left of the quantum is used up, and one more.
    Before it the current process keeps the processor, and no ring moves.
   */
  lemma TicksToSwitch(s: State) returns (k: nat)
    requires Inv(s)
    ensures k == QUANTUM - s.Of(s.current).ticks + 1 && 1 <= k <= QUANTUM + 1
    ensures Ticks(s, k) == Yield(s)
    ensures forall j: nat | j < k ::
              Ticks(s, j).current == s.current && Ticks(s, j).rings == s.rings
              && Ticks(s, j).removal == s.removal && Ticks(s, j).creation == s.creation
  {
    hide Switch;
    var left := LeftOfQuantum(s);
    k := left + 1;
    forall j: nat | j < k
      ensures Ticks(s, j).current == s.current && Ticks(s, j).rings == s.rings
              && Ticks(s, j).removal == s.removal && Ticks(s, j).creation == s.creation
    {
      TicksCount(s, j);
    }
    TicksCount(s, left);
    TicksAdd(s, left, 1);
    var t := Ticks(s, left);
    assert t == s.SetTicks(s.current, QUANTUM);
    assert Ticks(t, 1) == Ticks(Tick(t), 0) == Switch(t);
  }

  lemma LeftOfQuantum(s: State) returns (left: nat)
    requires Inv(s)
    ensures left == QUANTUM - s.Of(s.current).ticks && s.current in s.procs
  {
    left := QUANTUM - s.Of(s.current).ticks;
  }

  lemma {:induction false} SwitchesByTimer(s: State, k: nat) returns (n: nat)
    requires Inv(s)
    ensures k <= n <= (QUANTUM + 1) * k && Ticks(s, n) == Switches(s, k)
    decreases k
  {
    hide Yield, Inv, Tick;
    if k == 0 {
      n := 0;
    } else {
      YieldKeepsInv(s);
      var first := TicksToSwitch(s);
      var rest := SwitchesByTimer(Yield(s), k - 1);
      n := first + rest;
      TicksAdd(s, first, rest);
    }
  }

  /** Starvation freedom in timer interrupts: nothing but the timer is needed for a waiting process to run. */
  lemma NoStarvationByTimer(s: State, p: Pid) returns (n: nat)
    requires Inv(s) && (Waits(s, p) || p in s.creation)
    ensures 1 <= n <= (QUANTUM + 1) * (Height(s) + Population(s) + 3 * |s.creation|)
    ensures AllAllowed(s, TimerRun(n)) && Run(s, TimerRun(n)).current == p
  {
    var k := NoStarvation(s, p);
    n := SwitchesByTimer(s, k);
    TimerRunTicks(s, n);
  }
}
