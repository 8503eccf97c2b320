/**
  Why the waiters of a lock must be left alone: a run from boot in which a single block_process on
  a sleeping waiter ends with the lock free, a waiter asleep and nobody left to take the lock.
 */
module LockFailures {
  import opened Wrappers
  import opened Rings
  import opened Scheduler
  import opened SchedulerRuns
  import opened LockSystem
  import opened LockWakeUps

  // ---- One yield ---------------------------------------------------------

  /** The rings once the current process stepped down from `level`. */
  function SteppedDown(s: State, level: nat): Rings4
    requires LOW < level <= HIGH
  {
    s.rings[level := Remove(s.rings[level], s.current)][level - 1 := s.rings[level - 1] + [s.current]]
  }

  /** After a yield of a process of `level` to `to`, the first of ring `i`. */
  function Yielded(s: State, level: nat, i: nat, to: Pid): State
    requires LOW < level <= HIGH && i < 4
    requires s.current in s.procs && to in s.procs && SteppedDown(s, level)[i] != []
  {
    var ran := s.Is(s.current, Running);
    var down := SteppedDown(s, level);
    var stopped := Proc(if ran then Ready else s.procs[s.current].status, if ran then 0 else QUANTUM, level - 1);
    var procs := s.procs[s.current := stopped];
    s.(rings := down[i := Rotate(down[i], 1)], procs := procs[to := s.procs[to].(status := Running)], current := to)
  }

  lemma {:induction false} FindFirst(m: State, i: nat, level: nat, keep: Option<Pid>)
    requires LOW <= level <= i < 4 && m.rings[level] != [] && m.Is(m.rings[level][0], Ready)
    requires forall j, p | level < j <= i && p in m.rings[j] :: !m.Is(p, Ready)
    ensures var p := m.rings[level][0];
            FindNext(m, i, keep) == (m.SetStatus(p, Running).(rings := m.rings[level := Rotate(m.rings[level], 1)]), p)
  {
    var q := m.rings[i];
    if i > level {
      var k := FirstReady(m, q);
      assert forall j | 0 <= j < |q| :: q[j] in q;
      assert k == |q|;
      FindFirst(m, i - 1, level, Keep(m, q, keep));
    } else {
      assert FirstReady(m, q) == 0;
    }
  }

  lemma YieldTo(s: State, level: nat, i: nat, to: Pid)
    requires s.removal == [] && s.creation == []
    requires LOW < level <= HIGH && s.current in s.procs && s.procs[s.current].priority == level
    requires s.current in s.rings[level] && LOW <= i < 4 && to != s.current && s.Is(to, Ready)
    requires SteppedDown(s, level)[i] != [] && SteppedDown(s, level)[i][0] == to
    requires forall j, p | i < j < 4 && p in SteppedDown(s, level)[j] :: !s.Is(p, Ready) || p == s.current
    requires !s.Is(s.current, Ready)
    ensures Yield(s) == Yielded(s, level, i, to)
  {
    hide FindNext, Remove, Rotate;
    var t := s.SetTicks(s.current, QUANTUM);
    assert t.Listed(s.current);
    var m := Stop(t);
    assert Prepared(t) == m;
    assert m.rings == SteppedDown(s, level);
    assert forall p, st :: m.Is(p, st) <==> s.Is(p, st);
    FindFirst(m, HIGH, i, None);
    var u := m.SetStatus(to, Running).(rings := m.rings[i := Rotate(m.rings[i], 1)]);
    assert Yield(s) == Install(u, to);
    assert Yield(s).procs == Yielded(s, level, i, to).procs;
  }

  // ---- The run -----------------------------------------------------------

  /** Shell is 2 and idle 3; the run creates 4 and 5. */
  function With(rings: Rings4, shell: Proc, four: Proc, five: Proc, current: Pid): State {
    State(rings, map[2 := shell, 3 := Proc(Ready, 0, IDLE), 4 := four, 5 := five], current, [], [], 6)
  }

  const CREATED: State :=
    With([[3], [], [], [2, 4, 5]], Proc(Running, 0, 3), Proc(Ready, 0, 3), Proc(Ready, 0, 3), 2)
  const FOUR_RUNS: State :=
    With([[3], [], [2], [5, 4]], Proc(Ready, 0, 2), Proc(Running, 0, 3), Proc(Ready, 0, 3), 4)
  const FIVE_RUNS: State :=
    With([[3], [], [2, 4], [5]], Proc(Ready, 0, 2), Proc(Blocked, 1, 2), Proc(Running, 0, 3), 5)
  const BOTH_SLEEP: State :=
    With([[3], [], [4, 5, 2], []], Proc(Running, 0, 2), Proc(Blocked, 1, 2), Proc(Blocked, 1, 2), 2)
  const FIVE_FIRST: State :=
    With([[3], [], [4, 2], [5]], Proc(Running, 0, 2), Proc(Ready, 1, 2), Proc(Ready, 1, 3), 2)
  const FIVE_TAKES: State :=
    With([[3], [2], [4], [5]], Proc(Ready, 0, 1), Proc(Ready, 1, 2), Proc(Running, 1, 3), 5)
  const FOUR_RETRIES: State :=
    With([[3], [2], [5, 4], []], Proc(Ready, 0, 1), Proc(Running, 1, 2), Proc(Ready, 0, 2), 4)
  const FIVE_LEAVES: State :=
    With([[3], [2, 4], [5], []], Proc(Ready, 0, 1), Proc(Blocked, 1, 1), Proc(Running, 0, 2), 5)

  lemma SameState(s: State, t: State)
    requires forall i | 0 <= i < 4 :: s.rings[i] == t.rings[i]
    requires s.procs == t.procs && s.current == t.current
    requires s.removal == t.removal && s.creation == t.creation && s.nextPid == t.nextPid
    ensures s == t
  {
    assert s.rings == t.rings;
  }

  lemma Yield1()
    ensures Yield(CREATED) == FOUR_RUNS
  {
    YieldTo(CREATED, 3, 3, 4);
    SameState(Yielded(CREATED, 3, 3, 4), FOUR_RUNS);
  }

  lemma Yield2()
    ensures Yield(FOUR_RUNS.SetStatus(4, Blocked)) == FIVE_RUNS
  {
    YieldTo(FOUR_RUNS.SetStatus(4, Blocked), 3, 3, 5);
    SameState(Yielded(FOUR_RUNS.SetStatus(4, Blocked), 3, 3, 5), FIVE_RUNS);
  }

  lemma Yield3()
    ensures Yield(FIVE_RUNS.SetStatus(5, Blocked)) == BOTH_SLEEP
  {
    YieldTo(FIVE_RUNS.SetStatus(5, Blocked), 3, 2, 2);
    SameState(Yielded(FIVE_RUNS.SetStatus(5, Blocked), 3, 2, 2), BOTH_SLEEP);
  }

  lemma Yield4()
    ensures Yield(FIVE_FIRST) == FIVE_TAKES
  {
    YieldTo(FIVE_FIRST, 2, 3, 5);
    SameState(Yielded(FIVE_FIRST, 2, 3, 5), FIVE_TAKES);
  }

  lemma Yield5()
    ensures Yield(FIVE_TAKES) == FOUR_RETRIES
  {
    YieldTo(FIVE_TAKES, 3, 2, 4);
    SameState(Yielded(FIVE_TAKES, 3, 2, 4), FOUR_RETRIES);
  }

  lemma Yield6()
    ensures Yield(FOUR_RETRIES.SetStatus(4, Blocked)) == FIVE_LEAVES
  {
    YieldTo(FOUR_RETRIES.SetStatus(4, Blocked), 2, 2, 5);
    SameState(Yielded(FOUR_RETRIES.SetStatus(4, Blocked), 2, 2, 5), FIVE_LEAVES);
  }

  lemma Follow(y: Sys, step: Step, run: seq<Step>)
    ensures RunSteps(y, [step] + run) == RunSteps(Next(y, step), run)
    ensures forall rule :: AllPermitted(rule, y, [step] + run)
                           <==> Permitted(rule, y, step) && AllPermitted(rule, Next(y, step), run)
  {
    hide Next, Permitted;
    assert ([step] + run)[1..] == run;
  }

  /** Both rules at once. */
  ghost predicate Fine(y: Sys, run: seq<Step>) {
    AllPermitted(WaitersAreLeftAlone, y, run) && AllPermitted(OnlyHoldersRelease, y, run)
  }

  lemma FollowTo(y: Sys, step: Step, z: Sys, run: seq<Step>)
    requires Next(y, step) == z && Fine(z, run)
    requires Permitted(WaitersAreLeftAlone, y, step) && Permitted(OnlyHoldersRelease, y, step)
    ensures Fine(y, [step] + run) && RunSteps(y, [step] + run) == RunSteps(z, run)
  {
    Follow(y, step, run);
  }

  /** Shell takes the lock; 4 and 5 are created and go to sleep at it. */
  const TO_SLEEP: seq<Step> :=
    [Enter] + ([Other(CreateEvent)] + ([Other(CreateEvent)] + ([Other(YieldEvent)] + ([Enter] + ([Enter] + [])))))

  const ASLEEP: Sys := Sys(BOTH_SLEEP, 1, [4, 5], map[2 := Holding, 4 := Retrying, 5 := Retrying])

  lemma GoToSleep()
    ensures Fine(Opened(BOOTED, 0), TO_SLEEP) && RunSteps(Opened(BOOTED, 0), TO_SLEEP) == ASLEEP
  {
    hide Yield;
    var y0 := Opened(BOOTED, 0);
    var y1 := Sys(BOOTED, 1, [], map[2 := Holding]);
    var y2 := y1.(sched := Create(BOOTED));
    var y3 := y1.(sched := CREATED);
    var y4 := y1.(sched := FOUR_RUNS);
    var y5 := Sys(FIVE_RUNS, 1, [4], map[2 := Holding, 4 := Retrying]);
    FollowTo(y5, Enter, ASLEEP, []) by { Yield3(); }
    FollowTo(y4, Enter, y5, [Enter] + []) by { Yield2(); }
    FollowTo(y3, Other(YieldEvent), y4, [Enter] + ([Enter] + [])) by { Yield1(); }
    Created();
    var run := [Other(YieldEvent)] + ([Enter] + ([Enter] + []));
    FollowTo(y2, Other(CreateEvent), y3, run);
    FollowTo(y1, Other(CreateEvent), y2, [Other(CreateEvent)] + run);
    FollowTo(y0, Enter, y1, [Other(CreateEvent)] + ([Other(CreateEvent)] + run));
  }

  lemma Created()
    ensures Create(Create(BOOTED)) == CREATED
  {
    SameState(Create(Create(BOOTED)), CREATED);
  }

  /** block_process found 5 asleep and made it READY, while it is still queued. */
  const TOUCHED: Sys := ASLEEP.(sched := BOTH_SLEEP.SetStatus(5, Ready))

  /**
    Shell posts and wakes 4. 5 overtakes it and takes the lock, so 4 sleeps again; then 5 posts and
    wakes its own old entry.
   */
  const TO_LOSS: seq<Step> :=
    [Leave] + ([Other(PriorityEvent(5, HIGH))] + ([Other(YieldEvent)]
      + ([Enter] + ([Other(YieldEvent)] + ([Enter] + ([Leave] + []))))))

  const LOST: Sys := Sys(FIVE_LEAVES.SetStatus(5, Ready), 0, [4], map[2 := Outside, 4 := Retrying, 5 := Outside])

  lemma ShellPosts()
    ensures LeaveStep(TOUCHED)
            == Sys(BOTH_SLEEP.SetStatus(5, Ready).SetStatus(4, Ready), 0, [5],
                   map[2 := Outside, 4 := Retrying, 5 := Retrying])
  {
    assert TOUCHED.queue[..1] == [4] && TOUCHED.queue[1..] == [5];
    var s := TOUCHED.sched;
    assert 4 in s.rings[2];
    assert ReviveAll(s, [4]) == ReviveAll(Revive(s, 4), []);
  }

  lemma FiveMovesUp()
    ensures ChangePriority(BOTH_SLEEP.SetStatus(5, Ready).SetStatus(4, Ready), 5, HIGH) == FIVE_FIRST
  {
    var s := BOTH_SLEEP.SetStatus(5, Ready).SetStatus(4, Ready);
    assert 5 in s.rings[2];
    assert Remove([4, 5, 2], 5) == [4, 2];
    SameState(ChangePriority(s, 5, HIGH), FIVE_FIRST);
  }

  lemma FivePosts(y: Sys)
    requires y == Sys(FIVE_LEAVES, 1, [5, 4], map[2 := Outside, 4 := Retrying, 5 := Holding])
    ensures LeaveStep(y) == LOST
  {
    assert y.queue[..1] == [5] && y.queue[1..] == [4];
    assert 5 in y.sched.rings[2];
    assert ReviveAll(y.sched, [5]) == ReviveAll(Revive(y.sched, 5), []);
  }

  /** 5 holds the lock while its old entry is still queued. */
  const STALE_HOLDER: Sys := Sys(FIVE_TAKES, 1, [5], map[2 := Outside, 4 := Retrying, 5 := Holding])

  const FROM_HOLDER: seq<Step> := [Other(YieldEvent)] + ([Enter] + ([Leave] + []))

  lemma HolderLoses()
    ensures Fine(STALE_HOLDER, FROM_HOLDER) && RunSteps(STALE_HOLDER, FROM_HOLDER) == LOST
  {
    hide Yield, ReviveAll;
    var y5 := STALE_HOLDER.(sched := FOUR_RETRIES);
    var y6 := Sys(FIVE_LEAVES, 1, [5, 4], STALE_HOLDER.phases);
    FollowTo(y6, Leave, LOST, []) by { FivePosts(y6); }
    FollowTo(y5, Enter, y6, [Leave] + []) by { Yield6(); }
    FollowTo(STALE_HOLDER, Other(YieldEvent), y5, [Enter] + ([Leave] + [])) by { Yield5(); }
  }

  lemma GoToLoss()
    ensures Fine(TOUCHED, TO_LOSS) && RunSteps(TOUCHED, TO_LOSS) == LOST
  {
    hide Yield, ReviveAll, ChangePriority, RunSteps, Fine;
    HolderLoses();
    var phases := map[2 := Outside, 4 := Retrying, 5 := Retrying];
    var y1 := Sys(BOTH_SLEEP.SetStatus(5, Ready).SetStatus(4, Ready), 0, [5], phases);
    var y2 := y1.(sched := FIVE_FIRST);
    var y3 := y1.(sched := FIVE_TAKES);
    FollowTo(y3, Enter, STALE_HOLDER, FROM_HOLDER);
    FollowTo(y2, Other(YieldEvent), y3, [Enter] + FROM_HOLDER) by { Yield4(); }
    var run := [Other(YieldEvent)] + ([Enter] + FROM_HOLDER);
    FollowTo(y1, Other(PriorityEvent(5, HIGH)), y2, run) by { FiveMovesUp(); }
    FollowTo(TOUCHED, Leave, y1, [Other(PriorityEvent(5, HIGH))] + run) by { ShellPosts(); }
  }

  /**
    The lost wake-up: from boot, on a lock opened free, with only holders releasing and every step
    but one permitted. That one is block_process(5) while 5 sleeps in the queue. At the end the
    lock is free, 4 is asleep in the queue, and nobody is about to retry.
   */
  lemma WakeUpIsLost()
    ensures Fine(Opened(BOOTED, 0), TO_SLEEP)
    ensures var y := RunSteps(Opened(BOOTED, 0), TO_SLEEP);
            && Allowed(y.sched, BlockEvent(5)) && 5 in y.queue && Fine(Next(y, Other(BlockEvent(5))), TO_LOSS)
            && var z := RunSteps(Next(y, Other(BlockEvent(5))), TO_LOSS);
               && z.word == 0 && 4 in z.queue && z.sched.Is(4, Blocked)
               && forall p :: !AboutToRetry(z, p)
  {
    GoToSleep();
    GoToLoss();
    assert 5 in BOTH_SLEEP.rings[2];
    assert Next(ASLEEP, Other(BlockEvent(5))) == TOUCHED;
  }

  /** Both wait; force_kill takes 4 away, and the next post spends its wake-up on it. */
  const BEREFT: Sys :=
    Sys(BOTH_SLEEP.SetStatus(4, Dead).(removal := [4]), 0, [5], map[2 := Outside, 4 := Retrying, 5 := Retrying])

  lemma FourIsKilled()
    ensures Kill(BOTH_SLEEP, 4).0 == BEREFT.sched
  {
    assert 4 in BOTH_SLEEP.rings[2] && BOTH_SLEEP.Listed(4);
  }

  lemma KillThenPost()
    ensures Next(Next(ASLEEP, Other(KillEvent(4))), Leave) == BEREFT
  {
    hide Kill;
    FourIsKilled();
    assert Next(ASLEEP, Other(KillEvent(4))) == ASLEEP.(sched := BEREFT.sched);
    assert ASLEEP.queue[..1] == [4] && ASLEEP.queue[1..] == [5];
    assert Revive(BEREFT.sched, 4) == BEREFT.sched;
    assert ReviveAll(BEREFT.sched, [4]) == ReviveAll(BEREFT.sched, []);
  }

  /**
    The same by force_kill, in two steps after both went to sleep: the lock is free, 5 is asleep in
    the queue, and nobody who could run is about to retry.
   */
  lemma WakeUpIsLostByKill()
    ensures Fine(Opened(BOOTED, 0), TO_SLEEP)
    ensures var y := RunSteps(Opened(BOOTED, 0), TO_SLEEP);
            && Allowed(y.sched, KillEvent(4)) && 4 in y.queue && Fine(Next(y, Other(KillEvent(4))), [Leave])
            && var z := RunSteps(Next(y, Other(KillEvent(4))), [Leave]);
               && z.word == 0 && z.queue == [5] && z.sched.Is(5, Blocked)
               && forall p :: !(AboutToRetry(z, p) && CanRun(z.sched, p))
  {
    GoToSleep();
    KillThenPost();
    var y := Next(ASLEEP, Other(KillEvent(4)));
    assert y.sched.current == 2 && y.PhaseOf(2) == Holding;
    FollowTo(y, Leave, BEREFT, []);
    assert [Leave] + [] == [Leave];
  }
}
