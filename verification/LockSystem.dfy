/**
  The lock of Kernel/asm/semaphores.asm and Kernel/semaphore.c on top of the scheduler.

  Processes interleave at context switches. One step of the running process is everything
  it does up to the yield in `whiff`, as the kernel's system calls run. The lock word, its
  queue and the phase of each process belong to one lock; everything else the system does,
  other locks included, appears as scheduler events.
 */
module LockSystem {
  import opened Scheduler
  import opened SchedulerRuns

  /**
    Where a process stands: not at this lock, inside `enter_region` past a failed exchange
    (the next thing it does when it runs is to exchange again), or past a successful one.
   */
  datatype Phase = Outside | Retrying | Holding

  datatype Sys = Sys(sched: State, word: nat, queue: seq<Pid>, phases: map<Pid, Phase>) {
    function PhaseOf(p: Pid): Phase {
      if p in phases then phases[p] else Outside
    }

    function Move(p: Pid, ph: Phase): Sys {
      this.(phases := phases[p := ph])
    }
  }

  /** `my_sem_open`: 0 opens the lock free, a positive value opens it taken. */
  function Opened(sched: State, startValue: nat): Sys {
    Sys(sched, if startValue > 0 then 1 else 0, [], map[])
  }

  /** How many waiters one `wake_up_processes` wakes: the bound shrinks as the loop counts up. */
  function WakeCount(n: nat): (k: nat)
    ensures k <= n
  {
    (n + 1) / 2
  }

  function ReviveAll(s: State, ps: seq<Pid>): State
    decreases |ps|
  {
    if ps == [] then s else ReviveAll(Revive(s, ps[0]), ps[1..])
  }

  datatype Step =
    | Enter                 // the running process exchanges 1 into the lock word
    | Leave                 // the running process posts: it frees the lock word and wakes
    | Other(e: Event)       // anything else the scheduler sees

  /** One turn of the loop in `enter_region`: take a free lock, or join the queue, block and yield. */
  function EnterStep(y: Sys): Sys {
    var c := y.sched.current;
    if y.word == 0 then y.(word := 1).Move(c, Holding)
    else
      y.(word := 1, queue := y.queue + [c], sched := Yield(y.sched.SetStatus(c, Blocked))).Move(c, Retrying)
  }

  /** `leave_region`: free the word and wake the first half of the queue, rounded up. */
  function LeaveStep(y: Sys): Sys {
    var k := WakeCount(|y.queue|);
    y.(word := 0, queue := y.queue[k..], sched := ReviveAll(y.sched, y.queue[..k])).Move(y.sched.current, Outside)
  }

  function Next(y: Sys, step: Step): Sys {
    match step
    case Enter => EnterStep(y)
    case Leave => LeaveStep(y)
    case Other(e) => y.(sched := Apply(y.sched, e))
  }

  ghost function RunSteps(y: Sys, run: seq<Step>): Sys
    decreases |run|
  {
    if run == [] then y else RunSteps(Next(y, run[0]), run[1..])
  }

  // ---- What is asked of a run --------------------------------------------

  /** Three ways to use a lock, each for other results. */
  datatype Rule =
    | NoForeignRelease      // nobody posts while somebody else holds the lock
    | OnlyHoldersRelease    // only a holder posts
    | WaitersAreLeftAlone   // anybody may post, but idle never sleeps at the lock and nobody else touches the waiters

  /** Events that neither touch a sleeper nor take a woken process off the processor for good. */
  ghost predicate Harmless(y: Sys, e: Event) {
    match e
    case BlockEvent(p) => y.PhaseOf(p) != Retrying
    case ReviveEvent(p) => p !in y.queue
    case KillEvent(p) => p == SHELL_PID || y.PhaseOf(p) != Retrying
    case _ => true
  }

  ghost predicate Permitted(rule: Rule, y: Sys, step: Step) {
    var c := y.sched.current;
    match rule
    case NoForeignRelease => step.Leave? ==> forall p | y.PhaseOf(p) == Holding :: p == c
    case OnlyHoldersRelease => step.Leave? ==> y.PhaseOf(c) == Holding
    case WaitersAreLeftAlone =>
      match step
      case Enter => y.word == 0 || c != y.sched.IdlePid()
      case Leave => true
      case Other(e) => Allowed(y.sched, e) && Harmless(y, e)
  }

  ghost predicate AllPermitted(rule: Rule, y: Sys, run: seq<Step>)
    decreases |run|
  {
    run == [] || (Permitted(rule, y, run[0]) && AllPermitted(rule, Next(y, run[0]), run[1..]))
  }

  // ---- Mutual exclusion --------------------------------------------------

  /** At most one holder, and none while the word says that the lock is free. */
  ghost predicate Exclusive(y: Sys) {
    && (forall p, q | y.PhaseOf(p) == Holding && y.PhaseOf(q) == Holding :: p == q)
    && forall p | y.PhaseOf(p) == Holding :: y.word != 0
  }

  /**
    The exact condition on one step: exclusion survives everything the scheduler may do, kills
    included, and every acquire; it survives a post iff nobody else holds the lock.
   */
  lemma ExclusionIff(y: Sys, step: Step)
    requires Exclusive(y)
    ensures Exclusive(Next(y, step)) <==> Permitted(NoForeignRelease, y, step)
  {
    hide Apply, Yield, ReviveAll;
    var z, c := Next(y, step), y.sched.current;
    forall p
      ensures z.PhaseOf(p) == y.PhaseOf(p) || (p == c && (z.PhaseOf(p) == Holding ==> y.word == 0 && z.word == 1))
    {
    }
    if step.Leave? {
      assert forall p | p != c :: z.PhaseOf(p) == y.PhaseOf(p);
      assert z.PhaseOf(c) == Outside && z.word == 0;
    }
  }

  lemma {:induction false} RunKeepsExclusion(y: Sys, run: seq<Step>)
    requires Exclusive(y) && AllPermitted(NoForeignRelease, y, run)
    ensures Exclusive(RunSteps(y, run))
    decreases |run|
  {
    hide Exclusive, Next, Permitted;
    if run != [] {
      ExclusionIff(y, run[0]);
      RunKeepsExclusion(Next(y, run[0]), run[1..]);
    }
  }

  /**
    Mutual exclusion: whatever the scheduler does, and however the lock was opened, it has at
    most one holder as long as nobody posts while somebody else holds it.
   */
  lemma LockExcludes(s: State, startValue: nat, run: seq<Step>)
    requires AllPermitted(NoForeignRelease, Opened(s, startValue), run)
    ensures var y := RunSteps(Opened(s, startValue), run);
            forall p, q | y.PhaseOf(p) == Holding && y.PhaseOf(q) == Holding :: p == q
  {
    RunKeepsExclusion(Opened(s, startValue), run);
  }

  /** A lock opened with a positive value is taken by nobody: if only holders release, nobody ever holds it. */
  lemma {:induction false} OpenedTakenStaysTaken(y: Sys, run: seq<Step>)
    requires y.word != 0 && (forall p :: y.PhaseOf(p) != Holding) && AllPermitted(OnlyHoldersRelease, y, run)
    ensures var z := RunSteps(y, run); z.word != 0 && forall p :: z.PhaseOf(p) != Holding
    decreases |run|
  {
    hide Apply, Yield;
    if run != [] {
      var z := Next(y, run[0]);
      assert !run[0].Leave?;
      forall p ensures z.PhaseOf(p) != Holding {
        assert y.PhaseOf(p) != Holding;
      }
      OpenedTakenStaysTaken(z, run[1..]);
    }
  }

  /** In this run only holders release, and at its end `p` holds the lock. */
  ghost predicate Takes(y: Sys, run: seq<Step>, p: Pid) {
    AllPermitted(OnlyHoldersRelease, y, run) && RunSteps(y, run).PhaseOf(p) == Holding
  }

  /** If only holders release, somebody can ever hold a new lock iff it was opened with 0. */
  lemma UsableIff(s: State, startValue: nat)
    ensures startValue == 0 <==> exists run, p :: Takes(Opened(s, startValue), run, p)
  {
    var y := Opened(s, startValue);
    if startValue == 0 {
      var run := [Enter];
      assert run[1..] == [];
      assert RunSteps(y, run) == EnterStep(y);
      assert Takes(y, run, s.current);
    } else {
      forall run, p ensures !Takes(y, run, p) {
        if AllPermitted(OnlyHoldersRelease, y, run) {
          OpenedTakenStaysTaken(y, run);
        }
      }
    }
  }

  // ---- How many wait -----------------------------------------------------

  /** floor(log2(n)) */
  function Log2(n: nat): nat
    requires n > 0
  {
    if n == 1 then 0 else 1 + Log2(n / 2)
  }

  function Releases(run: seq<Step>): nat
    decreases |run|
  {
    if run == [] then 0 else (if run[0] == Leave then 1 else 0) + Releases(run[1..])
  }

  /** Every acquire in the run succeeds, so that nobody joins the queue. */
  ghost predicate NobodyQueues(y: Sys, run: seq<Step>)
    decreases |run|
  {
    run == [] || ((run[0] == Enter ==> y.word == 0) && NobodyQueues(Next(y, run[0]), run[1..]))
  }

  function Halvings(n: nat, k: nat): (r: nat)
    ensures r <= n
    decreases k
  {
    if k == 0 then n else Halvings(n - WakeCount(n), k - 1)
  }

  lemma QueueAfter(y: Sys, step: Step)
    requires step == Enter ==> y.word == 0
    ensures Next(y, step).queue == if step == Leave then y.queue[WakeCount(|y.queue|)..] else y.queue
  {
    hide Apply, Yield, ReviveAll;
  }

  lemma LastOfLast<T>(q: seq<T>, k: nat, n: nat)
    requires k + n <= |q|
    ensures q[k..][|q| - k - n..] == q[|q| - n..]
  {
  }

  /** Without newcomers only releases change the queue, and each keeps the last half of it. */
  lemma {:induction false} QueueHalves(y: Sys, run: seq<Step>)
    requires NobodyQueues(y, run)
    ensures RunSteps(y, run).queue == y.queue[|y.queue| - Halvings(|y.queue|, Releases(run))..]
    decreases |run|
  {
    hide Next, WakeCount;
    if run != [] {
      QueueAfter(y, run[0]);
      QueueHalves(Next(y, run[0]), run[1..]);
      if run[0] == Leave {
        var k := WakeCount(|y.queue|);
        LastOfLast(y.queue, k, Halvings(|y.queue| - k, Releases(run[1..])));
      }
    }
  }

  lemma {:induction false} HalvingsEnd(n: nat, k: nat)
    ensures n > 0 ==> (Halvings(n, k) == 0 <==> k > Log2(n))
    ensures Halvings(0, k) == 0
    decreases k
  {
    if k > 0 {
      assert n - WakeCount(n) == n / 2;
      HalvingsEnd(n / 2, k - 1);
      HalvingsEnd(0, k - 1);
    }
  }

  /**
    The bound on wake-ups is exact: in any run without newcomers, `n` waiters are all awake
    iff there were more than floor(log2(n)) releases.
   */
  lemma BoundIsTight(y: Sys, run: seq<Step>)
    requires NobodyQueues(y, run) && y.queue != []
    ensures RunSteps(y, run).queue == [] <==> Releases(run) > Log2(|y.queue|)
  {
    QueueHalves(y, run);
    HalvingsEnd(|y.queue|, Releases(run));
  }
}
