/**
  No lost wake-up: while nobody touches the waiters of a lock, a free lock with waiters has one
  that is awake and about to retry, whoever posts. From it follow the bound on how long a waiter
  sleeps and the return of the processor to the lock by the timer alone.
 */
module LockWakeUps {
  import opened Wrappers
  import opened Rings
  import opened Scheduler
  import opened SchedulerSteps
  import opened SchedulerRuns
  import opened SchedulerLife
  import opened SchedulerFairness
  import opened LockSystem

  /** Woken, or never put to sleep again: about to exchange as soon as it is scheduled. */
  ghost predicate AboutToRetry(y: Sys, p: Pid) {
    y.PhaseOf(p) == Retrying && p !in y.queue
  }

  ghost predicate CanRun(s: State, p: Pid) {
    s.Is(p, Ready) || s.Is(p, Running)
  }

  /** Between steps the current process can run. */
  ghost predicate Alive(s: State) {
    Inv(s) && CanRun(s, s.current)
  }

  /** A process inside `enter_region` is an ordinary listed one; it sleeps exactly while it is queued. */
  ghost predicate Sleeping(y: Sys) {
    && Distinct(y.queue)
    && (forall p | p in y.queue :: y.PhaseOf(p) == Retrying && y.sched.Is(p, Blocked))
    && (forall p | y.PhaseOf(p) == Retrying :: y.sched.Listed(p) && p != y.sched.IdlePid())
    && (forall p | AboutToRetry(y, p) :: CanRun(y.sched, p))
  }

  /** A free lock with waiters has a woken one. */
  ghost predicate Pending(y: Sys) {
    y.word == 0 && y.queue != [] ==> exists p :: AboutToRetry(y, p)
  }

  ghost predicate Sound(y: Sys) {
    Alive(y.sched) && Sleeping(y) && Pending(y)
  }

  // ---- The scheduler under the lock --------------------------------------

  /**
    A scheduler step that puts only the processes of `put` to sleep or to death, and wakes or
    kills only those of `woken`. Nobody alive leaves the rings.
   */
  ghost predicate Undisturbed(s: State, t: State, put: set<Pid>, woken: set<Pid>) {
    && t.IdlePid() == s.IdlePid()
    && (forall p | s.Listed(p) :: t.Listed(p) || t.Is(p, Dead))
    && (forall p | s.Is(p, Dead) :: t.Is(p, Dead))
    && (forall p | s.Is(p, Blocked) && p !in woken && p != s.IdlePid() :: t.Is(p, Blocked))
    && (forall p | CanRun(s, p) && p !in put :: CanRun(t, p))
  }

  lemma SwitchUndisturbed(s: State)
    requires Switchable(s)
    ensures Alive(Switch(s)) && Undisturbed(s, Switch(s), {}, {})
  {
    hide Switch, Inv, Chosen, Succeeds;
    var r := Switch(s);
    var level, k := SwitchDecides(s);
    SwitchStatuses(s);
    ListedAreKnown(s);
    assert r.Is(r.current, Running);
    forall p | s.Is(p, Blocked) && p != s.IdlePid() ensures r.Is(p, Blocked) {
      assert p != r.current;
    }
    forall p | s.Is(p, Dead) ensures r.Is(p, Dead) {
      assert p != r.current;
    }
    forall p | CanRun(s, p) ensures CanRun(r, p) {
      assert p == r.current ==> r.Is(p, Running);
    }
  }

  lemma ListedAreKnown(s: State)
    requires Inv(s)
    ensures s.current in s.procs && s.Listed(s.current) && forall p | s.Listed(p) :: p in s.procs
    ensures forall p | p in s.removal :: s.Is(p, Dead)
    ensures !s.Is(s.IdlePid(), Dead) && !s.Is(s.IdlePid(), Blocked)
  {
  }

  lemma YieldUndisturbed(s: State)
    requires Inv(s)
    ensures Alive(Yield(s)) && Undisturbed(s, Yield(s), {}, {})
  {
    hide Inv, Switch, Switchable, Undisturbed;
    var t := s.SetTicks(s.current, QUANTUM);
    ListedAreKnown(s);
    TicksUndisturbed(s, s.current, QUANTUM);
    SwitchableIs(t);
    SwitchUndisturbed(t);
    ComposeUndisturbed(s, t, Switch(t), {}, {});
  }

  lemma TicksUndisturbed(s: State, p: Pid, n: nat)
    requires Inv(s) && p in s.procs && n <= QUANTUM
    ensures var t := s.SetTicks(p, n);
            && Inv(t) && Undisturbed(s, t, {}, {}) && t.current == s.current && t.Of(p).ticks == n
            && forall q, st :: t.Is(q, st) <==> s.Is(q, st)
  {
    TicksKeepInv(s, p, n);
    forall q, st ensures s.SetTicks(p, n).Is(q, st) <==> s.Is(q, st) {
    }
  }

  lemma SwitchableIs(s: State)
    requires Inv(s) && s.Of(s.current).ticks >= QUANTUM
    ensures Switchable(s)
  {
  }

  lemma ComposeUndisturbed(s: State, t: State, u: State, put: set<Pid>, woken: set<Pid>)
    requires Undisturbed(s, t, put, woken) && Undisturbed(t, u, {}, {})
    ensures Undisturbed(s, u, put, woken)
  {
  }

  /** Blocking or waking one process. */
  lemma StatusUndisturbed(s: State, p: Pid, st: Status)
    requires Inv(s) && s.Listed(p) && !s.Is(p, Dead) && p != s.IdlePid() && (st == Blocked || st == Ready)
    ensures var t := s.SetStatus(p, st);
            && Inv(t) && t.Is(p, st) && t.current == s.current
            && Undisturbed(s, t, if st == Blocked then {p} else {}, if st == Ready then {p} else {})
            && (forall q, x | q != p :: t.Is(q, x) <==> s.Is(q, x))
  {
    hide Inv;
    StatusKeepsInv(s, p, st);
    ListedAreKnown(s);
    forall q, x | q != p ensures s.SetStatus(p, st).Is(q, x) <==> s.Is(q, x) {
    }
  }

  /** The processes an event may take off the processor. */
  ghost function PutBy(e: Event): set<Pid> {
    if e.BlockEvent? || e.KillEvent? then {e.p} else {}
  }

  /** The processes an event may take out of their sleep. */
  ghost function WokenBy(e: Event): set<Pid> {
    if e.BlockEvent? || e.ReviveEvent? || e.KillEvent? then {e.p} else {}
  }

  lemma CreateUndisturbed(s: State)
    requires Alive(s)
    ensures Alive(Create(s)) && Undisturbed(s, Create(s), {}, {})
  {
    hide Inv;
    CreateKeepsInv(s);
    CreateAdds(s);
    ListedAreKnown(s);
  }

  /** A created process is READY in the highest ring under a new pid, and nobody else changes. */
  lemma CreateAdds(s: State)
    requires Inv(s)
    ensures var t := Create(s);
            && t.removal == s.removal && t.current == s.current
            && t.Is(s.nextPid, Ready) && t.Of(s.nextPid).priority == HIGH
            && (forall q :: t.Listed(q) <==> s.Listed(q) || q == s.nextPid)
            && (forall q | q in s.procs :: q in t.procs && t.procs[q] == s.procs[q])
  {
    AddKeeps(s, s.nextPid);
    forall q ensures Create(s).Listed(q) <==> Add(s, s.nextPid).Listed(q) {
    }
  }

  lemma QueueUndisturbed(s: State)
    requires Alive(s)
    ensures Alive(QueueCreation(s)) && Undisturbed(s, QueueCreation(s), {}, {})
  {
    hide Inv;
    var t := QueueCreation(s);
    QueueKeepsInv(s);
    forall q ensures t.Listed(q) <==> s.Listed(q) {
    }
    forall q, st ensures t.Is(q, st) <==> s.Is(q, st) {
    }
  }

  lemma PriorityUndisturbed(s: State, p: Pid, priority: Level)
    requires Alive(s) && p != s.IdlePid()
    ensures Alive(ChangePriority(s, p, priority)) && Undisturbed(s, ChangePriority(s, p, priority), {}, {})
  {
    var t := ChangePriority(s, p, priority);
    PriorityKeepsInv(s, p, priority);
    ChangePriorityMoves(s, p, priority);
    forall q, st ensures t.Is(q, st) <==> s.Is(q, st) {
    }
  }

  lemma BlockUndisturbed(s: State, p: Pid)
    requires Alive(s) && p != s.IdlePid()
    ensures Alive(Block(s, p).0) && Undisturbed(s, Block(s, p).0, {p}, {p})
  {
    hide Inv, Yield;
    if s.Listed(p) && CanRun(s, p) {
      StatusUndisturbed(s, p, Blocked);
      var t := s.SetStatus(p, Blocked);
      if p == s.current {
        YieldUndisturbed(t);
        ComposeUndisturbed(s, t, Yield(t), {p}, {p});
      }
    } else if s.Listed(p) && s.Is(p, Blocked) {
      StatusUndisturbed(s, p, Ready);
    }
  }

  lemma ReviveUndisturbed(s: State, p: Pid)
    requires Alive(s)
    ensures Alive(Revive(s, p)) && Undisturbed(s, Revive(s, p), {}, {p})
    ensures Revive(s, p).current == s.current
    ensures s.Listed(p) && s.Is(p, Blocked) ==> Revive(s, p).Is(p, Ready)
  {
    hide Inv;
    ListedAreKnown(s);
    if s.Listed(p) && (s.Is(p, Blocked) || s.Is(p, Running)) {
      if p == s.IdlePid() {
        IdleUndisturbed(s);
      } else {
        StatusUndisturbed(s, p, Ready);
      }
    }
  }

  lemma IdleUndisturbed(s: State)
    requires Alive(s)
    ensures var t := s.SetStatus(s.IdlePid(), Ready);
            Alive(t) && Undisturbed(s, t, {}, {s.IdlePid()})
  {
    hide Inv;
    var t, p := s.SetStatus(s.IdlePid(), Ready), s.IdlePid();
    ListedAreKnown(s);
    IdleIsListed(s);
    StatusKeepsInv(s, p, Ready);
    forall q, x | q != p ensures t.Is(q, x) <==> s.Is(q, x) {
    }
  }

  lemma IdleIsListed(s: State)
    requires Inv(s)
    ensures s.Listed(s.IdlePid())
  {
  }

  lemma KillUndisturbed(s: State, p: Pid)
    requires Alive(s) && p != s.IdlePid() && !s.Is(p, Dead)
    ensures Alive(Kill(s, p).0) && Undisturbed(s, Kill(s, p).0, {p}, {p})
    ensures s.Listed(p) && p != SHELL_PID ==> Kill(s, p).0.Is(p, Dead)
  {
    hide Inv, Yield;
    if s.Listed(p) && p != SHELL_PID {
      var t := s.SetStatus(p, Dead).(removal := s.removal + [p]);
      KillMarks(s, p);
      ListedAreKnown(s);
      forall q ensures t.Listed(q) <==> s.Listed(q) {
      }
      forall q, st | q != p ensures t.Is(q, st) <==> s.Is(q, st) {
      }
      assert t.Is(p, Dead);
      if p == s.current {
        YieldUndisturbed(t);
        ComposeUndisturbed(s, t, Yield(t), {p}, {p});
      }
    }
  }

  lemma EventUndisturbed(s: State, e: Event)
    requires Alive(s) && Allowed(s, e)
    ensures Alive(Apply(s, e)) && Undisturbed(s, Apply(s, e), PutBy(e), WokenBy(e))
  {
    hide Inv, Yield, Switch, Switchable, Create, QueueCreation, Revive, Block, ChangePriority, Kill, Undisturbed;
    match e {
      case TimerEvent =>
        ListedAreKnown(s);
        if s.Of(s.current).ticks >= QUANTUM {
          SwitchableIs(s);
          SwitchUndisturbed(s);
        } else {
          TicksUndisturbed(s, s.current, s.Of(s.current).ticks + 1);
        }
      case YieldEvent => YieldUndisturbed(s);
      case CreateEvent => CreateUndisturbed(s);
      case QueueEvent => QueueUndisturbed(s);
      case BlockEvent(p) => BlockUndisturbed(s, p);
      case ReviveEvent(p) => ReviveUndisturbed(s, p);
      case KillEvent(p) => KillUndisturbed(s, p);
      case PriorityEvent(p, priority) => PriorityUndisturbed(s, p, priority);
    }
  }

  /** Waking waiters one by one: they become READY, the rest of the system does not notice. */
  lemma {:induction false} ReviveAllWakes(s: State, ps: seq<Pid>)
    requires Alive(s) && Distinct(ps)
    requires forall p | p in ps :: s.Listed(p) && s.Is(p, Blocked)
    ensures var t := ReviveAll(s, ps);
            && Alive(t) && t.current == s.current && Undisturbed(s, t, {}, set p | p in ps)
            && forall p | p in ps :: CanRun(t, p)
    decreases |ps|
  {
    hide Inv, Revive;
    if ps != [] {
      var p := ps[0];
      ReviveUndisturbed(s, p);
      var m := Revive(s, p);
      assert forall q :: q in ps <==> q == p || q in ps[1..];
      assert p !in ps[1..];
      ListedAreKnown(s);
      ReviveAllWakes(m, ps[1..]);
      var t := ReviveAll(m, ps[1..]);
      forall q | s.Is(q, Blocked) && q !in ps && q != s.IdlePid() ensures t.Is(q, Blocked) {
        assert m.Is(q, Blocked);
      }
      forall q | CanRun(s, q) ensures CanRun(t, q) {
        assert CanRun(m, q);
      }
    }
  }

  // ---- One step ----------------------------------------------------------

  lemma CurrentIsNotQueued(y: Sys)
    requires Sound(y)
    ensures y.sched.current !in y.queue
  {
    assert y.sched.current in y.queue ==> y.sched.Is(y.sched.current, Blocked);
  }

  lemma OtherKeepsSound(y: Sys, e: Event)
    requires Sound(y) && Allowed(y.sched, e) && Harmless(y, e)
    ensures Sound(Next(y, Other(e)))
  {
    hide Inv, Apply;
    var z := Next(y, Other(e));
    if e.KillEvent? && e.p == SHELL_PID {
      ShellLives(y.sched);
      assert z == y;
      return;
    }
    EventUndisturbed(y.sched, e);
    assert forall p :: y.PhaseOf(p) == z.PhaseOf(p);
    assert forall p :: AboutToRetry(y, p) <==> AboutToRetry(z, p);
    forall p | p in y.queue ensures z.sched.Is(p, Blocked) {
      assert y.sched.Is(p, Blocked) && p !in WokenBy(e);
    }
    forall p | AboutToRetry(z, p) ensures CanRun(z.sched, p) {
      assert AboutToRetry(y, p) && p !in PutBy(e);
    }
    forall p | z.PhaseOf(p) == Retrying ensures z.sched.Listed(p) && p != z.sched.IdlePid() {
      assert p in y.queue || AboutToRetry(y, p);
    }
  }

  lemma ShellLives(s: State)
    ensures Apply(s, KillEvent(SHELL_PID)) == s
  {
  }

  /**
    The exact condition on everything else the system does: block_process and force_kill must not
    name a process inside `enter_region` (force_kill refuses shell), os_revive_process none in the queue.
   */
  lemma OtherKeepsSoundIff(y: Sys, e: Event)
    requires Sound(y) && Allowed(y.sched, e)
    ensures Sound(Next(y, Other(e))) <==> Harmless(y, e)
  {
    if Harmless(y, e) {
      OtherKeepsSound(y, e);
    } else {
      TouchBreaks(y, e);
    }
  }

  /** A waiter that is touched is queued but not asleep, or awake but not able to run, or gone. */
  lemma TouchBreaks(y: Sys, e: Event)
    requires Sound(y) && Allowed(y.sched, e) && !Harmless(y, e)
    ensures !Sleeping(Next(y, Other(e)))
  {
    hide Inv, Yield, Undisturbed;
    var s, p, z := y.sched, e.p, Next(y, Other(e));
    assert y.PhaseOf(p) == Retrying && z.PhaseOf(p) == Retrying;
    assert s.Listed(p) && p != s.IdlePid();
    if e.KillEvent? {
      KillUndisturbed(s, p);
      assert z.sched.Is(p, Dead) && (p in z.queue || AboutToRetry(z, p));
    } else if p in y.queue {
      assert s.Is(p, Blocked);
      StatusUndisturbed(s, p, Ready);
      assert z.sched == s.SetStatus(p, Ready);
    } else {
      assert AboutToRetry(y, p) && AboutToRetry(z, p);
      StatusUndisturbed(s, p, Blocked);
      YieldUndisturbed(s.SetStatus(p, Blocked));
      BlockedAfterYield(s.SetStatus(p, Blocked), p);
    }
  }

  lemma BlockedAfterYield(s: State, p: Pid)
    requires s.Is(p, Blocked) && p != s.IdlePid() && Undisturbed(s, Yield(s), {}, {})
    ensures Yield(s).Is(p, Blocked)
  {
    hide Yield;
  }

  lemma EnterKeepsSound(y: Sys)
    requires Sound(y) && (y.word == 0 || y.sched.current != y.sched.IdlePid())
    ensures Sound(EnterStep(y))
  {
    hide Inv, Yield, Undisturbed;
    var c := y.sched.current;
    CurrentIsNotQueued(y);
    ListedAreKnown(y.sched);
    var z := EnterStep(y);
    assert forall p | p != c :: z.PhaseOf(p) == y.PhaseOf(p);
    if y.word != 0 {
      StatusUndisturbed(y.sched, c, Blocked);
      var t := y.sched.SetStatus(c, Blocked);
      YieldUndisturbed(t);
      DistinctAppend(y.queue, c);
      EnterSleeps(y, t, z);
    } else {
      assert z.PhaseOf(c) == Holding;
      assert forall p :: AboutToRetry(z, p) ==> AboutToRetry(y, p);
    }
  }

  lemma EnterSleeps(y: Sys, t: State, z: Sys)
    requires Sleeping(y) && y.sched.Listed(y.sched.current) && y.sched.current != y.sched.IdlePid()
    requires t.current == y.sched.current && t.Is(t.current, Blocked)
    requires Undisturbed(y.sched, t, {t.current}, {}) && Undisturbed(t, z.sched, {}, {})
    requires z == y.(word := 1, queue := y.queue + [t.current], sched := z.sched).Move(t.current, Retrying)
    requires Distinct(z.queue)
    ensures Sleeping(z)
  {
    var c := t.current;
    forall p | p in z.queue ensures z.PhaseOf(p) == Retrying && z.sched.Is(p, Blocked) {
      assert p == c || p in y.queue;
      assert t.Is(p, Blocked);
    }
    forall p | AboutToRetry(z, p) ensures CanRun(z.sched, p) {
      assert p != c && AboutToRetry(y, p);
      assert CanRun(t, p);
    }
    forall p | z.PhaseOf(p) == Retrying ensures z.sched.Listed(p) && p != z.sched.IdlePid() {
      assert y.sched.Listed(p);
      assert p in z.queue || AboutToRetry(z, p);
      assert !z.sched.Is(p, Dead) && !t.Is(p, Dead);
    }
  }

  lemma QueuedSleep(y: Sys)
    requires Sleeping(y)
    ensures Distinct(y.queue)
    ensures forall p | p in y.queue :: y.PhaseOf(p) == Retrying && y.sched.Listed(p) && y.sched.Is(p, Blocked)
  {
  }

  /** The two halves of a queue. */
  lemma Halves(q: seq<Pid>, k: nat)
    requires Distinct(q) && k <= |q|
    ensures Distinct(q[..k]) && q == q[..k] + q[k..]
    ensures forall p | p in q[..k] :: p in q && p !in q[k..]
    ensures q[k..] != [] && k > 0 ==> q[0] in q[..k]
  {
    forall p | p in q[..k] ensures p in q && p !in q[k..] {
      var i :| 0 <= i < k && q[i] == p;
      assert forall j | 0 <= j < |q| - k :: q[k..][j] == q[k + j];
    }
  }

  lemma LeaveKeepsSound(y: Sys)
    requires Sound(y)
    ensures Sound(LeaveStep(y))
  {
    hide Inv, ReviveAll, Undisturbed, Distinct, Sleeping;
    var c, k := y.sched.current, WakeCount(|y.queue|);
    var woken, rest := y.queue[..k], y.queue[k..];
    var z := LeaveStep(y);
    CurrentIsNotQueued(y);
    QueuedSleep(y);
    Halves(y.queue, k);
    ReviveAllWakes(y.sched, woken);
    assert forall p | p != c :: z.PhaseOf(p) == y.PhaseOf(p);
    LeaveSleeps(y, z, woken, rest);
    if rest != [] {
      assert y.PhaseOf(y.queue[0]) == Retrying;
      assert AboutToRetry(z, y.queue[0]);
    }
  }

  lemma LeaveSleeps(y: Sys, z: Sys, woken: seq<Pid>, rest: seq<Pid>)
    requires Sleeping(y) && y.queue == woken + rest && z.queue == rest
    requires Undisturbed(y.sched, z.sched, {}, set p | p in woken)
    requires forall p | p in woken :: CanRun(z.sched, p) && p !in rest
    requires forall p | z.PhaseOf(p) == Retrying || p in y.queue :: z.PhaseOf(p) == y.PhaseOf(p)
    ensures Sleeping(z)
  {
    assert forall i | 0 <= i < |rest| :: rest[i] == y.queue[|woken| + i];
    forall p | p in rest ensures z.PhaseOf(p) == Retrying && z.sched.Is(p, Blocked) {
      assert p !in woken && p in y.queue;
    }
    forall p | AboutToRetry(z, p) ensures CanRun(z.sched, p) {
      assert p in woken || AboutToRetry(y, p);
    }
    forall p | z.PhaseOf(p) == Retrying ensures z.sched.Listed(p) && p != z.sched.IdlePid() {
      assert y.sched.Listed(p);
      assert p in z.queue || AboutToRetry(z, p);
    }
  }

  // Idle must not sleep at the lock: then a sleeper would be at the head of ring 0.

  lemma TicksKeepShape(s: State, p: Pid, n: nat)
    requires Shaped(s) && p in s.procs
    ensures var t := s.SetTicks(p, n);
            && Shaped(t) && t.IdlePid() == s.IdlePid() && t.current == s.current && t.Of(p).ticks == n
            && t.removal == s.removal && t.creation == s.creation && t.procs.Keys == s.procs.Keys
            && forall q :: t.Listed(q) <==> s.Listed(q)
  {
  }

  lemma StatusKeepsShape(s: State, p: Pid, st: Status)
    requires Shaped(s)
    ensures var t := s.SetStatus(p, st);
            && Shaped(t) && t.IdlePid() == s.IdlePid() && t.current == s.current
            && t.removal == s.removal && t.creation == s.creation && t.procs.Keys == s.procs.Keys
            && forall q :: t.Listed(q) <==> s.Listed(q)
  {
  }

  lemma ShapedParts(s: State)
    requires Shaped(s)
    ensures s.current in s.procs && s.rings[IDLE] != [] && s.IdlePid() == s.rings[IDLE][0]
  {
  }

  lemma InstallKeepsRings(s: State, next: Pid)
    ensures Install(s, next).rings == s.rings
  {
  }

  /** A yield leaves idle at the head of ring 0, whatever its status. */
  lemma YieldKeepsIdle(s: State)
    requires Shaped(s) && Distinct(s.removal) && Distinct(s.creation)
    requires forall p | p in s.removal :: s.Listed(p) && p != s.IdlePid()
    requires forall p | p in s.creation :: p !in s.procs
    ensures Yield(s).IdlePid() == s.IdlePid()
  {
    hide Shaped, KillAll, CreateAll, Stop, FindNext, Install, Distinct;
    ShapedParts(s);
    var t := s.SetTicks(s.current, QUANTUM);
    TicksKeepShape(s, s.current, QUANTUM);
    KillAllRemoves(t);
    CreateAllAdds(KillAll(t));
    StopDemotes(CreateAll(KillAll(t)));
    var m := Stop(CreateAll(KillAll(t)));
    ShapedParts(m);
    var level, k := FindNextDecides(m, HIGH, None) by { NothingAbove(m); }
    var (u, next) := FindNext(m, HIGH, None);
    assert u.rings[IDLE] == m.rings[IDLE];
    InstallKeepsRings(u, next);
    SwitchIs(t);
  }

  lemma QueuesOfInv(s: State)
    requires Inv(s)
    ensures Shaped(s) && Distinct(s.removal) && Distinct(s.creation)
    ensures forall p | p in s.removal :: s.Listed(p) && p != s.IdlePid()
    ensures forall p | p in s.creation :: p !in s.procs
  {
  }

  lemma IdleSleepBreaks(y: Sys)
    requires Sound(y) && y.word != 0 && y.sched.current == y.sched.IdlePid()
    ensures !Sleeping(EnterStep(y))
  {
    hide Inv, Yield, Shaped;
    var s, c := y.sched, y.sched.current;
    QueuesOfInv(s);
    StatusKeepsShape(s, c, Blocked);
    YieldKeepsIdle(s.SetStatus(c, Blocked));
    assert EnterStep(y).PhaseOf(c) == Retrying;
  }

  /** The exact condition on one step, whatever it is. */
  lemma NextKeepsSoundIff(y: Sys, step: Step)
    requires Sound(y) && (step.Other? ==> Allowed(y.sched, step.e))
    ensures Sound(Next(y, step)) <==> Permitted(WaitersAreLeftAlone, y, step)
  {
    hide Alive, Pending, Sleeping;
    match step {
      case Enter =>
        if y.word != 0 && y.sched.current == y.sched.IdlePid() {
          IdleSleepBreaks(y);
        } else {
          EnterKeepsSound(y);
        }
      case Leave => LeaveKeepsSound(y);
      case Other(e) => OtherKeepsSoundIff(y, e);
    }
  }

  lemma NextKeepsSound(y: Sys, step: Step)
    requires Sound(y) && Permitted(WaitersAreLeftAlone, y, step)
    ensures Sound(Next(y, step))
  {
    hide Sound;
    match step {
      case Enter => EnterKeepsSound(y);
      case Leave => LeaveKeepsSound(y);
      case Other(e) => OtherKeepsSound(y, e);
    }
  }

  // ---- Runs --------------------------------------------------------------

  lemma {:induction false} RunKeepsSound(y: Sys, run: seq<Step>)
    requires Sound(y) && AllPermitted(WaitersAreLeftAlone, y, run)
    ensures Sound(RunSteps(y, run))
    decreases |run|
  {
    hide Sound, Next, Permitted;
    if run != [] {
      NextKeepsSound(y, run[0]);
      RunKeepsSound(Next(y, run[0]), run[1..]);
    }
  }

  lemma OpenedIsSound(s: State, startValue: nat)
    requires Alive(s)
    ensures Sound(Opened(s, startValue))
  {
  }

  /** The state after boot meets what the results on runs ask of their first state. */
  lemma BootedIsReady()
    ensures Alive(BOOTED) && Leveled(BOOTED)
  {
    BootedIsSafe();
    assert BOOTED.Is(SHELL_PID, Running);
  }

  /**
    No lost wake-up: in every interleaving over a lock opened at any time, whoever posts and whoever
    is killed elsewhere, a free lock with waiters has a woken one that is listed and can run.
   */
  lemma NoLostWakeUp(s: State, startValue: nat, run: seq<Step>)
    requires Alive(s) && AllPermitted(WaitersAreLeftAlone, Opened(s, startValue), run)
    ensures var y := RunSteps(Opened(s, startValue), run);
            y.word == 0 && y.queue != [] ==>
              exists p :: AboutToRetry(y, p) && y.sched.Listed(p) && CanRun(y.sched, p)
  {
    OpenedIsSound(s, startValue);
    RunKeepsSound(Opened(s, startValue), run);
    var y := RunSteps(Opened(s, startValue), run);
    if y.word == 0 && y.queue != [] {
      var p :| AboutToRetry(y, p);
      assert y.sched.Listed(p);
    }
  }

  /** The timer interrupts in which every process that waits to run is selected. */
  function RetryBound(s: State): nat {
    (QUANTUM + 1) * (Height(s) + Population(s) + 3 * |s.creation|)
  }

  /** A free lock with waiters is taken again: the timer alone brings a woken process to its next exchange. */
  lemma FreeLockIsRetried(y: Sys) returns (p: Pid, n: nat)
    requires Sound(y) && y.word == 0 && y.queue != [] && Leveled(y.sched)
    ensures AboutToRetry(y, p) && n <= RetryBound(y.sched)
    ensures AllAllowed(y.sched, TimerRun(n)) && Run(y.sched, TimerRun(n)).current == p
  {
    p :| AboutToRetry(y, p);
    if y.sched.Is(p, Ready) {
      n := NoStarvationByTimer(y.sched, p);
    } else {
      n := 0;
    }
  }

  lemma {:induction false} ReviveAllKeepsLevels(s: State, ps: seq<Pid>)
    requires Leveled(s)
    ensures Leveled(ReviveAll(s, ps))
    decreases |ps|
  {
    hide Leveled;
    if ps != [] {
      StatusKeepsLevels(s, ps[0], Ready);
      ReviveAllKeepsLevels(Revive(s, ps[0]), ps[1..]);
    }
  }

  ghost predicate Sinks(step: Step) {
    step.Other? && step.e.PriorityEvent? && step.e.priority < LOW
  }

  lemma NextKeepsLevels(y: Sys, step: Step)
    requires Sound(y) && Leveled(y.sched) && Permitted(WaitersAreLeftAlone, y, step) && !Sinks(step)
    ensures Leveled(Next(y, step).sched)
  {
    hide Leveled, Apply, Yield, Inv;
    var s := y.sched;
    match step {
      case Enter =>
        if y.word != 0 {
          ListedAreKnown(s);
          StatusKeepsLevels(s, s.current, Blocked);
          StatusKeepsInv(s, s.current, Blocked);
          YieldKeepsLevels(s.SetStatus(s.current, Blocked));
        }
      case Leave =>
        ReviveAllKeepsLevels(s, y.queue[..WakeCount(|y.queue|)]);
      case Other(e) =>
        StepKeepsLevels(s, e);
    }
  }

  lemma {:induction false} RunKeepsLevels(y: Sys, run: seq<Step>)
    requires Sound(y) && Leveled(y.sched) && AllPermitted(WaitersAreLeftAlone, y, run)
    requires forall step | step in run :: !Sinks(step)
    ensures Leveled(RunSteps(y, run).sched)
    decreases |run|
  {
    hide Sound, Next, Permitted, Leveled, Sinks;
    if run != [] {
      NextKeepsSound(y, run[0]);
      NextKeepsLevels(y, run[0]);
      RunKeepsLevels(Next(y, run[0]), run[1..]);
    }
  }

  /**
    In every run that moves nobody into ring 0: whenever the lock is free and has waiters, the
    timer alone soon brings a woken process to its next exchange.
   */
  lemma RunsReturnToLock(s: State, startValue: nat, run: seq<Step>) returns (p: Pid, n: nat)
    requires Alive(s) && Leveled(s) && AllPermitted(WaitersAreLeftAlone, Opened(s, startValue), run)
    requires forall step | step in run :: !Sinks(step)
    requires var y := RunSteps(Opened(s, startValue), run); y.word == 0 && y.queue != []
    ensures var y := RunSteps(Opened(s, startValue), run);
            && AboutToRetry(y, p) && n <= RetryBound(y.sched)
            && AllAllowed(y.sched, TimerRun(n)) && Run(y.sched, TimerRun(n)).current == p
  {
    hide Sound, Leveled;
    OpenedIsSound(s, startValue);
    RunKeepsSound(Opened(s, startValue), run);
    RunKeepsLevels(Opened(s, startValue), run);
    p, n := FreeLockIsRetried(RunSteps(Opened(s, startValue), run));
  }

  // ---- The wake-up bound -------------------------------------------------

  lemma {:induction false} Log2Monotone(a: nat, b: nat)
    requires 0 < a <= b
    ensures Log2(a) <= Log2(b)
  {
    if a > 1 {
      Log2Monotone(a / 2, b / 2);
    }
  }

  /** A release wakes the waiters in the first half, rounded up, and takes the others a power of two closer. */
  lemma ReleaseHalves(n: nat, p: nat)
    requires p < n && WakeCount(n) <= p
    ensures p - WakeCount(n) + 1 <= (p + 1) / 2 && Log2(p - WakeCount(n) + 1) < Log2(p + 1)
  {
    Log2Monotone(p - WakeCount(n) + 1, (p + 1) / 2);
  }

  /**
    The waiter at position `p` is woken within floor(log2(p + 1)) + 1 releases,
    whoever releases, whatever else happens in between and however many others join the queue.
   */
  lemma {:induction false} WokenWithin(y: Sys, p: nat, run: seq<Step>) returns (k: nat)
    requires Sound(y) && AllPermitted(WaitersAreLeftAlone, y, run) && p < |y.queue| && Releases(run) > Log2(p + 1)
    ensures k <= |run| && y.queue[p] !in RunSteps(y, run[..k]).queue
    decreases |run|
  {
    hide Sound, Apply, Yield, ReviveAll, Log2, Permitted;
    var z, x := Next(y, run[0]), y.queue[p];
    NextKeepsSound(y, run[0]);
    var q := p;
    if run[0] == Leave {
      if p < WakeCount(|y.queue|) {
        k := 1;
        FirstStep(y, run, 0);
        WokenLeaves(y, p);
        return;
      }
      q := p - WakeCount(|y.queue|);
      ReleaseHalves(|y.queue|, p);
    }
    assert z.queue[q] == x;
    var j := WokenWithin(z, q, run[1..]);
    k := j + 1;
    FirstStep(y, run, j);
  }

  lemma FirstStep(y: Sys, run: seq<Step>, j: nat)
    requires j < |run|
    ensures RunSteps(y, run[..j + 1]) == RunSteps(Next(y, run[0]), run[1..][..j])
  {
    hide Next;
    assert run[..j + 1][1..] == run[1..][..j];
  }

  lemma WokenLeaves(y: Sys, p: nat)
    requires Sound(y) && p < WakeCount(|y.queue|) && p < |y.queue|
    ensures y.queue[p] !in LeaveStep(y).queue
  {
  }
}
