/** Safety of the scheduler over whole runs. */
module SchedulerRuns {
  import opened Wrappers
  import opened Rings
  import opened Scheduler
  import opened SchedulerSteps

  // ---- Events ------------------------------------------------------------

  /** `finish_current_tick`: use up the quantum and raise the timer interrupt. */
  function Yield(s: State): State
  {
    Switch(s.SetTicks(s.current, QUANTUM))
  }

  /** The timer interrupt: count a tick, or switch once the quantum is used. */
  function Tick(s: State): State
  {
    if s.Of(s.current).ticks >= QUANTUM then Switch(s)
    else s.SetTicks(s.current, s.Of(s.current).ticks + 1)
  }

  /** `create_and_insert_process` */
  function Create(s: State): State
  {
    Add(s, s.nextPid).(nextPid := s.nextPid + 1)
  }

  /** `add_process_to_creation_queue` */
  function QueueCreation(s: State): State {
    s.(creation := s.creation + [s.nextPid], nextPid := s.nextPid + 1)
  }

  /** `os_revive_process` */
  function Revive(s: State, p: Pid): State {
    if s.Listed(p) && (s.Is(p, Blocked) || s.Is(p, Running)) then s.SetStatus(p, Ready) else s
  }

  /** `block_process`, with the value it returns. */
  function Block(s: State, p: Pid): (State, int)
  {
    if !s.Listed(p) then (s, -1)
    else if s.Is(p, Ready) || s.Is(p, Running) then
      var t := s.SetStatus(p, Blocked);
      (if p == s.current then Yield(t) else t, 1)
    else if s.Is(p, Blocked) then (s.SetStatus(p, Ready), 2)
    else (s, -1)
  }

  /** `force_kill`, with the value it returns. The wake-ups of its `my_sem_post` are `Revive` events. */
  function Kill(s: State, p: Pid): (State, int)
  {
    if !s.Listed(p) || p == SHELL_PID then (s, -1)
    else
      var t := s.SetStatus(p, Dead).(removal := s.removal + [p]);
      (if p == s.current then Yield(t) else t, 1)
  }

  datatype Event =
    | TimerEvent
    | YieldEvent
    | CreateEvent
    | QueueEvent
    | BlockEvent(p: Pid)
    | ReviveEvent(p: Pid)
    | KillEvent(p: Pid)
    | PriorityEvent(p: Pid, priority: Level)

  /** Idle is left alone, and nobody is killed twice before it is buried. */
  ghost predicate Allowed(s: State, e: Event)
  {
    match e
    case BlockEvent(p) => p != s.IdlePid()
    case KillEvent(p) => p != s.IdlePid() && !s.Is(p, Dead)
    case PriorityEvent(p, _) => p != s.IdlePid()
    case _ => true
  }

  function Apply(s: State, e: Event): State
  {
    match e
    case TimerEvent => Tick(s)
    case YieldEvent => Yield(s)
    case CreateEvent => Create(s)
    case QueueEvent => QueueCreation(s)
    case BlockEvent(p) => Block(s, p).0
    case ReviveEvent(p) => Revive(s, p)
    case KillEvent(p) => Kill(s, p).0
    case PriorityEvent(p, priority) => ChangePriority(s, p, priority)
  }

  // ---- The invariant -----------------------------------------------------

  /**
    What every run keeps:
    a process is in one ring, the one its priority names; a RUNNING process is the
    current one; the removal queue holds exactly the listed DEAD processes, once each;
    idle heads ring 0 and can run; pids are fresh.
   */
  ghost predicate Inv(s: State) {
    && Shaped(s)
    && s.Listed(s.current)
    && (forall p | s.Is(p, Running) :: p == s.current)
    && (s.Is(s.IdlePid(), Ready) || s.Is(s.IdlePid(), Running))
    && Distinct(s.removal)
    && (forall p :: p in s.removal <==> s.Listed(p) && s.Is(p, Dead))
    && (forall p | p in s.procs && !s.Listed(p) :: s.Is(p, Dead))
    && Distinct(s.creation)
    && (forall p | p in s.creation :: p !in s.procs && p < s.nextPid)
    && (forall p | p in s.procs :: p < s.nextPid && s.procs[p].ticks <= QUANTUM)
  }

  /** `switch_context` is entered with the quantum used up; the current process may be blocked or dead by then. */
  ghost predicate Switchable(s: State) {
    Inv(s) && s.Of(s.current).ticks >= QUANTUM
  }

  /** The processes a switch chooses from: removals gone, creations in, the current one demoted. */
  lemma PreparedShape(s: State)
    requires Switchable(s)
    ensures var m := Prepared(s);
            && Shaped(m) && m.IdlePid() == s.IdlePid() && m.removal == [] && m.creation == []
            && m.current == s.current && m.nextPid == s.nextPid
            && (forall p :: m.Listed(p) <==> (s.Listed(p) && p !in s.removal) || p in s.creation)
            && (forall p :: p in m.procs <==> p in s.procs || p in s.creation)
            && (forall p | p in s.procs ::
                  m.procs[p].status == s.procs[p].status && m.procs[p].ticks == s.procs[p].ticks)
            && (forall p | p in s.creation :: m.procs[p].status == Ready && m.procs[p].ticks == 0)
            && (forall p | p in s.procs && p != s.current :: m.procs[p].priority == s.procs[p].priority)
            && (s.procs[s.current].priority >= LOW ==> m.procs[s.current].priority >= LOW)
            && (forall p | p in s.creation :: m.procs[p].priority == HIGH)
  {
    var a := KillAll(s);
    KillAllRemoves(s);
    var b := CreateAll(a);
    CreateAllAdds(a);
    StopDemotes(b);
  }

  lemma StopDemotes(s: State)
    requires Shaped(s) && s.Of(s.current).ticks >= QUANTUM
    ensures var m := Stop(s);
            && Shaped(m) && m.IdlePid() == s.IdlePid()
            && m == s.(rings := m.rings, procs := m.procs)
            && (forall p :: m.Listed(p) <==> s.Listed(p))
            && m.procs.Keys == s.procs.Keys
            && (forall p | p in s.procs ::
                  m.procs[p].status == s.procs[p].status && m.procs[p].ticks == s.procs[p].ticks)
            && (forall p | p in s.procs && p != s.current :: m.procs[p].priority == s.procs[p].priority)
            && (s.procs[s.current].priority >= LOW ==> m.procs[s.current].priority >= LOW)
  {
    var c := s.procs[s.current];
    if LOW < c.priority <= HIGH {
      ListedByPriority(s, s.current);
      ListedByPriority(s, s.IdlePid());
      ChangePriorityMoves(s, s.current, c.priority - 1);
    }
  }

  /** Who runs next, and in which ring order the others wait. */
  ghost predicate Chosen(m: State, r: State, level: nat, k: nat) {
    if level > 0 then
      && IsFirstReady(m, level, k) && r.current == m.rings[level][k]
      && r.rings == m.rings[level := Rotate(m.rings[level], k + 1)]
    else
      && NoneReadyAbove(m, IDLE) && r.rings == m.rings
      && r.current == if RunsAbove(m, IDLE, m.current) then m.current else m.IdlePid()
  }

  /**
    The context switch: the ring members change by exactly minus the removal queue and
    plus the creation queue; one process is RUNNING, and it is the first READY one of the
    highest ring that has any, else the one already running, else idle.
   */
  lemma SwitchDecides(s: State) returns (level: nat, k: nat)
    requires Switchable(s)
    ensures var r := Switch(s);
            && Inv(r) && r.removal == [] && r.creation == [] && r.IdlePid() == s.IdlePid() && r.nextPid == s.nextPid
            && (forall p :: r.Listed(p) <==> (s.Listed(p) && p !in s.removal) || p in s.creation)
            && (forall p :: r.Is(p, Running) <==> p == r.current)
            && Succeeds(Prepared(s), r) && Chosen(Prepared(s), r, level, k)
  {
    hide *;
    Levels();
    var m := Prepared(s);
    PreparedShape(s);
    PreparedRunner(s);
    level, k := FindNextDecides(m, HIGH, None) by { NothingAbove(m); }
    var (t, next) := FindNext(m, HIGH, None);
    var r := Switch(s);
    SwitchIs(s);
    if level == 0 {
      KeptIsCurrent(m, next);
    }
    ChoiceKeeps(m, level, k, t, next);
    InstallSucceeds(m, t, r, level, next);
    SuccessorKeepsInv(s, m, r);
    ChosenByLevel(m, r, level, k, t, next);
  }

  lemma Levels()
    ensures IDLE == 0 && LOW == 1 && HIGH == 3
  {
  }

  lemma SwitchIs(s: State)
    ensures var (t, next) := FindNext(Prepared(s), HIGH, None);
            Switch(s) == Install(t, next)
  {
  }

  lemma NothingAbove(m: State)
    ensures NoneReadyAbove(m, HIGH) && forall p :: !RunsAbove(m, HIGH, p)
  {
  }

  lemma ChosenByLevel(m: State, r: State, level: nat, k: nat, t: State, next: Pid)
    requires r.rings == t.rings && r.current == next
    requires if level > 0 then
               && IsFirstReady(m, level, k) && next == m.rings[level][k]
               && t.rings == m.rings[level := Rotate(m.rings[level], k + 1)]
             else
               && t.rings == m.rings && NoneReadyAbove(m, IDLE)
               && next == if RunsAbove(m, IDLE, m.current) then m.current else m.IdlePid()
    ensures Chosen(m, r, level, k)
  {
  }

  lemma PreparedRunner(s: State)
    requires Switchable(s)
    ensures Inv(s) && forall p | Prepared(s).Is(p, Running) :: p == s.current
  {
    PreparedShape(s);
    forall p | Prepared(s).Is(p, Running) ensures p == s.current {
      assert p in s.creation || s.Is(p, Running);
    }
  }

  /** What a switch does to each process, whoever is chosen. */
  lemma SwitchStatuses(s: State)
    requires Switchable(s)
    ensures var r := Switch(s);
            && (forall p | p in s.procs || p in s.creation :: p in r.procs)
            && (forall p | p in s.procs && p != r.current ::
                  r.procs[p].status == if s.procs[p].status == Running then Ready else s.procs[p].status)
            && (r.current in s.procs && r.current != s.IdlePid() ==>
                  s.Is(r.current, Ready) || s.Is(r.current, Running))
            && (forall p | p in s.procs && p != s.current :: r.procs[p].priority == s.procs[p].priority)
            && (s.procs[s.current].priority >= LOW ==> r.procs[s.current].priority >= LOW)
            && (forall p | p in s.creation :: r.procs[p].priority >= LOW)
  {
    hide Switch, Prepared, IsFirstReady;
    PreparedShape(s);
    var level, k := SwitchDecides(s);
    var m, r := Prepared(s), Switch(s);
    ChosenCanRun(m, r, level, k);
  }

  lemma ChosenCanRun(m: State, r: State, level: nat, k: nat)
    requires Shaped(m) && Chosen(m, r, level, k)
    ensures r.current == m.IdlePid() || m.Is(r.current, Ready) || m.Is(r.current, Running)
  {
  }

  /** With nobody READY, the process that keeps running is the current one, if it may. */
  lemma KeptIsCurrent(m: State, p: Pid)
    requires Shaped(m)
    requires forall q | m.Is(q, Running) :: q == m.current
    requires RunsAbove(m, IDLE, p) || (p == m.IdlePid() && forall q :: !RunsAbove(m, IDLE, q))
    ensures m.Listed(p) && p == if RunsAbove(m, IDLE, m.current) then m.current else m.IdlePid()
  {
  }

  /** One process runs after a switch; the one that ran before is READY, the others keep their status. */
  ghost predicate Succeeds(m: State, r: State) {
    && Shaped(r) && r == m.(rings := r.rings, procs := r.procs, current := r.current)
    && r.IdlePid() == m.IdlePid() && r.procs.Keys == m.procs.Keys
    && (forall p :: r.Listed(p) <==> m.Listed(p))
    && (forall p | p in m.procs :: r.procs[p].ticks <= m.procs[p].ticks && r.procs[p].priority == m.procs[p].priority)
    && (forall p | p in m.procs ::
          r.procs[p].status == if p == r.current then Running
                               else if m.procs[p].status == Running then Ready
                               else m.procs[p].status)
  }

  lemma InstallSucceeds(m: State, t: State, r: State, level: nat, next: Pid)
    requires Shaped(m) && Shaped(t) && next in t.procs && r == Install(t, next)
    requires t == m.(rings := t.rings, procs := t.procs) && t.IdlePid() == m.IdlePid()
    requires t.procs.Keys == m.procs.Keys && forall q :: t.Listed(q) <==> m.Listed(q)
    requires forall q | q in m.procs ::
               t.procs[q] == if level > 0 && q == next then m.procs[q].(status := Running) else m.procs[q]
    requires forall p | m.Is(p, Running) :: p == m.current
    ensures Succeeds(m, r) && r.current == next && r.rings == t.rings
    ensures forall q :: r.Listed(q) <==> t.Listed(q)
  {
    forall p | t.Is(p, Running) ensures p == t.current || p == next {
      assert p != next ==> m.Is(p, Running);
    }
    InstallRuns(t, next);
    assert forall p :: r.Listed(p) <==> t.Listed(p);
  }

  lemma SuccessorKeepsInv(s: State, m: State, r: State)
    requires Inv(s) && Succeeds(m, r) && r.Listed(r.current)
    requires m.removal == [] && m.creation == [] && m.nextPid == s.nextPid && m.IdlePid() == s.IdlePid()
    requires forall p :: m.Listed(p) <==> (s.Listed(p) && p !in s.removal) || p in s.creation
    requires forall p :: p in m.procs <==> p in s.procs || p in s.creation
    requires forall p | p in s.procs :: m.procs[p].status == s.procs[p].status && m.procs[p].ticks == s.procs[p].ticks
    requires forall p | p in s.creation :: m.procs[p].status == Ready && m.procs[p].ticks == 0
    ensures Inv(r) && forall p :: r.Is(p, Running) <==> p == r.current
  {
    assert r.current in r.procs;
    assert r.IdlePid() in r.rings[IDLE];
    forall p ensures r.Is(p, Running) <==> p == r.current {
    }
    forall p | p in r.procs && !r.Listed(p) ensures r.Is(p, Dead) {
      assert (p in s.procs && !s.Listed(p)) || p in s.removal;
      assert s.Is(p, Dead);
    }
    forall p | r.Listed(p) ensures !r.Is(p, Dead) {
      assert p in s.creation || !s.Is(p, Dead);
    }
  }

  /** Picking a process only turns its ring and marks it RUNNING. */
  lemma ChoiceKeeps(m: State, level: nat, k: nat, t: State, p: Pid)
    requires Shaped(m)
    requires if level > 0 then
               && IsFirstReady(m, level, k) && p == m.rings[level][k]
               && t == m.SetStatus(p, Running).(rings := m.rings[level := Rotate(m.rings[level], k + 1)])
             else t == m && m.Listed(p)
    ensures Shaped(t) && t.IdlePid() == m.IdlePid() && t.procs.Keys == m.procs.Keys
    ensures t == m.(rings := t.rings, procs := t.procs)
    ensures forall q :: t.Listed(q) <==> m.Listed(q)
    ensures t.Listed(p)
    ensures forall q | q in m.procs ::
              t.procs[q] == if level > 0 && q == p then m.procs[q].(status := Running) else m.procs[q]
  {
    if level > 0 {
      RotateKeeps(m.rings[level], k + 1);
      assert forall j | 0 <= j < 4 && j != level :: t.rings[j] == m.rings[j];
      forall q ensures t.Listed(q) <==> m.Listed(q) {
        if m.Listed(q) {
          assert q in t.rings[m.procs[q].priority];
        }
      }
    }
  }

  /** Installing a process leaves it the only RUNNING one. */
  lemma InstallRuns(t: State, next: Pid)
    requires next in t.procs && t.current in t.procs
    requires forall p | t.Is(p, Running) :: p == t.current || p == next
    ensures var r := Install(t, next);
            && r == t.(procs := r.procs, current := next) && r.procs.Keys == t.procs.Keys
            && (forall p | p in t.procs :: r.procs[p].priority == t.procs[p].priority)
            && (forall p | p in t.procs :: r.procs[p].ticks <= t.procs[p].ticks)
            && (forall p :: r.Is(p, Running) <==> p == next)
            && (forall p | p in t.procs && p != next ::
                  r.procs[p].status == if t.Is(p, Running) then Ready else t.procs[p].status)
  {
    forall p ensures Install(t, next).Is(p, Running) <==> p == next {
      assert t.Is(p, Running) ==> p == t.current || p == next;
    }
  }

  // ---- The other steps ---------------------------------------------------

  /** A change of one process's ticks or status, other than to or from DEAD, with nobody becoming RUNNING. */
  lemma StatusKeepsInv(s: State, p: Pid, st: Status)
    requires Inv(s) && s.Listed(p) && !s.Is(p, Dead) && st != Dead && st != Running
    requires p == s.IdlePid() ==> st == Ready
    ensures Inv(s.SetStatus(p, st)) && s.SetStatus(p, st).IdlePid() == s.IdlePid()
    ensures forall q :: s.SetStatus(p, st).Listed(q) <==> s.Listed(q)
  {
    var r := s.SetStatus(p, st);
    forall q ensures r.Listed(q) <==> s.Listed(q) {
    }
    forall q | q != p || st != Dead ensures r.Is(q, Dead) <==> s.Is(q, Dead) {
    }
    forall q | r.Is(q, Running) ensures q == r.current {
      assert s.Is(q, Running);
    }
  }

  lemma TicksKeepInv(s: State, p: Pid, n: nat)
    requires Inv(s) && n <= QUANTUM
    ensures Inv(s.SetTicks(p, n)) && s.SetTicks(p, n).IdlePid() == s.IdlePid()
  {
    var r := s.SetTicks(p, n);
    forall q ensures r.Listed(q) <==> s.Listed(q) {
    }
    forall q, st ensures r.Is(q, st) <==> s.Is(q, st) {
    }
  }

  lemma YieldKeepsInv(s: State)
    requires Inv(s)
    ensures Inv(Yield(s)) && Yield(s).IdlePid() == s.IdlePid()
  {
    TicksKeepInv(s, s.current, QUANTUM);
    var level, k := SwitchDecides(s.SetTicks(s.current, QUANTUM));
  }

  lemma KillMarks(s: State, p: Pid)
    requires Inv(s) && s.Listed(p) && !s.Is(p, Dead) && p != s.IdlePid()
    ensures var t := s.SetStatus(p, Dead).(removal := s.removal + [p]);
            Inv(t) && t.IdlePid() == s.IdlePid()
  {
    var t := s.SetStatus(p, Dead).(removal := s.removal + [p]);
    forall q ensures t.Listed(q) <==> s.Listed(q) {
    }
    forall q ensures t.Is(q, Dead) <==> s.Is(q, Dead) || q == p {
    }
    forall q | t.Is(q, Running) ensures q == t.current {
      assert s.Is(q, Running);
    }
    DistinctAppend(s.removal, p);
  }

  lemma CreateKeepsInv(s: State)
    requires Inv(s)
    ensures Inv(Create(s)) && Create(s).IdlePid() == s.IdlePid()
  {
    var t := Create(s);
    AddKeeps(s, s.nextPid);
    assert forall q :: t.Listed(q) <==> Add(s, s.nextPid).Listed(q);
    forall q, st ensures t.Is(q, st) <==> s.Is(q, st) || (q == s.nextPid && st == Ready) {
    }
  }

  lemma PriorityKeepsInv(s: State, p: Pid, priority: nat)
    requires Inv(s) && p != s.IdlePid() && priority < 4
    ensures Inv(ChangePriority(s, p, priority)) && ChangePriority(s, p, priority).IdlePid() == s.IdlePid()
  {
    var t := ChangePriority(s, p, priority);
    ChangePriorityMoves(s, p, priority);
    forall q, st ensures t.Is(q, st) <==> s.Is(q, st) {
    }
  }

  /** Every step keeps the invariant. */
  lemma ApplyKeepsInv(s: State, e: Event)
    requires Inv(s) && Allowed(s, e)
    ensures Inv(Apply(s, e)) && Apply(s, e).IdlePid() == s.IdlePid()
  {
    hide Inv, Switch;
    match e {
      case TimerEvent => TickKeepsInv(s);
      case YieldEvent => YieldKeepsInv(s);
      case CreateEvent => CreateKeepsInv(s);
      case QueueEvent => QueueKeepsInv(s);
      case BlockEvent(p) => BlockKeepsInv(s, p);
      case ReviveEvent(p) => ReviveKeepsInv(s, p);
      case KillEvent(p) => KillKeepsInv(s, p);
      case PriorityEvent(p, priority) => PriorityKeepsInv(s, p, priority);
    }
  }

  lemma TickKeepsInv(s: State)
    requires Inv(s)
    ensures Inv(Tick(s)) && Tick(s).IdlePid() == s.IdlePid()
  {
    if s.Of(s.current).ticks >= QUANTUM {
      var level, k := SwitchDecides(s);
    } else {
      TicksKeepInv(s, s.current, s.Of(s.current).ticks + 1);
    }
  }

  lemma QueueKeepsInv(s: State)
    requires Inv(s)
    ensures Inv(QueueCreation(s)) && QueueCreation(s).IdlePid() == s.IdlePid()
  {
    var t := QueueCreation(s);
    assert forall q :: t.Listed(q) <==> s.Listed(q);
    assert forall q, st :: t.Is(q, st) <==> s.Is(q, st);
    DistinctAppend(s.creation, s.nextPid);
  }

  lemma ReviveKeepsInv(s: State, p: Pid)
    requires Inv(s)
    ensures Inv(Revive(s, p)) && Revive(s, p).IdlePid() == s.IdlePid()
  {
    if s.Listed(p) && (s.Is(p, Blocked) || s.Is(p, Running)) {
      StatusKeepsInv(s, p, Ready);
    }
  }

  lemma BlockKeepsInv(s: State, p: Pid)
    requires Inv(s) && p != s.IdlePid()
    ensures Inv(Block(s, p).0) && Block(s, p).0.IdlePid() == s.IdlePid()
  {
    if s.Listed(p) && (s.Is(p, Ready) || s.Is(p, Running)) {
      StatusKeepsInv(s, p, Blocked);
      YieldKeepsInv(s.SetStatus(p, Blocked));
    } else if s.Listed(p) && s.Is(p, Blocked) {
      StatusKeepsInv(s, p, Ready);
    }
  }

  lemma KillKeepsInv(s: State, p: Pid)
    requires Inv(s) && p != s.IdlePid() && !s.Is(p, Dead)
    ensures Inv(Kill(s, p).0) && Kill(s, p).0.IdlePid() == s.IdlePid()
  {
    hide Inv;
    if s.Listed(p) {
      KillMarks(s, p);
      YieldKeepsInv(s.SetStatus(p, Dead).(removal := s.removal + [p]));
    }
  }

  /**
    The exact condition on a kill: the process must not be waiting for its burial already, or the
    removal queue names it twice.
   */
  lemma KillKeepsInvIff(s: State, p: Pid)
    requires Inv(s) && p != s.IdlePid() && !s.Is(s.current, Dead)
    ensures Inv(Kill(s, p).0) <==> !(s.Listed(p) && p != SHELL_PID && s.Is(p, Dead))
  {
    if s.Is(p, Dead) {
      if s.Listed(p) && p != SHELL_PID {
        var twice := s.removal + [p];
        var i :| 0 <= i < |s.removal| && s.removal[i] == p;
        assert twice[i] == twice[|s.removal|];
      }
    } else {
      KillKeepsInv(s, p);
    }
  }

  // ---- Runs --------------------------------------------------------------

  ghost predicate AllAllowed(s: State, run: seq<Event>)
    decreases |run|
  {
    run == [] || (Allowed(s, run[0]) && AllAllowed(Apply(s, run[0]), run[1..]))
  }

  ghost function Run(s: State, run: seq<Event>): State
    requires AllAllowed(s, run)
    decreases |run|
  {
    if run == [] then s else Run(Apply(s, run[0]), run[1..])
  }

  /** The kernel's first state: shell in the highest ring and running, idle in ring 0. */
  const BOOTED: State :=
    State([[3], [], [], [SHELL_PID]],
          map[SHELL_PID := Proc(Running, 0, HIGH), 3 := Proc(Ready, 0, IDLE)],
          SHELL_PID, [], [], 4)

  lemma BootedIsSafe()
    ensures Inv(BOOTED)
  {
    assert SHELL_PID in BOOTED.rings[HIGH] && 3 in BOOTED.rings[IDLE];
  }

  /**
    Single runner and ring membership, under every sequence of timer, yield, create, block,
    revive, kill and priority-change steps from boot.
   */
  lemma RunsAreSafe(run: seq<Event>)
    requires AllAllowed(BOOTED, run)
    ensures var s := Run(BOOTED, run);
            && Inv(s)
            && (forall p | s.Is(p, Running) :: p == s.current)
            && (forall p | s.Listed(p) :: s.procs[p].priority < 4 && p in s.rings[s.procs[p].priority]
                  && forall i | 0 <= i < 4 && p in s.rings[i] :: i == s.procs[p].priority)
  {
    BootedIsSafe();
    RunKeepsInv(BOOTED, run);
    forall p | Run(BOOTED, run).Listed(p) {
      ListedByPriority(Run(BOOTED, run), p);
    }
  }

  lemma {:induction false} RunKeepsInv(s: State, run: seq<Event>)
    requires Inv(s) && AllAllowed(s, run)
    ensures Inv(Run(s, run))
    decreases |run|
  {
    hide Inv;
    if run != [] {
      ApplyKeepsInv(s, run[0]);
      RunKeepsInv(Apply(s, run[0]), run[1..]);
    }
  }

  /** After boot, a process 4 is created and killed. */
  const KILLED: State :=
    State([[3], [], [], [2, 4]],
          map[2 := Proc(Running, 0, HIGH), 3 := Proc(Ready, 0, IDLE), 4 := Proc(Dead, 0, HIGH)],
          2, [4], [], 5)

  lemma KilledOnce()
    ensures AllAllowed(BOOTED, [CreateEvent, KillEvent(4)]) && Run(BOOTED, [CreateEvent, KillEvent(4)]) == KILLED
  {
    var a := Create(BOOTED);
    assert a.rings[HIGH] == [2, 4];
    assert 4 in a.rings[HIGH];
    assert Kill(a, 4).0 == KILLED;
    assert [CreateEvent, KillEvent(4)][1..] == [KillEvent(4)] && [KillEvent(4)][1..] == [];
  }

  /** A second kill before the burial: there the process is in no ring, and the C code follows a null pointer. */
  lemma KilledTwice()
    ensures AllAllowed(BOOTED, [CreateEvent, KillEvent(4)]) && Run(BOOTED, [CreateEvent, KillEvent(4)]) == KILLED
    ensures var t := Kill(KILLED, 4).0;
            Inv(KILLED) && t.removal == [4, 4] && !Inv(t) && !Unlist(t, 4).Listed(4)
  {
    KilledOnce();
    BootedIsSafe();
    RunKeepsInv(BOOTED, [CreateEvent, KillEvent(4)]);
    hide Inv;
    assert 4 in KILLED.rings[HIGH];
    KillKeepsInvIff(KILLED, 4);
    BuriedTwice(Kill(KILLED, 4).0);
  }

  lemma BuriedTwice(t: State)
    requires t.rings == KILLED.rings && t.procs == KILLED.procs
    ensures !Unlist(t, 4).Listed(4)
  {
    assert Remove([2, 4], 4) == [2];
  }
}
