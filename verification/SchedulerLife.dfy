/**
  What blocking and killing mean over whole runs: a killed process never runs again and is
  buried at the next switch; a blocked one does not run until somebody revives it.
 */
module SchedulerLife {
  import opened Scheduler
  import opened SchedulerSteps
  import opened SchedulerRuns

  /** `p` is off the processor, with a status that no context switch changes. */
  ghost predicate Resting(s: State, p: Pid, st: Status) {
    s.Is(p, st) && (st == Blocked || st == Dead) && s.current != p
  }

  /** Events that can end the rest of a blocked process. */
  ghost predicate Disturbs(e: Event, p: Pid) {
    e == BlockEvent(p) || e == ReviveEvent(p) || e == KillEvent(p)
  }

  /** Only the process that a switch selects can change from BLOCKED or DEAD, and it never selects one. */
  lemma SwitchKeepsResting(s: State, p: Pid, st: Status)
    requires Switchable(s) && s.Is(p, st) && (st == Blocked || st == Dead)
    ensures Resting(Switch(s), p, st)
  {
    hide *;
    var r := Switch(s);
    SwitchStatuses(s);
    NotIdle(s, p, st);
    NotSelected(s, r, p, st);
  }

  lemma NotIdle(s: State, p: Pid, st: Status)
    requires Switchable(s) && s.Is(p, st) && (st == Blocked || st == Dead)
    ensures p != s.IdlePid() && p in s.procs && s.procs[p].status == st
  {
  }

  /** A selected process was READY or RUNNING, so it is not `p`. */
  lemma NotSelected(s: State, r: State, p: Pid, st: Status)
    requires p in s.procs && p in r.procs && s.procs[p].status == st && (st == Blocked || st == Dead)
    requires p != s.IdlePid()
    requires p != r.current ==> r.procs[p].status == if st == Running then Ready else st
    requires r.current in s.procs && r.current != s.IdlePid() ==> s.Is(r.current, Ready) || s.Is(r.current, Running)
    ensures Resting(r, p, st)
  {
  }

  lemma TickSwitchable(s: State)
    requires Inv(s)
    ensures Switchable(s.SetTicks(s.current, QUANTUM))
    ensures s.Of(s.current).ticks >= QUANTUM ==> Switchable(s)
    ensures s.SetTicks(s.current, QUANTUM).current == s.current
    ensures forall p, st :: s.SetTicks(s.current, QUANTUM).Is(p, st) <==> s.Is(p, st)
  {
    TicksKeepInv(s, s.current, QUANTUM);
  }

  lemma YieldKeepsResting(s: State, p: Pid, st: Status)
    requires Inv(s) && s.Is(p, st) && (st == Blocked || st == Dead)
    ensures Resting(Yield(s), p, st)
  {
    hide Inv, Switch, Switchable;
    TickSwitchable(s);
    SwitchKeepsResting(s.SetTicks(s.current, QUANTUM), p, st);
  }

  /** Every step leaves a dead process dead, and a blocked one blocked unless the step names it. */
  lemma StepKeepsResting(s: State, e: Event, p: Pid, st: Status)
    requires Inv(s) && Allowed(s, e) && Resting(s, p, st)
    requires st == Blocked ==> !Disturbs(e, p)
    ensures Resting(Apply(s, e), p, st)
  {
    hide Inv, Switch, Switchable;
    match e {
      case TimerEvent =>
        TickSwitchable(s);
        if s.Of(s.current).ticks >= QUANTUM {
          SwitchKeepsResting(s, p, st);
        }
      case YieldEvent =>
        YieldKeepsResting(s, p, st);
      case CreateEvent =>
        KnownIsOld(s, p);
      case QueueEvent =>
      case BlockEvent(q) =>
        if s.Listed(q) && (s.Is(q, Ready) || s.Is(q, Running)) {
          StatusKeepsInv(s, q, Blocked);
          if q == s.current {
            YieldKeepsResting(s.SetStatus(q, Blocked), p, st);
          }
        }
      case ReviveEvent(q) =>
      case KillEvent(q) =>
        if s.Listed(q) && q != SHELL_PID {
          KillMarks(s, q);
          if q == s.current {
            YieldKeepsResting(s.SetStatus(q, Dead).(removal := s.removal + [q]), p, st);
          }
        }
      case PriorityEvent(q, priority) =>
        ShapedOf(s);
        ChangePriorityMoves(s, q, priority);
    }
  }

  lemma KnownIsOld(s: State, p: Pid)
    requires Inv(s) && p in s.procs
    ensures p != s.nextPid
  {
  }

  lemma ShapedOf(s: State)
    requires Inv(s)
    ensures Shaped(s)
  {
  }

  /** A dead process never runs again, whatever happens. */
  lemma {:induction false} DeadStaysDead(s: State, run: seq<Event>, p: Pid)
    requires Inv(s) && AllAllowed(s, run) && Resting(s, p, Dead)
    ensures Resting(Run(s, run), p, Dead)
    decreases |run|
  {
    hide Inv, Apply, Resting;
    if run != [] {
      StepKeepsResting(s, run[0], p, Dead);
      ApplyKeepsInv(s, run[0]);
      DeadStaysDead(Apply(s, run[0]), run[1..], p);
    }
  }

  /** A blocked process does not run as long as nobody blocks it again, revives or kills it. */
  lemma {:induction false} BlockedStaysBlocked(s: State, run: seq<Event>, p: Pid)
    requires Inv(s) && AllAllowed(s, run) && Resting(s, p, Blocked)
    requires forall i | 0 <= i < |run| :: !Disturbs(run[i], p)
    ensures Resting(Run(s, run), p, Blocked)
    decreases |run|
  {
    hide Inv, Apply, Resting;
    if run != [] {
      StepKeepsResting(s, run[0], p, Blocked);
      ApplyKeepsInv(s, run[0]);
      BlockedStaysBlocked(Apply(s, run[0]), run[1..], p);
    }
  }

  // ---- block_process and force_kill --------------------------------------

  /** block_process takes a process that can run off the processor; if it is not the current one, no other changes. */
  lemma BlockStops(s: State, p: Pid)
    requires Inv(s) && p != s.IdlePid() && s.Listed(p) && (s.Is(p, Ready) || s.Is(p, Running))
    ensures Block(s, p).1 == 1 && Resting(Block(s, p).0, p, Blocked)
    ensures p != s.current ==> forall q, st | q != p :: Block(s, p).0.Is(q, st) <==> s.Is(q, st)
  {
    hide Inv, Switch;
    StatusKeepsInv(s, p, Blocked);
    if p == s.current {
      YieldKeepsResting(s.SetStatus(p, Blocked), p, Blocked);
    }
  }

  /** A second block_process undoes the first, for a READY process that is not the current one. */
  lemma BlockUndoes(s: State, p: Pid)
    requires Inv(s) && p != s.current && s.Listed(p) && s.Is(p, Ready)
    ensures Block(s, p).1 == 1 && Block(Block(s, p).0, p) == (s, 2)
  {
    var t := s.SetStatus(p, Blocked);
    assert t.Listed(p);
    assert s.procs[p := s.procs[p].(status := Blocked)][p := s.procs[p]] == s.procs;
  }

  /**
    force_kill takes a process other than shell off the processor for good: it is dead at once, off
    the rings after the next switch, and it stays dead in every run.
   */
  lemma KillIsFinal(s: State, p: Pid, run: seq<Event>)
    requires Inv(s) && p != s.IdlePid() && p != SHELL_PID && s.Listed(p) && !s.Is(p, Dead)
    requires AllAllowed(Kill(s, p).0, run)
    ensures Kill(s, p).1 == 1 && Inv(Kill(s, p).0)
    ensures Resting(Run(Kill(s, p).0, run), p, Dead)
    ensures p == s.current ==> !Kill(s, p).0.Listed(p)
    ensures p != s.current ==> !Yield(Kill(s, p).0).Listed(p)
  {
    hide Inv, Switch, Switchable;
    KillMarks(s, p);
    KillKeepsInv(s, p);
    var t := s.SetStatus(p, Dead).(removal := s.removal + [p]);
    assert t.Is(p, Dead) && p in t.removal;
    Buried(t, p);
    if p == s.current {
      YieldKeepsResting(t, p, Dead);
    }
    DeadStaysDead(Kill(s, p).0, run, p);
  }

  lemma Buried(t: State, p: Pid)
    requires Inv(t) && p in t.removal
    ensures !Yield(t).Listed(p)
  {
    var u := t.SetTicks(t.current, QUANTUM);
    TickSwitchable(t);
    var level, k := SwitchDecides(u);
    assert p in t.procs;
    assert p !in u.creation;
  }

  // ---- Levels ------------------------------------------------------------

  /** Nobody but idle is in ring 0, where nobody is ever selected. */
  ghost predicate Leveled(s: State) {
    forall p | s.Listed(p) && p != s.IdlePid() :: s.Of(p).priority >= LOW
  }

  lemma SwitchKeepsLevels(s: State)
    requires Switchable(s) && Leveled(s)
    ensures Leveled(Switch(s))
  {
    hide Switch, Chosen, Succeeds, Prepared, Inv;
    var r := Switch(s);
    var level, k := SwitchDecides(s);
    SwitchStatuses(s);
    LevelsAfter(s, r);
  }

  lemma LevelsAfter(s: State, r: State)
    requires Inv(s) && Leveled(s) && Inv(r) && r.IdlePid() == s.IdlePid()
    requires forall p :: r.Listed(p) ==> s.Listed(p) || p in s.creation
    requires forall p | p in s.procs && p != s.current :: p in r.procs && r.procs[p].priority == s.procs[p].priority
    requires s.procs[s.current].priority >= LOW ==> s.current in r.procs && r.procs[s.current].priority >= LOW
    requires forall p | p in s.creation :: p in r.procs && r.procs[p].priority >= LOW
    ensures Leveled(r)
  {
  }

  lemma SameLevels(s: State, t: State)
    requires Leveled(s) && t.IdlePid() == s.IdlePid() && forall p :: t.Listed(p) ==> s.Listed(p)
    requires forall p :: t.Of(p).priority == s.Of(p).priority
    ensures Leveled(t)
  {
  }

  lemma StatusKeepsLevels(s: State, p: Pid, st: Status)
    requires Leveled(s)
    ensures Leveled(s.SetStatus(p, st))
  {
    var t := s.SetStatus(p, st);
    forall q ensures (t.Listed(q) ==> s.Listed(q)) && t.Of(q).priority == s.Of(q).priority {
    }
    SameLevels(s, t);
  }

  lemma TicksKeepLevels(s: State, p: Pid, n: nat)
    requires Leveled(s)
    ensures Leveled(s.SetTicks(p, n))
  {
    var t := s.SetTicks(p, n);
    forall q ensures (t.Listed(q) ==> s.Listed(q)) && t.Of(q).priority == s.Of(q).priority {
    }
    SameLevels(s, t);
  }

  lemma YieldKeepsLevels(s: State)
    requires Inv(s) && Leveled(s)
    ensures Leveled(Yield(s))
  {
    hide Inv, Switch, Switchable, Leveled;
    TickSwitchable(s);
    TicksKeepLevels(s, s.current, QUANTUM);
    SwitchKeepsLevels(s.SetTicks(s.current, QUANTUM));
  }

  lemma CreateKeepsLevels(s: State)
    requires Inv(s) && Leveled(s)
    ensures Leveled(Create(s)) && Leveled(QueueCreation(s))
  {
    var t := Create(s);
    AddKeeps(s, s.nextPid);
    assert forall q :: t.Listed(q) <==> Add(s, s.nextPid).Listed(q);
    assert forall q | q != s.nextPid :: t.Of(q) == s.Of(q);
    assert t.Of(s.nextPid).priority == HIGH;
    var u := QueueCreation(s);
    forall q ensures (u.Listed(q) ==> s.Listed(q)) && u.Of(q).priority == s.Of(q).priority {
    }
  }

  lemma PriorityKeepsLevels(s: State, p: Pid, priority: Level)
    requires Inv(s) && Leveled(s) && p != s.IdlePid() && priority >= LOW
    ensures Leveled(ChangePriority(s, p, priority))
  {
    var t := ChangePriority(s, p, priority);
    ChangePriorityMoves(s, p, priority);
    forall q | t.Listed(q) && q != t.IdlePid() ensures t.Of(q).priority >= LOW {
      assert s.Listed(q);
    }
  }

  lemma KillKeepsLevels(s: State, p: Pid)
    requires Inv(s) && Leveled(s) && p != s.IdlePid() && !s.Is(p, Dead)
    ensures Leveled(Kill(s, p).0)
  {
    hide Inv, Yield;
    if s.Listed(p) && p != SHELL_PID {
      KillMarks(s, p);
      var t := s.SetStatus(p, Dead).(removal := s.removal + [p]);
      forall q ensures (t.Listed(q) ==> s.Listed(q)) && t.Of(q).priority == s.Of(q).priority {
      }
      SameLevels(s, t);
      YieldKeepsLevels(t);
    }
  }

  /** Nobody falls into ring 0 but by a change of priority to it: demotions stop at LOW. */
  lemma StepKeepsLevels(s: State, e: Event)
    requires Inv(s) && Leveled(s) && Allowed(s, e) && (e.PriorityEvent? ==> e.priority >= LOW)
    ensures Leveled(Apply(s, e))
  {
    hide Inv, Leveled, Switch, Switchable, Yield, Create, QueueCreation, ChangePriority, Kill;
    match e {
      case TimerEvent =>
        TickSwitchable(s);
        if s.Of(s.current).ticks >= QUANTUM {
          SwitchKeepsLevels(s);
        } else {
          TicksKeepLevels(s, s.current, s.Of(s.current).ticks + 1);
        }
      case YieldEvent =>
        YieldKeepsLevels(s);
      case CreateEvent =>
        CreateKeepsLevels(s);
      case QueueEvent =>
        CreateKeepsLevels(s);
      case BlockEvent(q) =>
        StatusKeepsLevels(s, q, Blocked);
        StatusKeepsLevels(s, q, Ready);
        if q == s.current && s.Listed(q) && (s.Is(q, Ready) || s.Is(q, Running)) {
          StatusKeepsInv(s, q, Blocked);
          YieldKeepsLevels(s.SetStatus(q, Blocked));
        }
      case ReviveEvent(q) =>
        StatusKeepsLevels(s, q, Ready);
      case KillEvent(q) =>
        KillKeepsLevels(s, q);
      case PriorityEvent(q, priority) =>
        PriorityKeepsLevels(s, q, priority);
    }
  }
}
