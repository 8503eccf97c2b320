/**
  What each scheduler operation does, in full: which record, ring or queue it changes, how, and
  what it answers. Everything else stays as it was.
 */
module SchedulerContracts {
  import opened Wrappers
  import opened Rings
  import opened Scheduler
  import opened SchedulerSteps
  import opened SchedulerRuns

  /** Nothing differs but the record of one process. */
  ghost predicate OnlyRecord(s: State, t: State, p: Pid) {
    && t == s.(procs := t.procs) && t.procs.Keys == s.procs.Keys
    && forall q | q in s.procs && q != p :: t.procs[q] == s.procs[q]
  }

  /** Nothing differs but the status of one process. */
  ghost predicate OnlyStatus(s: State, t: State, p: Pid, st: Status) {
    OnlyRecord(s, t, p) && p in s.procs && t.procs[p] == s.procs[p].(status := st)
  }

  // ---- Steps without a switch --------------------------------------------

  /** A timer interrupt before the quantum is used up counts one tick of the current process. */
  lemma TickCounts(s: State)
    requires Inv(s) && s.Of(s.current).ticks < QUANTUM
    ensures var t := Apply(s, TimerEvent);
            && OnlyRecord(s, t, s.current)
            && t.procs[s.current].ticks == s.procs[s.current].ticks + 1
            && t.procs[s.current].status == s.procs[s.current].status
            && t.procs[s.current].priority == s.procs[s.current].priority
  {
  }

  /** A stopped process that has not used its quantum keeps its place, and is READY with no ticks. */
  lemma StopEarly(s: State)
    requires s.current in s.procs && s.procs[s.current].ticks < QUANTUM
    ensures var t := Stop(s);
            && OnlyRecord(s, t, s.current)
            && t.procs[s.current].status == Ready && t.procs[s.current].ticks == 0
            && t.procs[s.current].priority == s.procs[s.current].priority
  {
  }

  /** A created process stands READY at the end of the highest ring, under the next pid. */
  lemma CreateContract(s: State)
    requires Inv(s)
    ensures var t := Create(s);
            && t.rings[HIGH] == s.rings[HIGH] + [s.nextPid] && (forall i | 0 <= i < HIGH :: t.rings[i] == s.rings[i])
            && s.nextPid !in s.procs && t.procs.Keys == s.procs.Keys + {s.nextPid}
            && t.Is(s.nextPid, Ready) && t.procs[s.nextPid].ticks == 0 && t.procs[s.nextPid].priority == HIGH
            && (forall q | q in s.procs :: t.procs[q] == s.procs[q])
            && t.current == s.current && t.removal == s.removal && t.creation == s.creation
            && t.nextPid == s.nextPid + 1
  {
  }

  /** A queued creation takes the next pid and the last place in its queue. */
  lemma QueueContract(s: State)
    ensures var t := QueueCreation(s);
            && t.creation != [] && t.creation[|t.creation| - 1] == s.nextPid
            && t.creation[..|t.creation| - 1] == s.creation
            && t.nextPid == s.nextPid + 1 && t == s.(creation := t.creation, nextPid := t.nextPid)
  {
  }

  /** os_revive_process makes a listed BLOCKED or RUNNING process READY, and nothing else. */
  lemma ReviveContract(s: State, p: Pid)
    requires Inv(s)
    ensures var t := Revive(s, p);
            if s.Listed(p) && (s.Is(p, Blocked) || s.Is(p, Running)) then OnlyStatus(s, t, p, Ready) else t == s
  {
  }

  /** A change of priority takes a listed process out of its ring and puts it at the end of the other, or the same. */
  lemma PriorityContract(s: State, p: Pid, priority: Level)
    requires Inv(s)
    ensures var t := ChangePriority(s, p, priority);
            && (!s.Listed(p) ==> t == s)
            && (s.Listed(p) ==>
                  && p in s.procs
                  && (forall i | 0 <= i < 4 ::
                        t.rings[i] == Survivors(s.rings[i], [p]) + if i == priority then [p] else [])
                  && t == s.(rings := t.rings, procs := t.procs) && OnlyRecord(s.(rings := t.rings), t, p)
                  && t.procs[p] == s.procs[p].(priority := priority))
  {
    hide Survivors, Remove, Shaped, ChangePriority;
    ShapedOfInv(s);
    if s.Listed(p) {
      ListedByPriority(s, p);
      SurvivingRings(s, p);
    }
    PriorityParts(s, p, priority);
  }

  lemma ShapedOfInv(s: State)
    requires Inv(s)
    ensures Shaped(s)
  {
  }

  lemma PriorityParts(s: State, p: Pid, priority: Level)
    requires s.Listed(p) ==> p in s.procs && s.procs[p].priority < 4
    ensures var t := ChangePriority(s, p, priority);
            && (!s.Listed(p) ==> t == s)
            && (s.Listed(p) ==>
                  && t == s.(rings := t.rings, procs := s.procs[p := s.procs[p].(priority := priority)])
                  && forall i | 0 <= i < 4 ::
                       t.rings[i] == (if i == s.procs[p].priority then Remove(s.rings[i], p) else s.rings[i])
                                     + if i == priority then [p] else [])
  {
    hide Remove;
  }

  lemma SurvivingRings(s: State, p: Pid)
    requires Shaped(s) && p in s.procs
    ensures forall i | 0 <= i < 4 ::
              Survivors(s.rings[i], [p]) == if i == s.procs[p].priority then Remove(s.rings[i], p) else s.rings[i]
  {
    hide Survivors, Remove;
    forall i | 0 <= i < 4
      ensures Survivors(s.rings[i], [p]) == if i == s.procs[p].priority then Remove(s.rings[i], p) else s.rings[i]
    {
      RemoveSurvives(s.rings[i], p);
      if i != s.procs[p].priority {
        SurvivesWhole(s.rings[i], [p]);
      }
    }
  }

  // ---- Answers -----------------------------------------------------------

  /**
    block_process answers 1 for a process that can run and blocks it, 2 for a blocked one and makes it
    READY, and otherwise -1 and does nothing. It yields iff it blocks the current process.
   */
  lemma BlockContract(s: State, p: Pid)
    requires Inv(s)
    ensures var (t, r) := Block(s, p);
            && (r == -1 <==> !s.Listed(p) || s.Is(p, Dead))
            && (r == 1 <==> s.Listed(p) && (s.Is(p, Ready) || s.Is(p, Running)))
            && (r == 2 <==> s.Listed(p) && s.Is(p, Blocked))
            && (r == -1 ==> t == s)
            && (r == 2 ==> OnlyStatus(s, t, p, Ready))
            && (r == 1 && p != s.current ==> OnlyStatus(s, t, p, Blocked))
            && (r == 1 && p == s.current ==> exists u :: OnlyStatus(s, u, p, Blocked) && t == Yield(u))
  {
    hide Yield, Inv, OnlyStatus;
    ListedIsKnown(s, p);
    if s.Listed(p) {
      StatusIsOnly(s, p, Blocked);
      StatusIsOnly(s, p, Ready);
    }
  }

  lemma StatusIsOnly(s: State, p: Pid, st: Status)
    requires p in s.procs
    ensures OnlyStatus(s, s.SetStatus(p, st), p, st)
  {
  }

  lemma ListedIsKnown(s: State, p: Pid)
    requires Inv(s)
    ensures s.Listed(p) ==> p in s.procs
  {
  }

  /** Nothing differs but that one process is dead and last in the removal queue. */
  ghost predicate OnlyCondemned(s: State, t: State, p: Pid) {
    t.removal == s.removal + [p] && OnlyStatus(s.(removal := t.removal), t, p, Dead)
  }

  /**
    force_kill answers -1 iff the process is shell or in no ring, and then does nothing. Otherwise it
    answers 1, and the process is dead and queued for removal. It yields iff it kills the current process.
   */
  lemma KillContract(s: State, p: Pid)
    requires Inv(s)
    ensures var (t, r) := Kill(s, p);
            && (r == -1 <==> p == SHELL_PID || !s.Listed(p))
            && (r == -1 ==> t == s)
            && (r != -1 ==> r == 1)
            && (r == 1 && p != s.current ==> OnlyCondemned(s, t, p))
            && (r == 1 && p == s.current ==> exists u :: OnlyCondemned(s, u, p) && t == Yield(u))
  {
    hide Yield;
    ListedIsKnown(s, p);
    var u := s.SetStatus(p, Dead).(removal := s.removal + [p]);
    if s.Listed(p) {
      assert OnlyCondemned(s, u, p);
    }
  }

  // ---- The switch --------------------------------------------------------

  lemma {:induction false} KillAllKeepsOrder(s: State)
    requires Shaped(s) && Distinct(s.removal)
    requires forall p | p in s.removal :: s.Listed(p) && p != s.IdlePid()
    ensures forall i | 0 <= i < 4 :: KillAll(s).rings[i] == Survivors(s.rings[i], s.removal)
    decreases |s.removal|
  {
    hide Shaped, Distinct, Survivors;
    if s.removal == [] {
      forall i | 0 <= i < 4 ensures Survivors(s.rings[i], []) == s.rings[i] {
        SurvivesWhole(s.rings[i], []);
      }
    } else {
      var p, rest := s.removal[0], s.removal[1..];
      OneIsUnlisted(s);
      KillAllKeepsOrder(Unlist(s, p).(removal := rest));
      assert s.removal == [p] + rest;
      forall i | 0 <= i < 4 ensures Survivors(Survivors(s.rings[i], [p]), rest) == Survivors(s.rings[i], s.removal) {
        SurviveTwice(s.rings[i], [p], rest);
      }
    }
  }

  /** One turn of `kill_processes_in_removal_queue`. */
  lemma OneIsUnlisted(s: State)
    requires Shaped(s) && Distinct(s.removal) && s.removal != []
    requires forall p | p in s.removal :: s.Listed(p) && p != s.IdlePid()
    ensures var t := Unlist(s, s.removal[0]).(removal := s.removal[1..]);
            && Shaped(t) && Distinct(t.removal) && (forall p | p in t.removal :: t.Listed(p) && p != t.IdlePid())
            && forall i | 0 <= i < 4 :: t.rings[i] == Survivors(s.rings[i], [s.removal[0]])
  {
    hide Survivors, Remove;
    var p := s.removal[0];
    var t := Unlist(s, p).(removal := s.removal[1..]);
    UnlistKeeps(s, p);
    ListedByPriority(s, p);
    SurvivingRings(s, p);
    SameLists(t, Unlist(s, p));
    RestIsOther(s.removal);
    assert Shaped(t) by { SameShape(Unlist(s, p), t); }
  }

  lemma SameLists(s: State, t: State)
    requires s.rings == t.rings
    ensures forall q :: s.Listed(q) <==> t.Listed(q)
  {
  }

  lemma SameShape(s: State, t: State)
    requires Shaped(s) && t == s.(removal := t.removal)
    ensures Shaped(t) && t.IdlePid() == s.IdlePid()
  {
  }

  lemma RestIsOther(q: seq<Pid>)
    requires Distinct(q) && q != []
    ensures Distinct(q[1..]) && forall p | p in q[1..] :: p in q && p != q[0]
  {
  }

  /** Ring `i` when the dead are buried and the queued creations are in. */
  ghost function Standing(s: State, i: nat): seq<Pid>
    requires i < 4
  {
    Survivors(s.rings[i], s.removal) + if i == HIGH then s.creation else []
  }

  /** Whether the switch takes the current process one level down. */
  ghost predicate StepsDown(s: State) {
    s.current !in s.removal && LOW < s.Of(s.current).priority <= HIGH
  }

  /**
    The rings a switch chooses from, in order: the dead are out, the queued creations are behind the
    members of the highest ring, and the current process is at the end of the ring below its own.
   */
  lemma PreparedRings(s: State)
    requires Switchable(s)
    ensures var m, c := Prepared(s), s.current;
            var level := s.Of(c).priority;
            && (forall i | 0 <= i < 4 ::
                  m.rings[i] == if StepsDown(s) && i == level then Survivors(Standing(s, i), [c])
                                else if StepsDown(s) && i == level - 1 then Standing(s, i) + [c]
                                else Standing(s, i))
            && c in m.procs && m.procs[c].priority == if StepsDown(s) then level - 1 else level
  {
    hide Inv, Survivors, Shaped, Stop, KillAll, CreateAll;
    var u := CreateAll(KillAll(s));
    BurialsAndBirths(s);
    StandingRings(s);
    StopRings(u);
  }

  lemma StandingRings(s: State)
    requires Shaped(s) && Distinct(s.removal) && Distinct(s.creation)
    requires forall p | p in s.removal :: s.Listed(p) && p != s.IdlePid()
    requires forall p | p in s.creation :: p !in s.procs
    requires s.current in s.procs && s.Listed(s.current)
    ensures var u := CreateAll(KillAll(s));
            && Shaped(u) && u.current == s.current && u.current in u.procs && u.procs[s.current] == s.procs[s.current]
            && (forall i | 0 <= i < 4 :: u.rings[i] == Standing(s, i))
            && (u.Listed(s.current) <==> s.current !in s.removal)
  {
    hide Survivors, Shaped, KillAll, CreateAll;
    KillAllRemoves(s);
    KillAllKeepsOrder(s);
    CreateAllAdds(KillAll(s));
    assert forall i | 0 <= i < HIGH :: Standing(s, i) == Survivors(s.rings[i], s.removal);
  }

  lemma BurialsAndBirths(s: State)
    requires Switchable(s)
    ensures Shaped(s) && Distinct(s.removal) && Distinct(s.creation)
    ensures forall p | p in s.removal :: s.Listed(p) && p != s.IdlePid()
    ensures forall p | p in s.creation :: p !in s.procs
    ensures s.current in s.procs && s.Listed(s.current) && s.procs[s.current].ticks >= QUANTUM
  {
  }

  lemma StopRings(s: State)
    requires Shaped(s) && s.procs[s.current].ticks >= QUANTUM
    ensures var m, c := Stop(s), s.current;
            var level := s.procs[c].priority;
            var down := s.Listed(c) && LOW < level <= HIGH;
            && (forall i | 0 <= i < 4 ::
                  m.rings[i] == if down && i == level then Survivors(s.rings[i], [c])
                                else if down && i == level - 1 then s.rings[i] + [c]
                                else s.rings[i])
            && c in m.procs && m.procs[c].priority == if down then level - 1 else level
  {
    ListedByPriority(s, s.current);
    if s.Listed(s.current) {
      RemoveSurvives(s.rings[s.procs[s.current].priority], s.current);
    }
  }

  /**
    The ticks after a switch: a process that ran, or that is selected again, starts a new quantum; one
    that was blocked or killed on the processor, and every other, keeps its count.
   */
  lemma SwitchTicks(s: State)
    requires Switchable(s)
    ensures var r, c := Switch(s), s.current;
            && (forall p | p in s.procs :: p in r.procs && r.procs[p].ticks ==
                  if p == c && (s.Is(c, Running) || (r.current == c && c !in s.rings[IDLE])) then 0
                  else s.procs[p].ticks)
            && (forall p | p in s.creation :: p in r.procs && r.procs[p].ticks == 0)
  {
    hide Inv, Prepared, FindNext, Shaped, Install;
    var m := Prepared(s);
    PreparedShape(s);
    IdleStaysIdle(s);
    SwitchIs(s);
    var level, k := FindNextDecides(m, HIGH, None) by { NothingAbove(m); }
    var (t, next) := FindNext(m, HIGH, None);
    InstallTicks(t, next);
    if level > 0 {
      SelectedIsAbove(m, level, k);
    } else {
      PreparedRunner(s);
      KeptIsCurrent(m, next);
    }
  }

  lemma InstallTicks(t: State, next: Pid)
    requires next in t.procs
    ensures forall p | p in t.procs :: p in Install(t, next).procs && Install(t, next).procs[p].ticks ==
              if p == t.current && t.Is(p, Running) then 0 else t.procs[p].ticks
    ensures Install(t, next).current == next
  {
  }

  /** Who is in ring 0 stays there when a switch prepares, and the others stay above. */
  lemma IdleStaysIdle(s: State)
    requires Switchable(s)
    ensures s.current in s.procs && s.current in Prepared(s).procs
    ensures s.current in s.rings[IDLE] <==> Prepared(s).procs[s.current].priority == IDLE
    ensures s.IdlePid() in s.rings[IDLE]
  {
    hide Prepared;
    PreparedRings(s);
    CurrentsRing(s);
  }

  lemma CurrentsRing(s: State)
    requires Switchable(s)
    ensures s.current in s.procs && (s.current in s.rings[IDLE] <==> s.procs[s.current].priority == IDLE)
    ensures s.IdlePid() in s.rings[IDLE]
  {
    ListedByPriority(s, s.current);
  }

  lemma SelectedIsAbove(m: State, level: nat, k: nat)
    requires Shaped(m) && IsFirstReady(m, level, k)
    ensures m.rings[level][k] in m.procs && m.procs[m.rings[level][k]].priority == level >= LOW
  {
  }

  // ---- Runs --------------------------------------------------------------

  ghost predicate Increasing(q: seq<Pid>) {
    forall i, j | 0 <= i < j < |q| :: q[i] < q[j]
  }

  /** Every step leaves the creation queue alone, adds the next pid at its end, or empties it. */
  lemma CreationsAfter(s: State, e: Event)
    requires Inv(s) && Allowed(s, e)
    ensures Apply(s, e).creation == s.creation || Apply(s, e).creation == []
            || (e == QueueEvent && Apply(s, e).creation == s.creation + [s.nextPid])
  {
    hide Inv, Switch, KillAll, Shaped;
    match e {
      case TimerEvent =>
        if s.Of(s.current).ticks >= QUANTUM {
          SwitchEmpties(s);
        }
      case YieldEvent =>
        YieldEmpties(s);
      case BlockEvent(p) =>
        if s.Listed(p) && (s.Is(p, Ready) || s.Is(p, Running)) && p == s.current {
          StatusKeepsInv(s, p, Blocked);
          YieldEmpties(s.SetStatus(p, Blocked));
        }
      case KillEvent(p) =>
        if s.Listed(p) && p != SHELL_PID && p == s.current {
          KillMarks(s, p);
          YieldEmpties(s.SetStatus(p, Dead).(removal := s.removal + [p]));
        }
      case _ =>
    }
  }

  lemma SwitchEmpties(s: State)
    requires Inv(s) && s.Of(s.current).ticks >= QUANTUM
    ensures Switch(s).creation == [] && Switch(s).removal == []
  {
    var level, k := SwitchDecides(s);
  }

  lemma YieldEmpties(s: State)
    requires Inv(s)
    ensures Yield(s).creation == [] && Yield(s).removal == []
  {
    var t := s.SetTicks(s.current, QUANTUM);
    TicksKeepInv(s, s.current, QUANTUM);
    SwitchEmpties(t);
  }

  /** In every run the queued creations stay in the order of their pids, which is that of the calls. */
  lemma {:induction false} CreationsIncrease(s: State, run: seq<Event>)
    requires Inv(s) && Increasing(s.creation) && AllAllowed(s, run)
    ensures Increasing(Run(s, run).creation)
    decreases |run|
  {
    hide Inv, Apply, Allowed;
    if run != [] {
      StillIncreasing(s, run[0]);
      ApplyKeepsInv(s, run[0]);
      CreationsIncrease(Apply(s, run[0]), run[1..]);
    }
  }

  lemma StillIncreasing(s: State, e: Event)
    requires Inv(s) && Increasing(s.creation) && Allowed(s, e)
    ensures Increasing(Apply(s, e).creation)
  {
    hide Apply, Allowed;
    CreationsAfter(s, e);
    forall i | 0 <= i < |s.creation| ensures s.creation[i] < s.nextPid {
      assert s.creation[i] in s.creation;
    }
    assert Increasing(s.creation + [s.nextPid]);
  }

  /** From boot the queue starts empty, so this holds of every run of the kernel. */
  lemma BootedIncreases(run: seq<Event>)
    requires AllAllowed(BOOTED, run)
    ensures Increasing(Run(BOOTED, run).creation)
  {
    BootedIsSafe();
    CreationsIncrease(BOOTED, run);
  }
}
