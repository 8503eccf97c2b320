/**
  Kernel/basicScheduler.c and the scheduling half of Kernel/process.c as code: PCBs are
  objects updated in place, the rings are lists of them read from their current node
  (`CircularList` and `SchedulerRings` have the linked rings). Every method is proved to
  take the step of the state machine in `Scheduler` and `SchedulerRuns`.
 */
module SchedulerObjects {
  import opened Wrappers
  import opened Rings
  import opened Scheduler
  import opened SchedulerSteps
  import opened SchedulerRuns

  /** A `pcb_t` with the fields of its `process_t` that the scheduler uses. */
  class Pcb {
    const pid: Pid
    var status: Status
    var ticks: nat
    var priority: nat

    constructor (pid: Pid)
      ensures this.pid == pid && status == Ready && ticks == 0 && priority == HIGH
    {
      this.pid := pid;
      status, ticks, priority := Ready, 0, HIGH;
    }
  }

  function Pids(q: seq<Pcb>): seq<Pid> {
    seq(|q|, k requires 0 <= k < |q| => q[k].pid)
  }

  type PcbRings = r: seq<seq<Pcb>> | |r| == 4 witness [[], [], [], []]

  ghost predicate In(known: map<Pid, Pcb>, b: Pcb) {
    b.pid in known && known[b.pid] == b
  }

  class Table {
    var rings: PcbRings
    var current: Pcb
    var removal: seq<Pid>
    var creation: seq<Pid>
    var nextPid: Pid
    /** Every PCB made so far, by pid. */
    ghost var known: map<Pid, Pcb>

    ghost predicate Coherent()
      reads this
    {
      && (forall p | p in known :: known[p].pid == p)
      && (forall i, b | 0 <= i < 4 && b in rings[i] :: In(known, b))
      && In(known, current)
    }

    ghost function Procs(): map<Pid, Proc>
      reads this, known.Values
    {
      map p | p in known :: Proc(known[p].status, known[p].ticks, known[p].priority)
    }

    /** The abstract state the objects stand for. */
    ghost function Abstract(): State
      reads this, known.Values
    {
      State([Pids(rings[0]), Pids(rings[1]), Pids(rings[2]), Pids(rings[3])],
            Procs(), current.pid, removal, creation, nextPid)
    }

    /** The tables once `main` has made shell and idle and enabled multitasking. */
    constructor ()
      ensures Coherent() && Abstract() == BOOTED && fresh(known.Values)
    {
      var shell := new Pcb(SHELL_PID);
      shell.status := Running;
      var idle := new Pcb(SHELL_PID + 1);
      idle.priority := IDLE;
      rings := [[idle], [], [], [shell]];
      current := shell;
      removal, creation, nextPid := [], [], SHELL_PID + 2;
      known := map[SHELL_PID := shell, SHELL_PID + 1 := idle];
      new;
      assert Pids([idle]) == [3] && Pids([shell]) == [2] && Pids([]) == [];
      assert Procs().Keys == known.Keys == {2, 3} == BOOTED.procs.Keys;
      assert Procs()[2] == Proc(Running, 0, HIGH) && Procs()[3] == Proc(Ready, 0, IDLE);
      assert Procs() == BOOTED.procs;
    }

    lemma RingPids(i: nat)
      requires Coherent() && i < 4
      ensures Abstract().rings[i] == Pids(rings[i]) && |Pids(rings[i])| == |rings[i]|
    {
    }

    // ---- Field writes ----------------------------------------------------

    method SetStatus(b: Pcb, st: Status)
      requires Coherent() && In(known, b)
      modifies b`status
      ensures Coherent() && Abstract() == old(Abstract()).SetStatus(b.pid, st)
    {
      b.status := st;
    }

    method SetTicks(b: Pcb, n: nat)
      requires Coherent() && In(known, b)
      modifies b`ticks
      ensures Coherent() && Abstract() == old(Abstract()).SetTicks(b.pid, n)
    {
      b.ticks := n;
    }

    // ---- Lookup ----------------------------------------------------------

    /** `get_pcb_entry` */
    method GetPcbEntry(pid: Pid) returns (b: Pcb?)
      requires Coherent()
      ensures b == null <==> !Abstract().Listed(pid)
      ensures b != null ==> pid in known && b == known[pid]
    {
      for i := 0 to 4
        invariant forall j, c | 0 <= j < i && c in rings[j] :: c.pid != pid
      {
        var k := 0;
        while k < |rings[i]|
          invariant 0 <= k <= |rings[i]|
          invariant forall c | c in rings[i][..k] :: c.pid != pid
        {
          b := rings[i][k];
          if b.pid == pid {
            assert Abstract().rings[i][k] == pid;
            Member(i, k);
            return;
          }
          assert rings[i][..k + 1] == rings[i][..k] + [b];
          k := k + 1;
        }
        assert rings[i][..k] == rings[i];
      }
      b := null;
      forall j | 0 <= j < 4 ensures pid !in Abstract().rings[j] {
        assert forall k | 0 <= k < |rings[j]| :: rings[j][k] in rings[j];
      }
    }

    /** `remove_from_queue_by_pid` on ring `i`, with the priority it answers. */
    method RemoveFromQueueByPid(i: nat, pid: Pid) returns (priority: nat)
      requires Coherent() && i < 4
      modifies this`rings
      ensures Coherent()
      ensures Abstract() == var s := old(Abstract()); s.(rings := s.rings[i := Remove(s.rings[i], pid)])
      ensures priority == if pid in old(Pids(rings[i])) && pid in known then known[pid].priority else 0
    {
      var q := rings[i];
      ghost var ps := Pids(q);
      var k := 0;
      while k < |q| && q[k].pid != pid
        invariant 0 <= k <= |q| && pid !in ps[..k]
      {
        assert ps[..k + 1] == ps[..k] + [q[k].pid];
        k := k + 1;
      }
      if k < |q| {
        assert ps[k] == pid;
        Member(i, k);
        RemoveAt(ps, k);
        priority := q[k].priority;
        PidsWithout(q, k);
        rings := rings[i := q[..k] + q[k + 1..]];
      } else {
        assert ps[..k] == ps;
        RemoveAbsent(ps, pid);
        priority := 0;
      }
    }

    // ---- Moves between rings ---------------------------------------------

    lemma Entry(pid: Pid)
      requires Coherent() && pid in known
      ensures pid in Abstract().procs
      ensures Abstract().procs[pid] == Proc(known[pid].status, known[pid].ticks, known[pid].priority)
    {
    }

    /** The new node at the end of a ring, under its new priority. */
    method InsertNode(b: Pcb, priority: nat)
      requires Coherent() && priority < 4 && In(known, b)
      modifies this`rings, b`priority
      ensures Coherent() && rings[priority] == old(rings[priority]) + [b]
      ensures Abstract() == var s := old(Abstract());
                            s.(rings := s.rings[priority := s.rings[priority] + [b.pid]],
                               procs := s.procs[b.pid := s.procs[b.pid].(priority := priority)])
    {
      ghost var s := Abstract();
      b.priority := priority;
      rings := rings[priority := rings[priority] + [b]];
      assert Pids(rings[priority]) == s.rings[priority] + [b.pid];
      assert Abstract().rings == s.rings[priority := s.rings[priority] + [b.pid]];
      assert Abstract().procs == s.procs[b.pid := s.procs[b.pid].(priority := priority)];
    }

    /** `change_process_priority` */
    method ChangeProcessPriority(pid: Pid, priority: nat)
      requires Coherent() && Shaped(Abstract()) && priority < 4
      modifies this`rings, known.Values
      ensures Coherent() && Abstract() == ChangePriority(old(Abstract()), pid, priority)
    {
      hide *;
      ghost var s := Abstract();
      var b := GetPcbEntry(pid);
      ChangePriorityParts(s, pid, priority);
      if b == null {
        return;
      }
      ListedByPriority(s, pid);
      Entry(pid);
      KnownPid(pid);
      var _ := RemoveFromQueueByPid(b.priority, pid);
      InsertNode(b, priority);
    }

    lemma KnownPid(pid: Pid)
      requires Coherent() && pid in known
      ensures known[pid].pid == pid && In(known, known[pid])
    {
    }

    /** `add_new_process`: a PCB for a process that `create_process` made READY. */
    method AddNewProcess(pid: Pid)
      requires Coherent() && pid !in known
      modifies this`rings, this`known
      ensures Coherent() && Abstract() == Add(old(Abstract()), pid)
      ensures fresh(known.Values - old(known.Values)) && old(known.Values) <= known.Values
      ensures known.Keys == old(known.Keys) + {pid}
    {
      ghost var s := Abstract();
      var b := new Pcb(pid);
      rings := rings[HIGH := rings[HIGH] + [b]];
      known := known[pid := b];
      assert Pids(rings[HIGH]) == s.rings[HIGH] + [pid];
      assert Abstract().rings == s.rings[HIGH := s.rings[HIGH] + [pid]];
      assert Abstract().procs == s.procs[pid := Proc(Ready, 0, HIGH)];
      assert forall c | c in known.Values :: c == b || c in old(known.Values);
      forall i, c | 0 <= i < 4 && c in rings[i] ensures In(known, c) {
        assert c == b || (c in old(rings)[i] && In(old(known), c));
      }
      forall c | c in old(known.Values) ensures c in known.Values {
        var p :| p in old(known) && old(known)[p] == c;
        assert known[p] == c;
      }
      assert In(old(known), current);
    }

    /** `remove_node` at the head of the removal queue. */
    method PopRemoval() returns (pid: Pid)
      requires Coherent() && removal != []
      modifies this`removal
      ensures Coherent() && pid == old(removal[0]) && removal == old(removal[1..])
      ensures Abstract() == old(Abstract()).(removal := old(removal[1..]))
    {
      pid := removal[0];
      removal := removal[1..];
    }

    /** `remove_node` at the head of the creation queue. */
    method PopCreation() returns (pid: Pid)
      requires Coherent() && creation != []
      modifies this`creation
      ensures Coherent() && pid == old(creation[0]) && creation == old(creation[1..])
      ensures Abstract() == old(Abstract()).(creation := old(creation[1..]))
    {
      pid := creation[0];
      creation := creation[1..];
    }

    lemma Fields()
      requires Coherent()
      ensures Abstract().removal == removal && Abstract().creation == creation && Abstract().current == current.pid
      ensures Abstract().procs.Keys == known.Keys && Abstract().nextPid == nextPid
      ensures current.pid in known && In(known, current) && known[current.pid] == current
    {
    }

    /** `kill_processes_in_removal_queue`; its `free_process` finds no PCB any more and frees nothing. */
    method KillProcessesInRemovalQueue()
      requires Coherent() && Burials(Abstract())
      modifies this`rings, this`removal
      ensures Coherent() && Abstract() == KillAll(old(Abstract()))
    {
      hide *;
      ghost var s := Abstract();
      Fields();
      while removal != []
        invariant Coherent() && known == old(known) && Abstract().removal == removal
        invariant Burials(Abstract()) && KillAll(Abstract()) == KillAll(s)
        decreases |removal|
      {
        ghost var t := Abstract();
        KillAllStep(t);
        var pid := PopRemoval();
        var b := GetPcbEntry(pid);
        Entry(pid);
        var _ := RemoveFromQueueByPid(b.priority, pid);
        Fields();
      }
      KillAllDone(Abstract());
    }

    /** `create_processes_in_creation_queue` */
    method CreateProcessesInCreationQueue()
      requires Coherent() && Births(Abstract())
      modifies this`rings, this`creation, this`known
      ensures Coherent() && Abstract() == CreateAll(old(Abstract()))
      ensures fresh(known.Values - old(known.Values)) && old(known.Values) <= known.Values
    {
      hide *;
      ghost var s := Abstract();
      Fields();
      while creation != []
        invariant Coherent() && Abstract().creation == creation && Abstract().procs.Keys == known.Keys
        invariant Births(Abstract()) && CreateAll(Abstract()) == CreateAll(s)
        invariant fresh(known.Values - old(known.Values)) && old(known.Values) <= known.Values
        decreases |creation|
      {
        CreateAllStep(Abstract());
        var pid := PopCreation();
        AddNewProcess(pid);
        Fields();
      }
      CreateAllDone(Abstract());
    }

    // ---- The context switch ----------------------------------------------

    /** `stop_current_process` */
    method StopCurrentProcess()
      requires Coherent() && Shaped(Abstract())
      modifies this`rings, known.Values
      ensures Coherent() && Abstract() == Stop(old(Abstract()))
    {
      Fields();
      Entry(current.pid);
      if current.ticks >= QUANTUM {
        if LOW < current.priority <= HIGH {
          ChangeProcessPriority(current.pid, current.priority - 1);
        }
      } else {
        SetStatus(current, Ready);
        SetTicks(current, 0);
      }
    }

    lemma Member(i: nat, k: nat)
      requires Coherent() && i < 4 && k < |rings[i]|
      ensures In(known, rings[i][k])
    {
      assert rings[i][k] in rings[i];
    }

    /** One time around ring `i`: stop at the first READY process, remember the last RUNNING one. */
    method ScanRing(i: nat, keep0: Pcb?) returns (k: nat, keep: Pcb?)
      requires Coherent() && i < 4 && (keep0 != null ==> In(known, keep0))
      ensures keep != null ==> In(known, keep)
      ensures k == FirstReady(Abstract(), Pids(rings[i]))
      ensures k == |rings[i]| ==> Kept(keep) == Keep(Abstract(), Pids(rings[i]), Kept(keep0))
    {
      var q := rings[i];
      ghost var s, ps := Abstract(), Pids(q);
      k, keep := 0, keep0;
      while k < |q|
        invariant 0 <= k <= |q| && (keep != null ==> In(known, keep))
        invariant forall j | 0 <= j < k :: !s.Is(ps[j], Ready)
        invariant Keep(s, ps[k..], Kept(keep)) == Keep(s, ps, Kept(keep0))
      {
        var b := q[k];
        Member(i, k);
        Entry(b.pid);
        assert ps[k] == b.pid && ps[k..][1..] == ps[k + 1..];
        if b.status == Running {
          keep := b;
        }
        if b.status == Ready {
          return;
        }
        k := k + 1;
      }
      assert ps[k..] == [];
    }

    /** `current_node = node->next` after the node at position `k - 1`. */
    method TurnRing(i: nat, k: nat)
      requires Coherent() && i < 4 && k <= |rings[i]|
      modifies this`rings
      ensures Coherent() && (forall j | 0 <= j < 4 && j != i :: rings[j] == old(rings[j]))
      ensures Abstract() == var s := old(Abstract()); s.(rings := s.rings[i := Rotate(Pids(old(rings[i])), k)])
    {
      ghost var s := Abstract();
      var q := rings[i];
      rings := rings[i := q[k..] + q[..k]];
      assert Pids(rings[i]) == Rotate(Pids(q), k);
      assert Abstract().rings == s.rings[i := Rotate(Pids(q), k)];
    }

    /** `find_next_process`: rings from the highest down, each once around from its current node. */
    method FindNextProcess() returns (next: Pcb)
      requires Coherent() && rings[IDLE] != []
      modifies this`rings, known.Values
      ensures Coherent() && In(known, next)
      ensures (Abstract(), next.pid) == FindNext(old(Abstract()), HIGH, None)
    {
      hide *;
      Levels();
      ghost var s := Abstract();
      var keep: Pcb? := null;
      var i := HIGH;
      KeptPid(keep);
      while i >= LOW
        invariant 0 <= i < 4 && Coherent() && Abstract() == s && rings == old(rings)
        invariant keep != null ==> In(known, keep)
        invariant FindNext(s, HIGH, None) == FindNext(s, i, Kept(keep))
      {
        var k;
        ghost var before := Kept(keep);
        k, keep := ScanRing(i, keep);
        RingPids(i);
        FindNextStep(s, i, before);
        if k < |rings[i]| {
          next := rings[i][k];
          Member(i, k);
          PidAt(rings[i], k);
          TurnRing(i, k + 1);
          SetStatus(next, Running);
          StatusAndRings(s, next.pid, i, Rotate(Pids(old(rings[i])), k + 1));
          return;
        }
        i := i - 1;
      }
      FindNextEnds(s, Kept(keep));
      if keep != null {
        next := keep;
      } else {
        next := rings[IDLE][0];
        Member(IDLE, 0);
        RingPids(IDLE);
        PidAt(rings[IDLE], 0);
      }
      KeptPid(keep);
    }

    /** `switch_context` */
    method SwitchContext()
      requires Coherent() && Inv(Abstract())
      modifies this`rings, this`removal, this`creation, this`known, this`current, known.Values
      ensures Coherent() && Abstract() == Switch(old(Abstract()))
      ensures fresh(known.Values - old(known.Values)) && old(known.Values) <= known.Values
    {
      hide *;
      ghost var s := Abstract();
      Levels();
      SwitchPhases(s);
      KillProcessesInRemovalQueue();
      CreateProcessesInCreationQueue();
      StopCurrentProcess();
      ghost var m := Abstract();
      RingPids(IDLE);
      var next := FindNextProcess();
      SwitchIs(s);
      Fields();
      Entry(current.pid);
      ghost var t := Abstract();
      InstallParts(t, next.pid);
      if current.status == Running {
        SetStatus(current, Ready);
        SetTicks(current, 0);
      }
      SetCurrent(next);
      SetStatus(current, Running);
    }

    method SetCurrent(b: Pcb)
      requires Coherent() && In(known, b)
      modifies this`current
      ensures Coherent() && current == b && b in known.Values && Abstract() == old(Abstract()).(current := b.pid)
    {
      current := b;
    }

    // ---- Interrupts and system calls -------------------------------------

    /** `finish_current_tick` and the timer interrupt it forces, where `ticks_remaining` answers 0. */
    method FinishCurrentTick()
      requires Coherent() && Inv(Abstract())
      modifies this`rings, this`removal, this`creation, this`known, this`current, known.Values
      ensures Coherent() && Abstract() == Yield(old(Abstract()))
      ensures fresh(known.Values - old(known.Values)) && old(known.Values) <= known.Values
    {
      hide Coherent, Abstract, Inv, Switch;
      Fields();
      TicksKeepInv(Abstract(), current.pid, QUANTUM);
      SetTicks(current, QUANTUM);
      SwitchContext();
    }

    /** `ticks_remaining` */
    method TicksRemaining() returns (left: bool)
      requires Coherent()
      modifies current`ticks
      ensures Coherent()
      ensures var s := old(Abstract());
              && left == (s.Of(s.current).ticks < QUANTUM)
              && Abstract() == if left then s.SetTicks(s.current, s.Of(s.current).ticks + 1) else s
    {
      Fields();
      Entry(current.pid);
      if current.ticks >= QUANTUM {
        left := false;
      } else {
        SetTicks(current, current.ticks + 1);
        left := true;
      }
    }

    /** The timer interrupt handler. */
    method TimerInterrupt()
      requires Coherent() && Inv(Abstract())
      modifies this`rings, this`removal, this`creation, this`known, this`current, known.Values
      ensures Coherent() && Abstract() == Tick(old(Abstract()))
      ensures fresh(known.Values - old(known.Values)) && old(known.Values) <= known.Values
    {
      hide Coherent, Abstract, Inv, Switch;
      Fields();
      var left := TicksRemaining();
      if !left {
        SwitchContext();
      }
    }

    /** `get_available_pid` */
    method GetAvailablePid() returns (pid: Pid)
      requires Coherent()
      modifies this`nextPid
      ensures Coherent() && pid == old(nextPid)
      ensures Abstract() == old(Abstract()).(nextPid := pid + 1)
    {
      pid := nextPid;
      nextPid := nextPid + 1;
    }

    /** The pid and the `add_new_process` of `create_and_insert_process`. */
    method CreateAndInsertProcess() returns (pid: Pid)
      requires Coherent() && Inv(Abstract())
      modifies this`rings, this`known, this`nextPid
      ensures Coherent() && pid == old(nextPid) && Abstract() == Create(old(Abstract()))
      ensures fresh(known.Values - old(known.Values)) && old(known.Values) <= known.Values
    {
      hide Coherent, Abstract, Inv;
      Fields();
      FreshPid(Abstract());
      pid := GetAvailablePid();
      AddNewProcess(pid);
    }

    /** `add_process_to_creation_queue`, with the length of the queue. */
    method AddProcessToCreationQueue() returns (qty: nat)
      requires Coherent()
      modifies this`creation, this`nextPid
      ensures Coherent() && Abstract() == QueueCreation(old(Abstract())) && qty == |old(creation)| + 1
    {
      var pid := GetAvailablePid();
      creation := creation + [pid];
      qty := |creation|;
    }

    /** `os_revive_process` */
    method OsReviveProcess(pid: Pid)
      requires Coherent()
      modifies known.Values
      ensures Coherent() && Abstract() == Revive(old(Abstract()), pid)
    {
      var b := GetPcbEntry(pid);
      if b != null {
        Entry(pid);
        KnownPid(pid);
        if b.status == Blocked || b.status == Running {
          SetStatus(b, Ready);
        }
      }
    }

    /** `os_block_current_process` */
    method OsBlockCurrentProcess() returns (pid: Pid)
      requires Coherent()
      modifies current`status
      ensures Coherent() && pid == current.pid && Abstract() == old(Abstract()).SetStatus(current.pid, Blocked)
    {
      SetStatus(current, Blocked);
      pid := current.pid;
    }

    /** `block_process` */
    method BlockProcess(pid: Pid) returns (r: int)
      requires Coherent() && Inv(Abstract()) && pid != Abstract().IdlePid()
      modifies this`rings, this`removal, this`creation, this`known, this`current, known.Values
      ensures Coherent() && (Abstract(), r) == Block(old(Abstract()), pid)
      ensures fresh(known.Values - old(known.Values)) && old(known.Values) <= known.Values
    {
      hide Coherent, Abstract, Inv, Yield;
      ghost var s := Abstract();
      var b := GetPcbEntry(pid);
      if b == null {
        return -1;
      }
      Entry(pid);
      KnownPid(pid);
      Fields();
      if b.status == Ready || b.status == Running {
        StatusKeepsInv(s, pid, Blocked);
        SetStatus(b, Blocked);
        if b == current {
          FinishCurrentTick();
        }
        return 1;
      } else if b.status == Blocked {
        SetStatus(b, Ready);
        return 2;
      }
      return -1;
    }

    /** `add_process_to_removal_queue`, with the length of the queue. */
    method AddProcessToRemovalQueue(pid: Pid) returns (qty: nat)
      requires Coherent()
      modifies this`removal
      ensures Coherent() && qty == |old(removal)| + 1
      ensures Abstract() == var s := old(Abstract()); s.(removal := s.removal + [pid])
    {
      removal := removal + [pid];
      qty := |removal|;
    }

    /** `force_kill`; the foreground pid, the children and the process's own semaphore are not kept here. */
    method ForceKill(pid: Pid) returns (r: int)
      requires Coherent() && Inv(Abstract()) && pid != Abstract().IdlePid() && !Abstract().Is(pid, Dead)
      modifies this`rings, this`removal, this`creation, this`known, this`current, known.Values
      ensures Coherent() && (Abstract(), r) == Kill(old(Abstract()), pid)
      ensures fresh(known.Values - old(known.Values)) && old(known.Values) <= known.Values
    {
      hide Coherent, Abstract, Inv, Yield;
      ghost var s := Abstract();
      var b := GetPcbEntry(pid);
      if b == null || pid == SHELL_PID {
        return -1;
      }
      KnownPid(pid);
      Fields();
      KillMarks(s, pid);
      SetStatus(b, Dead);
      var _ := AddProcessToRemovalQueue(pid);
      if pid == current.pid {
        FinishCurrentTick();
      }
      return 1;
    }
  }

  function Kept(b: Pcb?): Option<Pid> {
    if b == null then None else Some(b.pid)
  }

  lemma KeptPid(b: Pcb?)
    ensures Kept(b) == if b == null then None else Some(b.pid)
  {
  }

  lemma PidsWithout(q: seq<Pcb>, k: nat)
    requires k < |q|
    ensures Pids(q[..k] + q[k + 1..]) == Pids(q)[..k] + Pids(q)[k + 1..]
  {
  }

  lemma PidAt(q: seq<Pcb>, k: nat)
    requires k < |q|
    ensures |Pids(q)| == |q| && Pids(q)[k] == q[k].pid
  {
  }

  lemma FreshPid(s: State)
    requires Inv(s)
    ensures s.nextPid !in s.procs
  {
  }

  lemma StatusAndRings(s: State, p: Pid, i: nat, q: seq<Pid>)
    requires i < 4
    ensures s.(rings := s.rings[i := q]).SetStatus(p, Running) == s.SetStatus(p, Running).(rings := s.rings[i := q])
  {
  }

  lemma FindNextStep(s: State, i: nat, keep: Option<Pid>)
    requires LOW <= i < 4
    ensures var q := s.rings[i];
            var k := FirstReady(s, q);
            FindNext(s, i, keep)
            == if k < |q| then (s.SetStatus(q[k], Running).(rings := s.rings[i := Rotate(q, k + 1)]), q[k])
               else FindNext(s, i - 1, Keep(s, q, keep))
  {
  }

  lemma FindNextEnds(s: State, keep: Option<Pid>)
    ensures FindNext(s, IDLE, keep) == (s, if keep.Some? then keep.value else s.IdlePid())
    ensures s.rings[IDLE] != [] ==> s.IdlePid() == s.rings[IDLE][0]
  {
  }

  lemma InstallParts(t: State, next: Pid)
    ensures Install(t, next)
            == (if t.Is(t.current, Running) then t.SetStatus(t.current, Ready).SetTicks(t.current, 0) else t)
               .(current := next).SetStatus(next, Running)
    ensures t.Is(t.current, Running) <==> t.current in t.procs && t.procs[t.current].status == Running
  {
  }

  /** Each phase of a switch finds what it needs. */
  lemma SwitchPhases(s: State)
    requires Inv(s)
    ensures Burials(s) && Births(KillAll(s)) && Shaped(CreateAll(KillAll(s)))
    ensures Prepared(s) == Stop(CreateAll(KillAll(s))) && Prepared(s).rings[IDLE] != []
  {
    KillAllRemoves(s);
    CreateAllAdds(KillAll(s));
    var b := CreateAll(KillAll(s));
    var c := b.procs[b.current];
    if c.ticks >= QUANTUM {
      StopDemotes(b);
    }
  }

  /** The removal queue names distinct listed processes, and not idle. */
  ghost predicate Burials(s: State) {
    Shaped(s) && Distinct(s.removal) && forall p | p in s.removal :: s.Listed(p) && p != s.IdlePid()
  }

  lemma KillAllStep(s: State)
    requires Burials(s) && s.removal != []
    ensures var p := s.removal[0];
            var t := s.(removal := s.removal[1..]);
            && t.Listed(p) && p in s.procs && s.procs[p].priority < 4
            && var i := s.procs[p].priority;
               var u := t.(rings := t.rings[i := Remove(t.rings[i], p)]);
               Burials(u) && KillAll(u) == KillAll(s)
  {
    var p := s.removal[0];
    ListedByPriority(s, p);
    UnlistKeeps(s, p);
    var u := Unlist(s, p).(removal := s.removal[1..]);
    assert forall q :: u.Listed(q) <==> Unlist(s, p).Listed(q);
    assert s.(removal := s.removal[1..]).Listed(p);
  }

  lemma KillAllDone(s: State)
    requires s.removal == []
    ensures KillAll(s) == s
  {
  }

  /** The creation queue names distinct new processes. */
  ghost predicate Births(s: State) {
    Distinct(s.creation) && forall p | p in s.creation :: p !in s.procs
  }

  lemma CreateAllStep(s: State)
    requires Births(s) && s.creation != []
    ensures var p := s.creation[0];
            var u := Add(s.(creation := s.creation[1..]), p);
            p !in s.procs && Births(u) && CreateAll(u) == CreateAll(s)
  {
  }

  lemma CreateAllDone(s: State)
    requires s.creation == []
    ensures CreateAll(s) == s
  {
  }

  lemma ChangePriorityParts(s: State, p: Pid, priority: nat)
    requires Shaped(s) && priority < 4
    ensures !s.Listed(p) ==> ChangePriority(s, p, priority) == s
    ensures s.Listed(p) ==>
              && p in s.procs && s.procs[p].priority < 4
              && var i := s.procs[p].priority;
                 var t := s.(rings := s.rings[i := Remove(s.rings[i], p)]);
                 ChangePriority(s, p, priority)
                 == t.(rings := t.rings[priority := t.rings[priority] + [p]],
                       procs := t.procs[p := t.procs[p].(priority := priority)])
  {
    ListedByPriority(s, p);
  }
}
