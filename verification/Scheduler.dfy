/**
  The multilevel scheduler of Kernel/basicScheduler.c as a state machine.

  Each of the four rings is the list of its processes read from `current_node`.
  A PCB and its process are one record here, found by pid. `SchedulerObjects`
  proves that the pointer program takes exactly these steps.

  Hypotheses: node and PCB allocation succeeds, no process is ZOMBIE (nothing
  reachable from the system calls makes one), ticks and pids stay in the range of `int`.
 */
module Scheduler {
  import opened Wrappers
  import opened Rings

  type Pid = nat

  const IDLE: nat := 0
  const LOW: nat := 1
  const HIGH: nat := 3
  /** `priority_t` */
  type Level = n: nat | n < 4

  const SHELL_PID: Pid := 2
  /** `init_scheduler` gives every ring a quantum of one tick. */
  const QUANTUM: nat := 1

  datatype Status = Blocked | Ready | Running | Dead

  datatype Proc = Proc(status: Status, ticks: nat, priority: nat)

  /** One ring per priority. */
  type Rings4 = r: seq<seq<Pid>> | |r| == 4 witness [[], [], [], []]

  datatype State = State(
    rings: Rings4,
    procs: map<Pid, Proc>,
    current: Pid,
    removal: seq<Pid>,
    creation: seq<Pid>,
    nextPid: Pid)
  {
    predicate Is(p: Pid, st: Status) {
      p in procs && procs[p].status == st
    }

    /** `get_pcb_entry` finds the process. */
    predicate Listed(p: Pid) {
      exists i | 0 <= i < 4 :: p in rings[i]
    }

    function SetStatus(p: Pid, st: Status): State {
      if p in procs then this.(procs := procs[p := procs[p].(status := st)]) else this
    }

    function SetTicks(p: Pid, n: nat): State {
      if p in procs then this.(procs := procs[p := procs[p].(ticks := n)]) else this
    }

    /** The record of a process; a PCB that does not exist is never read where it matters. */
    function Of(p: Pid): Proc {
      if p in procs then procs[p] else Proc(Dead, 0, IDLE)
    }

    /** `get_idle_pcb`: the head of ring 0, which the kernel never lets become empty. */
    function IdlePid(): Pid {
      if rings[IDLE] == [] then current else rings[IDLE][0]
    }
  }

  /** Four rings that list distinct known processes under their own priority, idle ones included. */
  ghost predicate Shaped(s: State) {
    && s.rings[IDLE] != []
    && s.current in s.procs
    && (forall i | 0 <= i < 4 :: Distinct(s.rings[i]))
    && (forall i, p | 0 <= i < 4 && p in s.rings[i] :: p in s.procs && s.procs[p].priority == i)
  }

  // ---- The steps ---------------------------------------------------------

  /** `change_process_priority`: out of one ring, to the end of another. */
  function ChangePriority(s: State, p: Pid, priority: nat): State
    requires priority < 4
  {
    if s.Listed(p) && p in s.procs && s.procs[p].priority < 4 then
      var from := s.procs[p].priority;
      var out := s.rings[from := Remove(s.rings[from], p)];
      s.(rings := out[priority := out[priority] + [p]], procs := s.procs[p := s.procs[p].(priority := priority)])
    else s
  }

  /** One turn of `kill_processes_in_removal_queue`. */
  function Unlist(s: State, p: Pid): State
  {
    if p in s.procs && s.procs[p].priority < 4 then
      var i := s.procs[p].priority;
      s.(rings := s.rings[i := Remove(s.rings[i], p)])
    else s
  }

  function KillAll(s: State): State
    decreases |s.removal|
  {
    if s.removal == [] then s
    else KillAll(Unlist(s, s.removal[0]).(removal := s.removal[1..]))
  }

  /** `add_new_process`: a fresh PCB at the end of the highest ring. */
  function Add(s: State, p: Pid): State
  {
    s.(rings := s.rings[HIGH := s.rings[HIGH] + [p]], procs := s.procs[p := Proc(Ready, 0, HIGH)])
  }

  function CreateAll(s: State): State
    decreases |s.creation|
  {
    if s.creation == [] then s
    else CreateAll(Add(s, s.creation[0]).(creation := s.creation[1..]))
  }

  /** `stop_current_process`: a process that used its quantum goes down one level. */
  function Stop(s: State): State
  {
    if s.current !in s.procs then s
    else
      var c := s.procs[s.current];
      if c.ticks >= QUANTUM then
        if LOW < c.priority <= HIGH then ChangePriority(s, s.current, c.priority - 1) else s
      else s.SetStatus(s.current, Ready).SetTicks(s.current, 0)
  }

  /** The position of the first READY process, or the length. */
  function FirstReady(s: State, q: seq<Pid>): (k: nat)
    ensures k <= |q|
    ensures forall j | 0 <= j < k :: !s.Is(q[j], Ready)
    ensures k < |q| ==> s.Is(q[k], Ready)
  {
    if q == [] then 0
    else if s.Is(q[0], Ready) then 0
    else 1 + FirstReady(s, q[1..])
  }

  /** `keep_running` after a pass over a ring: the last RUNNING process seen. */
  function Keep(s: State, q: seq<Pid>, keep: Option<Pid>): Option<Pid> {
    if q == [] then keep
    else Keep(s, q[1..], if s.Is(q[0], Running) then Some(q[0]) else keep)
  }

  /** `find_next_process` from ring `i` downwards. */
  function FindNext(s: State, i: nat, keep: Option<Pid>): (State, Pid)
    requires i < 4
  {
    if i < LOW then (s, if keep.Some? then keep.value else s.IdlePid())
    else
      var q := s.rings[i];
      var k := FirstReady(s, q);
      if k < |q| then
        (s.SetStatus(q[k], Running).(rings := s.rings[i := Rotate(q, k + 1)]), q[k])
      else FindNext(s, i - 1, Keep(s, q, keep))
  }

  /** The end of `switch_context`, once the next process is known. */
  function Install(s: State, next: Pid): State {
    var t := if s.Is(s.current, Running) then s.SetStatus(s.current, Ready).SetTicks(s.current, 0) else s;
    t.(current := next).SetStatus(next, Running)
  }

  /** What `switch_context` has done when it looks for the next process. */
  function Prepared(s: State): State
  {
    Stop(CreateAll(KillAll(s)))
  }

  /** `switch_context` */
  function Switch(s: State): State
  {
    var (t, next) := FindNext(Prepared(s), HIGH, None);
    Install(t, next)
  }
}
