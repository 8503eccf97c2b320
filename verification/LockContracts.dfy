/** What one exchange and one post do, in full, to the lock, its queue and the scheduler. */
module LockContracts {
  import opened Scheduler
  import opened SchedulerRuns
  import opened SchedulerContracts
  import opened LockSystem

  /** One process comes to stand there; the others stay where they were. */
  ghost predicate OnlyPhase(y: Sys, z: Sys, p: Pid, ph: Phase) {
    z.PhaseOf(p) == ph && forall q | q != p :: z.PhaseOf(q) == y.PhaseOf(q)
  }

  /**
    The exchange always leaves the word taken. Who finds it free holds the lock and goes on; who does not
    is the last in the queue, is BLOCKED, yields, and will exchange again.
   */
  lemma EnterContract(y: Sys)
    requires Inv(y.sched)
    ensures var z, c := Next(y, Enter), y.sched.current;
            && z.word == 1
            && OnlyPhase(y, z, c, if y.word == 0 then Holding else Retrying)
            && (y.word == 0 ==> z.queue == y.queue && z.sched == y.sched)
            && (y.word != 0 ==>
                  && z.queue != [] && z.queue[|z.queue| - 1] == c && z.queue[..|z.queue| - 1] == y.queue
                  && exists u :: OnlyStatus(y.sched, u, c, Blocked) && z.sched == Yield(u))
  {
    hide Yield;
    assert OnlyStatus(y.sched, y.sched.SetStatus(y.sched.current, Blocked), y.sched.current, Blocked);
  }

  /**
    A post frees the word and cuts the first half off the queue, the larger one if it is odd. Those cut off
    become READY if they were listed and BLOCKED or RUNNING; the scheduler sees nothing else of it.
   */
  lemma LeaveContract(y: Sys)
    requires Inv(y.sched)
    ensures var z, s, n := Next(y, Leave), y.sched, |y.queue|;
            && z.word == 0
            && OnlyPhase(y, z, s.current, Outside)
            && |z.queue| == n / 2 && z.queue == y.queue[n - n / 2..]
            && z.sched == s.(procs := z.sched.procs) && z.sched.procs.Keys == s.procs.Keys
            && forall p | p in s.procs ::
                 var wakes := p in y.queue[..n - n / 2] && s.Listed(p) && (s.Is(p, Blocked) || s.Is(p, Running));
                 z.sched.procs[p] == if wakes then s.procs[p].(status := Ready) else s.procs[p]
  {
    hide ReviveAll;
    ReviveAllContract(y.sched, y.queue[..WakeCount(|y.queue|)]);
  }

  lemma {:induction false} ReviveAllContract(s: State, ps: seq<Pid>)
    requires Inv(s)
    ensures var t := ReviveAll(s, ps);
            && t == s.(procs := t.procs) && t.procs.Keys == s.procs.Keys
            && forall p | p in s.procs ::
                 var wakes := p in ps && s.Listed(p) && (s.Is(p, Blocked) || s.Is(p, Running));
                 t.procs[p] == if wakes then s.procs[p].(status := Ready) else s.procs[p]
    decreases |ps|
  {
    hide Inv, Revive;
    if ps != [] {
      ReviveContract(s, ps[0]);
      ReviveKeepsInv(s, ps[0]);
      ReviveAllContract(Revive(s, ps[0]), ps[1..]);
      assert forall p :: p in ps <==> p == ps[0] || p in ps[1..];
    }
  }
}
