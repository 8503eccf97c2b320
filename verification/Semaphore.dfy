/**
  One lock of Kernel/semaphore.c with the code around it: the wait queue is a doubly linked
  list with head and tail, and the entry points call the scheduler's `Table`. Every method
  takes the step of `LockSystem`. Locks are addressed directly, so the index checks and
  names of the C functions have nothing to do here.
 */
module Semaphore {
  import opened Rings
  import opened Scheduler
  import opened SchedulerRuns
  import opened SchedulerObjects
  import opened LockSystem
  import opened LockWakeUps

  /** A `node_t` of the wait queue. */
  class QueueNode {
    const pid: Pid
    var next: QueueNode?
    var prev: QueueNode?

    constructor (pid: Pid, prev: QueueNode?)
      ensures this.pid == pid && this.next == null && this.prev == prev
    {
      this.pid := pid;
      this.next := null;
      this.prev := prev;
    }
  }

  function Waiters(nodes: seq<QueueNode>): (q: seq<Pid>)
    ensures |q| == |nodes|
  {
    seq(|nodes|, i requires 0 <= i < |nodes| => nodes[i].pid)
  }

  class Lock {
    var isLocked: nat
    var head: QueueNode?
    var tail: QueueNode?
    var queueSize: nat
    /** The nodes from head to tail. */
    ghost var nodes: seq<QueueNode>

    ghost predicate Valid()
      reads this, nodes
    {
      && Distinct(nodes)
      && queueSize == |nodes|
      && head == (if nodes == [] then null else nodes[0])
      && tail == (if nodes == [] then null else nodes[|nodes| - 1])
      && (forall i {:trigger nodes[i].next} | 0 <= i < |nodes| ::
            nodes[i].next == if i + 1 < |nodes| then nodes[i + 1] else null)
      && (forall i {:trigger nodes[i].prev} | 0 <= i < |nodes| ::
            nodes[i].prev == if i > 0 then nodes[i - 1] else null)
    }

    /** The lock part of `my_sem_open`. */
    constructor (startValue: nat)
      ensures Valid() && nodes == [] && isLocked == if startValue > 0 then 1 else 0
    {
      isLocked := if startValue > 0 then 1 else 0;
      queueSize := 0;
      head, tail, nodes := null, null, [];
    }

    /** `add_to_queue` */
    method AddToQueue(pid: Pid)
      requires Valid()
      modifies this`head, this`tail, this`queueSize, this`nodes, nodes`next
      ensures Valid() && |nodes| == |old(nodes)| + 1 && nodes[..|old(nodes)|] == old(nodes)
      ensures fresh(nodes[|old(nodes)|]) && nodes[|old(nodes)|].pid == pid
      ensures Waiters(nodes) == Waiters(old(nodes)) + [pid]
    {
      var node := new QueueNode(pid, tail);
      if tail != null {
        tail.next := node;
      } else {
        head := node;
      }
      tail := node;
      queueSize := queueSize + 1;
      DistinctAppend(nodes, node);
      nodes := nodes + [node];
    }

    /** `remove_from_queue`: the pid at the head, or -1. */
    method RemoveFromQueue() returns (pid: int)
      requires Valid()
      modifies this`head, this`tail, this`queueSize, this`nodes, nodes`prev
      ensures Valid()
      ensures old(nodes) == [] ==> pid == -1 && nodes == []
      ensures old(nodes) != [] ==> pid == old(nodes[0].pid) && nodes == old(nodes)[1..]
    {
      if head == null {
        return -1;
      }
      var node := head;
      pid := node.pid;
      head := node.next;
      if head != null {
        head.prev := null;
      } else {
        tail := null;
      }
      queueSize := queueSize - 1;
      if queueSize == 0 {
        head := null;
        tail := null;
      }
      nodes := nodes[1..];
    }

    /** This lock, the scheduler and the phases of the processes as one state of `LockSystem`. */
    ghost function View(table: Table, phases: map<Pid, Phase>): Sys
      reads this, nodes, table, table.known.Values
    {
      Sys(table.Abstract(), isLocked, Waiters(nodes), phases)
    }

    /** `wake_up_processes`: the loop bound is the shrinking queue size. */
    method WakeUpProcesses(table: Table)
      requires Valid() && table.Coherent()
      modifies this`head, this`tail, this`queueSize, this`nodes, nodes`prev, table.known.Values
      ensures Valid() && table.Coherent()
      ensures var k := WakeCount(|old(nodes)|);
              && Waiters(nodes) == Waiters(old(nodes))[k..] && nodes == old(nodes)[k..]
              && table.Abstract() == ReviveAll(old(table.Abstract()), Waiters(old(nodes))[..k])
    {
      hide ReviveAll, Revive, Waiters, Distinct;
      ghost var was, s := nodes, table.Abstract();
      var i := 0;
      NoneRevived(s, was);
      while i < queueSize
        invariant Valid() && table.Coherent() && table.known == old(table.known)
        invariant 0 <= i <= WakeCount(|was|) && nodes == was[i..]
        invariant table.Abstract() == ReviveAll(s, Waiters(was)[..i])
        decreases queueSize - i
      {
        OneMoreRevived(s, was, i);
        WakeOne(table);
        i := i + 1;
      }
      WaitersFrom(was, i);
    }

    /** One turn of the loop: the waiter at the head leaves and is revived. */
    method WakeOne(table: Table)
      requires Valid() && table.Coherent() && nodes != []
      modifies this`head, this`tail, this`queueSize, this`nodes, nodes`prev, table.known.Values
      ensures Valid() && table.Coherent() && table.known == old(table.known)
      ensures nodes == old(nodes)[1..] && table.Abstract() == Revive(old(table.Abstract()), old(nodes)[0].pid)
    {
      hide Revive, Distinct;
      var pid := RemoveFromQueue();
      table.OsReviveProcess(pid);
    }

    /** `whiff`: join the queue, block and yield. */
    method Whiff(table: Table)
      requires Valid() && table.Coherent() && Inv(table.Abstract())
      requires var s := table.Abstract(); s.current != s.IdlePid() && !s.Is(s.current, Dead)
      modifies this`head, this`tail, this`queueSize, this`nodes, nodes`next
      modifies table, table.known.Values
      ensures Valid() && table.Coherent()
      ensures var s := old(table.Abstract());
              && Waiters(nodes) == Waiters(old(nodes)) + [s.current]
              && table.Abstract() == Yield(s.SetStatus(s.current, Blocked))
    {
      hide *;
      ghost var s := table.Abstract();
      table.Fields();
      ListedAreKnown(s);
      StatusKeepsInv(s, s.current, Blocked);
      AddToQueue(table.current.pid);
      var pid := table.OsBlockCurrentProcess();
      table.FinishCurrentTick();
    }

    /**
      One turn of the loop in `enter_region`: exchange 1 into the word and either own the lock
      or sleep in `whiff`. After the sleep the loop takes another turn.
     */
    method EnterRegionTurn(table: Table, ghost phases: map<Pid, Phase>) returns (acquired: bool)
      requires Valid() && table.Coherent() && Inv(table.Abstract())
      requires var s := table.Abstract(); isLocked != 0 ==> s.current != s.IdlePid() && !s.Is(s.current, Dead)
      modifies this, nodes`next, table, table.known.Values
      ensures Valid() && table.Coherent()
      ensures acquired == (old(isLocked) == 0)
      ensures var z := EnterStep(old(View(table, phases))); View(table, z.phases) == z
    {
      hide Inv, Yield;
      var word := isLocked;
      isLocked := 1;
      if word == 0 {
        return true;
      }
      Whiff(table);
      acquired := false;
    }

    /** `leave_region`: free the word, then wake. */
    method LeaveRegion(table: Table, ghost phases: map<Pid, Phase>)
      requires Valid() && table.Coherent()
      modifies this, nodes`prev, table.known.Values
      ensures Valid() && table.Coherent()
      ensures var z := LeaveStep(old(View(table, phases))); View(table, z.phases) == z
    {
      isLocked := 0;
      WakeUpProcesses(table);
    }
  }

  lemma NoneRevived(s: State, nodes: seq<QueueNode>)
    ensures ReviveAll(s, Waiters(nodes)[..0]) == s && nodes[0..] == nodes
  {
  }

  lemma OneMoreRevived(s: State, nodes: seq<QueueNode>, i: nat)
    requires i < |nodes|
    ensures ReviveAll(s, Waiters(nodes)[..i + 1]) == Revive(ReviveAll(s, Waiters(nodes)[..i]), nodes[i].pid)
    ensures nodes[i..][0] == nodes[i] && nodes[i..][1..] == nodes[i + 1..]
  {
    hide ReviveAll, Revive;
    var was := Waiters(nodes);
    ReviveAllSnoc(s, was[..i], was[i]);
    assert was[..i + 1] == was[..i] + [was[i]];
  }

  lemma WaitersFrom(nodes: seq<QueueNode>, k: nat)
    requires k <= |nodes|
    ensures Waiters(nodes[k..]) == Waiters(nodes)[k..]
  {
  }

  lemma {:induction false} ReviveAllSnoc(s: State, q: seq<Pid>, p: Pid)
    ensures ReviveAll(s, []) == s
    ensures ReviveAll(s, q + [p]) == Revive(ReviveAll(s, q), p)
    decreases |q|
  {
    hide Revive;
    if q == [] {
      assert ReviveAll(s, [p]) == ReviveAll(Revive(s, p), [p][1..]);
    } else {
      assert (q + [p])[1..] == q[1..] + [p];
      ReviveAllSnoc(Revive(s, q[0]), q[1..], p);
    }
  }
}
