/**
  The pointer walks of Kernel/basicScheduler.c over one linked ring of PCBs: lookup, removal by
  pid, the search of `find_next_process` and the move between two rings. Each does to the linked
  nodes what the `Table` of `SchedulerObjects` does to its lists.
 */
module SchedulerRings {
  import opened Wrappers
  import opened Rings
  import opened CircularList
  import opened Scheduler
  import opened SchedulerObjects

  /** The pids on a ring, from its current node on. */
  ghost function Listing(nodes: seq<Node?<Pcb>>): (ps: seq<Pid>)
    requires null !in nodes
    reads nodes
    ensures |ps| == |nodes|
  {
    seq(|nodes|, i requires 0 <= i < |nodes| && nodes[i] != null reads nodes => nodes[i].data.pid)
  }

  ghost predicate Part<N>(a: seq<N>, b: seq<N>) {
    forall i | 0 <= i < |a| :: a[i] in b
  }

  ghost predicate Disjoint<N>(a: seq<N>, b: seq<N>) {
    forall i, j | 0 <= i < |a| && 0 <= j < |b| :: a[i] != b[j]
  }

  lemma PartDisjoint<N>(a: seq<N>, b: seq<N>, c: seq<N>)
    requires Part(a, b) && Disjoint(b, c)
    ensures Disjoint(a, c)
  {
  }

  /** The inner loop of `get_pcb_entry`. */
  method FindOnRing(queue: Queue<Pcb>, pid: Pid) returns (found: Pcb?)
    requires queue.Valid()
    ensures found == null <==> pid !in Listing(queue.nodes)
    ensures found != null ==> found.pid == pid && exists i :: 0 <= i < |queue.nodes| && queue.nodes[i].data == found
  {
    hide Links, Distinct;
    ghost var ps, k := Listing(queue.nodes), 0;
    var node := queue.currentNode;
    while node != null
      invariant node != null ==> 0 <= k < |ps| && node == queue.nodes[k]
      invariant node == null ==> k == 0 && ps == []
      invariant pid !in ps[..k]
      decreases |ps| - k, node != null
    {
      var pcb := node.data;
      if pcb.pid == pid {
        assert ps[k] == pid;
        return pcb;
      }
      assert ps[..k + 1] == ps[..k] + [ps[k]];
      queue.StepFrom(k);
      node := node.next;
      k := k + 1;
      if node == queue.currentNode {
        break;
      }
    }
    assert ps[..k] == ps;
    found := null;
  }

  /** `remove_from_queue_by_pid`, with the priority it answers. */
  method RemoveFromQueueByPid(queue: Queue<Pcb>, pid: Pid) returns (priority: nat)
    requires queue.Valid()
    modifies queue, queue.nodes`next, queue.nodes`prev
    ensures queue.Valid() && Part(queue.nodes, old(queue.nodes))
    ensures Listing(queue.nodes) == Remove(old(Listing(queue.nodes)), pid)
    ensures pid !in old(Listing(queue.nodes)) ==> priority == 0 && queue.nodes == old(queue.nodes)
    ensures var ps, was := old(Listing(queue.nodes)), old(queue.nodes);
            forall k | 0 <= k < |was| && ps[k] == pid && pid !in ps[..k] :: priority == was[k].data.priority
  {
    hide Links, Distinct, Remove, Without;
    ghost var was, ps, k := queue.nodes, Listing(queue.nodes), 0;
    var node := queue.currentNode;
    while node != null
      invariant queue.Valid() && queue.nodes == was
      invariant node != null ==> 0 <= k < |ps| && node == queue.nodes[k]
      invariant node == null ==> k == 0 && ps == []
      invariant pid !in ps[..k]
      decreases |ps| - k, node != null
    {
      var pcb := node.data;
      ListingAt(was, k);
      if pcb.pid == pid {
        RemoveAt(ps, k);
        priority := pcb.priority;
        queue.RemoveMember(node, k);
        ListingWithout(was, k);
        return;
      }
      assert ps[..k + 1] == ps[..k] + [ps[k]];
      queue.StepFrom(k);
      node := node.next;
      k := k + 1;
      if node == queue.currentNode {
        break;
      }
    }
    assert ps[..k] == ps;
    RemoveAbsent(ps, pid);
    priority := 0;
  }

  lemma ListingWithout(nodes: seq<Node?<Pcb>>, k: nat)
    requires null !in nodes && k < |nodes|
    ensures null !in Without(nodes, k)
    ensures Listing(Without(nodes, k)) == Listing(nodes)[..k] + Listing(nodes)[k + 1..]
    ensures Part(Without(nodes, k), nodes)
  {
  }

  /** The statuses of the PCBs on a ring are those of the state. */
  ghost predicate Agrees(nodes: seq<Node?<Pcb>>, s: State)
    requires null !in nodes
    reads nodes, set b | b in nodes && b != null :: b.data
  {
    forall b | b in nodes :: b.data.pid in s.procs && s.procs[b.data.pid].status == b.data.status
  }

  /**
    The inner loop of `find_next_process`: the first READY process, made RUNNING, and the ring
    turned past it; if there is none, the last RUNNING one seen so far.
   */
  method TakeReady(queue: Queue<Pcb>, keep0: Pcb?, ghost s: State) returns (found: Pcb?, keep: Pcb?)
    requires queue.Valid() && Agrees(queue.nodes, s)
    modifies queue, (set b | b in queue.nodes && b != null :: b.data)`status
    ensures queue.Valid()
    ensures var ps := old(Listing(queue.nodes));
            var k := FirstReady(s, ps);
            if k < |ps| then
              && found == old(queue.nodes[k].data) && found.status == Running
              && Listing(queue.nodes) == Rotate(ps, k + 1)
            else
              && found == null && queue.nodes == old(queue.nodes)
              && Kept(keep) == Keep(s, ps, Kept(keep0))
    ensures forall b | b in old(queue.nodes) && b.data != found :: b.data.status == old(b.data.status)
  {
    hide Links, Distinct, FirstReady, Keep, Rotate, Listing;
    ghost var was, ps, k := queue.nodes, Listing(queue.nodes), 0;
    keep := keep0;
    var node := queue.currentNode;
    while node != null
      invariant queue.Valid() && queue.nodes == was && Agrees(was, s)
      invariant node != null ==> 0 <= k < |ps| && node == queue.nodes[k]
      invariant node == null ==> k == 0 && ps == []
      invariant forall j | 0 <= j < k :: !s.Is(ps[j], Ready)
      invariant Keep(s, ps[k..], Kept(keep)) == Keep(s, ps, Kept(keep0))
      decreases |ps| - k, node != null
    {
      var pcb := node.data;
      assert node in was;
      ListingAt(was, k);
      KeepStep(s, ps, k, Kept(keep));
      if pcb.status == Running {
        keep := pcb;
      }
      if pcb.status == Ready {
        pcb.status := Running;
        queue.TurnPast(node, k);
        ListingTurned(was, k);
        return pcb, keep;
      }
      queue.StepFrom(k);
      node := node.next;
      k := k + 1;
      if node == queue.currentNode {
        break;
      }
    }
    KeepStep(s, ps, k, Kept(keep));
    found := null;
  }

  lemma ListingAt(nodes: seq<Node?<Pcb>>, k: nat)
    requires null !in nodes && k < |nodes|
    ensures Listing(nodes)[k] == nodes[k].data.pid
  {
  }

  lemma KeepStep(s: State, ps: seq<Pid>, k: nat, keep: Option<Pid>)
    requires k <= |ps|
    ensures k < |ps| ==>
              Keep(s, ps[k..], keep) == Keep(s, ps[k + 1..], if s.Is(ps[k], Running) then Some(ps[k]) else keep)
    ensures k == |ps| ==> Keep(s, ps[k..], keep) == keep
  {
    assert k < |ps| ==> ps[k..][1..] == ps[k + 1..];
  }

  lemma ListingTurned(nodes: seq<Node?<Pcb>>, k: nat)
    requires null !in nodes && k < |nodes|
    ensures null !in Rotate(nodes, k + 1)
    ensures Listing(Rotate(nodes, k + 1)) == Rotate(Listing(nodes), k + 1)
  {
  }

  /** A new node for a PCB at the end of a ring. */
  method Enlist(queue: Queue<Pcb>, pcb: Pcb)
    requires queue.Valid()
    modifies queue, queue.nodes`next, queue.nodes`prev
    ensures queue.Valid() && |queue.nodes| == |old(queue.nodes)| + 1
    ensures queue.nodes[..|old(queue.nodes)|] == old(queue.nodes) && fresh(queue.nodes[|old(queue.nodes)|])
    ensures Listing(queue.nodes) == old(Listing(queue.nodes)) + [pcb.pid]
  {
    hide Links, Distinct;
    var node := new Node(pcb);
    queue.InsertMember(node);
  }

  /**
    The ring part of `change_process_priority`: out of the ring of the old priority, to the end of
    the ring of the new one, which may be the same ring.
   */
  method Transfer(from: Queue<Pcb>, to: Queue<Pcb>, pcb: Pcb, priority: nat)
    requires from.Valid() && to.Valid()
    requires from != to ==> Disjoint(from.nodes, to.nodes)
    modifies from, from.nodes`next, from.nodes`prev, to, to.nodes`next, to.nodes`prev, pcb`priority
    ensures from.Valid() && to.Valid() && pcb.priority == priority
    ensures from == to ==> Listing(to.nodes) == Remove(old(Listing(from.nodes)), pcb.pid) + [pcb.pid]
    ensures from != to ==>
              && Listing(from.nodes) == Remove(old(Listing(from.nodes)), pcb.pid)
              && Listing(to.nodes) == old(Listing(to.nodes)) + [pcb.pid]
              && Disjoint(from.nodes, to.nodes)
  {
    hide Links, Distinct, Listing, Remove, Without, Disjoint;
    ghost var toNodes := to.nodes;
    Detach(from, to, pcb.pid);
    assert Part(to.nodes, toNodes);
    pcb.priority := priority;
    Attach(from, to, pcb);
  }

  /** Out of the old ring, seen from both. */
  method Detach(from: Queue<Pcb>, to: Queue<Pcb>, pid: Pid)
    requires from.Valid() && to.Valid()
    requires from != to ==> Disjoint(from.nodes, to.nodes)
    modifies from, from.nodes`next, from.nodes`prev
    ensures from.Valid() && to.Valid() && Part(to.nodes, old(to.nodes)) && Part(from.nodes, old(from.nodes))
    ensures Listing(from.nodes) == Remove(old(Listing(from.nodes)), pid)
    ensures from != to ==>
              && to.nodes == old(to.nodes) && Listing(to.nodes) == old(Listing(to.nodes))
              && Disjoint(from.nodes, to.nodes)
  {
    hide Links, Distinct, Remove, Without;
    ghost var fromNodes, toNodes := from.nodes, to.nodes;
    var _ := RemoveFromQueueByPid(from, pid);
    if from != to {
      PartDisjoint(from.nodes, fromNodes, toNodes);
    }
  }

  /** Into the new one, seen from both. */
  method Attach(from: Queue<Pcb>, to: Queue<Pcb>, pcb: Pcb)
    requires from.Valid() && to.Valid()
    requires from != to ==> Disjoint(from.nodes, to.nodes)
    modifies to, to.nodes`next, to.nodes`prev
    ensures from.Valid() && to.Valid()
    ensures Listing(to.nodes) == old(Listing(to.nodes)) + [pcb.pid]
    ensures from != to ==> Listing(from.nodes) == old(Listing(from.nodes)) && Disjoint(from.nodes, to.nodes)
  {
    hide Links, Distinct;
    Enlist(to, pcb);
  }

  /** `remove_node(queue, queue->current_node)`: the oldest entry of the removal or the creation queue. */
  method Pop<T>(queue: Queue<T>) returns (first: Option<T>)
    requires queue.Valid()
    modifies queue, queue.nodes`next, queue.nodes`prev
    ensures queue.Valid()
    ensures old(queue.nodes) == [] ==> first == None && queue.nodes == []
    ensures old(queue.nodes) != [] ==> first == Some(old(queue.nodes[0].data)) && queue.nodes == old(queue.nodes)[1..]
  {
    hide Links, Distinct;
    ghost var was := queue.nodes;
    first := queue.RemoveNode(queue.currentNode, 0);
    assert was != [] ==> Without(was, 0) == was[1..];
  }

  // ---- Orphans -----------------------------------------------------------

  /** The part of a `process_t` that `reassign_children_to_shell` touches. */
  class Process {
    const pid: Pid
    var parentPid: Pid

    constructor (pid: Pid, parentPid: Pid)
      ensures this.pid == pid && this.parentPid == parentPid
    {
      this.pid := pid;
      this.parentPid := parentPid;
    }
  }

  function Adopted(parent: Pid, oldParent: Pid): Pid {
    if parent == oldParent then SHELL_PID else parent
  }

  /** The processes on a ring. */
  ghost function Members(queue: Queue<Process>): set<Process>
    reads queue, queue.nodes
  {
    set b | b in queue.nodes && b != null :: b.data
  }

  ghost function AllMembers(queues: seq<Queue<Process>>): set<Process>
    reads queues, set q, b | q in queues && b in q.nodes && b != null :: b
  {
    set q, b | q in queues && b in q.nodes && b != null :: b.data
  }

  /**
    `reassign_children_to_shell`: on every ring each child of the dead parent goes to the shell, the
    others stay. Rings may share processes.
   */
  method ReassignChildrenToShell(queues: seq<Queue<Process>>, oldParent: Pid)
    requires forall q | q in queues :: q.Valid()
    modifies AllMembers(queues)
    ensures forall q | q in queues :: q.Valid()
    ensures AllMembers(queues) == old(AllMembers(queues))
    ensures forall p | p in old(AllMembers(queues)) ::
              p.parentPid == if old(p.parentPid) == oldParent then SHELL_PID else old(p.parentPid)
  {
    hide *;
    ghost var all := AllMembers(queues);
    ghost var before := map p | p in all :: p.parentPid;
    AdoptedIs(oldParent);
    ghost var done: set<Process> := {};
    for i := 0 to |queues|
      invariant forall q | q in queues :: q.Valid()
      invariant AllMembers(queues) == all && forall j | 0 <= j < i :: Members(queues[j]) <= done
      invariant forall p | p in all ::
                  p.parentPid == Adopted(before[p], oldParent) || (p !in done && p.parentPid == before[p])
    {
      MembersAreAll(queues, i);
      ghost var now, here := map p | p in all :: p.parentPid, Members(queues[i]);
      AdoptOnRing(queues[i], oldParent, all);
      done := done + here;
      forall p | p in all
        ensures p.parentPid == Adopted(before[p], oldParent) || (p !in done && p.parentPid == before[p])
      {
        assert p in here ==> p.parentPid == Adopted(now[p], oldParent);
        assert p !in here ==> p.parentPid == now[p];
      }
    }
    AllAreMembers(queues, done);
  }

  lemma AdoptedIs(oldParent: Pid)
    ensures forall p: Pid :: Adopted(p, oldParent) == if p == oldParent then SHELL_PID else p
  {
  }

  lemma MembersAreAll(queues: seq<Queue<Process>>, i: nat)
    requires i < |queues|
    ensures Members(queues[i]) <= AllMembers(queues)
  {
  }

  lemma AllAreMembers(queues: seq<Queue<Process>>, done: set<Process>)
    requires forall j | 0 <= j < |queues| :: Members(queues[j]) <= done
    ensures AllMembers(queues) <= done
  {
    forall p | p in AllMembers(queues) ensures p in done {
      var q, b :| q in queues && b in q.nodes && b != null && b.data == p;
      assert p in Members(q);
    }
  }

  /** Its do-while walk along `next`, which meets every node of a ring once and stops. */
  method AdoptOnRing(queue: Queue<Process>, oldParent: Pid, ghost others: set<Process>)
    requires queue.Valid()
    modifies Members(queue)
    ensures queue.Valid() && queue.nodes == old(queue.nodes) && Members(queue) == old(Members(queue))
    ensures forall p | p in old(Members(queue)) ::
              p.parentPid == if old(p.parentPid) == oldParent then SHELL_PID else old(p.parentPid)
    ensures forall p | p in others && p !in old(Members(queue)) :: p.parentPid == old(p.parentPid)
  {
    hide Links, Distinct;
    ghost var ring := queue.nodes;
    if queue.currentNode == null {
      return;
    }
    var node := queue.currentNode;
    ghost var k := 0;
    var again := true;
    while again
      invariant queue.Valid() && queue.nodes == ring && 0 <= k <= |ring|
      invariant again ==> k < |ring| && node == ring[k]
      invariant !again ==> k == |ring|
      invariant forall i | 0 <= i < k :: ring[i].data.parentPid == Adopted(old(ring[i].data.parentPid), oldParent)
      invariant forall i | k <= i < |ring| ::
                  ring[i].data.parentPid == old(ring[i].data.parentPid)
                  || ring[i].data.parentPid == Adopted(old(ring[i].data.parentPid), oldParent)
      decreases |ring| - k
    {
      if node.data.parentPid == oldParent {
        node.data.parentPid := SHELL_PID;
      }
      queue.StepFrom(k);
      node := node.next;
      k := k + 1;
      again := node != queue.currentNode;
    }
  }
}
