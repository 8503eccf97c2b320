/**
  The doubly linked rings of Kernel/circular_list.c. Read from `currentNode`, a ring is a
  sequence: inserting appends to it, removing a member deletes that position and nothing else.
  Node allocation succeeds; freeing a node is dropping it.
 */
module CircularList {
  import opened Rings
  import opened Wrappers

  class Node<T> {
    var data: T
    var next: Node?<T>
    var prev: Node?<T>

    /** `create_node` */
    constructor (data: T)
      ensures this.data == data && next == null && prev == null
    {
      this.data := data;
      next, prev := null, null;
    }
  }

  /** The position after `i` on a ring of `n` nodes. */
  function After(i: nat, n: nat): nat
    requires i < n
  {
    if i + 1 == n then 0 else i + 1
  }

  /** The position before `i` on a ring of `n` nodes. */
  function Before(i: nat, n: nat): (j: nat)
    requires i < n
    ensures j < n && After(j, n) == i
  {
    if i == 0 then n - 1 else i - 1
  }

  /** Where position `i` was before position `k` was deleted. */
  function Skip(i: nat, k: nat): nat {
    if i < k then i else i + 1
  }

  /** Deleting a position joins its neighbours and leaves the other successions alone. */
  lemma SkipAfter(i: nat, k: nat, n: nat)
    requires i < n - 1 && k < n
    ensures Skip(After(i, n - 1), k) == if Skip(i, k) == Before(k, n) then After(k, n) else After(Skip(i, k), n)
    ensures Skip(i, k) != k && Skip(i, k) < n && (Skip(i, k) != Before(k, n) ==> After(Skip(i, k), n) != k)
  {
  }

  /** `next` and `prev` go around the ring in opposite directions. */
  ghost predicate Links<N>(ring: seq<N>, next: map<N, N>, prev: map<N, N>) {
    && (forall b | b in ring :: b in next && b in prev)
    && (forall i {:trigger next[ring[i]]} | 0 <= i < |ring| :: next[ring[i]] == ring[After(i, |ring|)])
    && (forall i {:trigger prev[ring[i]]} | 0 <= i < |ring| :: prev[ring[i]] == ring[Before(i, |ring|)])
  }

  lemma DistinctAt<N>(ring: seq<N>, i: nat, j: nat)
    requires Distinct(ring) && i < |ring| && j < |ring| && i != j
    ensures ring[i] != ring[j]
  {
    assert i < j || j < i;
  }

  function Without<N>(ring: seq<N>, k: nat): seq<N>
    requires k < |ring|
  {
    ring[..k] + ring[k + 1..]
  }

  lemma WithoutLength<N>(ring: seq<N>, k: nat)
    requires k < |ring|
    ensures |Without(ring, k)| == |ring| - 1
  {
  }

  lemma WithoutAt<N>(ring: seq<N>, k: nat, i: nat)
    requires k < |ring| && i < |ring| - 1
    ensures Without(ring, k)[i] == ring[Skip(i, k)]
  {
  }

  lemma WithoutKeeps<N>(ring: seq<N>, k: nat)
    requires k < |ring| && Distinct(ring)
    ensures Distinct(Without(ring, k)) && forall b :: b in Without(ring, k) <==> b in ring && b != ring[k]
  {
  }

  /** Two pointer writes take the node at position `k` out of a ring. */
  lemma UnlinkAt<N>(ring: seq<N>, k: nat, next: map<N, N>, prev: map<N, N>, next': map<N, N>, prev': map<N, N>, i: nat)
    requires Distinct(ring) && Links(ring, next, prev) && k < |ring| && i < |ring| - 1
    requires forall b | b in Without(ring, k) ::
               b in next' && next'[b] == if b == ring[Before(k, |ring|)] then ring[After(k, |ring|)] else next[b]
    requires forall b | b in Without(ring, k) ::
               b in prev' && prev'[b] == if b == ring[After(k, |ring|)] then ring[Before(k, |ring|)] else prev[b]
    ensures var n, left := |ring|, Without(ring, k);
            && left[i] in next' && left[i] in prev'
            && next'[left[i]] == left[After(i, n - 1)] && prev'[left[i]] == left[Before(i, n - 1)]
  {
    hide Distinct, Without;
    WithoutLength(ring, k);
    var n := |ring|;
    var o, b := Skip(i, k), Before(i, n - 1);
    assert Without(ring, k)[i] in Without(ring, k);
    WithoutAt(ring, k, i);
    WithoutAt(ring, k, After(i, n - 1));
    WithoutAt(ring, k, b);
    SkipAfter(i, k, n);
    SkipAfter(b, k, n);
    if o != Before(k, n) {
      DistinctAt(ring, o, Before(k, n));
    }
    if o != After(k, n) {
      DistinctAt(ring, o, After(k, n));
    }
  }

  lemma Unlink<N>(ring: seq<N>, k: nat, next: map<N, N>, prev: map<N, N>, next': map<N, N>, prev': map<N, N>)
    requires Distinct(ring) && Links(ring, next, prev) && k < |ring|
    requires forall b | b in Without(ring, k) ::
               b in next' && next'[b] == if b == ring[Before(k, |ring|)] then ring[After(k, |ring|)] else next[b]
    requires forall b | b in Without(ring, k) ::
               b in prev' && prev'[b] == if b == ring[After(k, |ring|)] then ring[Before(k, |ring|)] else prev[b]
    ensures Links(Without(ring, k), next', prev')
  {
    hide Distinct;
    var left := Without(ring, k);
    forall i | 0 <= i < |left|
      ensures left[i] in next' && left[i] in prev'
      ensures next'[left[i]] == left[After(i, |left|)] && prev'[left[i]] == left[Before(i, |left|)]
    {
      UnlinkAt(ring, k, next, prev, next', prev', i);
    }
  }

  /** Four pointer writes put a new node at the end of a ring. */
  lemma Append<N>(ring: seq<N>, x: N, next: map<N, N>, prev: map<N, N>, next': map<N, N>, prev': map<N, N>)
    requires Distinct(ring) && Links(ring, next, prev) && ring != [] && x !in ring
    requires x in next' && x in prev' && next'[x] == ring[0] && prev'[x] == ring[|ring| - 1]
    requires forall b | b in ring :: b in next' && next'[b] == if b == ring[|ring| - 1] then x else next[b]
    requires forall b | b in ring :: b in prev' && prev'[b] == if b == ring[0] then x else prev[b]
    ensures Links(ring + [x], next', prev')
  {
  }

  /** Reading a ring from another node leaves its links as they are. */
  lemma Turn<N>(ring: seq<N>, k: nat, next: map<N, N>, prev: map<N, N>)
    requires Distinct(ring) && Links(ring, next, prev) && k <= |ring|
    ensures Links(Rotate(ring, k), next, prev)
  {
    var n, r := |ring|, Rotate(ring, k);
    forall i: nat | i < n
      ensures r[i] in next && r[i] in prev && next[r[i]] == r[After(i, n)] && prev[r[i]] == r[Before(i, n)]
    {
      var j := if i + k < n then i + k else i + k - n;
      assert r[i] == ring[j] && r[After(i, n)] == ring[After(j, n)] && r[Before(i, n)] == ring[Before(j, n)];
      LinksAt(ring, next, prev, j);
    }
  }

  lemma TurnedHead<N>(ring: seq<N>, k: nat)
    requires k < |ring|
    ensures |Rotate(ring, k + 1)| == |ring| && Rotate(ring, k + 1)[0] == ring[After(k, |ring|)]
  {
  }

  class Queue<T> {
    var currentNode: Node?<T>
    var qty: nat
    /** The nodes of the ring, from `currentNode` on. */
    ghost var nodes: seq<Node?<T>>

    static ghost function NextOf(ring: seq<Node?<T>>): map<Node?<T>, Node?<T>>
      reads ring
    {
      map b | b in ring && b != null :: b.next
    }

    static ghost function PrevOf(ring: seq<Node?<T>>): map<Node?<T>, Node?<T>>
      reads ring
    {
      map b | b in ring && b != null :: b.prev
    }

    ghost predicate Valid()
      reads this, nodes
    {
      && Distinct(nodes) && null !in nodes
      && qty == |nodes|
      && currentNode == (if nodes == [] then null else nodes[0])
      && Links(nodes, NextOf(nodes), PrevOf(nodes))
    }

    /** `create_queue` */
    constructor ()
      ensures Valid() && nodes == []
    {
      currentNode, qty, nodes := null, 0, [];
    }

    /** `insert_node`: the new node goes before the current one, which is the end of the ring. */
    method InsertNode(node: Node?<T>) returns (r: int)
      requires Valid() && (node != null ==> node !in nodes)
      modifies this, nodes, node
      ensures Valid()
      ensures node == null ==> r == -1 && nodes == old(nodes)
      ensures node != null ==> r == old(qty) && nodes == old(nodes) + [node]
      ensures forall b | b in nodes && b != null :: b.data == old(b.data)
    {
      hide *;
      if node == null {
        return -1;
      }
      InsertMember(node);
      r := qty - 1;
    }

    /** `insert_node` of a node that exists. */
    method InsertMember(node: Node<T>)
      requires Valid() && node !in nodes
      modifies this, nodes`next, nodes`prev, node`next, node`prev
      ensures Valid() && qty == old(qty) + 1 && nodes == old(nodes) + [node]
    {
      hide Distinct, Links;
      if currentNode == null {
        InsertAlone(node);
      } else {
        InsertLast(node);
      }
    }

    /** The first node points at itself both ways. */
    method InsertAlone(node: Node<T>)
      requires Valid() && nodes == []
      modifies this, node`next, node`prev
      ensures Valid() && qty == old(qty) + 1 && nodes == [node]
    {
      currentNode := node;
      node.next := node;
      node.prev := node;
      nodes := [node];
      qty := qty + 1;
    }

    /** Any other node goes between the last one and the current one. */
    method InsertLast(node: Node<T>)
      requires Valid() && nodes != [] && node !in nodes
      modifies this, nodes`next, nodes`prev, node`next, node`prev
      ensures Valid() && qty == old(qty) + 1 && nodes == old(nodes) + [node]
    {
      hide Distinct, Links;
      ghost var was, next0, prev0 := nodes, NextOf(nodes), PrevOf(nodes);
      DistinctAppend(was, node);
      LinkEnds(was, next0, prev0);
      node.next := currentNode;
      var last := currentNode.prev;
      node.prev := last;
      last.next := node;
      currentNode.prev := node;
      nodes := nodes + [node];
      qty := qty + 1;
      Append(was, node, next0, prev0, NextOf(nodes), PrevOf(nodes));
    }

    /**
      `remove_node`: nothing for a null node or an empty ring; otherwise the node is unlinked
      and its data returned. The caller passes a member of the ring.
     */
    method RemoveNode(node: Node?<T>, ghost k: nat) returns (data: Option<T>)
      requires Valid()
      requires node != null && nodes != [] ==> k < |nodes| && nodes[k] == node
      modifies this, nodes`next, nodes`prev
      ensures Valid()
      ensures node == null || old(nodes) == [] ==> data == None && nodes == old(nodes)
      ensures node != null && old(nodes) != [] ==>
                data == Some(node.data) && nodes == Without(old(nodes), k)
    {
      hide Distinct, Links;
      if node == null {
        return None;
      }
      if currentNode == null {
        return None;
      }
      data := Some(node.data);
      RemoveMember(node, k);
    }

    /** `current_node = node->next`: the ring is read from behind a member. */
    method TurnPast(node: Node<T>, ghost k: nat)
      requires Valid() && k < |nodes| && nodes[k] == node
      modifies this`currentNode, this`nodes
      ensures Valid() && qty == old(qty) && nodes == Rotate(old(nodes), k + 1)
    {
      hide Distinct, Links, Rotate;
      LinksAt(nodes, NextOf(nodes), PrevOf(nodes), k);
      TurnedHead(nodes, k);
      Turn(nodes, k + 1, NextOf(nodes), PrevOf(nodes));
      RotateKeeps(nodes, k + 1);
      currentNode := node.next;
      nodes := Rotate(nodes, k + 1);
      assert NextOf(nodes) == NextOf(old(nodes)) && PrevOf(nodes) == PrevOf(old(nodes));
    }

    /** From a member on: the walk goes to the next position, and is round when it is back at the current node. */
    lemma StepFrom(k: nat)
      requires Valid() && k < |nodes|
      ensures nodes[k] != null && currentNode != null
      ensures k + 1 < |nodes| ==> nodes[k].next == nodes[k + 1] && nodes[k].next != currentNode
      ensures k + 1 == |nodes| ==> nodes[k].next == currentNode
    {
      LinksAt(nodes, NextOf(nodes), PrevOf(nodes), k);
      if k + 1 < |nodes| {
        DistinctAt(nodes, 0, k + 1);
      }
    }

    /** `remove_node` of a member. */
    method RemoveMember(node: Node<T>, ghost k: nat)
      requires Valid() && k < |nodes| && nodes[k] == node
      modifies this, nodes`next, nodes`prev
      ensures Valid() && nodes == Without(old(nodes), k)
    {
      hide Distinct, Links;
      if qty == 1 {
        RemoveOnly(node, k);
      } else {
        RemoveOneOf(node, k);
      }
    }

    /** The last node leaves an empty ring. */
    method RemoveOnly(node: Node<T>, ghost k: nat)
      requires Valid() && k < |nodes| && nodes[k] == node && qty == 1
      modifies this`currentNode, this`nodes, this`qty
      ensures Valid() && nodes == Without(old(nodes), k)
    {
      currentNode := null;
      nodes := [];
      qty := qty - 1;
    }

    /** Any other node's neighbours are joined; if it was the current one, the next one is now. */
    method RemoveOneOf(node: Node<T>, ghost k: nat)
      requires Valid() && k < |nodes| && nodes[k] == node && qty != 1
      modifies this, nodes`next, nodes`prev
      ensures Valid() && nodes == Without(old(nodes), k)
    {
      hide Distinct, Links;
      ghost var was, next0, prev0 := nodes, NextOf(nodes), PrevOf(nodes);
      LinksAt(was, next0, prev0, k);
      WithoutKeeps(was, k);
      WithoutLength(was, k);
      if currentNode == node {
        currentNode := node.next;
      }
      var prevNode, nextNode := node.prev, node.next;
      prevNode.next := nextNode;
      nextNode.prev := prevNode;
      nodes := Without(was, k);
      qty := qty - 1;
      Unlink(was, k, next0, prev0, NextOf(nodes), PrevOf(nodes));
    }
  }

  lemma LinkEnds<N>(ring: seq<N>, next: map<N, N>, prev: map<N, N>)
    requires Links(ring, next, prev) && ring != []
    ensures ring[0] in prev && prev[ring[0]] == ring[|ring| - 1]
  {
  }

  lemma LinksAt<N>(ring: seq<N>, next: map<N, N>, prev: map<N, N>, k: nat)
    requires Distinct(ring) && Links(ring, next, prev) && k < |ring|
    ensures ring[k] in next && next[ring[k]] == ring[After(k, |ring|)]
    ensures ring[k] in prev && prev[ring[k]] == ring[Before(k, |ring|)]
    ensures |ring| > 1 && k == 0 ==> After(k, |ring|) == 1
    ensures k > 0 ==> ring[0] != ring[k]
  {
  }
}
