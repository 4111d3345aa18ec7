// The intrusive doubly linked lists of source/kernel/tools/list.c: the links are fields of the members.
module Lists {

  class ListNode {
    var pre: ListNode?
    var next: ListNode?

    // list_node_init
    constructor ()
      ensures pre == null && next == null
    {
      pre, next := null, null;
    }
  }

  // q without its member at i
  function Cut<T>(q: seq<T>, i: nat): seq<T>
    requires i < |q|
  {
    q[..i] + q[i + 1..]
  }

  lemma CutMembers<T>(q: seq<T>, i: nat)
    requires i < |q| && forall j, k :: 0 <= j < k < |q| ==> q[j] != q[k]
    ensures q[i] !in Cut(q, i) && forall x :: x in Cut(q, i) ==> x in q
  {
  }

  class List {
    var first: ListNode?
    var last: ListNode?
    var count: int
    ghost var nodes: seq<ListNode>

    // The links of the member at i
    ghost predicate LinkedAt(i: nat)
      requires i < |nodes|
      reads this, nodes
    {
      && nodes[i].pre == (if i == 0 then null else nodes[i - 1])
      && nodes[i].next == (if i == |nodes| - 1 then null else nodes[i + 1])
    }

    ghost predicate Valid()
      reads this, nodes
    {
      && count == |nodes|
      && first == (if nodes == [] then null else nodes[0])
      && last == (if nodes == [] then null else nodes[|nodes| - 1])
      && (forall i :: 0 <= i < |nodes| ==> LinkedAt(i))
      && (forall i, j :: 0 <= i < j < |nodes| ==> nodes[i] != nodes[j])
    }

    // list_init
    constructor ()
      ensures Valid() && nodes == []
    {
      first, last, count, nodes := null, null, 0, [];
    }

    method InsertFront(node: ListNode)
      requires Valid() && node !in nodes
      modifies this, node, if nodes == [] then {} else {nodes[0]}
      ensures Valid() && nodes == [node] + old(nodes)
    {
      node.next := first;
      node.pre := null;
      if count == 0 {
        last := node;
        first := node;
      } else {
        first.pre := node;
        first := node;
      }
      count := count + 1;
      ghost var was := nodes;
      nodes := [node] + nodes;
      forall i | 0 <= i < |nodes|
        ensures LinkedAt(i)
      {
        assert i > 0 ==> nodes[i] == was[i - 1] && old(LinkedAt(i - 1));
      }
    }

    method InsertBack(node: ListNode)
      requires Valid() && node !in nodes
      modifies this, node, if nodes == [] then {} else {nodes[|nodes| - 1]}
      ensures Valid() && nodes == old(nodes) + [node]
    {
      node.pre := last;
      node.next := null;
      if count == 0 {
        last := node;
        first := node;
      } else {
        last.next := node;
        last := node;
      }
      count := count + 1;
      ghost var was := nodes;
      nodes := nodes + [node];
      forall i | 0 <= i < |nodes|
        ensures LinkedAt(i)
      {
        assert i < |was| ==> nodes[i] == was[i] && old(LinkedAt(i));
      }
    }

    // The node that leaves the list has no links any more.
    method RemoveFront() returns (removed: ListNode?)
      requires Valid()
      modifies this, if nodes == [] then {} else {nodes[0]}, if |nodes| < 2 then {} else {nodes[1]}
      ensures Valid()
      ensures if old(nodes) == [] then removed == null && nodes == []
              else removed == old(nodes)[0] && nodes == old(nodes)[1..] && removed.pre == null && removed.next == null
    {
      if count == 0 {
        return null;
      }
      assert LinkedAt(0);
      assert |nodes| > 1 ==> LinkedAt(1);
      removed := first;
      first := removed.next;
      if first == null {
        last := null;
      } else {
        removed.next.pre := null;
      }
      removed.pre, removed.next := null, null;
      count := count - 1;
      nodes := nodes[1..];
      assert forall i :: 0 <= i < |nodes| ==> nodes[i] == old(nodes)[i + 1] && old(LinkedAt(i + 1));
    }

    // list_remove, for a member anywhere in the list
    method Remove(node: ListNode, ghost at: nat)
      requires Valid() && at < |nodes| && nodes[at] == node
      modifies this, node, if at == 0 then {} else {nodes[at - 1]}, if at + 1 == |nodes| then {} else {nodes[at + 1]}
      ensures Valid() && nodes == Cut(old(nodes), at) && node.pre == null && node.next == null
    {
      ghost var was := nodes;
      assert LinkedAt(at);
      if node == first {
        first := node.next;
      }
      if node == last {
        last := node.pre;
      }
      if node.pre != null {
        node.pre.next := node.next;
      }
      if node.next != null {
        node.next.pre := node.pre;
      }
      node.pre, node.next := null, null;
      count := count - 1;
      nodes := Cut(nodes, at);
      forall i | 0 <= i < |nodes|
        ensures LinkedAt(i)
      {
        var k := if i < at then i else i + 1;
        assert nodes[i] == was[k] && old(LinkedAt(k));
      }
    }
  }

  // Lists with no member in common stay out of each other's way: here a task's run_node goes from the sleep
  // list to the ready list, while a list over the wait_nodes of the same tasks is not touched.
  method Requeue(sleep: List, ready: List, other: List, node: ListNode, ghost at: nat)
    requires sleep.Valid() && ready.Valid() && other.Valid() && sleep != ready && other != sleep && other != ready
    requires at < |sleep.nodes| && sleep.nodes[at] == node
    requires forall n :: n in ready.nodes ==> n !in sleep.nodes
    requires forall n :: n in other.nodes ==> n !in sleep.nodes && n !in ready.nodes
    modifies sleep, ready, sleep.nodes, ready.nodes
    ensures sleep.Valid() && ready.Valid() && other.Valid()
    ensures sleep.nodes == Cut(old(sleep.nodes), at) && ready.nodes == old(ready.nodes) + [node]
    ensures other.nodes == old(other.nodes)
  {
    ghost var was := sleep.nodes;
    assert node in was && (at > 0 ==> was[at - 1] in was) && (at + 1 < |was| ==> was[at + 1] in was);
    assert node !in Cut(was, at) by { CutMembers(was, at); }
    hide *;
    sleep.Remove(node, at);
    assert ready.Valid() && other.Valid();
    if ready.nodes != [] {
      assert ready.nodes[|ready.nodes| - 1] in ready.nodes;
      assert ready.nodes[|ready.nodes| - 1] !in Cut(was, at) by { CutMembers(was, at); }
    }
    ready.InsertBack(node);
  }

  // A node is a member of one list only: lists that share a member have all members in common.
  lemma SharedNode(a: List, b: List, i: nat, j: nat)
    requires a.Valid() && b.Valid() && i < |a.nodes| && j < |b.nodes| && a.nodes[i] == b.nodes[j]
    ensures a.nodes == b.nodes && i == j
  {
    SharedBefore(a, b, i, j);
    SharedAfter(a, b, i, j);
    assert a.nodes[..i] == b.nodes[..j];
    assert a.nodes[i..] == b.nodes[j..];
  }

  lemma {:induction false} SharedBefore(a: List, b: List, i: nat, j: nat)
    requires a.Valid() && b.Valid() && i < |a.nodes| && j < |b.nodes| && a.nodes[i] == b.nodes[j]
    ensures i == j && a.nodes[..i] == b.nodes[..j]
    decreases i
  {
    assert a.LinkedAt(i) && b.LinkedAt(j);
    if i > 0 && j > 0 {
      SharedBefore(a, b, i - 1, j - 1);
      assert a.nodes[..i] == a.nodes[..i - 1] + [a.nodes[i - 1]];
      assert b.nodes[..j] == b.nodes[..j - 1] + [b.nodes[j - 1]];
    }
  }

  lemma {:induction false} SharedAfter(a: List, b: List, i: nat, j: nat)
    requires a.Valid() && b.Valid() && i < |a.nodes| && j < |b.nodes| && a.nodes[i] == b.nodes[j]
    ensures a.nodes[i..] == b.nodes[j..]
    decreases |a.nodes| - i
  {
    assert a.LinkedAt(i) && b.LinkedAt(j);
    if i + 1 < |a.nodes| && j + 1 < |b.nodes| {
      SharedAfter(a, b, i + 1, j + 1);
      assert a.nodes[i..] == [a.nodes[i]] + a.nodes[i + 1..];
      assert b.nodes[j..] == [b.nodes[j]] + b.nodes[j + 1..];
    }
  }
}
