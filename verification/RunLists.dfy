// The sleep and ready lists as the intrusive lists that they are: task_set_blocked and the walk of the sleep
// list on links, proved equal to the same steps on sequences of tasks.
module RunLists {
  import opened Lists
  import opened Tasks
  import opened TaskManagers

  // The tasks whose run_node the members of q are
  function Names(q: seq<ListNode>, task: map<ListNode, Tid>): (r: seq<Tid>)
    requires forall n :: n in q ==> n in task
    ensures |r| == |q|
  {
    seq(|q|, i requires 0 <= i < |q| => task[q[i]])
  }

  // The two lists hold the tasks that state s says, and no node is on both.
  ghost predicate Holds(sleep: List, ready: List, task: map<ListNode, Tid>, s: Sched)
    reads sleep, ready, sleep.nodes, ready.nodes
  {
    && sleep != ready && sleep.Valid() && ready.Valid()
    && (forall n :: n in sleep.nodes ==> n in task && n !in ready.nodes)
    && (forall n :: n in ready.nodes ==> n in task)
    && s.sleep == Names(sleep.nodes, task) && s.ready == Names(ready.nodes, task)
  }

  lemma NamesCut(q: seq<ListNode>, task: map<ListNode, Tid>, i: nat)
    requires i < |q| && forall n :: n in q ==> n in task
    ensures forall n :: n in Cut(q, i) ==> n in q
    ensures Names(Cut(q, i), task) == Names(q, task)[..i] + Names(q, task)[i + 1..]
  {
  }

  lemma NamesAppend(q: seq<ListNode>, task: map<ListNode, Tid>, n: ListNode)
    requires n in task && forall m :: m in q ==> m in task
    ensures Names(q + [n], task) == Names(q, task) + [task[n]]
  {
  }

  lemma {:induction false} WithoutAt(q: seq<Tid>, t: Tid, i: nat)
    requires i < |q| && q[i] == t && t !in q[..i]
    ensures Without(q, t) == q[..i] + q[i + 1..]
  {
    if i == 0 {
      assert Without(q, t) == q[1..];
    } else {
      assert q[0] in q[..i];
      assert q[..i] == [q[0]] + q[1..][..i - 1];
      WithoutAt(q[1..], t, i - 1);
    }
  }

  // task_set_blocked: node, wherever it is, is unlinked from the ready list.
  method SetBlocked(sleep: List, ready: List, task: map<ListNode, Tid>, node: ListNode, ghost at: nat, ghost s: Sched)
    requires Holds(sleep, ready, task, s) && Distinct(s.ready)
    requires at < |ready.nodes| && ready.nodes[at] == node && task[node] != IDLE
    modifies ready, ready.nodes
    ensures Holds(sleep, ready, task, Blocked(s, task[node]))
  {
    ghost var q := ready.nodes;
    NamesCut(q, task, at);
    assert forall j :: 0 <= j < at ==> s.ready[j] != s.ready[at];
    WithoutAt(s.ready, task[node], at);
    assert forall i :: 0 <= i < |q| ==> q[i] in q;
    ready.Remove(node, at);
  }

  // One node of the sleep list: its task's time is counted down, and if that is up the node changes lists. The
  // next node was read before that.
  method WalkNode(sleep: List, ready: List, task: map<ListNode, Tid>, curr: ListNode, ghost i: nat,
      ticks: map<Tid, int>, ghost s: Sched)
    returns (next: ListNode?, left: map<Tid, int>)
    requires Holds(sleep, ready, task, s) && ticks == s.sleepTicks && IDLE !in s.sleep
    requires i < |sleep.nodes| && sleep.nodes[i] == curr
    modifies sleep, ready, sleep.nodes, ready.nodes
    ensures Holds(sleep, ready, task, NodeWalked(s, i)) && left == NodeWalked(s, i).sleepTicks
    ensures next == NodeAt(sleep, if Field(ticks, s.sleep[i]) == 1 then i else i + 1)
  {
    assert sleep.LinkedAt(i) && s.sleep[i] == task[curr];
    next := curr.next;
    var t := task[curr];
    left := ticks[t := Field(ticks, t) - 1];
    if left[t] == 0 {
      Rouse(sleep, ready, task, curr, i, s, NodeWalked(s, i));
    }
  }

  ghost function NodeAt(l: List, i: nat): ListNode?
    reads l
  {
    if i < |l.nodes| then l.nodes[i] else null
  }

  // task_set_wakeup and task_set_ready
  method Rouse(sleep: List, ready: List, task: map<ListNode, Tid>, node: ListNode, ghost i: nat, ghost s: Sched,
      ghost s': Sched)
    requires Holds(sleep, ready, task, s)
    requires i < |sleep.nodes| && sleep.nodes[i] == node && task[node] != IDLE
    requires s'.sleep == s.sleep[..i] + s.sleep[i + 1..] && s'.ready == s.ready + [task[node]]
    modifies sleep, ready, sleep.nodes, ready.nodes
    ensures Holds(sleep, ready, task, s') && sleep.nodes == Cut(old(sleep.nodes), i)
  {
    ghost var was, r := sleep.nodes, ready.nodes;
    NamesCut(was, task, i);
    NamesAppend(r, task, node);
    assert forall j :: 0 <= j < |was| ==> was[j] in was;
    CutMembers(was, i);
    sleep.Remove(node, i);
    assert r != [] ==> r[|r| - 1] in r;
    ready.InsertBack(node);
  }

  // The walk of s stands at node i; s1 is the state it has made so far.
  ghost predicate AtNode(sleep: List, ready: List, task: map<ListNode, Tid>, s: Sched, s1: Sched, i: nat,
      curr: ListNode?, left: map<Tid, int>)
    reads sleep, ready, sleep.nodes, ready.nodes
  {
    && Holds(sleep, ready, task, s1) && left == s1.sleepTicks && curr == NodeAt(sleep, i)
    && Midway(s, s1, i)
  }

  lemma WalkBegins(sleep: List, ready: List, task: map<ListNode, Tid>, s: Sched)
    requires Holds(sleep, ready, task, s) && Tasks.Lists(s)
    ensures AtNode(sleep, ready, task, s, s, 0, sleep.first, s.sleepTicks)
  {
    MidwayStarts(s);
    hide Midway;
  }

  lemma WalkEnds(sleep: List, ready: List, task: map<ListNode, Tid>, s: Sched, s1: Sched, i: nat,
      left: map<Tid, int>)
    requires AtNode(sleep, ready, task, s, s1, i, null, left)
    ensures Holds(sleep, ready, task, Walked(s)) && left == Walked(s).sleepTicks
  {
    MidwayEnds(s, s1, i);
    hide Midway, Walked;
  }

  lemma AtCurr(sleep: List, ready: List, task: map<ListNode, Tid>, s: Sched, s1: Sched, i: nat, curr: ListNode,
      left: map<Tid, int>)
    requires AtNode(sleep, ready, task, s, s1, i, curr, left)
    ensures i < |sleep.nodes| && sleep.nodes[i] == curr && |s1.sleep| == |sleep.nodes| && IDLE !in s1.sleep
  {
  }

  // One turn of the loop
  method WalkTurn(sleep: List, ready: List, task: map<ListNode, Tid>, curr: ListNode, left: map<Tid, int>,
      ghost s: Sched, ghost s1: Sched, ghost i: nat)
    returns (next: ListNode?, left': map<Tid, int>, ghost s2: Sched, ghost i': nat)
    requires AtNode(sleep, ready, task, s, s1, i, curr, left)
    modifies sleep, ready, task.Keys
    ensures AtNode(sleep, ready, task, s, s2, i', next, left') && 0 <= |s2.sleep| - i' < |s1.sleep| - i
  {
    AtCurr(sleep, ready, task, s, s1, i, curr, left);
    MidwayNext(s, s1, i);
    hide Midway, NodeWalked, Field, List.Valid, Holds, NodeAt;
    s2 := NodeWalked(s1, i);
    i' := if Field(left, s1.sleep[i]) == 1 then i else i + 1;
    next, left' := WalkNode(sleep, ready, task, curr, i, left, s1);
  }

  // The walk of the sleep list in task_time_tick
  method WalkSleepList(sleep: List, ready: List, task: map<ListNode, Tid>, ticks: map<Tid, int>, ghost s: Sched)
    returns (left: map<Tid, int>)
    requires Holds(sleep, ready, task, s) && ticks == s.sleepTicks && Tasks.Lists(s)
    modifies sleep, ready, task.Keys
    ensures Holds(sleep, ready, task, Walked(s)) && left == Walked(s).sleepTicks
  {
    hide *;
    WalkBegins(sleep, ready, task, s);
    left := ticks;
    ghost var s1, i: nat := s, 0;
    var curr := sleep.first;
    while curr != null
      invariant AtNode(sleep, ready, task, s, s1, i, curr, left)
      decreases |s1.sleep| - i
    {
      curr, left, s1, i := WalkTurn(sleep, ready, task, curr, left, s, s1, i);
    }
    WalkEnds(sleep, ready, task, s, s1, i, left);
  }
}
