// The task manager with the mutexes and semaphores of the kernel: the objects that the transition system of
// Scheduling.dfy describes.
module Kernels {
  import opened Tasks
  import opened TaskManagers
  import opened Mutexes
  import opened Semaphores
  import opened Scheduling

  method MakeLocks(n: nat) returns (ls: seq<Mutex>)
    ensures |ls| == n
    ensures forall m :: 0 <= m < n ==> fresh(ls[m]) && ls[m].id == m && ls[m].State() == Lock(Nobody, 0, [])
  {
    ls := [];
    for m := 0 to n
      invariant |ls| == m
      invariant forall k :: 0 <= k < m ==> fresh(ls[k]) && ls[k].id == k && ls[k].State() == Lock(Nobody, 0, [])
    {
      var l := new Mutex(m);
      ls := ls + [l];
    }
  }

  method MakeSems(counts: seq<nat>) returns (cs: seq<Semaphore>)
    ensures |cs| == |counts|
    ensures forall j :: 0 <= j < |cs| ==> fresh(cs[j]) && cs[j].id == j && cs[j].State() == Sem(counts[j], [])
  {
    cs := [];
    for j := 0 to |counts|
      invariant |cs| == j
      invariant forall k :: 0 <= k < j ==> fresh(cs[k]) && cs[k].id == k && cs[k].State() == Sem(counts[k], [])
    {
      var c := new Semaphore(j, counts[j]);
      cs := cs + [c];
    }
  }

  class Kernel {
    const tm: TaskManager
    const locks: seq<Mutex>
    const sems: seq<Semaphore>

    ghost function State(): System
      reads tm, locks, sems
    {
      System(tm.State(),
             seq(|locks|, m requires 0 <= m < |locks| reads locks => locks[m].State()),
             seq(|sems|, j requires 0 <= j < |sems| reads sems => sems[j].State()))
    }

    // The objects are different ones, and know their numbers.
    ghost predicate Separate() {
      && (forall m :: 0 <= m < |locks| ==> locks[m].id == m)
      && (forall j :: 0 <= j < |sems| ==> sems[j].id == j)
    }

    // The system as it is when the first task starts
    constructor (first: Tid, n: nat, counts: seq<nat>)
      requires first != IDLE
      ensures Separate() && State() == Initial(first, n, counts) && Inv(State())
      ensures fresh(tm) && (forall l :: l in locks ==> fresh(l)) && forall c :: c in sems ==> fresh(c)
    {
      var manager := new TaskManager(first);
      var ls := MakeLocks(n);
      var cs := MakeSems(counts);
      tm, locks, sems := manager, ls, cs;
      InitialInv(first, n, counts);
      new;
      assert State().locks == Initial(first, n, counts).locks;
      assert State().sems == Initial(first, n, counts).sems;
    }

    // The code does what the step says, for every step in every state that a run can reach.
    method Perform(op: Op)
      requires Separate() && Inv(State()) && Enabled(State(), op)
      modifies tm, locks, sems
      ensures State() == Next(old(State()), op) && Inv(State())
    {
      NextKeeps(State(), op);
      match op {
        case Acquire(m) => AcquireLock(m);
        case Release(m) => ReleaseLock(m);
        case Wait(j) => WaitFor(j);
        case Notify(j) => NotifyOne(j);
        case _ => Schedule(op);
      }
    }

    // The steps that involve no mutex and no semaphore
    method Schedule(op: Op)
      requires Inv(State()) && Enabled(State(), op)
      requires op.Tick? || op.Resume? || op.Yield? || op.Sleep? || op.Start? || op.Exit?
      modifies tm
      ensures State() == Next(old(State()), op)
    {
      hide Shape, LocksOk, SemsOk, Ticked, Resumed, Yielded, Slept, Started, Parked;
      match op {
        case Tick => tm.TimeTick();
        case Resume => tm.ResumeTick();
        case Yield => tm.Yield();
        case Sleep(ms) => tm.Sleep(ms);
        case Start(t) => tm.Start(t);
        case Exit => tm.Exit();
      }
    }

    method AcquireLock(m: nat)
      requires Separate() && Inv(State()) && Enabled(State(), Acquire(m))
      modifies tm, locks
      ensures State() == Next(old(State()), Acquire(m))
    {
      assert LockOk(State().tm.place, State().locks[m], m);
      hide Shape, LockOk, SemsOk, Acquired;
      locks[m].Acquire(tm);
      assert State().locks == old(State()).locks[m := locks[m].State()];
    }

    method ReleaseLock(m: nat)
      requires Separate() && Inv(State()) && Enabled(State(), Release(m))
      modifies tm, locks
      ensures State() == Next(old(State()), Release(m))
    {
      assert LockOk(State().tm.place, State().locks[m], m);
      hide Shape, LockOk, SemsOk, Released;
      locks[m].Release(tm);
      assert State().locks == old(State()).locks[m := locks[m].State()];
    }

    method WaitFor(j: nat)
      requires Separate() && Inv(State()) && Enabled(State(), Wait(j))
      modifies tm, sems
      ensures State() == Next(old(State()), Wait(j))
    {
      assert SemOk(State().tm.place, State().sems[j], j);
      hide Shape, SemOk, LocksOk, Waited;
      sems[j].Wait(tm);
      assert State().sems == old(State()).sems[j := sems[j].State()];
    }

    method NotifyOne(j: nat)
      requires Separate() && Inv(State()) && Enabled(State(), Notify(j))
      modifies tm, sems
      ensures State() == Next(old(State()), Notify(j))
    {
      assert SemOk(State().tm.place, State().sems[j], j);
      hide Shape, SemOk, LocksOk, Notified;
      sems[j].Notify(tm);
      assert State().sems == old(State()).sems[j := sems[j].State()];
    }
  }
}
