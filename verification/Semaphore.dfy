// source/kernel/ipc/sem.c: a counting semaphore that hands each signal to the task that has waited longest.
module Semaphores {
  import opened Tasks
  import opened TaskManagers
  import opened Mutexes

  datatype Sem = Sem(count: int, waiters: seq<Tid>)

  // sem_wait up to the dispatch of another task; j is the semaphore.
  function Waited(s: Sched, c: Sem, j: nat): (Sched, Sem) {
    if c.count > 0 then (s, c.(count := c.count - 1))
    else (Parked(s, OnSem(j)), c.(waiters := c.waiters + [s.curr]))
  }

  // sem_notify; an interrupt may do it while no task runs.
  function Notified(s: Sched, c: Sem): (Sched, Sem) {
    if c.waiters != [] then (Dispatched(Readied(s, c.waiters[0])), c.(waiters := c.waiters[1..]))
    else (s, c.(count := c.count + 1))
  }

  ghost predicate SemOk(place: map<Tid, Place>, c: Sem, j: nat) {
    && c.count >= 0
    && (c.count > 0 ==> c.waiters == [])
    && Queue(place, c.waiters, OnSem(j))
  }

  lemma WaitedKeeps(s: Sched, c: Sem, j: nat)
    requires Shape(s) && s.curr != IDLE && s.curr !in s.walking && SemOk(s.place, c, j)
    ensures var (s', c') := Waited(s, c, j);
            Shape(s') && SemOk(s'.place, c', j) && OnlyMoves(s.place, s'.place, Ready, OnSem(j))
    ensures s.curr !in c.waiters
  {
    HeadPlaced(s);
    assert s.curr !in c.waiters;
    if c.count <= 0 {
      ParkedShape(s, OnSem(j));
      QueueJoined(s.place, c.waiters, OnSem(j), s.curr);
    }
  }

  lemma NotifiedKeeps(s: Sched, c: Sem, j: nat)
    requires Shape(s) && s.curr !in s.walking && SemOk(s.place, c, j)
    ensures var (s', c') := Notified(s, c);
            Shape(s') && SemOk(s'.place, c', j) && OnlyMoves(s.place, s'.place, Ready, OnSem(j))
    ensures s.curr != IDLE ==> Notified(s, c).0.curr == s.curr
  {
    if c.waiters != [] {
      WaiterReady(s, c.waiters, OnSem(j));
      QueueLeft(s.place, c.waiters, OnSem(j), Ready);
    }
  }

  class Semaphore {
    const id: nat
    var count: int
    var waitList: seq<Tid>

    ghost function State(): Sem
      reads this
    {
      Sem(count, waitList)
    }

    // sem_init
    constructor (id: nat, count: int)
      ensures this.id == id && State() == Sem(count, [])
    {
      this.id := id;
      this.count, waitList := count, [];
    }

    method Wait(tm: TaskManager)
      requires Shape(tm.State()) && tm.curr != IDLE && tm.curr !in tm.walking
      requires SemOk(tm.State().place, State(), id)
      modifies this, tm
      ensures (tm.State(), State()) == Waited(old(tm.State()), old(State()), id)
      ensures Shape(tm.State()) && SemOk(tm.State().place, State(), id)
    {
      WaitedKeeps(tm.State(), State(), id);
      hide Shape, SemOk, Parked, OnlyMoves;
      if count > 0 {
        count := count - 1;
      } else {
        var curr := tm.curr;
        tm.Park(OnSem(id));
        waitList := waitList + [curr];
      }
    }

    method Notify(tm: TaskManager)
      requires Shape(tm.State()) && tm.curr !in tm.walking
      requires SemOk(tm.State().place, State(), id)
      modifies this, tm
      ensures (tm.State(), State()) == Notified(old(tm.State()), old(State()))
      ensures Shape(tm.State()) && SemOk(tm.State().place, State(), id)
    {
      NotifiedKeeps(tm.State(), State(), id);
      hide Shape, Readied, Dispatched, OnlyMoves, Queue, SemOk;
      if |waitList| > 0 {
        var task := waitList[0];
        waitList := waitList[1..];
        tm.SetReady(task);
        tm.Dispatch();
      } else {
        count := count + 1;
      }
    }
  }
}
