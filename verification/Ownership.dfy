// What holds over whole runs of the memory manager: every frame in use has exactly one owner, and an
// operation on one address space leaves the others alone.
module Ownership {
  import opened Mmu
  import opened Paging
  import opened Spaces
  import opened Teardown
  import opened Access
  import opened Memory
  import opened Budget
  import opened UserCopy
  import opened Args

  // ---- One owner for every frame ----

  // Frame f is referred to as o by what is in memory: by the PDE of a directory, by the PTE of a user page;
  // stacks, directories and frames in hand are referred to by the tasks.
  ghost predicate RefersTo(w: World, o: Owner, f: nat) {
    match o
    case Table(r, i) => IsRoot(w, r) && OwnSlot(w, r, i) && HasTable(w.mem, r, i) && TableOf(w.mem, r, i) == f
    case Page(r, i, j) =>
      IsDirectory(w, r) && 512 <= i < 1024 && j < 1024 && Mapped(w.mem, r, i, j) && PageOf(w.mem, r, i, j) == f
    case _ => Owned(w, f, o)
  }

  ghost predicate OneOwner(w: World) {
    && (forall f :: f in w.owner ==> exists o :: RefersTo(w, o, f))
    && (forall f, o :: RefersTo(w, o, f) ==> f in w.owner)
    && (forall f, o, o' :: RefersTo(w, o, f) && RefersTo(w, o', f) ==> o == o')
  }

  lemma RefersOwned(w: World, o: Owner, f: nat)
    requires Inv(w) && RefersTo(w, o, f)
    ensures Owned(w, f, o)
  {
    match o
    case Table(r, i) => TableOwner(w, r, i);
    case Page(r, i, j) => PageOwner(w, r, i, j);
    case _ =>
  }

  lemma OwnerRefers(w: World, f: nat)
    requires Inv(w) && f in w.owner
    ensures RefersTo(w, w.owner[f], f)
  {
    assert RefersBack(w, f);
  }

  lemma InvOneOwner(w: World)
    requires Inv(w)
    ensures OneOwner(w)
  {
    hide Inv, RefersTo;
    forall f | f in w.owner
      ensures exists o :: RefersTo(w, o, f)
    {
      OwnerRefers(w, f);
    }
    forall f, o | RefersTo(w, o, f)
      ensures Owned(w, f, o)
    {
      RefersOwned(w, o, f);
    }
  }

  // Two directories share no user page and no table of the user half.
  lemma SpacesDisjoint(w: World, a: nat, b: nat, i: nat, j: nat, i': nat, j': nat)
    requires Inv(w) && IsDirectory(w, a) && IsDirectory(w, b) && a != b
    requires 512 <= i < 1024 && 512 <= i' < 1024 && j < 1024 && j' < 1024
    ensures HasTable(w.mem, a, i) && HasTable(w.mem, b, i') ==> TableOf(w.mem, a, i) != TableOf(w.mem, b, i')
    ensures Mapped(w.mem, a, i, j) && Mapped(w.mem, b, i', j') ==> PageOf(w.mem, a, i, j) != PageOf(w.mem, b, i', j')
    ensures HasTable(w.mem, a, i) && Mapped(w.mem, b, i', j') ==> TableOf(w.mem, a, i) != PageOf(w.mem, b, i', j')
  {
    assert HasTable(w.mem, a, i) ==> Owned(w, TableOf(w.mem, a, i), Table(a, i)) by {
      assert OwnSlot(w, a, i);
    }
    assert HasTable(w.mem, b, i') ==> Owned(w, TableOf(w.mem, b, i'), Table(b, i')) by {
      assert OwnSlot(w, b, i');
    }
    if Mapped(w.mem, a, i, j) {
      PageOwner(w, a, i, j);
    }
    if Mapped(w.mem, b, i', j') {
      PageOwner(w, b, i', j');
    }
  }

  // What memory_copy_uvm2 achieves, seen by a program: at every address of the user half the new space has the
  // same access rights and the same byte as the old one, but in another frame, and no other space has changed.
  lemma ForkedSpace(w: World, w': World, from: nat, to: nat, va: Word)
    requires CopyGround(w, from, to) && Grown(w, w', to) && SameUserHalf(w'.mem, from, to) && 0x8000_0000 <= va
    ensures VaMapped(w'.mem, to, va) <==> VaMapped(w.mem, from, va)
    ensures VaMapped(w.mem, from, va) ==>
              && VaMapped(w'.mem, from, va) && VaByte(w'.mem, from, va) == VaByte(w.mem, from, va)
              && VaByte(w'.mem, to, va) == VaByte(w.mem, from, va)
              && VaFrame(w'.mem, to, va) != VaFrame(w'.mem, from, va)
              && Perm(Pte(w'.mem, to, PdeIndex(va), PteIndex(va))) == Perm(Pte(w.mem, from, PdeIndex(va), PteIndex(va)))
    ensures forall r :: IsRoot(w, r) && r != to ==> SameSpace(w.mem, w'.mem, r)
  {
    VaPage(va);
    var i, j := PdeIndex(va), PteIndex(va);
    assert SameSlot(w'.mem, from, to, i, j);
    assert IsDirectory(w', from) && IsDirectory(w', to);
    assert SameSpace(w.mem, w'.mem, from);
    SameSpacePte(w.mem, w'.mem, from, i, j);
    if Mapped(w.mem, from, i, j) {
      SpacesDisjoint(w', from, to, i, j, i, j);
      PageOwner(w, from, i, j);
    }
  }

  // Every table is entered with all rights, whoever made it, so that the rights of a page are those of its own entry.
  lemma TablesOpen(w: World, r: nat, i: nat)
    requires Inv(w) && IsRoot(w, r) && HasTable(w.mem, r, i)
    ensures At(w.mem, r, i) == TableOf(w.mem, r, i) * 4096 + 7
  {
    TableOwner(w, r, i);
    assert RefersBack(w, TableOf(w.mem, r, i));
  }

  // ---- Physical addresses of the pool are virtual addresses of every space ----

  // The kernel follows pointers that are physical addresses of directories and tables. Whatever space is in
  // use, the processor translates them to themselves.
  lemma IdentityEverywhere(w: World, r: nat, pa: nat)
    requires Inv(w) && Identity(w) && IsRoot(w, r) && w.lo <= pa / 4096 < w.hi
    ensures pa < 0x8000_0000 && VaMapped(w.mem, r, pa) && VaFrame(w.mem, r, pa) * 4096 + Offset(pa) == pa
  {
    var f := pa / 4096;
    VaPage(pa);
    assert PdeIndex(pa) == f / 1024 && PteIndex(pa) == f % 1024;
    assert Mapped(w.mem, w.kdir, f / 1024, f % 1024) && PageOf(w.mem, w.kdir, f / 1024, f % 1024) == f;
    if r != w.kdir {
      IdentityAt(w, r, f);
    }
  }

  lemma IdentityKept(w: World, w': World)
    requires Identity(w) && SameSpace(w.mem, w'.mem, w.kdir)
    requires w'.kdir == w.kdir && w'.lo == w.lo && w'.hi == w.hi
    ensures Identity(w')
  {
    forall f: nat | w.lo <= f < w.hi
      ensures Mapped(w'.mem, w.kdir, f / 1024, f % 1024) && PageOf(w'.mem, w.kdir, f / 1024, f % 1024) == f
    {
      assert Mapped(w.mem, w.kdir, f / 1024, f % 1024);
    }
  }

  // ---- Runs ----

  // The operations. Write stands for every store on behalf of d: by its program, by memory_copy_uvm_data, or by
  // copy_args, to pages of d, to kernel stacks, or to kernel memory outside of the pool.
  datatype Op =
    | Create
    | Alloc(d: nat, va: Word, size: Word, perm: nat)
    | Fork(from: nat, to: nat)
    | Destroy(d: nat)
    | TakeStack
    | FreeStack(f: nat)
    | Write(d: nat)

  // m' differs from w.mem in data frames only, and in no user page of another directory than d.
  ghost predicate OnlyStores(w: World, m': Mem, d: nat) {
    && |m'| == |w.mem|
    && forall f :: 0 <= f < |m'| && m'[f] != w.mem[f] ==>
         IsData(w, f) && (f in w.owner && w.owner[f].Page? ==> w.owner[f].root == d)
  }

  // What one operation may do to the world w: the postconditions of the methods of MemoryManager (Perform).
  ghost predicate Step(w: World, op: Op, w': World) {
    match op
    case Create => (PoolFull(w) && w' == w) || exists d :: Created(w, w', d)
    case Alloc(d, va, size, perm) =>
      UserRequest(w, d, va, size, perm) && exists n, reached, leak :: Filled(w, w', d, va, size, perm, n, reached, leak)
    case Fork(from, to) =>
      CopyGround(w, from, to) && exists res, leak :: Forked(w, w', from, to, res, leak)
    case Destroy(d) => IsDirectory(w, d) && w' == Remove(w, d)
    case TakeStack => (PoolFull(w) && w' == w) || exists f :: w.lo <= f < w.hi && f !in w.owner && w' == Take(w, f, Stack)
    case FreeStack(f) => Owned(w, f, Stack) && w' == Return(w, f)
    case Write(d) => IsDirectory(w, d) && w' == w.(mem := w'.mem) && OnlyStores(w, w'.mem, d)
  }

  // The directory that an operation works on, if any
  predicate Targets(op: Op, r: nat) {
    match op
    case Alloc(d, _, _, _) => d == r
    case Fork(_, to) => to == r
    case Destroy(d) => d == r
    case Write(d) => d == r
    case _ => false
  }

  // One operation keeps the invariant, and every space that it does not work on.
  ghost predicate StepKeeps(w: World, op: Op, w': World) {
    && Inv(w') && w'.kdir == w.kdir && w'.lo == w.lo && w'.hi == w.hi
    && forall r :: IsRoot(w, r) && !Targets(op, r) ==> IsRoot(w', r) && SameSpace(w.mem, w'.mem, r)
  }

  lemma StepSafe(w: World, op: Op, w': World)
    requires Inv(w) && Step(w, op, w')
    ensures StepKeeps(w, op, w')
  {
    match op
    case Create => CreateSafe(w, w');
    case Alloc(d, va, size, perm) => AllocSafe(w, w', d, va, size, perm);
    case Fork(from, to) => ForkSafe(w, w', from, to);
    case Destroy(d) => RemoveKeeps(w, d); Unmoved(w);
    case TakeStack => StackSafe(w, w');
    case FreeStack(f) => ReturnKeeps(w, f); Unmoved(w);
    case Write(d) => WriteSafe(w, w', d);
  }

  lemma Unmoved(w: World)
    ensures forall r :: SameSpace(w.mem, w.mem, r)
  {
  }

  lemma CreateSafe(w: World, w': World)
    requires Inv(w) && Step(w, Create, w')
    ensures StepKeeps(w, Create, w')
  {
    hide Inv, SameSpace;
    Unmoved(w);
  }

  lemma AllocSafe(w: World, w': World, d: nat, va: Word, size: Word, perm: nat)
    requires Inv(w) && Step(w, Alloc(d, va, size, perm), w')
    ensures StepKeeps(w, Alloc(d, va, size, perm), w')
  {
    hide Inv, SameSpace, UserRequest;
    var n, reached, leak :| Filled(w, w', d, va, size, perm, n, reached, leak);
    if leak != 0 {
      TakeKeeps(reached, leak, InHand);
      assert forall r :: IsRoot(w, r) ==> IsRoot(w', r);
    }
  }

  lemma ForkSafe(w: World, w': World, from: nat, to: nat)
    requires Inv(w) && Step(w, Fork(from, to), w')
    ensures StepKeeps(w, Fork(from, to), w')
  {
    hide Inv, SameSpace, SameUserHalf, SameData, LacksTable, UserPages, UserSlots;
    var res, leak :| Forked(w, w', from, to, res, leak);
  }

  lemma StackSafe(w: World, w': World)
    requires Inv(w) && Step(w, TakeStack, w')
    ensures StepKeeps(w, TakeStack, w')
  {
    Unmoved(w);
    if w' != w {
      var f :| w.lo <= f < w.hi && f !in w.owner && w' == Take(w, f, Stack);
      TakeKeeps(w, f, Stack);
    }
  }

  lemma WriteSafe(w: World, w': World, d: nat)
    requires Inv(w) && Step(w, Write(d), w')
    ensures StepKeeps(w, Write(d), w')
  {
    DataWriteKeeps(w, w'.mem);
    forall r | IsRoot(w, r) && r != d
      ensures SameSpace(w.mem, w'.mem, r)
    {
      DataWriteSpace(w, w'.mem, r);
    }
  }

  // The methods do what the operations say.
  method Perform(mm: MemoryManager, op: Op)
    requires mm.Valid() && CanPerform(mm.State(), mm.cr3, op)
    modifies mm`owner, mm.frames, mm.alloc, mm.alloc.bitmap.bits
    ensures mm.Valid() && Step(old(mm.State()), op, mm.State())
  {
    assert mm.frames as object != mm.alloc.bitmap.bits;
    hide Inv, MemoryManager.Valid, Created, UserRequest, Filled, CopyGround, Forked, PoolFull, Remove, Return, Take;
    match op {
      case Create =>
        var d := mm.CreateUvm();
      case Alloc(d, va, size, perm) =>
        var r;
        ghost var n, reached, leak;
        r, n, reached, leak := mm.AllocForPageDir(d, va, size, perm);
      case Fork(from, to) =>
        ForkGround(mm.State(), from, to);
        var res;
        ghost var leak;
        res, leak := mm.CopyUvm2(from, to);
      case Destroy(d) =>
        mm.DestroyUvm(d);
      case TakeStack =>
        ghost var w := mm.State();
        StackTaken(w);
        var f := mm.AllocStack();
        assert f != 0 ==> mm.State() == Take(w, f, Stack);
      case FreeStack(f) =>
        StackFreed(mm.State(), f);
        mm.FreePage(f);
    }
  }

  ghost predicate CanPerform(w: World, cr3: nat, op: Op) {
    match op
    case Create => true
    case Alloc(d, va, size, perm) => UserRequest(w, d, va, size, perm)
    case Fork(from, to) => from == cr3 && CopyGround(w, from, to)
    case Destroy(d) => IsDirectory(w, d)
    case TakeStack => true
    case FreeStack(f) => Owned(w, f, Stack)
    case Write(d) => false
  }

  lemma ForkGround(w: World, from: nat, to: nat)
    requires CopyGround(w, from, to)
    ensures IsDirectory(w, from) && IsDirectory(w, to) && to != from && to != 0 && EmptyUserHalf(w.mem, to)
  {
  }

  lemma StackTaken(w: World)
    ensures forall f :: Take(w, f, Stack) == w.(owner := w.owner[f := Stack])
  {
  }

  lemma StackFreed(w: World, f: nat)
    requires Owned(w, f, Stack)
    ensures Return(w, f) == w.(owner := w.owner - {f}) && f in w.owner && w.owner[f].Stack?
  {
  }

  // The stores of memory_copy_uvm_data and copy_args are operations, too.
  lemma CopyIsWrite(w: World, m': Mem, d: nat)
    requires Inv(w) && IsDirectory(w, d) && OnlyCopied(w, m', d)
    ensures Step(w, Write(d), w.(mem := m'))
  {
  }

  lemma ArgsIsWrite(w: World, m': Mem, d: nat, stack: nat)
    requires Inv(w) && IsDirectory(w, d) && Owned(w, stack, Stack) && OnlyArgs(w, m', d, stack)
    ensures Step(w, Write(d), w.(mem := m'))
  {
  }

  // sys_fork tests the result of the copy for being below 0. As an unsigned number it never is, so the failure
  // goes unnoticed and the child starts with this number as its page directory.
  lemma ForkFailureUnseen(w: World, w': World, from: nat, to: nat, res: Word, leak: nat)
    requires Forked(w, w', from, to, res, leak)
    ensures !(res < 0)
    ensures Free(w) < |UserPages(w.mem, from)| + |UserSlots(w.mem, from)| ==>
      res == 0xFFFF_FFFF && !IsDirectory(w', to) && !IsDirectory(w', res / 4096)
  {
    hide UserPages, UserSlots, LacksTable, Grown, SameUserHalf, SameData, SameSpace;
  }

  // A run: ops[k] leads from ws[k] to ws[k + 1].
  ghost predicate Run(ws: seq<World>, ops: seq<Op>) {
    |ws| == |ops| + 1 && forall k :: 0 <= k < |ops| ==> Step(ws[k], ops[k], ws[k + 1])
  }

  // After any run every frame in use has exactly one owner, all directories agree with the kernel's on the
  // lower half, and the pool is still mapped onto itself.
  lemma {:induction false} OwnershipOverRuns(ws: seq<World>, ops: seq<Op>)
    requires Run(ws, ops) && Inv(ws[0]) && Identity(ws[0])
    ensures Inv(ws[|ops|]) && Identity(ws[|ops|])
    ensures OneOwner(ws[|ops|]) && KernelShared(ws[|ops|])
  {
    if ops == [] {
      InvOneOwner(ws[0]);
    } else {
      StepSafe(ws[0], ops[0], ws[1]);
      assert IsRoot(ws[0], ws[0].kdir);
      assert !Targets(ops[0], ws[0].kdir) by {
        KernelNoTarget(ws[0], ops[0], ws[1]);
      }
      IdentityKept(ws[0], ws[1]);
      RunTail(ws, ops);
      OwnershipOverRuns(ws[1..], ops[1..]);
    }
  }

  lemma KernelNoTarget(w: World, op: Op, w': World)
    requires Inv(w) && Step(w, op, w')
    ensures !Targets(op, w.kdir)
  {
    assert !IsDirectory(w, w.kdir);
  }

  lemma RunTail(ws: seq<World>, ops: seq<Op>)
    requires Run(ws, ops) && ops != []
    ensures Run(ws[1..], ops[1..]) && ws[1..][|ops[1..]|] == ws[|ops|]
  {
    hide Step;
    forall k | 0 <= k < |ops| - 1
      ensures Step(ws[1..][k], ops[1..][k], ws[1..][k + 1])
    {
      assert Step(ws[k + 1], ops[k + 1], ws[k + 1 + 1]);
    }
  }

  // A space that no operation of a run works on is the same at its end: same translation of every page,
  // same bytes in every user page.
  lemma {:induction false} IsolationOverRuns(ws: seq<World>, ops: seq<Op>, r: nat)
    requires Run(ws, ops) && Inv(ws[0]) && IsRoot(ws[0], r)
    requires forall k :: 0 <= k < |ops| ==> !Targets(ops[k], r)
    ensures IsRoot(ws[|ops|], r) && SameSpace(ws[0].mem, ws[|ops|].mem, r)
  {
    hide Step, Inv, SameSpace;
    if ops == [] {
      Unmoved(ws[0]);
    } else {
      StepSafe(ws[0], ops[0], ws[1]);
      RunTail(ws, ops);
      IsolationOverRuns(ws[1..], ops[1..], r);
      SameSpaceTransitive(ws[0].mem, ws[1].mem, ws[|ops|].mem, r);
    }
  }

  // Destroying undoes building: a directory d is created, its space grows in whatever way, and it is
  // destroyed. Then exactly the frames that were in use before are, for the same purposes, and every other
  // space is as it was.
  lemma DestroyUndoesBuild(w: World, w1: World, w2: World, d: nat)
    requires Inv(w) && Created(w, w1, d) && Grown(w1, w2, d)
    ensures Remove(w2, d).owner == w.owner && Inv(Remove(w2, d))
    ensures forall r :: IsRoot(w, r) ==> SameSpace(w.mem, w2.mem, r)
  {
    GrowthUndone(w1, w2, d);
    hide Inv, SameSpace, SameData;
    assert w1.owner - {d} == w.owner;
    forall r | IsRoot(w, r)
      ensures SameSpace(w.mem, w2.mem, r)
    {
      assert IsRoot(w1, r) && r != d;
      SameSpaceTransitive(w.mem, w1.mem, w2.mem, r);
    }
  }
}
