// Page tables inside physical memory, and who owns which page frame.
//
// Physical memory is a sequence of frames, indexed by physical address / 4096. Directories, page tables
// and data share it. A directory is named by the number of the frame that holds it.
module Paging {
  import opened Mmu

  type Mem = seq<Frame>

  // Word k of frame f; 0 outside of memory.
  function At(m: Mem, f: nat, k: nat): Word {
    if f < |m| && k < 1024 then m[f][k] else 0
  }

  predicate HasTable(m: Mem, r: nat, i: nat) {
    Present(At(m, r, i))
  }

  function TableOf(m: Mem, r: nat, i: nat): nat {
    FrameNo(At(m, r, i))
  }

  // The page-table entry that directory r has for page (i, j): 0 when there is no table.
  function Pte(m: Mem, r: nat, i: nat, j: nat): Word {
    if HasTable(m, r, i) then At(m, TableOf(m, r, i), j) else 0
  }

  predicate Mapped(m: Mem, r: nat, i: nat, j: nat) {
    Present(Pte(m, r, i, j))
  }

  function PageOf(m: Mem, r: nat, i: nat, j: nat): nat {
    FrameNo(Pte(m, r, i, j))
  }

  // What a frame of the pool is used for. InHand is a frame that was taken from the allocator and not
  // put to use yet; a frame that stays InHand after an operation has leaked.
  datatype Owner =
    | InHand
    | Stack
    | Directory
    | Table(root: nat, i: nat)
    | Page(root: nat, i: nat, j: nat)

  // mem: physical memory; owner: the frames taken from the pool [lo, hi); kdir: the kernel's page directory
  datatype World = World(mem: Mem, owner: map<nat, Owner>, kdir: nat, lo: nat, hi: nat)

  predicate Owned(w: World, f: nat, o: Owner) {
    f in w.owner && w.owner[f] == o
  }

  predicate IsDirectory(w: World, r: nat) {
    Owned(w, r, Directory)
  }

  predicate IsRoot(w: World, r: nat) {
    r == w.kdir || IsDirectory(w, r)
  }

  // The kernel directory owns the tables of the lower half; every other one those of the upper half.
  predicate OwnSlot(w: World, r: nat, i: nat) {
    if r == w.kdir then i < 512 else 512 <= i < 1024
  }

  ghost predicate PoolOk(w: World) {
    && w.kdir < w.lo <= w.hi <= |w.mem| <= 0x10_0000
    && w.hi <= 0x8_0000
    && forall f :: f in w.owner ==> w.lo <= f < w.hi
  }

  ghost predicate TablesOwned(w: World) {
    forall r, i :: IsRoot(w, r) && OwnSlot(w, r, i) && HasTable(w.mem, r, i)
                   ==> Owned(w, TableOf(w.mem, r, i), Table(r, i))
  }

  ghost predicate PagesOwned(w: World) {
    forall r, i, j :: IsDirectory(w, r) && 512 <= i < 1024 && j < 1024 && Mapped(w.mem, r, i, j)
                      ==> Owned(w, PageOf(w.mem, r, i, j), Page(r, i, j))
  }

  ghost predicate KernelShared(w: World) {
    && (forall r, i :: IsDirectory(w, r) && i < 512 ==> At(w.mem, r, i) == At(w.mem, w.kdir, i))
    && (forall i :: 512 <= i ==> !HasTable(w.mem, w.kdir, i))
  }

  // The owner recorded for a frame really refers to it. A table is entered as present, writable, and open to user
  // programs, so that the rights are those of the page-table entries.
  ghost predicate RefersBack(w: World, f: nat)
    requires f in w.owner
  {
    match w.owner[f]
    case InHand => true
    case Stack => true
    case Directory => true
    case Table(r, i) =>
      && IsRoot(w, r) && OwnSlot(w, r, i) && HasTable(w.mem, r, i) && TableOf(w.mem, r, i) == f
      && At(w.mem, r, i) == f * 4096 + 7
    case Page(r, i, j) =>
      IsDirectory(w, r) && 512 <= i < 1024 && j < 1024 && Mapped(w.mem, r, i, j) && PageOf(w.mem, r, i, j) == f
  }

  // An entry that is not present is 0: fresh tables are cleared, and only present entries are stored.
  ghost predicate Blank(w: World) {
    forall r, i, j :: IsRoot(w, r) && !Mapped(w.mem, r, i, j) ==> Pte(w.mem, r, i, j) == 0
  }

  ghost predicate Inv(w: World) {
    && PoolOk(w)
    && TablesOwned(w)
    && PagesOwned(w)
    && KernelShared(w)
    && Blank(w)
    && forall f :: f in w.owner ==> RefersBack(w, f)
  }

  lemma BlankKept(w: World, w': World)
    requires Blank(w)
    requires forall r :: IsRoot(w', r) ==> IsRoot(w, r) && SameSpace(w.mem, w'.mem, r)
    ensures Blank(w')
  {
    forall r, i, j | IsRoot(w', r) && !Mapped(w'.mem, r, i, j)
      ensures Pte(w'.mem, r, i, j) == 0
    {
      assert Pte(w'.mem, r, i, j) == Pte(w.mem, r, i, j) && !Mapped(w.mem, r, i, j);
    }
  }

  // Every table that a directory reaches is owned: by the kernel directory in the lower half.
  lemma TableOwner(w: World, r: nat, i: nat)
    requires Inv(w) && IsRoot(w, r) && HasTable(w.mem, r, i)
    ensures Owned(w, TableOf(w.mem, r, i), Table(if i < 512 then w.kdir else r, i))
  {
    assert i < 1024;
    if i < 512 {
      assert At(w.mem, r, i) == At(w.mem, w.kdir, i);
      assert OwnSlot(w, w.kdir, i) && IsRoot(w, w.kdir) && HasTable(w.mem, w.kdir, i);
    } else {
      assert OwnSlot(w, r, i);
    }
  }

  // Directory r translates every page as before, and its user pages hold the same bytes.
  ghost predicate SameSpace(m: Mem, m': Mem, r: nat) {
    && |m'| == |m|
    && (forall i, j :: Pte(m', r, i, j) == Pte(m, r, i, j))
    && (forall i, j :: 512 <= i < 1024 && j < 1024 && Mapped(m, r, i, j) && PageOf(m, r, i, j) < |m|
                       ==> m'[PageOf(m, r, i, j)] == m[PageOf(m, r, i, j)])
  }

  lemma SameSpaceTransitive(m0: Mem, m1: Mem, m2: Mem, r: nat)
    requires SameSpace(m0, m1, r) && SameSpace(m1, m2, r)
    ensures SameSpace(m0, m2, r)
  {
    forall i, j | 512 <= i < 1024 && j < 1024 && Mapped(m0, r, i, j) && PageOf(m0, r, i, j) < |m0|
      ensures m2[PageOf(m0, r, i, j)] == m0[PageOf(m0, r, i, j)]
    {
      assert Mapped(m1, r, i, j) && PageOf(m1, r, i, j) == PageOf(m0, r, i, j);
    }
  }

  // ---- Small steps ----

  function Take(w: World, f: nat, o: Owner): World {
    w.(owner := w.owner[f := o])
  }

  lemma TakeKeeps(w: World, f: nat, o: Owner)
    requires Inv(w) && w.lo <= f < w.hi && f !in w.owner && (o == InHand || o == Stack)
    ensures Inv(Take(w, f, o))
  {
    var w' := Take(w, f, o);
    assert forall r :: IsRoot(w', r) <==> IsRoot(w, r);
    assert forall g, x :: Owned(w, g, x) ==> Owned(w', g, x);
    forall g | g in w'.owner
      ensures RefersBack(w', g)
    {
      if g != f {
        assert RefersBack(w, g);
      }
    }
  }

  // find_pte with alloc = 1 on an absent PDE: frame t is cleared and becomes table i of directory r.
  function InstallTable(w: World, r: nat, i: nat, t: nat): World
    requires r < |w.mem| && i < 1024 && t < |w.mem| && t < 0x10_0000
  {
    w.(mem := w.mem[r := w.mem[r][i := Entry(t, 7)]][t := ZeroFrame()], owner := w.owner[t := Table(r, i)])
  }

  ghost predicate CanInstallTable(w: World, r: nat, i: nat, t: nat) {
    && Inv(w)
    && Owned(w, t, InHand)
    && IsRoot(w, r) && OwnSlot(w, r, i) && !HasTable(w.mem, r, i)
    && (r == w.kdir ==> forall d :: !IsDirectory(w, d))
  }

  lemma InstallTableAt(w: World, r: nat, i: nat, t: nat, f: nat, k: nat)
    requires CanInstallTable(w, r, i, t)
    ensures At(InstallTable(w, r, i, t).mem, f, k)
         == if f == t then 0 else if f == r && k == i then Entry(t, 7) else At(w.mem, f, k)
  {
  }

  lemma InstallTableKeepsPtes(w: World, r: nat, i: nat, t: nat, r': nat, i': nat, j: nat)
    requires CanInstallTable(w, r, i, t)
    requires IsRoot(w, r')
    ensures Pte(InstallTable(w, r, i, t).mem, r', i', j) == Pte(w.mem, r', i', j)
  {
    InstallTableAt(w, r, i, t, r', i');
    EntryFields(t, 7);
    if r' == r && i' == i {
      InstallTableAt(w, r, i, t, t, j);
    } else if HasTable(w.mem, r', i') {
      TableOwner(w, r', i');
      InstallTableAt(w, r, i, t, TableOf(w.mem, r', i'), j);
    }
  }

  lemma InstallTableKeeps(w: World, r: nat, i: nat, t: nat)
    requires CanInstallTable(w, r, i, t)
    ensures Inv(InstallTable(w, r, i, t))
    ensures forall r' :: IsRoot(w, r') ==> SameSpace(w.mem, InstallTable(w, r, i, t).mem, r')
  {
    var w' := InstallTable(w, r, i, t);
    forall r' | IsRoot(w, r')
      ensures SameSpace(w.mem, w'.mem, r')
    {
      forall i', j
        ensures Pte(w'.mem, r', i', j) == Pte(w.mem, r', i', j)
      {
        InstallTableKeepsPtes(w, r, i, t, r', i', j);
      }
      forall i', j | 512 <= i' < 1024 && j < 1024 && Mapped(w.mem, r', i', j)
        ensures w'.mem[PageOf(w.mem, r', i', j)] == w.mem[PageOf(w.mem, r', i', j)]
      {
        assert HasTable(w.mem, r', i');
        assert IsDirectory(w, r');
        assert Owned(w, PageOf(w.mem, r', i', j), Page(r', i', j));
      }
    }
    InstallTableInv(w, r, i, t);
  }

  lemma InstallTableInv(w: World, r: nat, i: nat, t: nat)
    requires CanInstallTable(w, r, i, t)
    requires forall r' :: IsRoot(w, r') ==> SameSpace(w.mem, InstallTable(w, r, i, t).mem, r')
    ensures Inv(InstallTable(w, r, i, t))
  {
    var w' := InstallTable(w, r, i, t);
    assert forall r' :: IsRoot(w', r') ==> IsRoot(w, r');
    BlankKept(w, w');
    hide Blank;
    assert PoolOk(w');
    assert TablesOwned(w') && KernelShared(w') by {
      InstallTableSlots(w, r, i, t);
    }
    assert PagesOwned(w') by {
      forall r', i', j | IsDirectory(w', r') && 512 <= i' < 1024 && j < 1024 && Mapped(w'.mem, r', i', j)
        ensures Owned(w', PageOf(w'.mem, r', i', j), Page(r', i', j))
      {
        assert IsDirectory(w, r') && SameSpace(w.mem, w'.mem, r');
        assert Mapped(w.mem, r', i', j);
      }
    }
    forall f | f in w'.owner
      ensures RefersBack(w', f)
    {
      InstallTableRefersBack(w, r, i, t, f);
    }
  }

  lemma InstallTableSlots(w: World, r: nat, i: nat, t: nat)
    requires CanInstallTable(w, r, i, t)
    ensures TablesOwned(InstallTable(w, r, i, t)) && KernelShared(InstallTable(w, r, i, t))
  {
    hide Blank;
    var w' := InstallTable(w, r, i, t);
    EntryFields(t, 7);
    forall r', i' | IsRoot(w', r')
      ensures At(w'.mem, r', i') == if r' == r && i' == i then Entry(t, 7) else At(w.mem, r', i')
    {
      assert IsRoot(w, r') && r' != t;
      InstallTableAt(w, r, i, t, r', i');
    }
    forall r', i' | IsRoot(w', r') && OwnSlot(w', r', i') && HasTable(w'.mem, r', i')
      ensures Owned(w', TableOf(w'.mem, r', i'), Table(r', i'))
    {
      if !(r' == r && i' == i) {
        assert HasTable(w.mem, r', i') && IsRoot(w, r') && OwnSlot(w, r', i');
      }
    }
    forall i' | 512 <= i'
      ensures !HasTable(w'.mem, w'.kdir, i')
    {
      assert At(w'.mem, w.kdir, i') == At(w.mem, w.kdir, i') && !HasTable(w.mem, w.kdir, i');
    }
    forall r', i' | IsDirectory(w', r') && i' < 512
      ensures At(w'.mem, r', i') == At(w'.mem, w.kdir, i')
    {
      assert IsDirectory(w, r') && At(w.mem, r', i') == At(w.mem, w.kdir, i');
    }
  }

  lemma InstallTableRefersBack(w: World, r: nat, i: nat, t: nat, f: nat)
    requires CanInstallTable(w, r, i, t)
    requires f in InstallTable(w, r, i, t).owner
    requires forall r' :: IsRoot(w, r') ==> SameSpace(w.mem, InstallTable(w, r, i, t).mem, r')
    ensures RefersBack(InstallTable(w, r, i, t), f)
  {
    hide Blank;
    EntryFields(t, 7);
    if f != t {
      assert RefersBack(w, f);
      match w.owner[f]
      case Table(r', i') => InstallTableAt(w, r, i, t, r', i');
      case Page(r', i', j') => assert SameSpace(w.mem, InstallTable(w, r, i, t).mem, r');
      case _ =>
    }
  }

  // memory_create_map for one page: the entry of page (i, j) of directory r is set to frame p.
  function InstallPage(w: World, r: nat, i: nat, j: nat, p: nat, perm: nat): World
    requires TableOf(w.mem, r, i) < |w.mem| && j < 1024 && p < 0x10_0000 && perm < 4096
  {
    var t := TableOf(w.mem, r, i);
    w.(mem := w.mem[t := w.mem[t][j := Entry(p, perm)]],
       owner := if r == w.kdir then w.owner else w.owner[p := Page(r, i, j)])
  }

  ghost predicate CanInstallPage(w: World, r: nat, i: nat, j: nat, p: nat, perm: nat) {
    && Inv(w)
    && IsRoot(w, r) && OwnSlot(w, r, i) && HasTable(w.mem, r, i) && j < 1024 && !Mapped(w.mem, r, i, j)
    && p < 0x10_0000 && perm < 4096
    && (r == w.kdir || Owned(w, p, InHand))
    && (r == w.kdir ==> forall d :: !IsDirectory(w, d))
  }

  lemma InstallPagePtes(w: World, r: nat, i: nat, j: nat, p: nat, perm: nat, r': nat, i': nat, j': nat)
    requires CanInstallPage(w, r, i, j, p, perm)
    requires IsRoot(w, r')
    ensures TableOf(w.mem, r, i) < |w.mem|
    ensures At(InstallPage(w, r, i, j, p, perm).mem, r', i') == At(w.mem, r', i')
    ensures Pte(InstallPage(w, r, i, j, p, perm).mem, r', i', j')
         == if r' == r && i' == i && j' == j then Entry(p, perm) else Pte(w.mem, r', i', j')
  {
    assert Owned(w, TableOf(w.mem, r, i), Table(r, i));
    if HasTable(w.mem, r', i') {
      TableOwner(w, r', i');
    }
  }

  lemma InstallPageKeeps(w: World, r: nat, i: nat, j: nat, p: nat, perm: nat)
    requires CanInstallPage(w, r, i, j, p, perm)
    ensures TableOf(w.mem, r, i) < |w.mem|
    ensures Inv(InstallPage(w, r, i, j, p, perm))
    ensures forall r' :: IsRoot(w, r') && r' != r ==> SameSpace(w.mem, InstallPage(w, r, i, j, p, perm).mem, r')
  {
    assert Owned(w, TableOf(w.mem, r, i), Table(r, i));
    var w' := InstallPage(w, r, i, j, p, perm);
    forall r', i', j' | IsRoot(w, r')
      ensures At(w'.mem, r', i') == At(w.mem, r', i')
      ensures Pte(w'.mem, r', i', j')
           == if r' == r && i' == i && j' == j then Entry(p, perm) else Pte(w.mem, r', i', j')
    {
      InstallPagePtes(w, r, i, j, p, perm, r', i', j');
    }
    forall r' | IsRoot(w, r') && r' != r
      ensures SameSpace(w.mem, w'.mem, r')
    {
      forall i', j' | 512 <= i' < 1024 && j' < 1024 && Mapped(w.mem, r', i', j')
        ensures w'.mem[PageOf(w.mem, r', i', j')] == w.mem[PageOf(w.mem, r', i', j')]
      {
        assert HasTable(w.mem, r', i');
        assert Owned(w, PageOf(w.mem, r', i', j'), Page(r', i', j'));
      }
    }
    InstallPageInv(w, r, i, j, p, perm);
  }

  // What the store of an entry does to directories and tables
  ghost predicate PageInstalled(w: World, w': World, r: nat, i: nat, j: nat, p: nat, perm: nat)
    requires p < 0x10_0000 && perm < 4096
  {
    && w'.kdir == w.kdir && w'.lo == w.lo && w'.hi == w.hi && |w'.mem| == |w.mem|
    && w'.owner == (if r == w.kdir then w.owner else w.owner[p := Page(r, i, j)])
    && (forall r', i' :: IsRoot(w, r') ==> At(w'.mem, r', i') == At(w.mem, r', i'))
    && forall r', i', j' :: IsRoot(w, r') ==>
         Pte(w'.mem, r', i', j') == if r' == r && i' == i && j' == j then Entry(p, perm) else Pte(w.mem, r', i', j')
  }

  lemma InstallPageInv(w: World, r: nat, i: nat, j: nat, p: nat, perm: nat)
    requires CanInstallPage(w, r, i, j, p, perm)
    requires TableOf(w.mem, r, i) < |w.mem|
    requires forall r', i' :: IsRoot(w, r') ==> At(InstallPage(w, r, i, j, p, perm).mem, r', i') == At(w.mem, r', i')
    requires forall r', i', j' :: IsRoot(w, r') ==>
               Pte(InstallPage(w, r, i, j, p, perm).mem, r', i', j')
               == if r' == r && i' == i && j' == j then Entry(p, perm) else Pte(w.mem, r', i', j')
    ensures Inv(InstallPage(w, r, i, j, p, perm))
  {
    var w' := InstallPage(w, r, i, j, p, perm);
    EntryFields(p, perm);
    assert PageInstalled(w, w', r, i, j, p, perm) && PoolOk(w');
    hide PageInstalled, CanInstallPage, PoolOk, TablesOwned, PagesOwned, KernelShared, Blank, RefersBack;
    InstalledTables(w, w', r, i, j, p, perm);
    InstalledPages(w, w', r, i, j, p, perm);
    InstalledOwners(w, w', r, i, j, p, perm);
  }

  lemma SameRoots(w: World, w': World, r: nat, i: nat, j: nat, p: nat, perm: nat)
    requires CanInstallPage(w, r, i, j, p, perm) && PageInstalled(w, w', r, i, j, p, perm)
    ensures forall r' :: IsRoot(w', r') <==> IsRoot(w, r')
    ensures forall r' :: IsDirectory(w', r') <==> IsDirectory(w, r')
    ensures forall f, o :: Owned(w, f, o) && f != p ==> Owned(w', f, o)
    ensures r != w.kdir ==> Owned(w', p, Page(r, i, j)) && Owned(w, p, InHand)
    ensures r == w.kdir ==> w'.owner == w.owner && forall d :: !IsDirectory(w, d)
  {
  }

  lemma InstalledTables(w: World, w': World, r: nat, i: nat, j: nat, p: nat, perm: nat)
    requires CanInstallPage(w, r, i, j, p, perm) && PageInstalled(w, w', r, i, j, p, perm)
    ensures TablesOwned(w') && KernelShared(w')
  {
    SameRoots(w, w', r, i, j, p, perm);
    hide PagesOwned, Blank, RefersBack, Pte;
    forall r', i' | IsRoot(w', r') && OwnSlot(w', r', i') && HasTable(w'.mem, r', i')
      ensures Owned(w', TableOf(w'.mem, r', i'), Table(r', i'))
    {
      assert HasTable(w.mem, r', i') && OwnSlot(w, r', i') && Owned(w, TableOf(w.mem, r', i'), Table(r', i'));
    }
    forall i' | 512 <= i'
      ensures !HasTable(w'.mem, w'.kdir, i')
    {
      assert At(w'.mem, w.kdir, i') == At(w.mem, w.kdir, i') && !HasTable(w.mem, w.kdir, i');
    }
    forall r', i' | IsDirectory(w', r') && i' < 512
      ensures At(w'.mem, r', i') == At(w'.mem, w.kdir, i')
    {
      assert IsDirectory(w, r') && At(w.mem, r', i') == At(w.mem, w.kdir, i');
    }
  }

  lemma InstalledPages(w: World, w': World, r: nat, i: nat, j: nat, p: nat, perm: nat)
    requires CanInstallPage(w, r, i, j, p, perm) && PageInstalled(w, w', r, i, j, p, perm)
    requires Present(Entry(p, perm)) && FrameNo(Entry(p, perm)) == p
    ensures PagesOwned(w') && Blank(w')
  {
    SameRoots(w, w', r, i, j, p, perm);
    hide TablesOwned, KernelShared, RefersBack, Pte, Entry, Present;
    forall r', i', j' | IsDirectory(w', r') && 512 <= i' < 1024 && j' < 1024 && Mapped(w'.mem, r', i', j')
      ensures Owned(w', PageOf(w'.mem, r', i', j'), Page(r', i', j'))
    {
      assert IsDirectory(w, r');
      if !(r' == r && i' == i && j' == j) {
        assert Mapped(w.mem, r', i', j');
      }
    }
  }

  lemma InstalledOwners(w: World, w': World, r: nat, i: nat, j: nat, p: nat, perm: nat)
    requires CanInstallPage(w, r, i, j, p, perm) && PageInstalled(w, w', r, i, j, p, perm)
    requires Present(Entry(p, perm)) && FrameNo(Entry(p, perm)) == p
    ensures forall f :: f in w'.owner ==> RefersBack(w', f)
  {
    SameRoots(w, w', r, i, j, p, perm);
    hide TablesOwned, KernelShared, PagesOwned, Blank, Pte, Entry, Present;
    forall f | f in w'.owner
      ensures RefersBack(w', f)
    {
      if f != p || r == w.kdir {
        assert RefersBack(w, f);
      } else {
        assert IsDirectory(w, r) && OwnSlot(w, r, i);
      }
    }
  }

  // memory_create_uvm: a cleared frame that shares the lower half of the kernel's directory.
  function DirectoryFrame(kernel: Frame): Frame {
    kernel[..512] + seq(512, i => 0)
  }

  function MakeDirectory(w: World, d: nat): World
    requires w.kdir < |w.mem| && d < |w.mem|
  {
    w.(mem := w.mem[d := DirectoryFrame(w.mem[w.kdir])], owner := w.owner[d := Directory])
  }

  lemma MakeDirectoryPtes(w: World, d: nat, r: nat, i: nat, j: nat)
    requires Inv(w) && Owned(w, d, InHand) && (IsRoot(w, r) || r == d)
    ensures At(MakeDirectory(w, d).mem, r, i)
         == if r == d then (if i < 512 then At(w.mem, w.kdir, i) else 0) else At(w.mem, r, i)
    ensures Pte(MakeDirectory(w, d).mem, r, i, j)
         == if r == d then (if i < 512 then Pte(w.mem, w.kdir, i, j) else 0) else Pte(w.mem, r, i, j)
  {
    if r != d && HasTable(w.mem, r, i) {
      TableOwner(w, r, i);
    }
    if HasTable(w.mem, w.kdir, i) {
      TableOwner(w, w.kdir, i);
    }
  }

  lemma MakeDirectoryKeeps(w: World, d: nat)
    requires Inv(w) && Owned(w, d, InHand)
    ensures Inv(MakeDirectory(w, d))
    ensures forall r :: IsRoot(w, r) ==> SameSpace(w.mem, MakeDirectory(w, d).mem, r)
    ensures forall i, j :: 512 <= i ==> !Mapped(MakeDirectory(w, d).mem, d, i, j)
  {
    var w' := MakeDirectory(w, d);
    forall r: nat, i: nat, j: nat | IsRoot(w, r) || r == d
      ensures At(w'.mem, r, i) == if r == d then (if i < 512 then At(w.mem, w.kdir, i) else 0) else At(w.mem, r, i)
      ensures Pte(w'.mem, r, i, j) == if r == d then (if i < 512 then Pte(w.mem, w.kdir, i, j) else 0)
               else Pte(w.mem, r, i, j)
    {
      MakeDirectoryPtes(w, d, r, i, j);
    }
    assert forall r :: IsRoot(w', r) <==> (IsRoot(w, r) || r == d);
    forall r | IsRoot(w, r)
      ensures SameSpace(w.mem, w'.mem, r)
    {
      assert r != d;
      forall i, j | 512 <= i < 1024 && j < 1024 && Mapped(w.mem, r, i, j)
        ensures w'.mem[PageOf(w.mem, r, i, j)] == w.mem[PageOf(w.mem, r, i, j)]
      {
        assert HasTable(w.mem, r, i);
        assert Owned(w, PageOf(w.mem, r, i, j), Page(r, i, j));
      }
    }
    MakeDirectoryInv(w, d);
  }

  lemma MakeDirectoryInv(w: World, d: nat)
    requires Inv(w) && Owned(w, d, InHand)
    requires forall r, i :: IsRoot(w, r) || r == d ==>
               At(MakeDirectory(w, d).mem, r, i)
               == if r == d then (if i < 512 then At(w.mem, w.kdir, i) else 0) else At(w.mem, r, i)
    requires forall r, i, j :: IsRoot(w, r) || r == d ==>
               Pte(MakeDirectory(w, d).mem, r, i, j)
               == if r == d then (if i < 512 then Pte(w.mem, w.kdir, i, j) else 0) else Pte(w.mem, r, i, j)
    ensures Inv(MakeDirectory(w, d))
  {
    var w' := MakeDirectory(w, d);
    assert forall r :: IsRoot(w', r) <==> (IsRoot(w, r) || r == d);
    assert TablesOwned(w') by {
      forall r, i | IsRoot(w', r) && OwnSlot(w', r, i) && HasTable(w'.mem, r, i)
        ensures Owned(w', TableOf(w'.mem, r, i), Table(r, i))
      {
        assert HasTable(w.mem, r, i) && OwnSlot(w, r, i);
      }
    }
    assert KernelShared(w') by {
      forall i | 512 <= i
        ensures !HasTable(w'.mem, w'.kdir, i)
      {
        assert At(w'.mem, w.kdir, i) == At(w.mem, w.kdir, i) && !HasTable(w.mem, w.kdir, i);
      }
      forall r, i | IsDirectory(w', r) && i < 512
        ensures At(w'.mem, r, i) == At(w'.mem, w.kdir, i)
      {
        assert r == d || (IsDirectory(w, r) && At(w.mem, r, i) == At(w.mem, w.kdir, i));
      }
    }
    assert PagesOwned(w') by {
      forall r, i, j | IsDirectory(w', r) && 512 <= i < 1024 && j < 1024 && Mapped(w'.mem, r, i, j)
        ensures Owned(w', PageOf(w'.mem, r, i, j), Page(r, i, j))
      {
        assert r != d && IsDirectory(w, r) && Mapped(w.mem, r, i, j);
      }
    }
    forall f | f in w'.owner
      ensures RefersBack(w', f)
    {
      if f != d {
        assert RefersBack(w, f);
      }
    }
  }

  // A frame whose contents are data: neither a directory nor a table, and not free. Outside of the pool that is
  // every frame but the kernel's directory.
  predicate IsData(w: World, f: nat) {
    if f in w.owner then w.owner[f].InHand? || w.owner[f].Stack? || w.owner[f].Page?
    else f != w.kdir && !(w.lo <= f < w.hi)
  }

  // m' differs from w.mem in data frames only.
  ghost predicate DataWrite(w: World, m': Mem) {
    |m'| == |w.mem| && forall f :: 0 <= f < |m'| && m'[f] != w.mem[f] ==> IsData(w, f)
  }

  lemma DataWriteKeeps(w: World, m': Mem)
    requires Inv(w) && DataWrite(w, m')
    ensures Inv(w.(mem := m'))
    ensures forall r, i :: IsRoot(w, r) ==> At(m', r, i) == At(w.mem, r, i)
    ensures forall r, i, j :: IsRoot(w, r) ==> Pte(m', r, i, j) == Pte(w.mem, r, i, j)
  {
    var w' := w.(mem := m');
    forall r: nat, i: nat, j: nat | IsRoot(w, r)
      ensures At(m', r, i) == At(w.mem, r, i) && Pte(m', r, i, j) == Pte(w.mem, r, i, j)
    {
      if HasTable(w.mem, r, i) {
        TableOwner(w, r, i);
      }
    }
    assert forall r :: IsRoot(w', r) <==> IsRoot(w, r);
    assert KernelShared(w') by {
      forall i | 512 <= i
        ensures !HasTable(w'.mem, w'.kdir, i)
      {
        assert At(w'.mem, w.kdir, i) == At(w.mem, w.kdir, i) && !HasTable(w.mem, w.kdir, i);
      }
      forall r, i | IsDirectory(w', r) && i < 512
        ensures At(w'.mem, r, i) == At(w'.mem, w.kdir, i)
      {
        assert IsDirectory(w, r) && At(w.mem, r, i) == At(w.mem, w.kdir, i);
      }
    }
    forall f | f in w'.owner
      ensures RefersBack(w', f)
    {
      assert RefersBack(w, f);
    }
    assert TablesOwned(w') by {
      forall r, i | IsRoot(w', r) && OwnSlot(w', r, i) && HasTable(w'.mem, r, i)
        ensures Owned(w', TableOf(w'.mem, r, i), Table(r, i))
      {
        assert At(m', r, i) == At(w.mem, r, i) && OwnSlot(w, r, i) && HasTable(w.mem, r, i);
      }
    }
    assert PagesOwned(w') by {
      forall r, i, j | IsDirectory(w', r) && 512 <= i < 1024 && j < 1024 && Mapped(w'.mem, r, i, j)
        ensures Owned(w', PageOf(w'.mem, r, i, j), Page(r, i, j))
      {
        assert IsDirectory(w, r) && Pte(m', r, i, j) == Pte(w.mem, r, i, j) && Mapped(w.mem, r, i, j);
      }
    }
  }

  // Writing data that no page of r holds leaves the space of r alone.
  lemma DataWriteSpace(w: World, m': Mem, r: nat)
    requires Inv(w) && DataWrite(w, m') && IsRoot(w, r)
    requires forall f :: 0 <= f < |m'| && m'[f] != w.mem[f] && f in w.owner && w.owner[f].Page? ==> w.owner[f].root != r
    ensures SameSpace(w.mem, m', r)
  {
    DataWriteKeeps(w, m');
    forall i, j | 512 <= i < 1024 && j < 1024 && Mapped(w.mem, r, i, j)
      ensures m'[PageOf(w.mem, r, i, j)] == w.mem[PageOf(w.mem, r, i, j)]
    {
      assert HasTable(w.mem, r, i) && IsDirectory(w, r);
      assert Owned(w, PageOf(w.mem, r, i, j), Page(r, i, j));
    }
  }

  // The frames of directory d: itself, its own tables, its user pages.
  predicate BelongsTo(w: World, f: nat, d: nat) {
    f in w.owner &&
    match w.owner[f]
    case Directory => f == d
    case Table(r, i) => r == d
    case Page(r, i, j) => r == d
    case _ => false
  }

  function FramesOf(w: World, d: nat): set<nat> {
    set f | f in w.owner && BelongsTo(w, f, d)
  }

  // All frames of d returned to the pool.
  function Remove(w: World, d: nat): World {
    w.(owner := w.owner - FramesOf(w, d))
  }

  lemma RemoveKeeps(w: World, d: nat)
    requires Inv(w) && IsDirectory(w, d)
    ensures Inv(Remove(w, d))
    ensures forall r :: IsRoot(Remove(w, d), r) <==> IsRoot(w, r) && r != d
  {
    var w' := Remove(w, d);
    forall f | f in w'.owner
      ensures RefersBack(w', f)
    {
      assert RefersBack(w, f);
    }
  }

  // A frame in hand or a kernel stack returned to the pool.
  function Return(w: World, f: nat): World {
    w.(owner := w.owner - {f})
  }

  lemma ReturnKeeps(w: World, f: nat)
    requires Inv(w) && f in w.owner && (w.owner[f].InHand? || w.owner[f].Stack?)
    ensures Inv(Return(w, f))
  {
    var w' := Return(w, f);
    assert forall r :: IsRoot(w', r) <==> IsRoot(w, r);
    assert forall g, o :: Owned(w, g, o) && g != f ==> Owned(w', g, o);
    forall g | g in w'.owner
      ensures RefersBack(w', g)
    {
      assert RefersBack(w, g);
    }
  }
}
