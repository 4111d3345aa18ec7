// What the operations of the memory manager do to address spaces, as relations between the worlds before
// and after them.
module Spaces {
  import opened Mmu
  import opened Paging

  // Contents of data frames do not change.
  ghost predicate SameData(w: World, m': Mem) {
    |m'| == |w.mem| && forall f :: 0 <= f < |m'| && IsData(w, f) ==> m'[f] == w.mem[f]
  }

  ghost predicate PoolFull(w: World) {
    forall f :: w.lo <= f < w.hi ==> f in w.owner
  }

  ghost predicate SameSystem(w: World, w': World) {
    && |w'.mem| == |w.mem| && w'.kdir == w.kdir && w'.lo == w.lo && w'.hi == w.hi
    && forall d :: IsDirectory(w', d) <==> IsDirectory(w, d)
  }

  // Directory r may have got new tables and pages, made of frames that were free. Nothing else happened:
  // its old pages, and all other spaces, are as before.
  ghost predicate Grown(w: World, w': World, r: nat) {
    && Inv(w') && SameSystem(w, w') && SameData(w, w'.mem)
    && (forall d :: IsRoot(w, d) && d != r ==> SameSpace(w.mem, w'.mem, d))
    && (forall i, j :: Mapped(w.mem, r, i, j) ==> Pte(w'.mem, r, i, j) == Pte(w.mem, r, i, j))
    && (forall f :: f in w.owner ==> f in w'.owner && w'.owner[f] == w.owner[f])
    && (forall f :: f in w'.owner && f !in w.owner ==> (w'.owner[f].Table? || w'.owner[f].Page?) && w'.owner[f].root == r)
  }

  lemma GrownRefl(w: World, r: nat)
    requires Inv(w)
    ensures Grown(w, w, r)
  {
  }

  lemma GrownTransitive(w0: World, w1: World, w2: World, r: nat)
    requires Inv(w0) && Grown(w0, w1, r) && Grown(w1, w2, r)
    ensures Grown(w0, w2, r)
  {
    forall d | IsRoot(w0, d) && d != r
      ensures SameSpace(w0.mem, w2.mem, d)
    {
      assert IsRoot(w1, d);
      SameSpaceTransitive(w0.mem, w1.mem, w2.mem, d);
    }
    forall f | 0 <= f < |w0.mem| && IsData(w0, f)
      ensures w2.mem[f] == w0.mem[f]
    {
      assert IsData(w1, f);
    }
  }

  // A table for directory r, from a free frame t.
  function NewTable(w: World, r: nat, i: nat, t: nat): World
    requires r < |w.mem| && i < 1024 && t < |w.mem| && t < 0x10_0000
  {
    InstallTable(Take(w, t, InHand), r, i, t)
  }

  // Creating a table changes no translation of any directory, that of r included.
  lemma NewTableGrows(w: World, r: nat, i: nat, t: nat)
    requires Inv(w) && t !in w.owner && CanInstallTable(Take(w, t, InHand), r, i, t)
    ensures Grown(w, NewTable(w, r, i, t), r)
    ensures forall d :: IsRoot(w, d) ==> SameSpace(w.mem, NewTable(w, r, i, t).mem, d)
    ensures HasTable(NewTable(w, r, i, t).mem, r, i) && TableOf(NewTable(w, r, i, t).mem, r, i) == t
  {
    var w1 := Take(w, t, InHand);
    var w2 := NewTable(w, r, i, t);
    InstallTableKeeps(w1, r, i, t);
    InstallTableAt(w1, r, i, t, r, i);
    EntryFields(t, 7);
    assert forall d :: IsRoot(w, d) ==> IsRoot(w1, d);
    forall f | 0 <= f < |w.mem| && IsData(w, f)
      ensures w2.mem[f] == w.mem[f]
    {
      assert f != t && f != r;
    }
  }

  // Pages v, v + 1, ... v + n - 1 of directory r got mapped to frames p, p + 1, ... with the given
  // permissions: those n entries are new, every other one is as it was.
  ghost predicate SpanEntries(m: Mem, m': Mem, r: nat, v: nat, p: nat, n: nat, perm: nat)
    requires p + n <= 0x10_0000 && perm < 4096
  {
    forall i: nat, j: nat :: j < 1024 ==>
      Pte(m', r, i, j) == if v <= i * 1024 + j < v + n then Entry(p + (i * 1024 + j - v), perm) else Pte(m, r, i, j)
  }

  // Nothing else happened while frames p .. p + n - 1 were mapped in directory r, except that frames that
  // were free may have become tables of r.
  ghost predicate SpanOnly(w: World, w': World, r: nat, p: nat, n: nat) {
    && SameSystem(w, w') && SameData(w, w'.mem)
    && (forall d :: IsRoot(w, d) && d != r ==> SameSpace(w.mem, w'.mem, d))
    && (forall f :: f in w.owner ==>
          f in w'.owner &&
          if r != w.kdir && p <= f < p + n then w'.owner[f].Page? && w'.owner[f].root == r else w'.owner[f] == w.owner[f])
    && (forall f :: f in w'.owner && f !in w.owner ==> w'.owner[f].Table? && w'.owner[f].root == r)
  }

  ghost predicate SpanMapped(w: World, w': World, r: nat, v: nat, p: nat, n: nat, perm: nat)
    requires p + n <= 0x10_0000 && perm < 4096
  {
    Inv(w') && SpanEntries(w.mem, w'.mem, r, v, p, n, perm) && SpanOnly(w, w', r, p, n)
  }

  // The virtual pages v .. v + n - 1 lie in the half that directory r has tables of its own for.
  predicate OwnSpan(w: World, r: nat, v: nat, n: nat) {
    if r == w.kdir then v + n <= 0x8_0000 else 0x8_0000 <= v && v + n <= 0x10_0000
  }

  lemma VaPage(va: Word)
    ensures PdeIndex(va) * 1024 + PteIndex(va) == va / 4096
    ensures PdeIndex(va) < 1024 && PteIndex(va) < 1024
  {
    IndicesAddress(va);
    assert va / 4096 / 1024 == va / 0x40_0000;
  }

  // An operation on the entries of r alone leaves what was done before it to others as it was.
  lemma SpanOnlyStep(w: World, w1: World, w2: World, r: nat, p: nat, n: nat, n': nat)
    requires Inv(w) && Inv(w1) && SpanOnly(w, w1, r, p, n) && n <= n'
    requires SameSystem(w1, w2)
    requires forall d :: IsRoot(w1, d) && d != r ==> SameSpace(w1.mem, w2.mem, d)
    requires forall f :: 0 <= f < |w1.mem| && IsData(w1, f) ==> w2.mem[f] == w1.mem[f]
    requires forall f :: f in w1.owner ==>
               f in w2.owner &&
               if r != w.kdir && p + n <= f < p + n' then
                 w2.owner[f].Page? && w2.owner[f].root == r
               else
                 w2.owner[f] == w1.owner[f]
    requires forall f :: f in w2.owner && f !in w1.owner ==> w2.owner[f].Table? && w2.owner[f].root == r
    requires r != w.kdir ==> forall f :: p <= f < p + n' ==> f in w.owner
    ensures SpanOnly(w, w2, r, p, n')
  {
    forall d | IsRoot(w, d) && d != r
      ensures SameSpace(w.mem, w2.mem, d)
    {
      assert IsRoot(w1, d);
      SameSpaceTransitive(w.mem, w1.mem, w2.mem, d);
    }
    forall f | 0 <= f < |w.mem| && IsData(w, f)
      ensures w2.mem[f] == w.mem[f]
    {
      assert IsData(w1, f);
    }
  }

  lemma SpanNewTable(w: World, w': World, r: nat, v: nat, p: nat, n: nat, perm: nat, i: nat, t: nat)
    requires p + n <= 0x10_0000 && perm < 4096
    requires Inv(w) && SpanMapped(w, w', r, v, p, n, perm)
    requires r != w.kdir ==> forall f :: p <= f < p + n ==> f in w.owner
    requires t !in w'.owner && CanInstallTable(Take(w', t, InHand), r, i, t)
    ensures SpanMapped(w, NewTable(w', r, i, t), r, v, p, n, perm)
  {
    NewTableGrows(w', r, i, t);
    NewTableOwner(w', r, i, t);
    hide Inv, SameData, CanInstallTable, NewTable, SpanEntries, SpanOnly;
    var w2 := NewTable(w', r, i, t);
    SpanEntriesKept(w.mem, w'.mem, w2.mem, r, v, p, n, perm) by { assert IsRoot(w', r); }
    GrownData(w', w2, r);
    hide Grown, Pte, SameSpace;
    SpanOnlyStep(w, w', w2, r, p, n, n);
  }

  lemma NewTableOwner(w: World, r: nat, i: nat, t: nat)
    requires Inv(w) && t !in w.owner && CanInstallTable(Take(w, t, InHand), r, i, t)
    ensures NewTable(w, r, i, t).owner == w.owner[t := Table(r, i)] && IsRoot(w, r)
  {
  }

  lemma GrownData(w: World, w': World, r: nat)
    requires Grown(w, w', r)
    ensures Inv(w') && SameSystem(w, w') && forall d :: IsRoot(w, d) && d != r ==> SameSpace(w.mem, w'.mem, d)
    ensures |w'.mem| == |w.mem| && forall f :: 0 <= f < |w.mem| && IsData(w, f) ==> w'.mem[f] == w.mem[f]
  {
  }

  lemma SpanEntriesKept(m: Mem, m': Mem, m2: Mem, r: nat, v: nat, p: nat, n: nat, perm: nat)
    requires p + n <= 0x10_0000 && perm < 4096 && SpanEntries(m, m', r, v, p, n, perm) && SameSpace(m', m2, r)
    ensures SpanEntries(m, m2, r, v, p, n, perm)
  {
  }

  lemma SpanNewPage(w: World, w': World, r: nat, v: nat, p: nat, n: nat, perm: nat, i: nat, j: nat)
    requires p + n < 0x10_0000 && perm < 4096
    requires Inv(w) && SpanMapped(w, w', r, v, p, n, perm)
    requires r != w.kdir ==> forall f :: p <= f < p + n + 1 ==> f in w.owner
    requires i * 1024 + j == v + n
    requires CanInstallPage(w', r, i, j, p + n, perm)
    ensures TableOf(w'.mem, r, i) < |w'.mem|
    ensures SpanMapped(w, InstallPage(w', r, i, j, p + n, perm), r, v, p, n + 1, perm)
  {
    hide Inv, SpanEntries, SameSpace, SameData;
    InstallPageKeeps(w', r, i, j, p + n, perm);
    InstallPageData(w', r, i, j, p + n, perm);
    SpanEntriesNewPage(w.mem, w', r, v, p, n, perm, i, j);
    SpanOnlyStep(w, w', InstallPage(w', r, i, j, p + n, perm), r, p, n, n + 1);
  }

  lemma SpanEntriesNewPage(m: Mem, w': World, r: nat, v: nat, p: nat, n: nat, perm: nat, i: nat, j: nat)
    requires p + n < 0x10_0000 && perm < 4096
    requires SpanEntries(m, w'.mem, r, v, p, n, perm)
    requires i * 1024 + j == v + n
    requires CanInstallPage(w', r, i, j, p + n, perm)
    ensures TableOf(w'.mem, r, i) < |w'.mem|
    ensures SpanEntries(m, InstallPage(w', r, i, j, p + n, perm).mem, r, v, p, n + 1, perm)
  {
    InstallPagePtes(w', r, i, j, p + n, perm, r, i, j);
    var m2 := InstallPage(w', r, i, j, p + n, perm).mem;
    forall i': nat, j': nat | j' < 1024
      ensures Pte(m2, r, i', j') == if v <= i' * 1024 + j' < v + n + 1 then Entry(p + (i' * 1024 + j' - v), perm)
              else Pte(m, r, i', j')
    {
      InstallPagePtes(w', r, i, j, p + n, perm, r, i', j');
      assert (i' * 1024 + j' == v + n) == (i' == i && j' == j);
    }
  }

  lemma InstallPageData(w: World, r: nat, i: nat, j: nat, p: nat, perm: nat)
    requires CanInstallPage(w, r, i, j, p, perm)
    ensures TableOf(w.mem, r, i) < |w.mem|
    ensures SameSystem(w, InstallPage(w, r, i, j, p, perm))
    ensures forall f :: 0 <= f < |w.mem| && IsData(w, f) ==> InstallPage(w, r, i, j, p, perm).mem[f] == w.mem[f]
  {
    assert Owned(w, TableOf(w.mem, r, i), Table(r, i));
  }

  // A fresh page: frame p, free in w, was mapped at (i, j) of directory r.
  ghost predicate PageAdded(w: World, w': World, r: nat, i: nat, j: nat, p: nat, perm: nat)
    requires p < 0x10_0000 && perm < 4096
  {
    && p !in w.owner
    && Grown(w, w', r)
    && Owned(w', p, Page(r, i, j))
    && forall i': nat, j': nat :: j' < 1024 ==>
         Pte(w'.mem, r, i', j') == if i' == i && j' == j then Entry(p, perm) else Pte(w.mem, r, i', j')
  }

  lemma SpanOfOne(w: World, w': World, r: nat, i: nat, j: nat, p: nat, perm: nat)
    requires Inv(w) && IsDirectory(w, r) && 512 <= i < 1024 && j < 1024 && !Mapped(w.mem, r, i, j)
    requires p !in w.owner && w.lo <= p < w.hi && perm < 4096
    requires SpanMapped(Take(w, p, InHand), w', r, i * 1024 + j, p, 1, perm)
    ensures PageAdded(w, w', r, i, j, p, perm)
  {
    var w1 := Take(w, p, InHand);
    forall i': nat, j': nat | j' < 1024
      ensures Pte(w'.mem, r, i', j') == if i' == i && j' == j then Entry(p, perm) else Pte(w.mem, r, i', j')
    {
      assert (i' * 1024 + j' == i * 1024 + j) == (i' == i && j' == j);
    }
    assert SpanOnly(w1, w', r, p, 1);
    SpanOfOneGrows(w, w', r, i * 1024 + j, p, perm);
    EntryFields(p, perm);
    assert Mapped(w'.mem, r, i, j) && IsDirectory(w', r);
  }

  lemma SpanOfOneGrows(w: World, w': World, r: nat, v: nat, p: nat, perm: nat)
    requires Inv(w') && r != w.kdir && p !in w.owner
    requires SpanOnly(Take(w, p, InHand), w', r, p, 1)
    requires forall i: nat, j: nat :: j < 1024 && Mapped(w.mem, r, i, j) ==> Pte(w'.mem, r, i, j) == Pte(w.mem, r, i, j)
    ensures Grown(w, w', r)
  {
    hide Inv;
    var w1 := Take(w, p, InHand);
    assert forall d :: IsDirectory(w1, d) <==> IsDirectory(w, d);
    forall d | IsRoot(w, d) && d != r
      ensures SameSpace(w.mem, w'.mem, d)
    {
      assert IsRoot(w1, d);
    }
    forall f | 0 <= f < |w.mem| && IsData(w, f)
      ensures w'.mem[f] == w.mem[f]
    {
      assert IsData(w1, f);
    }
  }

  // Pages v .. v + n - 1 of directory r, not mapped before, are mapped to fresh frames with the given
  // permissions, and nothing else happened. That the frames are distinct follows from the invariant.
  ghost predicate Populated(w: World, w': World, r: nat, v: nat, n: nat, perm: nat)
    requires perm < 4096
  {
    && Grown(w, w', r)
    && forall i: nat, j: nat :: j < 1024 ==>
         if v <= i * 1024 + j < v + n then
           PageOf(w'.mem, r, i, j) < 0x10_0000 && PageOf(w'.mem, r, i, j) !in w.owner
           && Pte(w'.mem, r, i, j) == Entry(PageOf(w'.mem, r, i, j), perm)
         else
           Pte(w'.mem, r, i, j) == Pte(w.mem, r, i, j)
  }

  lemma PopulateOne(w: World, w1: World, w2: World, r: nat, v: nat, n: nat, perm: nat, i: nat, j: nat, p: nat)
    requires Inv(w) && perm < 4096 && p < 0x10_0000
    requires Populated(w, w1, r, v, n, perm) && i * 1024 + j == v + n && j < 1024
    requires PageAdded(w1, w2, r, i, j, p, perm)
    ensures Populated(w, w2, r, v, n + 1, perm)
  {
    GrownTransitive(w, w1, w2, r);
    EntryFields(p, perm);
    forall i': nat, j': nat | j' < 1024
      ensures if v <= i' * 1024 + j' < v + n + 1 then
           PageOf(w2.mem, r, i', j') < 0x10_0000 && PageOf(w2.mem, r, i', j') !in w.owner
           && Pte(w2.mem, r, i', j') == Entry(PageOf(w2.mem, r, i', j'), perm)
         else
           Pte(w2.mem, r, i', j') == Pte(w.mem, r, i', j')
    {
      assert (i' * 1024 + j' == v + n) == (i' == i && j' == j);
    }
  }

  // ---- Creating and copying spaces ----

  // memory_create_uvm: d is a new directory with an empty user half; all else is as it was.
  ghost predicate Created(w: World, w': World, d: nat) {
    && Inv(w') && d !in w.owner
    && w'.owner == w.owner[d := Directory]
    && |w'.mem| == |w.mem| && w'.kdir == w.kdir && w'.lo == w.lo && w'.hi == w.hi
    && SameData(w, w'.mem)
    && (forall r :: IsRoot(w, r) ==> SameSpace(w.mem, w'.mem, r))
    && (forall i: nat :: 512 <= i ==> !HasTable(w'.mem, d, i))
  }

  lemma MakesSpace(w: World, d: nat)
    requires Inv(w) && d !in w.owner && w.lo <= d < w.hi
    ensures Inv(Take(w, d, InHand)) && Owned(Take(w, d, InHand), d, InHand)
    ensures w.kdir < |w.mem| && d < |w.mem|
    ensures Created(w, MakeDirectory(Take(w, d, InHand), d), d)
  {
    TakeKeeps(w, d, InHand);
    MakeDirectoryKeeps(Take(w, d, InHand), d);
    assert forall r :: IsRoot(w, r) ==> IsRoot(Take(w, d, InHand), r);
    forall i: nat | 512 <= i
      ensures !HasTable(MakeDirectory(Take(w, d, InHand), d).mem, d, i)
    {
      MakeDirectoryPtes(Take(w, d, InHand), d, d, i, 0);
    }
  }

  // Page (i, j) is mapped in directory b iff it is in a, with the same low ten bits and the same contents.
  ghost predicate SameSlot(m: Mem, a: nat, b: nat, i: nat, j: nat) {
    && (Mapped(m, b, i, j) <==> Mapped(m, a, i, j))
    && (Mapped(m, a, i, j) ==>
          && Perm(Pte(m, b, i, j)) == Perm(Pte(m, a, i, j))
          && PageOf(m, a, i, j) < |m| && PageOf(m, b, i, j) < |m|
          && m[PageOf(m, b, i, j)] == m[PageOf(m, a, i, j)])
  }

  ghost predicate Before(i: nat, j: nat, i': nat, j': nat) {
    i < i' || (i == i' && j < j')
  }

  // memory_copy_uvm2 on its way: the user pages of a before (i, j) are copied to b, which has no others.
  ghost predicate CopiedTo(m: Mem, a: nat, b: nat, i: nat, j: nat) {
    forall i': nat, j': nat :: 512 <= i' < 1024 && j' < 1024 ==>
      if Before(i', j', i, j) then SameSlot(m, a, b, i', j') else !Mapped(m, b, i', j')
  }

  // All of it: the user halves of a and b are the same.
  ghost predicate SameUserHalf(m: Mem, a: nat, b: nat) {
    forall i: nat, j: nat :: 512 <= i < 1024 && j < 1024 ==> SameSlot(m, a, b, i, j)
  }

  // Copying the contents of frame src to frame p.
  function CopyFrame(w: World, p: nat, src: nat): World
    requires p < |w.mem| && src < |w.mem|
  {
    w.(mem := w.mem[p := w.mem[src]])
  }

  lemma CopyFrameGrows(w: World, w': World, r: nat, i: nat, j: nat, p: nat, perm: nat, src: nat)
    requires Inv(w) && p < 0x10_0000 && perm < 4096 && PageAdded(w, w', r, i, j, p, perm)
    requires IsDirectory(w, r) && src < |w'.mem|
    ensures p < |w'.mem| && Grown(w, CopyFrame(w', p, src), r)
    ensures forall d, i', j' :: IsRoot(w, d) ==> Pte(CopyFrame(w', p, src).mem, d, i', j') == Pte(w'.mem, d, i', j')
  {
    var w2 := CopyFrame(w', p, src);
    DataWriteKeeps(w', w2.mem);
    forall d | IsRoot(w, d) && d != r
      ensures SameSpace(w.mem, w2.mem, d)
    {
      DataWriteSpace(w', w2.mem, d);
      SameSpaceTransitive(w.mem, w'.mem, w2.mem, d);
    }
  }

  // One page copied.
  lemma CopyStep(w: World, w1: World, w2: World, a: nat, b: nat, i: nat, j: nat, p: nat)
    requires Inv(w) && IsDirectory(w, a) && IsDirectory(w, b) && a != b && 512 <= i < 1024 && j < 1024
    requires Grown(w, w1, b) && CopiedTo(w1.mem, a, b, i, j) && Mapped(w1.mem, a, i, j)
    requires p < 0x10_0000 && PageAdded(w1, w2, b, i, j, p, Perm(Pte(w1.mem, a, i, j)))
    ensures p < |w2.mem| && PageOf(w1.mem, a, i, j) < |w2.mem|
    ensures Grown(w, CopyFrame(w2, p, PageOf(w1.mem, a, i, j)), b)
    ensures CopiedTo(CopyFrame(w2, p, PageOf(w1.mem, a, i, j)).mem, a, b, i, j + 1)
  {
    var src := PageOf(w1.mem, a, i, j);
    assert Owned(w1, src, Page(a, i, j));
    CopyFrameGrows(w1, w2, b, i, j, p, Perm(Pte(w1.mem, a, i, j)), src);
    var w3 := CopyFrame(w2, p, src);
    GrownTransitive(w, w1, w3, b);
    forall i': nat, j': nat | 512 <= i' < 1024 && j' < 1024
      ensures if Before(i', j', i, j + 1) then SameSlot(w3.mem, a, b, i', j') else !Mapped(w3.mem, b, i', j')
    {
      CopyStepSlot(w1, w2, a, b, i, j, p, i', j');
    }
  }

  lemma CopyStepSlot(w1: World, w2: World, a: nat, b: nat, i: nat, j: nat, p: nat, i': nat, j': nat)
    requires Inv(w1) && IsDirectory(w1, a) && IsDirectory(w1, b) && a != b && 512 <= i < 1024 && j < 1024
    requires CopiedTo(w1.mem, a, b, i, j) && Mapped(w1.mem, a, i, j)
    requires p < 0x10_0000 && PageAdded(w1, w2, b, i, j, p, Perm(Pte(w1.mem, a, i, j)))
    requires 512 <= i' < 1024 && j' < 1024
    requires p < |w2.mem| && PageOf(w1.mem, a, i, j) < |w2.mem|
    requires forall d, i1, j1 :: IsRoot(w1, d) ==>
               Pte(CopyFrame(w2, p, PageOf(w1.mem, a, i, j)).mem, d, i1, j1) == Pte(w2.mem, d, i1, j1)
    ensures var m := CopyFrame(w2, p, PageOf(w1.mem, a, i, j)).mem;
            if Before(i', j', i, j + 1) then SameSlot(m, a, b, i', j') else !Mapped(m, b, i', j')
  {
    hide Inv, Grown, SameSpace, PageAdded;
    var src := PageOf(w1.mem, a, i, j);
    var m := CopyFrame(w2, p, src).mem;
    var perm := Perm(Pte(w1.mem, a, i, j));
    EntryFields(p, perm);
    PresentPerm(Pte(w1.mem, a, i, j));
    hide Entry, Present, FrameNo, Perm, Pte;
    PageOwner(w1, a, i, j);
    CopyStepFacts(w1, w2, a, b, i, j, p, i', j');
    assert IsRoot(w1, a) && IsRoot(w1, b);
    assert Pte(m, a, i', j') == Pte(w2.mem, a, i', j') && Pte(m, b, i', j') == Pte(w2.mem, b, i', j');
    assert if Before(i', j', i, j) then SameSlot(w1.mem, a, b, i', j') else !Mapped(w1.mem, b, i', j');
    hide CopiedTo, IsRoot;
    if !(i' == i && j' == j) && Mapped(w1.mem, a, i', j') && Mapped(w1.mem, b, i', j') {
      PageOwner(w1, a, i', j');
      PageOwner(w1, b, i', j');
    }
  }

  lemma CopyStepFacts(w1: World, w2: World, a: nat, b: nat, i: nat, j: nat, p: nat, i': nat, j': nat)
    requires Inv(w1) && IsDirectory(w1, a) && IsDirectory(w1, b) && a != b && Mapped(w1.mem, a, i, j)
    requires p < 0x10_0000 && PageAdded(w1, w2, b, i, j, p, Perm(Pte(w1.mem, a, i, j))) && j' < 1024
    ensures p !in w1.owner && |w2.mem| == |w1.mem|
    ensures forall f :: 0 <= f < |w1.mem| && IsData(w1, f) ==> w2.mem[f] == w1.mem[f]
    ensures Pte(w2.mem, a, i', j') == Pte(w1.mem, a, i', j')
    ensures Pte(w2.mem, b, i', j') == if i' == i && j' == j then Entry(p, Perm(Pte(w1.mem, a, i, j)))
             else Pte(w1.mem, b, i', j')
  {
    hide Inv;
    assert SameSpace(w1.mem, w2.mem, a);
    SameSpacePte(w1.mem, w2.mem, a, i', j');
  }

  lemma PageOwner(w: World, r: nat, i: nat, j: nat)
    requires Inv(w) && IsDirectory(w, r) && 512 <= i < 1024 && j < 1024 && Mapped(w.mem, r, i, j)
    ensures Owned(w, PageOf(w.mem, r, i, j), Page(r, i, j)) && PageOf(w.mem, r, i, j) < |w.mem|
    ensures IsData(w, PageOf(w.mem, r, i, j))
  {
    assert Owned(w, PageOf(w.mem, r, i, j), Page(r, i, j));
  }

  lemma SameSpacePte(m: Mem, m': Mem, r: nat, i: nat, j: nat)
    requires SameSpace(m, m', r)
    ensures Pte(m', r, i, j) == Pte(m, r, i, j)
  {
  }

  // The permissions of a present entry are odd, so mapping with them adds no bit.
  lemma PresentPerm(e: Word)
    requires Present(e)
    ensures Perm(e) % 2 == 1 && Perm(e) < 1024
  {
    assert e == (e / 1024 * 512) * 2 + Perm(e);
  }

  // A page that is not mapped is passed over.
  lemma CopySkip(m: Mem, a: nat, b: nat, i: nat, j: nat)
    requires CopiedTo(m, a, b, i, j) && !Mapped(m, a, i, j)
    ensures CopiedTo(m, a, b, i, j + 1)
  {
  }

  // So is the end of a row, and a row without a table.
  lemma CopyNextRow(m: Mem, a: nat, b: nat, i: nat, j: nat)
    requires CopiedTo(m, a, b, i, j) && (j == 1024 || (j == 0 && !HasTable(m, a, i)))
    ensures CopiedTo(m, a, b, i + 1, 0)
  {
  }
}
