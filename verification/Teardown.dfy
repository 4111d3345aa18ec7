// Taking an address space down: what memory_destroy_uvm frees, and what it should free.
module Teardown {
  import opened Mmu
  import opened Paging
  import opened Spaces

  // A walk over the slots from first on that stands at (i, j) has passed frame f: f is a table of a slot
  // below i, or a page before (i, j).
  ghost predicate Met(m: Mem, d: nat, first: nat, i: nat, j: nat, f: nat) {
    || (exists i': nat :: first <= i' < i && i' < 1024 && HasTable(m, d, i') && f == TableOf(m, d, i'))
    || (exists i': nat, j': nat ::
          first <= i' < 1024 && j' < 1024 && Before(i', j', i, j) && Mapped(m, d, i', j') && f == PageOf(m, d, i', j'))
  }

  // gone holds the frames met so far.
  ghost predicate ReapedUpTo(m: Mem, d: nat, first: nat, i: nat, j: nat, gone: set<nat>) {
    && (forall i': nat :: first <= i' < i && HasTable(m, d, i') ==> TableOf(m, d, i') in gone)
    && (forall i': nat, j': nat :: first <= i' && j' < 1024 && Before(i', j', i, j) && Mapped(m, d, i', j') ==>
        PageOf(m, d, i', j') in gone)
    && (forall f :: f in gone ==> Met(m, d, first, i, j, f))
  }

  lemma ReapPage(m: Mem, d: nat, first: nat, i: nat, j: nat, gone: set<nat>)
    requires ReapedUpTo(m, d, first, i, j, gone) && first <= i < 1024 && j < 1024 && HasTable(m, d, i)
    ensures ReapedUpTo(m, d, first, i, j + 1, if Mapped(m, d, i, j) then gone + {PageOf(m, d, i, j)} else gone)
  {
    forall f | f in gone
      ensures Met(m, d, first, i, j + 1, f)
    {
      MetLater(m, d, first, i, j, i, j + 1, f);
    }
    if Mapped(m, d, i, j) {
      assert Before(i, j, i, j + 1);
      assert Met(m, d, first, i, j + 1, PageOf(m, d, i, j));
    }
  }

  lemma MetLater(m: Mem, d: nat, first: nat, i: nat, j: nat, i': nat, j': nat, f: nat)
    requires Met(m, d, first, i, j, f) && (i < i' || (i == i' && j <= j'))
    ensures Met(m, d, first, i', j', f)
  {
    if i0: nat :| first <= i0 < i && i0 < 1024 && HasTable(m, d, i0) && f == TableOf(m, d, i0) {
      assert i0 < i';
    } else {
      var i0: nat, j0: nat :| first <= i0 < 1024 && j0 < 1024 && Before(i0, j0, i, j) && Mapped(m, d, i0, j0) &&
          f == PageOf(m, d, i0, j0);
      assert Before(i0, j0, i', j');
    }
  }

  lemma ReapTable(m: Mem, d: nat, first: nat, i: nat, gone: set<nat>)
    requires ReapedUpTo(m, d, first, i, 1024, gone) && first <= i < 1024 && HasTable(m, d, i)
    ensures ReapedUpTo(m, d, first, i + 1, 0, gone + {TableOf(m, d, i)})
  {
    forall f | f in gone
      ensures Met(m, d, first, i + 1, 0, f)
    {
      MetLater(m, d, first, i, 1024, i + 1, 0, f);
    }
    assert Met(m, d, first, i + 1, 0, TableOf(m, d, i));
  }

  lemma ReapNothing(m: Mem, d: nat, first: nat, i: nat, gone: set<nat>)
    requires ReapedUpTo(m, d, first, i, 0, gone) && !HasTable(m, d, i)
    ensures ReapedUpTo(m, d, first, i + 1, 0, gone)
  {
    forall f | f in gone
      ensures Met(m, d, first, i + 1, 0, f)
    {
      MetLater(m, d, first, i, 0, i + 1, 0, f);
    }
  }

  // gone is exactly what a walk from slot first on frees: the directory, its tables and their pages.
  ghost predicate Reaps(m: Mem, d: nat, first: nat, gone: set<nat>) {
    && d in gone
    && (forall i: nat :: first <= i < 1024 && HasTable(m, d, i) ==> TableOf(m, d, i) in gone)
    && (forall i: nat, j: nat :: first <= i < 1024 && j < 1024 && Mapped(m, d, i, j) ==> PageOf(m, d, i, j) in gone)
    && (forall f :: f in gone ==> f == d || Met(m, d, first, 1024, 0, f))
  }

  lemma ReapedAll(m: Mem, d: nat, first: nat, gone: set<nat>)
    requires ReapedUpTo(m, d, first, 1024, 0, gone)
    ensures Reaps(m, d, first, gone + {d})
  {
  }

  // Which frames a walk over the user half meets: frames of d, and none that it still has to read.
  lemma MetByUserWalk(w: World, d: nat, i: nat, j: nat, f: nat)
    requires Inv(w) && IsDirectory(w, d) && Met(w.mem, d, 512, i, j, f)
    ensures BelongsTo(w, f, d) && f != d
    ensures 512 <= i < 1024 && HasTable(w.mem, d, i) ==> f != TableOf(w.mem, d, i)
  {
    assert 512 <= i < 1024 && HasTable(w.mem, d, i) ==> Owned(w, TableOf(w.mem, d, i), Table(d, i)) by {
      assert OwnSlot(w, d, i) || !(512 <= i < 1024);
    }
    if i': nat :| 512 <= i' < i && i' < 1024 && HasTable(w.mem, d, i') && f == TableOf(w.mem, d, i') {
      assert OwnSlot(w, d, i');
    } else {
      var i': nat, j': nat :| 512 <= i' < 1024 && j' < 1024 && Before(i', j', i, j) && Mapped(w.mem, d, i', j') &&
          f == PageOf(w.mem, d, i', j');
      PageOwner(w, d, i', j');
    }
  }

  // A walk over the user half frees exactly the frames of d: each of them, and no other.
  lemma UserWalkIsExact(w: World, d: nat, gone: set<nat>)
    requires Inv(w) && IsDirectory(w, d) && Reaps(w.mem, d, 512, gone)
    ensures gone == FramesOf(w, d)
  {
    forall f | f in gone && f != d
      ensures BelongsTo(w, f, d)
    {
      MetByUserWalk(w, d, 1024, 0, f);
    }
    forall f | f in FramesOf(w, d)
      ensures f in gone
    {
      assert RefersBack(w, f);
    }
  }

  // A walk that starts lower, at slot first, frees exactly the frames of d iff the kernel has no table in
  // the slots from first to the user half.
  lemma WalkIsExactIff(w: World, d: nat, first: nat, gone: set<nat>)
    requires Inv(w) && IsDirectory(w, d) && first <= 512 && Reaps(w.mem, d, first, gone)
    ensures gone == FramesOf(w, d) <==> forall i: nat :: first <= i < 512 ==> !HasTable(w.mem, w.kdir, i)
  {
    if i: nat :| first <= i < 512 && HasTable(w.mem, w.kdir, i) {
      assert At(w.mem, d, i) == At(w.mem, w.kdir, i);
      TableOwner(w, w.kdir, i);
      assert TableOf(w.mem, d, i) in gone;
      assert !BelongsTo(w, TableOf(w.mem, d, i), d);
    } else {
      LowSlotsEmpty(w, d, first, gone);
      UserWalkIsExact(w, d, gone);
    }
  }

  lemma LowSlotsEmpty(w: World, d: nat, first: nat, gone: set<nat>)
    requires Inv(w) && IsDirectory(w, d) && first <= 512 && Reaps(w.mem, d, first, gone)
    requires forall i: nat :: first <= i < 512 ==> !HasTable(w.mem, w.kdir, i)
    ensures Reaps(w.mem, d, 512, gone)
  {
    forall i: nat | first <= i < 512
      ensures !HasTable(w.mem, d, i)
    {
      KernelPte(w, d, i, 0);
      assert !HasTable(w.mem, w.kdir, i);
    }
    forall f | f in gone && f != d
      ensures Met(w.mem, d, 512, 1024, 0, f)
    {
      if i: nat :| first <= i < 1024 && HasTable(w.mem, d, i) && f == TableOf(w.mem, d, i) {
        assert 512 <= i;
      } else {
        var i: nat, j: nat :| first <= i < 1024 && j < 1024 && Before(i, j, 1024, 0) && Mapped(w.mem, d, i, j) &&
            f == PageOf(w.mem, d, i, j);
        assert HasTable(w.mem, d, i);
      }
    }
  }

  // The kernel maps every frame of the pool at its own address.
  ghost predicate Identity(w: World) {
    forall f :: w.lo <= f < w.hi ==>
      Mapped(w.mem, w.kdir, f / 1024, f % 1024) && PageOf(w.mem, w.kdir, f / 1024, f % 1024) == f
  }

  // Every directory translates the pool as the kernel's does.
  lemma KernelPte(w: World, d: nat, i: nat, j: nat)
    requires Inv(w) && IsDirectory(w, d) && i < 512
    ensures HasTable(w.mem, d, i) == HasTable(w.mem, w.kdir, i) && Pte(w.mem, d, i, j) == Pte(w.mem, w.kdir, i, j)
  {
    assert At(w.mem, d, i) == At(w.mem, w.kdir, i);
  }

  lemma IdentityAt(w: World, d: nat, f: nat)
    requires Inv(w) && Identity(w) && IsDirectory(w, d) && w.lo <= f < w.hi
    ensures f / 1024 < 512 && f % 1024 < 1024
    ensures HasTable(w.mem, w.kdir, f / 1024)
    ensures Mapped(w.mem, d, f / 1024, f % 1024) && PageOf(w.mem, d, f / 1024, f % 1024) == f
  {
    KernelPte(w, d, f / 1024, f % 1024);
    assert Mapped(w.mem, w.kdir, f / 1024, f % 1024);
  }

  // The source starts at pde_index(page_dir), the slot of the directory's own address. With the kernel's
  // identity map in place that walk frees the whole pool from that 4-MByte block upwards, whoever owns it,
  // and is never exact.
  lemma SourceWalkOverreaches(w: World, d: nat, gone: set<nat>)
    requires Inv(w) && Identity(w) && IsDirectory(w, d)
    requires Reaps(w.mem, d, d / 1024, gone)
    ensures forall f :: w.lo <= f < w.hi && d / 1024 <= f / 1024 ==> f in gone
    ensures gone != FramesOf(w, d)
  {
    var first := d / 1024;
    forall f | w.lo <= f < w.hi && first <= f / 1024
      ensures f in gone
    {
      IdentityAt(w, d, f);
      assert Mapped(w.mem, d, f / 1024, f % 1024);
    }
    IdentityAt(w, d, d);
    assert HasTable(w.mem, w.kdir, first);
    WalkIsExactIff(w, d, first, gone);
  }

  predicate EmptyUserHalf(m: Mem, r: nat) {
    forall i :: 512 <= i < 1024 ==> !HasTable(m, r, i)
  }

  // Directory d, which had no tables of its own, is gone; everything else is as it was, except that frame
  // leak, when it is not 0, was taken and is used for nothing.
  ghost predicate Undone(w: World, w': World, d: nat, leak: nat) {
    && Inv(w') && |w'.mem| == |w.mem| && w'.kdir == w.kdir && w'.lo == w.lo && w'.hi == w.hi
    && (if leak == 0 then w'.owner == w.owner - {d} else leak !in w.owner && w'.owner == (w.owner - {d})[leak := InHand])
    && SameData(w, w'.mem)
    && forall r :: IsRoot(w, r) && r != d ==> SameSpace(w.mem, w'.mem, r)
  }

  // Removing a directory after its space has grown from nothing undoes the growth.
  lemma GrowthUndone(w: World, w1: World, d: nat)
    requires Inv(w) && IsDirectory(w, d) && EmptyUserHalf(w.mem, d) && Grown(w, w1, d)
    ensures Undone(w, Remove(w1, d), d, 0)
  {
    RemoveKeeps(w1, d);
    forall f | f in w.owner && f != d
      ensures !BelongsTo(w1, f, d)
    {
      assert RefersBack(w, f);
    }
    var o1, o2 := Remove(w1, d).owner, w.owner - {d};
    assert o1.Keys == o2.Keys;
    assert forall f :: f in o1 ==> o1[f] == o2[f];
  }

  lemma LeakUndone(w: World, w1: World, d: nat, leak: nat)
    requires Inv(w) && IsDirectory(w, d) && EmptyUserHalf(w.mem, d) && Grown(w, w1, d)
    requires leak !in w1.owner && 0 < w.lo <= leak < w.hi
    ensures Undone(w, Remove(Take(w1, leak, InHand), d), d, leak)
  {
    hide *;
    GrowthUndone(w, w1, d);
    KeepsTaken(w, w1, d, leak);
    RemoveTaken(w1, d, leak);
    LeakAfter(w, Remove(w1, d), d, leak);
  }

  lemma KeepsTaken(w: World, w1: World, d: nat, leak: nat)
    requires IsDirectory(w, d) && Grown(w, w1, d) && leak !in w1.owner
    ensures leak !in w.owner && leak != d
  {
    hide Inv, SameSpace, SameData;
  }

  lemma RemoveTaken(w: World, d: nat, f: nat)
    requires f !in w.owner
    ensures Remove(Take(w, f, InHand), d) == Take(Remove(w, d), f, InHand)
  {
    assert FramesOf(Take(w, f, InHand), d) == FramesOf(w, d);
    assert Take(w, f, InHand).owner - FramesOf(w, d) == (w.owner - FramesOf(w, d))[f := InHand];
  }

  lemma LeakAfter(w: World, w': World, d: nat, leak: nat)
    requires Undone(w, w', d, 0) && leak !in w.owner && leak != d && 0 < w.lo <= leak < w.hi
    ensures Undone(w, Take(w', leak, InHand), d, leak)
  {
    hide SameSpace, SameData;
    TakeKeeps(w', leak, InHand);
  }
}
