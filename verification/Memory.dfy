// The memory manager of source/kernel/core/memory.c.
//
// Page frames and directories are named by frame number, that is by physical address / 4096. The kernel
// works on page tables through pointers equal to physical addresses; IdentityEverywhere in
// Ownership.dfy shows that every address space translates those addresses to themselves.
module Memory {
  import opened Mmu
  import opened Paging
  import opened Spaces
  import opened Teardown
  import opened Bytes
  import opened Access
  import opened Allocator
  import opened Budget

  class MemoryManager {
    const frames: array<Frame>     // physical memory
    const alloc: PageAllocator     // paddr_alloc
    const kdir: nat                // the frame of kernel_page_dir
    var cr3: nat                   // the directory in use
    ghost var owner: map<nat, Owner>

    ghost function State(): World
      reads this`owner, frames
    {
      World(frames[..], owner, kdir, alloc.lo, alloc.hi)
    }

    ghost predicate Valid()
      reads this`owner, frames, alloc, alloc.bitmap.bits
    {
      && alloc.Valid()
      && frames as object != alloc.bitmap.bits
      && alloc.used == owner.Keys
      && Inv(State())
    }

    // addr_alloc_init, and the clearing of kernel_page_dir at the start of create_kernel_table: nothing is
    // taken from the pool [lo, hi) and the kernel directory maps nothing.
    constructor (frames: array<Frame>, bits: array<bv8>, lo: nat, hi: nat, kdir: nat)
      requires kdir < lo <= hi <= frames.Length <= 0x10_0000 && hi <= 0x8_0000
      requires Bitmaps.ByteCount(hi - lo) <= bits.Length && frames as object != bits
      modifies frames, bits
      ensures Valid() && owner == map[] && cr3 == kdir
      ensures this.frames == frames && alloc.lo == lo && alloc.hi == hi && this.kdir == kdir
      ensures fresh(alloc) && fresh(alloc.bitmap) && alloc.bitmap.bits == bits
      ensures frames[..] == old(frames[..])[kdir := ZeroFrame()]
    {
      this.frames := frames;
      this.alloc := new PageAllocator(bits, lo, hi);
      this.kdir, this.cr3, this.owner := kdir, kdir, map[];
      new;
      frames[kdir] := ZeroFrame();
    }

    // addr_alloc_page(&paddr_alloc, 1): the lowest free frame, or 0 when there is none.
    method AllocPage() returns (f: nat)
      requires Valid()
      modifies this`owner, alloc, alloc.bitmap.bits
      ensures Valid()
      ensures f == 0 <==> PoolFull(old(State()))
      ensures f == 0 ==> owner == old(owner)
      ensures f != 0 ==> alloc.lo <= f < alloc.hi && f !in old(owner) && owner == old(owner)[f := InHand]
      ensures f != 0 ==> forall g :: alloc.lo <= g < f ==> g in old(owner)
    {
      f := alloc.AllocPage();
      if f != 0 {
        TakeKeeps(State(), f, InHand);
        owner := owner[f := InHand];
      }
    }

    // A frame in hand, or a kernel stack (memory_free_page), goes back to the pool.
    method FreePage(f: nat)
      requires Valid() && f in owner && (owner[f].InHand? || owner[f].Stack?)
      modifies this`owner, alloc, alloc.bitmap.bits
      ensures Valid() && owner == old(owner) - {f}
    {
      ReturnKeeps(State(), f);
      alloc.Kfree(f);
      owner := owner - {f};
    }

    // The creating branch of find_pte: frame t, just allocated, becomes table i of directory r.
    method AddTable(r: nat, i: nat, t: nat)
      requires Valid() && CanInstallTable(State(), r, i, t)
      modifies this`owner, frames
      ensures Valid() && State() == InstallTable(old(State()), r, i, t)
    {
      InstallTableKeeps(State(), r, i, t);
      frames[r] := frames[r][i := Entry(t, 7)];
      frames[t] := ZeroFrame();
      owner := owner[t := Table(r, i)];
      assert frames[..] == InstallTable(old(State()), r, i, t).mem;
    }

    // find_pte: entry j of table t is the one for va.
    method FindPte(r: nat, va: Word, create: bool) returns (found: bool, t: nat, j: nat)
      requires Valid() && CanFind(State(), r, PdeIndex(va), create)
      modifies this`owner, frames, alloc, alloc.bitmap.bits
      ensures Valid() && Found(old(State()), State(), r, PdeIndex(va), create, found, t)
      ensures j == PteIndex(va)
    {
      IndicesAddress(va);
      found, t, j := true, 0, PteIndex(va);
      var i := PdeIndex(va);
      var pde := frames[r][i];
      if Present(pde) {
        t := FrameNo(pde);
      } else if !create {
        found := false;
      } else {
        t := AllocPage();
        if t == 0 {
          found := false;
        } else {
          TakenCanInstall(old(State()), r, i, t);
          AddTable(r, i, t);
          EntryFields(t, 7);
        }
      }
    }

    // The store of one page-table entry in memory_create_map.
    method SetEntry(r: nat, i: nat, j: nat, t: nat, p: nat, perm: nat)
      requires Valid() && CanInstallPage(State(), r, i, j, p, perm) && t == TableOf(State().mem, r, i)
      modifies this`owner, frames
      ensures Valid()
      ensures t < frames.Length && State() == InstallPage(old(State()), r, i, j, p, perm)
    {
      InstallPageKeeps(State(), r, i, j, p, perm);
      frames[t] := frames[t][j := Entry(p, perm)];
      if r != kdir {
        owner := owner[p := Page(r, i, j)];
      }
      assert frames[..] == InstallPage(old(State()), r, i, j, p, perm).mem;
    }

    // One turn of the loop of memory_create_map, the k-th in a call that found the world w: page vaddr is
    // to be mapped to frame p + k.
    method MapOne(r: nat, vaddr: Word, p: nat, k: nat, perm: nat, ghost w: World, ghost v: nat, ghost count: nat)
      returns (ok: bool)
      requires Valid() && SpanRequest(w, r, v, p, count, perm) && k < count
      requires SpanMapped(w, State(), r, v, p, k, perm) && vaddr / 4096 == v + k
      requires TablesMade(w, State(), r, v, k, 0)
      modifies this`owner, frames, alloc, alloc.bitmap.bits
      ensures Valid() && SpanMapped(w, State(), r, v, p, if ok then k + 1 else k, perm)
      ensures TablesMade(w, State(), r, v, if ok then k + 1 else k, 0)
      ensures !ok ==> PoolFull(State()) && State() == old(State()) && !HasTable(State().mem, r, (v + k) / 1024)
    {
      hide *;
      ghost var w1 := State();
      TurnStart(w, w1, r, v, p, k, count, perm, vaddr);
      var found, t, j := FindPte(r, vaddr, true);
      TurnEnd(w, w1, State(), r, v, p, k, count, perm, vaddr, found, t);
      TurnTables(w, w1, State(), r, v, p, k, perm, vaddr, found, t);
      if !found {
        return false;
      }
      SetEntry(r, PdeIndex(vaddr), j, t, p + k, perm);
      return true;
    }

    // memory_create_map. The source returns no value on success; 0 stands for that. When it fails, the n
    // pages before the failure stay mapped.
    method CreateMap(r: nat, va: Word, p: nat, count: nat, perm: nat) returns (err: int, ghost n: nat)
      requires Valid() && SpanRequest(State(), r, va / 4096, p, count, perm)
      modifies this`owner, frames, alloc, alloc.bitmap.bits
      ensures Valid() && n <= count && SpanMapped(old(State()), State(), r, va / 4096, p, n, perm)
      ensures (err == 0 && n == count) || (err == -1 && n < count)
      ensures err == 0 <==> Free(old(State())) >= SpanCost(old(State().mem), r, va / 4096, count, false)
      ensures TablesMade(old(State()), State(), r, va / 4096, n, 0)
      ensures err == -1 ==> PoolFull(State()) && !HasTable(State().mem, r, (va / 4096 + n) / 1024)
      ensures n == 0 ==> State() == old(State())
    {
      hide *;
      SpanStart(State(), r, va / 4096, p, count, perm);
      ghost var w := State();
      MadeNothing(w, r, va / 4096);
      var k: nat, vaddr: int := 0, va;
      while k < count
        invariant k <= count && Valid() && SpanMapped(w, State(), r, va / 4096, p, k, perm)
        invariant TablesMade(w, State(), r, va / 4096, k, 0)
        invariant k == 0 ==> State() == w
        invariant 0 <= vaddr < 0x1_0000_0000
        invariant k < count ==> vaddr / 4096 == va / 4096 + k
      {
        var ok := MapOne(r, vaddr, p, k, perm, w, va / 4096, count);
        if !ok {
          SpanShort(w, State(), r, va / 4096, p, k, count, perm);
          return -1, k;
        }
        vaddr := (vaddr + 4096) % 0x1_0000_0000;
        k := k + 1;
      }
      SpanFull(w, State(), r, va / 4096, p, count, perm);
      return 0, k;
    }

    // memory_create_uvm: the frame of the new directory, or 0.
    method CreateUvm() returns (d: nat)
      requires Valid()
      modifies this`owner, frames, alloc, alloc.bitmap.bits
      ensures Valid()
      ensures d == 0 <==> PoolFull(old(State()))
      ensures d == 0 ==> State() == old(State())
      ensures d != 0 ==> Created(old(State()), State(), d)
    {
      d := AllocPage();
      if d != 0 {
        MakesSpace(old(State()), d);
        hide Inv, Created;
        FillDirectory(d);
        owner := owner[d := Directory];
        assert State() == MakeDirectory(Take(old(State()), d, InHand), d);
      }
    }

    method FillDirectory(d: nat)
      requires kdir != d && kdir < frames.Length && d < frames.Length
      modifies frames
      ensures frames[..] == old(frames[..])[d := DirectoryFrame(old(frames[kdir]))]
    {
      ghost var m := frames[..];
      frames[d] := ZeroFrame();
      for i := 0 to 512
        invariant frames[kdir] == m[kdir] && frames[..] == m[d := frames[d]]
        invariant frames[d] == m[kdir][..i] + seq(1024 - i, k => 0)
      {
        frames[d] := frames[d][i := frames[kdir][i]];
      }
    }

    // memory_alloc_page as used for a kernel stack
    method AllocStack() returns (f: nat)
      requires Valid()
      modifies this`owner, alloc, alloc.bitmap.bits
      ensures Valid()
      ensures f == 0 <==> PoolFull(old(State()))
      ensures f == 0 ==> owner == old(owner)
      ensures f != 0 ==> alloc.lo <= f < alloc.hi && f !in old(owner) && owner == old(owner)[f := Stack]
    {
      hide SameSpace, TablesOwned, PagesOwned, KernelShared, RefersBack;
      f := AllocPage();
      if f != 0 {
        TakeKeeps(old(State()), f, Stack);
        owner := owner[f := Stack];
        assert owner == old(owner)[f := Stack];
        assert State() == Take(old(State()), f, Stack);
      }
    }

    // kmemcpy from virtual address src of the space in use, to byte o and following of data frame p.
    method Kmemcpy(p: nat, o: nat, src: Word, size: nat)
      requires Valid() && IsRoot(State(), cr3) && IsData(State(), p) && p < frames.Length && o + size <= 4096
      requires RangeMapped(frames[..], cr3, src, size) && RangeAvoids(frames[..], cr3, src, size, p, o, size)
      modifies frames
      ensures Valid() && frames[..] == old(frames[..])[p := frames[p]]
      ensures src == 0 ==> frames[..] == old(frames[..])
      ensures src != 0 ==> BytesCopied(old(frames[..]), cr3, src, size, old(frames[p]), frames[p], o)
    {
      ghost var w := State();
      if src == 0 || size == 0 {
        return;
      }
      var i := 0;
      while i < size
        invariant 0 <= i <= size && frames[..] == w.mem[p := frames[p]]
        invariant RangeMapped(w.mem, cr3, src, i) && BytesCopied(w.mem, cr3, src, i, w.mem[p], frames[p], o)
      {
        NextByte(w, cr3, src, i, size, p, frames[p], o);
        hide *;
        var b := VaByte(frames[..], cr3, src + i);
        frames[p] := PutFrameByte(frames[p], o + i, b);
        i := i + 1;
      }
      DataFrameWrite(w, p, frames[p], cr3, 0);
    }

    // The calls of addr_alloc_page and memory_create_map that map one fresh page. When the second fails,
    // for want of a page table, the page that the first one took is not given back.
    method AddPage(r: nat, va: Word, perm: nat) returns (p: nat, err: int)
      requires Valid() && PageRequest(State(), r, va, perm)
      modifies this`owner, frames, alloc, alloc.bitmap.bits
      ensures Valid()
      ensures p == 0 ==> State() == old(State()) && PoolFull(State())
      ensures p !in old(State()).owner && (p != 0 ==> old(State()).lo <= p < old(State()).hi)
      ensures p == 0 <==> Free(old(State())) == 0
      ensures p != 0 && err < 0 ==> State() == Take(old(State()), p, InHand) && PoolFull(State())
      ensures p != 0 && err < 0 ==> Free(old(State())) == 1 && !HasTable(old(State().mem), r, PdeIndex(va))
      ensures p != 0 && err >= 0 ==>
                p < 0x10_0000 && PageAdded(old(State()), State(), r, PdeIndex(va), PteIndex(va), p, perm)
      ensures p != 0 && err >= 0 ==> TablesMade(old(State()), State(), r, va / 4096, 1, 1)
    {
      err := 0;
      ghost var w := State();
      FreeFacts(w);
      p := AllocPage();
      hide Inv, PageRequest, PageAdded, TablesMade, Free, HasTable;
      if p != 0 {
        err := MapTaken(r, va, perm, p, w);
      }
    }

    // The second of these calls, in the world w with frame p taken
    method MapTaken(r: nat, va: Word, perm: nat, p: nat, ghost w: World) returns (err: int)
      requires Valid() && PageRequest(w, r, va, perm) && State() == Take(w, p, InHand)
      requires w.lo <= p < w.hi && p !in w.owner
      modifies this`owner, frames, alloc, alloc.bitmap.bits
      ensures Valid()
      ensures err < 0 ==> State() == Take(w, p, InHand) && PoolFull(State())
      ensures err < 0 ==> Free(w) == 1 && !HasTable(w.mem, r, PdeIndex(va))
      ensures err >= 0 ==>
                && p < 0x10_0000 && perm < 4096 && PageAdded(w, State(), r, PdeIndex(va), PteIndex(va), p, perm)
                && TablesMade(w, State(), r, va / 4096, 1, 1)
    {
      hide *;
      TakenRequest(w, r, va, perm, p);
      ghost var n;
      err, n := CreateMap(r, va, p, 1, perm);
      if n == 1 {
        RequestPerm(w, r, va, perm, p);
        TakenMapped(w, State(), r, va, perm, p);
        MadeWithPage(w, State(), r, va / 4096, p);
      } else {
        ValidInv();
        TakenFull(w, State(), va, p);
      }
    }

    lemma ValidInv()
      requires Valid()
      ensures Inv(State())
    {
    }

    // memory_alloc_for_page_dir. It returns 0 in every case; what it reached is in the ghost results: the
    // first n pages are mapped, and leak, when not 0, is a frame that was taken and not mapped.
    method AllocForPageDir(d: nat, va: Word, size: Word, perm: nat)
      returns (r: int, ghost n: nat, ghost reached: World, ghost leak: nat)
      requires Valid() && UserRequest(State(), d, va, size, perm)
      modifies this`owner, frames, alloc, alloc.bitmap.bits
      ensures Valid() && r == 0
      ensures Filled(old(State()), State(), d, va, size, perm, n, reached, leak)
    {
      hide *;
      ghost var w := State();
      var vaddr: int, k: nat := va, 0;
      PopulateStart(w, d, va, size, perm);
      MadeNothing(w, d, va / 4096);
      while k < PageCount(size)
        invariant k <= PageCount(size) && Valid() && Populated(w, State(), d, va / 4096, k, perm)
        invariant TablesMade(w, State(), d, va / 4096, k, k)
        invariant k == 0 ==> State() == w
        invariant 0 <= vaddr < 0x1_0000_0000
        invariant k < PageCount(size) ==> vaddr / 4096 == va / 4096 + k
      {
        reached := State();
        var ok;
        ok, leak := FillOne(d, vaddr, perm, va, k, w, size);
        if !ok {
          return 0, k, reached, leak;
        }
        vaddr := (vaddr + 4096) % 0x1_0000_0000;
        k := k + 1;
      }
      FillEnds(w, State(), d, va, size, perm);
      return 0, k, State(), 0;
    }

    // One turn of that loop, the k-th in a call that found the world w. The frees in its failure branch
    // name the virtual address, which is beyond the pool: they free nothing.
    method FillOne(d: nat, vaddr: Word, perm: nat, va: Word, k: nat, ghost w: World, ghost size: Word)
      returns (ok: bool, ghost leak: nat)
      requires Valid() && UserRequest(w, d, va, size, perm) && k < PageCount(size) && vaddr / 4096 == va / 4096 + k
      requires Populated(w, State(), d, va / 4096, k, perm) && TablesMade(w, State(), d, va / 4096, k, k)
      requires k == 0 ==> State() == w
      modifies this`owner, frames, alloc, alloc.bitmap.bits
      ensures Valid()
      ensures ok ==>
        Populated(w, State(), d, va / 4096, k + 1, perm) && TablesMade(w, State(), d, va / 4096, k + 1, k + 1)
      ensures !ok ==> Filled(w, State(), d, va, size, perm, k, old(State()), leak)
    {
      hide *;
      ghost var w1 := State();
      PopulateRequest(w, w1, d, va, size, perm, k, vaddr);
      var p, err := AddPage(d, vaddr, perm);
      ok, leak := p != 0 && err >= 0, p;
      if ok {
        PopulateNext(w, w1, State(), d, va, size, perm, k, vaddr, p);
        MadeNext(w, w1, State(), d, va / 4096, k, k, 1);
      } else {
        VaPage(vaddr);
        FillStops(w, w1, State(), d, va, size, perm, k, p);
        if p != 0 {
          Rollback(va / 4096, k);
        }
      }
    }

    // addr_free_page(&paddr_alloc, vaddr, i) in the failure branch of memory_alloc_for_page_dir
    method Rollback(v: nat, k: nat)
      requires Valid() && 0x8_0000 <= v < 0x10_0000
      modifies alloc, alloc.bitmap.bits
      ensures Valid() && alloc.used == old(alloc.used)
    {
      alloc.FreePages(v, k);
      assert alloc.used == old(alloc.used);
    }

    // kmemcpy of a whole page (i, j) of the space in use to frame p
    method CopyPage(p: nat, i: nat, j: nat)
      requires Valid() && IsDirectory(State(), cr3) && IsData(State(), p) && p < |State().mem|
      requires 512 <= i < 1024 && j < 1024 && Mapped(State().mem, cr3, i, j) && PageOf(State().mem, cr3, i, j) != p
      modifies frames
      ensures Valid() && PageOf(old(State().mem), cr3, i, j) < |State().mem| && p < |State().mem|
      ensures State() == CopyFrame(old(State()), p, PageOf(old(State().mem), cr3, i, j))
    {
      PageOwner(State(), cr3, i, j);
      PageRange(frames[..], cr3, i, j);
      Kmemcpy(p, 0, Address(i, j, 0), 4096);
      WholePage(old(frames[..]), cr3, i, j, old(frames[p]), frames[p]);
    }

    // One entry of a page table, or of a directory, is read; the caller says whether the frame that holds it
    // must still be allocated.
    method Load(f: nat, k: nat, ghost live: bool) returns (e: Word)
      requires f < frames.Length && k < 1024
      requires live ==> f in alloc.used
      ensures e == At(frames[..], f, k)
    {
      e := frames[f][k];
    }

    // The walk of memory_destroy_uvm over the slots from first on. It frees the frames in gone: those that
    // Reaps tells, and each of them. A walk over the user half reads nothing that it has freed.
    method DestroyFrom(d: nat, first: nat) returns (ghost gone: set<nat>)
      requires alloc.Valid() && frames as object != alloc.bitmap.bits && frames.Length <= 0x10_0000
      requires d < frames.Length && first <= 1024 && TablesInMemory(frames[..], d, first)
      requires first == 512 ==> Valid() && IsDirectory(State(), d)
      modifies alloc, alloc.bitmap.bits
      ensures alloc.Valid() && alloc.used == old(alloc.used) - gone
      ensures Reaps(frames[..], d, first, gone)
    {
      gone := {};
      ghost var u := alloc.used;
      ghost var w := State();
      var i := first;
      while i < 1024
        invariant first <= i <= 1024 && alloc.Valid() && alloc.used == u - gone
        invariant ReapedUpTo(frames[..], d, first, i, 0, gone)
      {
        if first == 512 {
          StillLive(w, d, i, 0, gone);
        }
        hide *;
        var pde := Load(d, i, first == 512);
        gone := DestroyTable(d, first, i, pde, u, gone);
        i := i + 1;
      }
      ReapedAll(frames[..], d, first, gone);
      gone := gone + {d};
      alloc.Kfree(d);
    }

    // The part of that walk that deals with slot i.
    method DestroyTable(d: nat, first: nat, i: nat, pde: Word, ghost u: set<nat>, ghost before: set<nat>)
      returns (ghost gone: set<nat>)
      requires alloc.Valid() && frames as object != alloc.bitmap.bits && frames.Length <= 0x10_0000
      requires d < frames.Length && first <= i < 1024 && TablesInMemory(frames[..], d, first)
      requires first == 512 ==> Inv(State()) && IsDirectory(State(), d) && u == State().owner.Keys
      requires pde == At(frames[..], d, i)
      requires alloc.used == u - before && ReapedUpTo(frames[..], d, first, i, 0, before)
      modifies alloc, alloc.bitmap.bits
      ensures alloc.Valid() && alloc.used == u - gone
      ensures ReapedUpTo(frames[..], d, first, i + 1, 0, gone)
    {
      hide Inv, ReapedUpTo, PageAllocator.Valid;
      gone := before;
      if !Present(pde) {
        ReapNothing(frames[..], d, first, i, gone);
        return;
      }
      var t := FrameNo(pde);
      ghost var w := State();
      var j := 0;
      while j < 1024
        invariant 0 <= j <= 1024 && alloc.Valid() && alloc.used == u - gone
        invariant ReapedUpTo(frames[..], d, first, i, j, gone)
      {
        if first == 512 {
          StillLive(w, d, i, j, gone);
        }
        ReapPage(frames[..], d, first, i, j, gone);
        var pte := Load(t, j, first == 512);
        if Present(pte) {
          gone := gone + {FrameNo(pte)};
          alloc.Kfree(FrameNo(pte));
        }
        j := j + 1;
      }
      ReapTable(frames[..], d, first, i, gone);
      gone := gone + {t};
      alloc.Kfree(t);
    }

    // memory_destroy_uvm as it is written: the walk starts at the slot of the address of the directory.
    method DestroyUvmAsWritten(d: nat) returns (ghost gone: set<nat>)
      requires Valid() && IsDirectory(State(), d)
      modifies alloc, alloc.bitmap.bits
      ensures alloc.used == old(alloc.used) - gone
      ensures Reaps(frames[..], d, d / 1024, gone)
    {
      DirectoryTables(State(), d);
      assert PdeIndex(d * 4096) == d / 1024;
      gone := DestroyFrom(d, PdeIndex(d * 4096));
    }

    // memory_destroy_uvm as its comment and memory_copy_uvm have it: the walk starts at
    // pde_index(MEMORY_TASK_BASE). It frees exactly the frames of d.
    method DestroyUvm(d: nat)
      requires Valid() && IsDirectory(State(), d)
      modifies this`owner, alloc, alloc.bitmap.bits
      ensures Valid() && State() == Remove(old(State()), d)
    {
      DirectoryTables(State(), d);
      ghost var gone := DestroyFrom(d, 512);
      UserWalkIsExact(State(), d, gone);
      RemoveKeeps(State(), d);
      owner := owner - gone;
    }

    // memory_copy_uvm2, called with from the space in use: its user half is copied to directory to, which
    // has an empty one.
    method CopyUvm2(from: nat, to: nat) returns (res: Word, ghost leak: nat)
      requires Valid() && from == cr3 && IsDirectory(State(), from)
      requires to == 0 || (to != from && IsDirectory(State(), to) && EmptyUserHalf(State().mem, to))
      modifies this`owner, frames, alloc, alloc.bitmap.bits
      ensures Valid()
      ensures to == 0 ==> res == 0xFFFF_FFFF && State() == old(State())
      ensures to != 0 ==> Forked(old(State()), State(), from, to, res, leak)
    {
      leak := 0;
      if to == 0 {
        return 0xFFFF_FFFF, 0;
      }
      ghost var w := State();
      CopyStart(w, from, to);
      PaidNothing(w, from, to);
      hide *;
      var i := 512;
      while i < 1024
        invariant 512 <= i <= 1024 && Valid() && from == cr3
        invariant Grown(w, State(), to) && CopiedTo(State().mem, from, to, i, 0)
        invariant CopyPaid(w, State(), from, to, i * 1024)
      {
        var ok;
        ok, leak := CopyRow(from, to, i, w);
        if !ok {
          ForkFails(w, State(), from, to, leak);
          return 0xFFFF_FFFF, leak;
        }
        i := i + 1;
      }
      CopyDone(State().mem, from, to);
      ForkEnds(w, State(), from, to);
      return to * 4096, 0;
    }

    // The part of memory_copy_uvm2 that deals with slot i.
    method CopyRow(from: nat, to: nat, i: nat, ghost w: World) returns (ok: bool, ghost leak: nat)
      requires Valid() && from == cr3 && CopyGround(w, from, to) && 512 <= i < 1024
      requires Grown(w, State(), to) && CopiedTo(State().mem, from, to, i, 0)
      requires CopyPaid(w, State(), from, to, i * 1024)
      modifies this`owner, frames, alloc, alloc.bitmap.bits
      ensures Valid()
      ensures ok ==> Grown(w, State(), to) && CopiedTo(State().mem, from, to, i + 1, 0)
      ensures ok ==> CopyPaid(w, State(), from, to, (i + 1) * 1024)
      ensures !ok ==> Undone(w, State(), to, leak) && Stops(w, from, leak != 0)
    {
      hide Inv, Grown, CopiedTo, Valid, Undone, CopyPaid, Stops;
      leak := 0;
      RowStart(w, State(), from, to, i);
      var pde := frames[from][i];
      if !Present(pde) {
        CopyNextRow(State().mem, from, to, i, 0);
        PaidEmptyRow(w, State(), from, to, i);
        return true, 0;
      }
      var t := FrameNo(pde);
      var j := 0;
      hide *;
      while j < 1024
        invariant 0 <= j <= 1024 && Valid() && from == cr3
        invariant Grown(w, State(), to) && CopiedTo(State().mem, from, to, i, j)
        invariant CopyPaid(w, State(), from, to, i * 1024 + j)
        invariant Owned(State(), t, Table(from, i))
      {
        ok, leak := CopyOne(from, to, i, j, t, w);
        if !ok {
          return;
        }
        j := j + 1;
      }
      CopyNextRow(State().mem, from, to, i, 1024);
      return true, 0;
    }

    // The part that deals with entry j of its table t.
    method CopyOne(from: nat, to: nat, i: nat, j: nat, t: nat, ghost w: World) returns (ok: bool, ghost leak: nat)
      requires Valid() && from == cr3 && CopyGround(w, from, to) && 512 <= i < 1024 && j < 1024
      requires Grown(w, State(), to) && CopiedTo(State().mem, from, to, i, j)
      requires CopyPaid(w, State(), from, to, i * 1024 + j)
      requires Owned(State(), t, Table(from, i))
      modifies this`owner, frames, alloc, alloc.bitmap.bits
      ensures Valid()
      ensures ok ==>
        Grown(w, State(), to) && CopiedTo(State().mem, from, to, i, j + 1) && Owned(State(), t, Table(from, i))
      ensures ok ==> CopyPaid(w, State(), from, to, i * 1024 + j + 1)
      ensures !ok ==> Undone(w, State(), to, leak) && Stops(w, from, leak != 0)
    {
      hide *;
      GroundIn(w, State(), from, to);
      var pte := LoadEntry(from, i, j, t);
      if !Present(pte) {
        SkipEntry(State().mem, from, to, i, j);
        PaidAbsent(w, State(), from, to, i, j);
        return true, 0;
      }
      ok, leak := CopyMapped(from, to, i, j, t, pte, w);
    }

    method LoadEntry(r: nat, i: nat, j: nat, t: nat) returns (pte: Word)
      requires Valid() && Owned(State(), t, Table(r, i)) && 512 <= i < 1024 && j < 1024
      ensures pte == Pte(State().mem, r, i, j)
    {
      TableEntry(State(), r, i, j, t);
      pte := Load(t, j, true);
    }

    // A page that is mapped is copied to a fresh one.
    method CopyMapped(from: nat, to: nat, i: nat, j: nat, t: nat, pte: Word, ghost w: World)
      returns (ok: bool, ghost leak: nat)
      requires Valid() && from == cr3 && CopyGround(w, from, to) && 512 <= i < 1024 && j < 1024
      requires Grown(w, State(), to) && CopiedTo(State().mem, from, to, i, j)
      requires CopyPaid(w, State(), from, to, i * 1024 + j)
      requires Owned(State(), t, Table(from, i)) && pte == Pte(State().mem, from, i, j) && Present(pte)
      modifies this`owner, frames, alloc, alloc.bitmap.bits
      ensures Valid()
      ensures ok ==>
        Grown(w, State(), to) && CopiedTo(State().mem, from, to, i, j + 1) && Owned(State(), t, Table(from, i))
      ensures ok ==> CopyPaid(w, State(), from, to, i * 1024 + j + 1)
      ensures !ok ==> Undone(w, State(), to, leak) && Stops(w, from, leak != 0)
    {
      hide *;
      ghost var w1 := State();
      CopyRequest(w, w1, from, to, i, j);
      var p, err := AddPage(to, Address(i, j, 0), Perm(pte));
      ghost var w2 := State();
      ok, leak := p != 0 && err >= 0, p;
      if ok {
        CopySource(w, w1, w2, from, to, i, j, p, t);
        PaidPage(w, w1, w2, from, to, i, j, p);
        CopyPage(p, i, j);
      } else {
        CopyFails(w, w1, w2, from, to, p);
        PageStops(w, w1, from, to, i, j, p != 0);
        DestroyUvm(to);
      }
    }
  }

  // What memory_copy_uvm2 did. The result is the address of to, exactly if there was a frame for every user
  // page of from and for the table of every slot with such a page, and then the user halves are the same.
  // Otherwise it is 0xFFFFFFFF, to has been destroyed, and a frame leaks exactly if the first one missing was
  // for a table.
  ghost predicate Forked(w: World, w': World, from: nat, to: nat, res: Word, leak: nat) {
    && res == (if Free(w) >= |UserPages(w.mem, from)| + |UserSlots(w.mem, from)| then to * 4096 else 0xFFFF_FFFF)
    && to * 4096 != 0xFFFF_FFFF
    && (leak != 0 <==> LacksTable(w, from))
    && (res == to * 4096 ==> leak == 0 && Grown(w, w', to) && SameUserHalf(w'.mem, from, to))
    && (res == 0xFFFF_FFFF ==> Undone(w, w', to, leak))
  }

  lemma ForkFails(w: World, w': World, from: nat, to: nat, leak: nat)
    requires Inv(w) && IsDirectory(w, to) && Stops(w, from, leak != 0) && Undone(w, w', to, leak)
    ensures Forked(w, w', from, to, 0xFFFF_FFFF, leak)
  {
    assert to < 0x8_0000;
    StopsShort(w, from, leak != 0);
    hide Inv, Stops, Undone, LacksTable, Free, UserPages, UserSlots, Grown, SameUserHalf;
  }

  lemma ForkEnds(w: World, w': World, from: nat, to: nat)
    requires Inv(w) && IsDirectory(w, to)
    requires Grown(w, w', to) && SameUserHalf(w'.mem, from, to) && CopyPaid(w, w', from, to, END)
    ensures to < 0x8_0000 && Forked(w, w', from, to, to * 4096, 0)
  {
    FreeFacts(w');
    WholeCost(w.mem, from);
    assert to < 0x8_0000;
    hide Inv, UserPages, UserSlots, Cost, SameUserHalf, LacksTable, Undone;
    EnoughNeverLacks(w, from);
  }

  lemma SameEntry(w: World, w1: World, from: nat, to: nat, i: nat, j: nat)
    requires CopyGround(w, from, to) && Grown(w, w1, to) && i < 1024 && j < 1024
    ensures PageAt(w.mem, from, i * 1024 + j) <==> Mapped(w1.mem, from, i, j)
    ensures HasTable(w1.mem, from, i) || !PageAt(w.mem, from, i * 1024 + j)
  {
    assert (i * 1024 + j) / 1024 == i && (i * 1024 + j) % 1024 == j;
    assert SameSpace(w.mem, w1.mem, from);
    hide Inv;
    SameSpacePte(w.mem, w1.mem, from, i, j);
  }

  lemma PaidAbsent(w: World, w1: World, from: nat, to: nat, i: nat, j: nat)
    requires CopyGround(w, from, to) && Grown(w, w1, to) && 512 <= i < 1024 && j < 1024
    requires CopyPaid(w, w1, from, to, i * 1024 + j) && !Present(Pte(w1.mem, from, i, j))
    ensures CopyPaid(w, w1, from, to, i * 1024 + j + 1)
  {
    hide *;
    PresentMapped(w1.mem, from, i, j);
    PageNumber(i, j);
    SameEntry(w, w1, from, to, i, j);
    PaidSkip(w, w1, from, to, i * 1024 + j);
  }

  lemma PaidEmptyRow(w: World, w1: World, from: nat, to: nat, i: nat)
    requires CopyGround(w, from, to) && Grown(w, w1, to) && 512 <= i < 1024
    requires CopyPaid(w, w1, from, to, i * 1024) && !Present(At(w1.mem, from, i))
    ensures CopyPaid(w, w1, from, to, (i + 1) * 1024)
  {
    hide CopyPaid, Inv, Grown, CopyGround, PageAt;
    forall v | i * 1024 <= v < i * 1024 + 1024
      ensures !PageAt(w.mem, from, v)
    {
      SameEntry(w, w1, from, to, i, v - i * 1024);
    }
    PaidSkipRow(w, w1, from, to, i * 1024, 1024);
  }

  lemma PaidPage(w: World, w1: World, w2: World, from: nat, to: nat, i: nat, j: nat, p: nat)
    requires CopyGround(w, from, to) && Grown(w, w1, to) && 512 <= i < 1024 && j < 1024
    requires CopyPaid(w, w1, from, to, i * 1024 + j) && Present(Pte(w1.mem, from, i, j))
    requires TablesMade(w1, w2, to, Address(i, j, 0) / 4096, 1, 1)
    requires Inv(w2) && IsDirectory(w2, to) && IsData(w2, p) && p < |w2.mem| && PageOf(w2.mem, from, i, j) < |w2.mem|
    ensures CopyPaid(w, CopyFrame(w2, p, PageOf(w2.mem, from, i, j)), from, to, i * 1024 + j + 1)
  {
    hide *;
    PageNumber(i, j);
    PresentMapped(w1.mem, from, i, j);
    SameEntry(w, w1, from, to, i, j);
    PaidNext(w, w1, w2, from, to, i * 1024 + j);
    PaidCopied(w, w2, from, to, i * 1024 + j + 1, p, PageOf(w2.mem, from, i, j));
  }

  lemma PageNumber(i: nat, j: nat)
    requires i < 1024 && j < 1024
    ensures Address(i, j, 0) / 4096 == i * 1024 + j && i * 1024 + j < END
    ensures i >= 512 ==> i * 1024 + j >= 0x8_0000
    ensures (i * 1024 + j) / 1024 == i
  {
  }

  lemma PresentMapped(m: Mem, r: nat, i: nat, j: nat)
    ensures Present(Pte(m, r, i, j)) <==> Mapped(m, r, i, j)
  {
  }

  lemma PaidCopied(w: World, w2: World, from: nat, to: nat, x: nat, p: nat, src: nat)
    requires Inv(w2) && IsDirectory(w2, to) && IsData(w2, p) && p < |w2.mem| && src < |w2.mem|
    requires CopyPaid(w, w2, from, to, x)
    ensures CopyPaid(w, CopyFrame(w2, p, src), from, to, x)
  {
    DataWriteKeeps(w2, CopyFrame(w2, p, src).mem);
    assert IsRoot(w2, to);
    hide Inv, Cost, SlotsBelow;
  }

  lemma PageStops(w: World, w1: World, from: nat, to: nat, i: nat, j: nat, leak: bool)
    requires CopyGround(w, from, to) && Grown(w, w1, to) && 512 <= i < 1024 && j < 1024
    requires CopyPaid(w, w1, from, to, i * 1024 + j) && Present(Pte(w1.mem, from, i, j))
    requires if leak then Free(w1) == 1 && !HasTable(w1.mem, to, i) else Free(w1) == 0
    ensures Stops(w, from, leak)
  {
    hide *;
    PresentMapped(w1.mem, from, i, j);
    PageNumber(i, j);
    SameEntry(w, w1, from, to, i, j);
    PaidStops(w, w1, from, to, i * 1024 + j, leak);
  }

  // The directories that memory_copy_uvm2 is called with.
  ghost predicate CopyGround(w: World, from: nat, to: nat) {
    Inv(w) && IsDirectory(w, from) && IsDirectory(w, to) && from != to && EmptyUserHalf(w.mem, to)
  }

  lemma CopyStart(w: World, from: nat, to: nat)
    requires Inv(w) && IsDirectory(w, from) && IsDirectory(w, to) && to != from && EmptyUserHalf(w.mem, to)
    ensures CopyGround(w, from, to) && Grown(w, w, to) && CopiedTo(w.mem, from, to, 512, 0)
    ensures to < 0x8_0000
  {
    GrownRefl(w, to);
  }

  lemma CopyDone(m: Mem, from: nat, to: nat)
    requires CopiedTo(m, from, to, 1024, 0)
    ensures SameUserHalf(m, from, to)
  {
    forall i: nat, j: nat | 512 <= i < 1024 && j < 1024
      ensures SameSlot(m, from, to, i, j)
    {
      assert Before(i, j, 1024, 0);
    }
  }

  // What the walk needs to know of the space it copies from, in a world w1 that grew from w.
  lemma RowStart(w: World, w1: World, from: nat, to: nat, i: nat)
    requires CopyGround(w, from, to) && Grown(w, w1, to) && 512 <= i < 1024
    ensures from < |w1.mem|
    ensures HasTable(w1.mem, from, i) ==> Owned(w1, TableOf(w1.mem, from, i), Table(from, i))
  {
    assert IsDirectory(w1, from) && OwnSlot(w1, from, i);
  }

  lemma TableEntry(w: World, r: nat, i: nat, j: nat, t: nat)
    requires Inv(w) && Owned(w, t, Table(r, i)) && 512 <= i < 1024 && j < 1024
    ensures t < |w.mem| && t in w.owner
    ensures HasTable(w.mem, r, i) && TableOf(w.mem, r, i) == t
    ensures At(w.mem, t, j) == Pte(w.mem, r, i, j)
  {
    assert RefersBack(w, t);
  }

  lemma CopyRequest(w: World, w1: World, from: nat, to: nat, i: nat, j: nat)
    requires CopyGround(w, from, to) && Grown(w, w1, to) && CopiedTo(w1.mem, from, to, i, j)
    requires 512 <= i < 1024 && j < 1024 && Present(Pte(w1.mem, from, i, j))
    ensures PageRequest(w1, to, Address(i, j, 0), Perm(Pte(w1.mem, from, i, j)))
    ensures PdeIndex(Address(i, j, 0)) == i && PteIndex(Address(i, j, 0)) == j
  {
    AddressIndices(i, j, 0);
    VaPage(Address(i, j, 0));
    assert !Before(i, j, i, j);
  }

  lemma GroundIn(w: World, w1: World, from: nat, to: nat)
    requires CopyGround(w, from, to) && Grown(w, w1, to)
    ensures Inv(w1) && IsDirectory(w1, from) && IsDirectory(w1, to)
  {
  }

  lemma SkipEntry(m: Mem, from: nat, to: nat, i: nat, j: nat)
    requires CopiedTo(m, from, to, i, j) && !Present(Pte(m, from, i, j))
    ensures CopiedTo(m, from, to, i, j + 1)
  {
    hide CopiedTo;
    CopySkip(m, from, to, i, j);
  }

  // What the copy of one page relies on: p is a data frame, and not the one that is copied; and what it
  // achieves.
  lemma CopySource(w: World, w1: World, w2: World, from: nat, to: nat, i: nat, j: nat, p: nat, t: nat)
    requires CopyGround(w, from, to) && Grown(w, w1, to) && CopiedTo(w1.mem, from, to, i, j)
    requires 512 <= i < 1024 && j < 1024 && Present(Pte(w1.mem, from, i, j)) && Owned(w1, t, Table(from, i))
    requires p < 0x10_0000 && PageAdded(w1, w2, to, i, j, p, Perm(Pte(w1.mem, from, i, j)))
    ensures Inv(w2) && IsDirectory(w2, to) && IsDirectory(w2, from) && IsData(w2, p) && p < |w2.mem|
    ensures Mapped(w2.mem, from, i, j) && PageOf(w2.mem, from, i, j) != p && PageOf(w2.mem, from, i, j) < |w2.mem|
    ensures var w3 := CopyFrame(w2, p, PageOf(w2.mem, from, i, j));
            Grown(w, w3, to) && CopiedTo(w3.mem, from, to, i, j + 1) && Owned(w3, t, Table(from, i))
  {
    CopyStep(w, w1, w2, from, to, i, j, p);
    hide CopiedTo, SameData, SameUserHalf;
    assert IsDirectory(w1, from) && SameSpace(w1.mem, w2.mem, from);
    SameSpacePte(w1.mem, w2.mem, from, i, j);
    PageOwner(w1, from, i, j);
  }

  lemma CopyFails(w: World, w1: World, w2: World, from: nat, to: nat, leak: nat)
    requires CopyGround(w, from, to) && Grown(w, w1, to)
    requires if leak == 0 then w2 == w1 else leak !in w1.owner && w1.lo <= leak < w1.hi && w2 == Take(w1, leak, InHand)
    ensures IsDirectory(w2, to) && Undone(w, Remove(w2, to), to, leak)
  {
    if leak == 0 {
      GrowthUndone(w, w1, to);
    } else {
      LeakUndone(w, w1, to, leak);
    }
  }

  // Nothing that the walk of memory_destroy_uvm over the user half still has to read is freed.
  lemma StillLive(w: World, d: nat, i: nat, j: nat, gone: set<nat>)
    requires Inv(w) && IsDirectory(w, d) && 512 <= i < 1024 && ReapedUpTo(w.mem, d, 512, i, j, gone)
    ensures d !in gone && d in w.owner
    ensures HasTable(w.mem, d, i) ==> TableOf(w.mem, d, i) !in gone && TableOf(w.mem, d, i) in w.owner
  {
    forall f | f in gone
      ensures f != d && (HasTable(w.mem, d, i) ==> f != TableOf(w.mem, d, i))
    {
      MetByUserWalk(w, d, i, j, f);
    }
    assert OwnSlot(w, d, i);
  }

  lemma DirectoryTables(w: World, d: nat)
    requires Inv(w) && IsDirectory(w, d)
    ensures d < |w.mem| && d < 0x8_0000 && TablesInMemory(w.mem, d, 0)
  {
    forall i: nat | i < 1024 && HasTable(w.mem, d, i)
      ensures TableOf(w.mem, d, i) < |w.mem|
    {
      TableOwner(w, d, i);
    }
  }

  predicate TablesInMemory(m: Mem, d: nat, first: nat) {
    forall i :: first <= i < 1024 && HasTable(m, d, i) ==> TableOf(m, d, i) < |m|
  }

  // up2(size, MEM_PAGE_SIZE) / MEM_PAGE_SIZE, in unsigned 32-bit arithmetic
  function PageCount(size: Word): nat {
    (size + 4095) % 0x1_0000_0000 / 4096
  }

  // One page of the user half of directory r that is not mapped.
  ghost predicate PageRequest(w: World, r: nat, va: Word, perm: nat) {
    && Inv(w) && IsDirectory(w, r) && 0x8_0000 <= va / 4096 && perm < 4096
    && !Mapped(w.mem, r, PdeIndex(va), PteIndex(va))
  }

  // The pages that size bytes from va on take lie in the user half of directory d and are not mapped.
  ghost predicate UserRequest(w: World, d: nat, va: Word, size: Word, perm: nat) {
    && Inv(w) && IsDirectory(w, d) && perm < 4096
    && 0x8_0000 <= va / 4096 && va / 4096 + PageCount(size) <= 0x10_0000
    && forall i: nat, j: nat :: j < 1024 && va / 4096 <= i * 1024 + j < va / 4096 + PageCount(size) ==>
        !Mapped(w.mem, d, i, j)
  }

  lemma TakenRequest(w: World, r: nat, va: Word, perm: nat, p: nat)
    requires PageRequest(w, r, va, perm) && w.lo <= p < w.hi && p !in w.owner
    ensures SpanRequest(Take(w, p, InHand), r, va / 4096, p, 1, perm)
  {
    VaPage(va);
    TakeKeeps(w, p, InHand);
    forall i: nat, j: nat | j < 1024 && va / 4096 <= i * 1024 + j < va / 4096 + 1
      ensures !Mapped(w.mem, r, i, j)
    {
      assert i == PdeIndex(va) && j == PteIndex(va);
    }
  }

  lemma RequestPerm(w: World, r: nat, va: Word, perm: nat, p: nat)
    requires PageRequest(w, r, va, perm) && w.lo <= p < w.hi
    ensures perm < 4096 && p < 0x10_0000
  {
  }

  lemma TakenFull(w: World, w': World, va: Word, p: nat)
    requires p !in w.owner && w' == Take(w, p, InHand) && Inv(w') && PoolFull(w')
    ensures Free(w) == 1 && (va / 4096 + 0) / 1024 == PdeIndex(va) && w'.mem == w.mem
  {
    FreeFacts(w');
    FreeTake(w, p, InHand);
    VaPage(va);
  }

  lemma TakenMapped(w: World, w': World, r: nat, va: Word, perm: nat, p: nat)
    requires PageRequest(w, r, va, perm) && w.lo <= p < w.hi && p !in w.owner && p < 0x10_0000 && perm < 4096
    requires SpanMapped(Take(w, p, InHand), w', r, va / 4096, p, 1, perm)
    ensures PageAdded(w, w', r, PdeIndex(va), PteIndex(va), p, perm)
  {
    hide Inv, SpanMapped, PageAdded;
    VaPage(va);
    SpanOfOne(w, w', r, PdeIndex(va), PteIndex(va), p, perm);
  }

  // memory_alloc_for_page_dir got as far as n pages, in the world reached; leak, when not 0, is a frame
  // that was then taken and not mapped. All pages are mapped exactly if there are frames for all of them and
  // their tables; a frame leaks exactly if the first one missing is for a table.
  ghost predicate Filled(w: World, w': World, d: nat, va: Word, size: Word, perm: nat, n: nat, reached: World,
      leak: nat) {
    && perm < 4096 && n <= PageCount(size)
    && Populated(w, reached, d, va / 4096, n, perm)
    && leak !in reached.owner && (leak != 0 ==> w.lo <= leak < w.hi)
    && w' == (if leak == 0 then reached else Take(reached, leak, InHand))
    && Free(reached) == Free(w) - SpanCost(w.mem, d, va / 4096, n, true)
    && (n == PageCount(size) <==> Free(w) >= SpanCost(w.mem, d, va / 4096, PageCount(size), true))
    && (leak != 0 <==> n < PageCount(size) && Free(reached) == 1 && !HasTable(reached.mem, d, (va / 4096 + n) / 1024))
    && (leak != 0 <==> SpanLacksTable(w, d, va / 4096, PageCount(size)))
    && (n < PageCount(size) ==> PoolFull(w'))
    && (n == 0 ==> reached == w)
  }

  // The bytes [va, va + size) of directory d are mapped with the given permissions, of which a page-table entry
  // keeps the low ten bits and the present bit.
  ghost predicate BytesBacked(m: Mem, d: nat, va: Word, size: nat, perm: nat) {
    && RangeMapped(m, d, va, size)
    && forall k :: va <= k < va + size ==> Pte(m, d, PdeIndex(k), PteIndex(k)) % 1024 == (perm - perm % 2 + 1) % 1024
  }

  // No address of directory d but those of the pages that start in [va, va + size) is translated in another way.
  ghost predicate OnlyBacked(m: Mem, m': Mem, d: nat, va: Word, size: Word) {
    forall k: Word :: !(va <= k - k % 4096 < va + size)
                      ==> Pte(m', d, PdeIndex(k), PteIndex(k)) == Pte(m, d, PdeIndex(k), PteIndex(k))
  }

  // What a request for size bytes from a page boundary on comes to. Up to 0xFFFFF000 bytes it backs exactly the
  // pages that hold one of these bytes if there are frames for them and for their tables; of the others it backs the
  // first n. A larger request is rounded up to no page at all: nothing happens, and the result is the same.
  lemma RequestedBytes(w: World, w': World, d: nat, va: Word, size: Word, perm: nat, n: nat, reached: World, leak: nat)
    requires UserRequest(w, d, va, size, perm) && va % 4096 == 0
    requires Filled(w, w', d, va, size, perm, n, reached, leak)
    ensures w'.mem == reached.mem && OnlyBacked(w.mem, w'.mem, d, va, size)
    ensures BytesBacked(w'.mem, d, va, if size < n * 4096 then size else n * 4096, perm)
    ensures size <= 0xFFFF_F000 ==>
              && (RangeMapped(w'.mem, d, va, size) <==> size <= n * 4096)
              && (RangeMapped(w'.mem, d, va, size) <==>
                    Free(w) >= SpanCost(w.mem, d, va / 4096, (size + 4095) / 4096, true))
    ensures size > 0xFFFF_F000 ==> n == 0 && w' == w
  {
    hide *;
    FilledFacts(w, w', d, va, size, perm, n, reached, leak);
    RoundedUp(size, n);
    var some := if size < n * 4096 then size else n * 4096;
    BackedBytes(w, reached, d, va, n, perm, some);
    BackedOnly(w, reached, d, va, size, n, perm);
    if size <= 0xFFFF_F000 {
      if n * 4096 < size {
        NotRequested(w, d, va, size, perm, n);
        PageBacked(w, reached, d, va / 4096, n, perm, va + n * 4096);
        StopsBacking(reached.mem, d, va, size, va + n * 4096);
      } else {
        BackedIsMapped(reached.mem, d, va, size, perm);
      }
    }
  }

  lemma BackedIsMapped(m: Mem, d: nat, va: Word, size: nat, perm: nat)
    requires BytesBacked(m, d, va, size, perm)
    ensures RangeMapped(m, d, va, size)
  {
  }

  lemma StopsBacking(m: Mem, d: nat, va: Word, size: nat, k: Word)
    requires va <= k < va + size && Pte(m, d, PdeIndex(k), PteIndex(k)) % 2 == 0
    ensures !RangeMapped(m, d, va, size)
  {
    assert !VaMapped(m, d, k);
  }

  lemma BackedBytes(w: World, w': World, d: nat, va: Word, n: nat, perm: nat, size: nat)
    requires Inv(w) && IsDirectory(w, d) && perm < 4096 && Populated(w, w', d, va / 4096, n, perm)
    requires va % 4096 == 0 && 0x8_0000 <= va / 4096 && va / 4096 + n <= 0x10_0000 && size <= n * 4096
    ensures BytesBacked(w'.mem, d, va, size, perm)
  {
    hide Inv, Populated, VaMapped;
    forall k: Word | va <= k < va + size
      ensures VaMapped(w'.mem, d, k) && Pte(w'.mem, d, PdeIndex(k), PteIndex(k)) % 1024 == (perm - perm % 2 + 1) % 1024
    {
      PageBacked(w, w', d, va / 4096, n, perm, k);
    }
  }

  lemma BackedOnly(w: World, w': World, d: nat, va: Word, size: Word, n: nat, perm: nat)
    requires Inv(w) && IsDirectory(w, d) && perm < 4096 && Populated(w, w', d, va / 4096, n, perm)
    requires va % 4096 == 0 && 0x8_0000 <= va / 4096 && n * 4096 < size + 4096
    ensures OnlyBacked(w.mem, w'.mem, d, va, size)
  {
    hide Inv, Populated, VaMapped;
    forall k: Word | !(va <= k - k % 4096 < va + size)
      ensures Pte(w'.mem, d, PdeIndex(k), PteIndex(k)) == Pte(w.mem, d, PdeIndex(k), PteIndex(k))
    {
      PageBacked(w, w', d, va / 4096, n, perm, k);
    }
  }

  lemma RoundedUp(size: Word, n: nat)
    requires n <= PageCount(size)
    ensures PageCount(size) == if size > 0xFFFF_F000 then 0 else (size + 4095) / 4096
    ensures size <= 0xFFFF_F000 ==> (n * 4096 >= size <==> n == PageCount(size))
    ensures n * 4096 < size + 4096
  {
  }

  lemma FilledFacts(w: World, w': World, d: nat, va: Word, size: Word, perm: nat, n: nat, reached: World, leak: nat)
    requires UserRequest(w, d, va, size, perm) && Filled(w, w', d, va, size, perm, n, reached, leak)
    ensures perm < 4096 && n <= PageCount(size) && 0x8_0000 <= va / 4096 && va / 4096 + PageCount(size) <= 0x10_0000
    ensures Inv(w) && IsDirectory(w, d) && Populated(w, reached, d, va / 4096, n, perm) && w'.mem == reached.mem
    ensures n == PageCount(size) <==> Free(w) >= SpanCost(w.mem, d, va / 4096, PageCount(size), true)
    ensures PageCount(size) == 0 ==> w' == w
  {
    hide Inv, Populated, SpanLacksTable, Free, SpanCost, HasTable;
  }

  // Address k after n pages from v on have been populated
  lemma PageBacked(w: World, w': World, d: nat, v: nat, n: nat, perm: nat, k: Word)
    requires Inv(w) && IsDirectory(w, d) && perm < 4096 && Populated(w, w', d, v, n, perm) && 0x8_0000 <= v
    ensures var e := Pte(w'.mem, d, PdeIndex(k), PteIndex(k));
            if v <= k / 4096 < v + n then VaMapped(w'.mem, d, k) && e % 1024 == (perm - perm % 2 + 1) % 1024
            else e == Pte(w.mem, d, PdeIndex(k), PteIndex(k))
  {
    VaPage(k);
    hide SameData, SameSpace;
    var i, j := PdeIndex(k), PteIndex(k);
    if v <= k / 4096 < v + n {
      EntryFields(PageOf(w'.mem, d, i, j), perm);
      assert IsDirectory(w', d) && Mapped(w'.mem, d, i, j);
      assert Owned(w', PageOf(w'.mem, d, i, j), Page(d, i, j));
    }
  }

  lemma NotRequested(w: World, d: nat, va: Word, size: Word, perm: nat, n: nat)
    requires UserRequest(w, d, va, size, perm) && va % 4096 == 0 && n < PageCount(size)
    ensures va + n * 4096 < 0x1_0000_0000 && !VaMapped(w.mem, d, va + n * 4096)
    ensures Pte(w.mem, d, PdeIndex(va + n * 4096), PteIndex(va + n * 4096)) % 2 == 0
  {
    VaPage(va + n * 4096);
  }

  lemma FillStops(w: World, w1: World, w2: World, d: nat, va: Word, size: Word, perm: nat, k: nat, p: nat)
    requires UserRequest(w, d, va, size, perm) && k < PageCount(size)
    requires Populated(w, w1, d, va / 4096, k, perm) && TablesMade(w, w1, d, va / 4096, k, k)
    requires p !in w1.owner && PoolFull(w2) && w2 == if p == 0 then w1 else Take(w1, p, InHand)
    requires p != 0 ==> w1.lo <= p < w1.hi && Free(w1) == 1 && !HasTable(w1.mem, d, (va / 4096 + k) / 1024)
    requires p == 0 ==> Free(w1) == 0
    requires k == 0 ==> w1 == w
    ensures Filled(w, w2, d, va, size, perm, k, w1, p)
    ensures 0x8_0000 <= va / 4096 < 0x10_0000
  {
    hide Inv, TablesMade, SpanLacksTable, HasTable, PageCount, Free, SpanCost, SameSpace, SameData;
    SpanBudget(w, w1, d, va / 4096, k, PageCount(size), true);
    SpanStops(w, w1, d, va / 4096, k, PageCount(size));
  }

  lemma FillEnds(w: World, w1: World, d: nat, va: Word, size: Word, perm: nat)
    requires UserRequest(w, d, va, size, perm)
    requires Populated(w, w1, d, va / 4096, PageCount(size), perm)
    requires TablesMade(w, w1, d, va / 4096, PageCount(size), PageCount(size))
    requires PageCount(size) == 0 ==> w1 == w
    ensures Filled(w, w1, d, va, size, perm, PageCount(size), w1, 0)
  {
    SpanBudget(w, w1, d, va / 4096, PageCount(size), PageCount(size), true);
    SpanEnough(w, d, va / 4096, PageCount(size));
    hide TablesMade, SpanLacksTable, HasTable, PageCount, Free, SpanCost;
  }

  lemma PopulateStart(w: World, d: nat, va: Word, size: Word, perm: nat)
    requires UserRequest(w, d, va, size, perm)
    ensures perm < 4096 && Populated(w, w, d, va / 4096, 0, perm)
    ensures va / 4096 + PageCount(size) <= 0x10_0000
  {
  }

  lemma PopulateRequest(w: World, w1: World, d: nat, va: Word, size: Word, perm: nat, k: nat, vaddr: Word)
    requires UserRequest(w, d, va, size, perm) && k < PageCount(size) && vaddr / 4096 == va / 4096 + k
    requires Populated(w, w1, d, va / 4096, k, perm)
    ensures PageRequest(w1, d, vaddr, perm)
    ensures va / 4096 + PageCount(size) <= 0x10_0000
  {
    VaPage(vaddr);
    assert !Mapped(w.mem, d, PdeIndex(vaddr), PteIndex(vaddr));
    assert Pte(w1.mem, d, PdeIndex(vaddr), PteIndex(vaddr)) == Pte(w.mem, d, PdeIndex(vaddr), PteIndex(vaddr));
  }

  lemma PopulateNext(w: World, w1: World, w2: World, d: nat, va: Word, size: Word, perm: nat, k: nat, vaddr: Word, p: nat)
    requires UserRequest(w, d, va, size, perm) && k < PageCount(size) && vaddr / 4096 == va / 4096 + k
    requires Populated(w, w1, d, va / 4096, k, perm) && p < 0x10_0000
    requires PageAdded(w1, w2, d, PdeIndex(vaddr), PteIndex(vaddr), p, perm)
    ensures Populated(w, w2, d, va / 4096, k + 1, perm)
  {
    hide Inv, Populated, PageAdded;
    VaPage(vaddr);
    PopulateOne(w, w1, w2, d, va / 4096, k, perm, PdeIndex(vaddr), PteIndex(vaddr), p);
  }

  lemma SpanStart(w: World, r: nat, v: nat, p: nat, count: nat, perm: nat)
    requires SpanRequest(w, r, v, p, count, perm)
    ensures p + count <= 0x10_0000 && v + count <= 0x10_0000 && perm < 4096
    ensures SpanMapped(w, w, r, v, p, 0, perm)
  {
  }

  // What a call of memory_create_map needs: the pages lie in the half that r has tables of its own for and
  // are not mapped yet (the assertion of the source); for a user directory the frames were just allocated;
  // the kernel's directory is only changed before other directories share its lower half.
  ghost predicate SpanRequest(w: World, r: nat, v: nat, p: nat, count: nat, perm: nat) {
    && Inv(w) && IsRoot(w, r) && OwnSpan(w, r, v, count)
    && p + count <= 0x10_0000 && perm < 4096
    && (forall i: nat, j: nat :: j < 1024 && v <= i * 1024 + j < v + count ==> !Mapped(w.mem, r, i, j))
    && (r != w.kdir ==> forall f :: p <= f < p + count ==> Owned(w, f, InHand))
    && (r == w.kdir ==> forall d :: !IsDirectory(w, d))
  }

  // A table may be created for slot i of r: r has tables of its own there.
  ghost predicate CanFind(w: World, r: nat, i: nat, create: bool) {
    && IsRoot(w, r) && i < 1024
    && (create ==> OwnSlot(w, r, i))
    && (create && r == w.kdir ==> forall d :: !IsDirectory(w, d))
  }

  // find_pte on slot i of r. A table that exists is found and nothing changes. A missing one is created
  // from the frame t if that was asked for and a frame was free; otherwise none is found.
  ghost predicate Found(w: World, w': World, r: nat, i: nat, create: bool, found: bool, t: nat)
    requires r < |w.mem| && i < 1024
  {
    if HasTable(w.mem, r, i) then
      found && w' == w && t == TableOf(w.mem, r, i)
    else if found then
      create && t !in w.owner && CanInstallTable(Take(w, t, InHand), r, i, t) && w' == NewTable(w, r, i, t)
    else
      w' == w && (create ==> PoolFull(w))
  }

  lemma TurnStart(w: World, w1: World, r: nat, v: nat, p: nat, k: nat, count: nat, perm: nat, vaddr: Word)
    requires SpanRequest(w, r, v, p, count, perm) && k < count && vaddr / 4096 == v + k
    requires SpanMapped(w, w1, r, v, p, k, perm)
    ensures PdeIndex(vaddr) < 1024 && PteIndex(vaddr) < 1024
    ensures Inv(w1) && r < |w1.mem| && CanFind(w1, r, PdeIndex(vaddr), true)
  {
    VaPage(vaddr);
  }

  lemma TurnEnd(w: World, w1: World, w2: World, r: nat, v: nat, p: nat, k: nat, count: nat, perm: nat, vaddr: Word,
      found: bool, t: nat)
    requires SpanRequest(w, r, v, p, count, perm) && k < count && vaddr / 4096 == v + k
    requires SpanMapped(w, w1, r, v, p, k, perm)
    requires r < |w1.mem| && PdeIndex(vaddr) < 1024
    requires Found(w1, w2, r, PdeIndex(vaddr), true, found, t)
    ensures !found ==> w2 == w1 && PoolFull(w2)
    ensures found ==>
              && t == TableOf(w2.mem, r, PdeIndex(vaddr)) && t < |w2.mem|
              && CanInstallPage(w2, r, PdeIndex(vaddr), PteIndex(vaddr), p + k, perm)
              && SpanMapped(w, InstallPage(w2, r, PdeIndex(vaddr), PteIndex(vaddr), p + k, perm), r, v, p, k + 1, perm)
  {
    VaPage(vaddr);
    RequestTaken(w, r, v, p, count, perm);
    var i, j := PdeIndex(vaddr), PteIndex(vaddr);
    if found {
      if w2 != w1 {
        SpanNewTable(w, w1, r, v, p, k, perm, i, t);
        NewTableGrows(w1, r, i, t);
      }
      TurnStore(w, w2, r, v, p, k, count, perm, i, j);
    }
  }

  lemma TurnTables(w: World, w1: World, w2: World, r: nat, v: nat, p: nat, k: nat, perm: nat, vaddr: Word,
      found: bool, t: nat)
    requires Inv(w1) && TablesMade(w, w1, r, v, k, 0) && vaddr / 4096 == v + k
    requires r < |w1.mem| && PdeIndex(vaddr) < 1024 && Found(w1, w2, r, PdeIndex(vaddr), true, found, t)
    requires found ==> CanInstallPage(w2, r, PdeIndex(vaddr), PteIndex(vaddr), p + k, perm)
    ensures !found ==> !HasTable(w1.mem, r, (v + k) / 1024)
    ensures found ==>
              && TableOf(w2.mem, r, PdeIndex(vaddr)) < |w2.mem|
              && TablesMade(w, InstallPage(w2, r, PdeIndex(vaddr), PteIndex(vaddr), p + k, perm), r, v, k + 1, 0)
  {
    VaPage(vaddr);
    hide Inv, TablesMade;
    if found {
      MadeOne(w1, w2, r, v + k, PdeIndex(vaddr), PteIndex(vaddr), t, p + k, perm);
      hide InstallPage;
      MadeNext(w, w1, InstallPage(w2, r, PdeIndex(vaddr), PteIndex(vaddr), p + k, perm), r, v, k, 0, 0);
    }
  }

  lemma SpanShort(w: World, w1: World, r: nat, v: nat, p: nat, n: nat, count: nat, perm: nat)
    requires p + n <= 0x10_0000 && perm < 4096 && n < count
    requires SpanMapped(w, w1, r, v, p, n, perm) && TablesMade(w, w1, r, v, n, 0)
    requires PoolFull(w1) && !HasTable(w1.mem, r, (v + n) / 1024)
    ensures Free(w) < SpanCost(w.mem, r, v, count, false)
  {
    hide TablesMade, SpanEntries, SpanOnly;
    FreeFacts(w1);
    SpanBudget(w, w1, r, v, n, count, false);
  }

  lemma SpanFull(w: World, w1: World, r: nat, v: nat, p: nat, count: nat, perm: nat)
    requires p + count <= 0x10_0000 && perm < 4096
    requires SpanMapped(w, w1, r, v, p, count, perm) && TablesMade(w, w1, r, v, count, 0)
    ensures Free(w) >= SpanCost(w.mem, r, v, count, false)
  {
    hide TablesMade, SpanEntries, SpanOnly;
    SpanBudget(w, w1, r, v, count, count, false);
  }

  lemma TurnStore(w: World, w2: World, r: nat, v: nat, p: nat, k: nat, count: nat, perm: nat, i: nat, j: nat)
    requires SpanRequest(w, r, v, p, count, perm) && k < count && j < 1024 && i * 1024 + j == v + k
    requires SpanMapped(w, w2, r, v, p, k, perm) && HasTable(w2.mem, r, i)
    ensures TableOf(w2.mem, r, i) < |w2.mem| && CanInstallPage(w2, r, i, j, p + k, perm)
    ensures SpanMapped(w, InstallPage(w2, r, i, j, p + k, perm), r, v, p, k + 1, perm)
  {
    hide *;
    RequestTaken(w, r, v, p, count, perm);
    SpanCanInstall(w, w2, r, v, p, k, count, perm, i, j);
    SpanNewPage(w, w2, r, v, p, k, perm, i, j);
  }

  lemma RequestTaken(w: World, r: nat, v: nat, p: nat, count: nat, perm: nat)
    requires SpanRequest(w, r, v, p, count, perm)
    ensures r != w.kdir ==> forall f :: p <= f < p + count ==> f in w.owner
    ensures p + count <= 0x10_0000 && perm < 4096 && Inv(w)
  {
    if r != w.kdir {
      forall f | p <= f < p + count
        ensures f in w.owner
      {
        assert Owned(w, f, InHand);
      }
    }
  }

  lemma SpanCanInstall(w: World, w': World, r: nat, v: nat, p: nat, k: nat, count: nat, perm: nat, i: nat, j: nat)
    requires SpanRequest(w, r, v, p, count, perm) && k < count
    requires j < 1024 && i * 1024 + j == v + k
    requires SpanMapped(w, w', r, v, p, k, perm) && HasTable(w'.mem, r, i)
    ensures CanInstallPage(w', r, i, j, p + k, perm)
  {
    assert !Mapped(w.mem, r, i, j);
    assert Pte(w'.mem, r, i, j) == Pte(w.mem, r, i, j);
    assert r != w.kdir ==> Owned(w, p + k, InHand);
  }

  lemma TakenCanInstall(w: World, r: nat, i: nat, t: nat)
    requires Inv(w) && w.lo <= t < w.hi && t !in w.owner
    requires IsRoot(w, r) && OwnSlot(w, r, i) && !HasTable(w.mem, r, i)
    requires r == w.kdir ==> forall d :: !IsDirectory(w, d)
    ensures CanInstallTable(Take(w, t, InHand), r, i, t)
  {
    TakeKeeps(w, t, InHand);
    var w' := Take(w, t, InHand);
    assert forall d :: IsDirectory(w', d) <==> IsDirectory(w, d);
  }
}
