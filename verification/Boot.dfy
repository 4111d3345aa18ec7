// create_kernel_table of source/kernel/core/memory.c: the kernel's own map, made when nothing else is.
module Boot {
  import opened Counting
  import opened Mmu
  import opened Paging
  import opened Spaces
  import opened Teardown
  import opened Memory
  import Bitmaps

  // memory_map_t: addresses vstart to vend, mapped from pstart on
  datatype MapEntry = MapEntry(vstart: Word, vend: Word, pstart: Word, perm: nat)

  // The page of a, and the first page from a on: down2 and up2, divided by the page size
  function Down(a: Word): nat {
    a / 4096
  }

  function Up(a: Word): nat {
    (a + 4095) % 0x1_0000_0000 / 4096
  }

  // The entries map addresses of the lower half to themselves and come in order, with no page in common.
  predicate InOrder(maps: seq<MapEntry>, from: nat) {
    maps == [] ||
    var e := maps[0];
    && from <= Down(e.vstart) <= Up(e.vend) <= 0x8_0000
    && e.pstart == e.vstart && e.perm < 4096
    && InOrder(maps[1..], Up(e.vend))
  }

  // The permissions that maps give to page v, or -1
  function PermOf(maps: seq<MapEntry>, v: nat): int {
    if maps == [] then -1
    else if Down(maps[0].vstart) <= v < Up(maps[0].vend) then maps[0].perm
    else PermOf(maps[1..], v)
  }

  // The kernel's map for the linker's symbols: its stack, text and data, and the memory above 1 MB
  function KernelMaps(textEnd: Word, dataStart: Word): seq<MapEntry> {
    [MapEntry(0, 0x1_0000, 0, 2), MapEntry(0x1_0000, textEnd, 0x1_0000, 0),
     MapEntry(dataStart, 0x7_FFFF, dataStart, 2), MapEntry(0x10_0000, 0x7F0_0000, 0x10_0000, 2)]
  }

  lemma KernelMapsInOrder(textEnd: Word, dataStart: Word)
    requires 0x1_0000 <= textEnd <= dataStart < 0x8_0000 && dataStart % 4096 == 0
    ensures InOrder(KernelMaps(textEnd, dataStart), 0)
    ensures forall v :: 256 <= v < 127 * 256 ==> PermOf(KernelMaps(textEnd, dataStart), v) == 2
  {
    var m := KernelMaps(textEnd, dataStart);
    assert m[3..][1..] == [] && m[2..][1..] == m[3..] && m[1..][1..] == m[2..];
    assert 16 <= Up(textEnd) <= Down(dataStart) <= 128;
    assert InOrder(m[3..], 128);
    assert InOrder(m[2..], Up(textEnd));
    assert InOrder(m[1..], 16);
    forall v | 256 <= v < 127 * 256
      ensures PermOf(m, v) == 2
    {
      assert PermOf(m[3..], v) == 2;
      assert PermOf(m[2..], v) == 2;
      assert PermOf(m[1..], v) == 2;
    }
  }

  // ---- What the kernel's directory maps ----

  // Nothing is mapped from page v on.
  ghost predicate FreeFrom(w: World, v: nat) {
    forall i: nat, j: nat :: i < 512 && j < 1024 && v <= i * 1024 + j ==> !Mapped(w.mem, w.kdir, i, j)
  }

  // The kernel's directory maps the pages below v as maps say, each to itself.
  ghost predicate MapsBelow(w: World, maps: seq<MapEntry>, v: nat) {
    forall i: nat, j: nat :: i < 512 && j < 1024 && i * 1024 + j < v ==> EntryIs(w, maps, i, j)
  }

  predicate EntryIs(w: World, maps: seq<MapEntry>, i: nat, j: nat)
    requires i < 512 && j < 1024
  {
    var perm := PermOf(maps, i * 1024 + j);
    if 0 <= perm < 4096 then Pte(w.mem, w.kdir, i, j) == Entry(i * 1024 + j, perm) else !Mapped(w.mem, w.kdir, i, j)
  }

  // Only tables of the kernel's directory are in use.
  ghost predicate OnlyTables(w: World) {
    forall f :: f in w.owner ==> w.owner[f].Table? && w.owner[f].root == w.kdir
  }

  // They are too few to fill a pool of more than 512 frames.
  lemma TablesLeaveRoom(w: World)
    requires Inv(w) && OnlyTables(w) && w.hi - w.lo > 512
    ensures !PoolFull(w)
  {
    if PoolFull(w) {
      var q := seq(512, i requires 0 <= i < 512 => TableOf(w.mem, w.kdir, i));
      var pool := Range(w.lo, w.hi);
      forall f | f in pool
        ensures f in q
      {
        assert RefersBack(w, f);
        assert q[w.owner[f].i] == f;
      }
      Pigeons(pool, q);
    }
  }

  // The state of the loop when it is to map the entries rest of maps, all of whose pages are from v on
  ghost predicate Mapping(w: World, maps: seq<MapEntry>, rest: seq<MapEntry>, v: nat) {
    && Inv(w) && OnlyTables(w) && InOrder(rest, v) && FreeFrom(w, v)
    && (w.hi - w.lo > 512 ==> MapsBelow(w, maps, v))
    && forall u :: v <= u ==> PermOf(maps, u) == PermOf(rest, u)
  }

  lemma MappingStart(w: World, maps: seq<MapEntry>)
    requires Inv(w) && w.owner == map[] && w.kdir < |w.mem| && w.mem[w.kdir] == ZeroFrame() && InOrder(maps, 0)
    ensures Mapping(w, maps, maps, 0)
  {
  }

  lemma MappingRequest(w: World, maps: seq<MapEntry>, rest: seq<MapEntry>, v: nat)
    requires Mapping(w, maps, rest, v) && rest != []
    ensures var e := rest[0];
            && Down(e.vstart) <= Up(e.vend) <= 0x8_0000
            && SpanRequest(w, w.kdir, Down(e.vstart), Down(e.pstart), Up(e.vend) - Down(e.vstart), e.perm)
  {
    assert forall d :: !IsDirectory(w, d);
  }

  lemma {:induction false} PermAbove(maps: seq<MapEntry>, from: nat, v: nat)
    requires InOrder(maps, from) && v < from
    ensures PermOf(maps, v) == -1
  {
    if maps != [] {
      PermAbove(maps[1..], Up(maps[0].vend), v);
    }
  }

  // The kernel's entries after n pages of e have been mapped
  lemma SpanEntry(w: World, w': World, e: MapEntry, n: nat, i: nat, j: nat)
    requires e.perm < 4096 && Down(e.pstart) == Down(e.vstart) && Down(e.vstart) + n <= 0x8_0000
    requires SpanMapped(w, w', w.kdir, Down(e.vstart), Down(e.pstart), n, e.perm) && i < 512 && j < 1024
    ensures var p := i * 1024 + j;
            if Down(e.vstart) <= p < Down(e.vstart) + n then Pte(w'.mem, w.kdir, i, j) == Entry(p, e.perm)
            else Pte(w'.mem, w.kdir, i, j) == Pte(w.mem, w.kdir, i, j)
    ensures w'.kdir == w.kdir && w'.lo == w.lo && w'.hi == w.hi
  {
    hide Inv, SameSpace, SameData;
  }

  lemma MappingNext(w: World, w': World, maps: seq<MapEntry>, rest: seq<MapEntry>, v: nat, n: nat)
    requires Mapping(w, maps, rest, v) && rest != [] && n <= Up(rest[0].vend) - Down(rest[0].vstart)
    requires rest[0].perm < 4096 && Down(rest[0].pstart) + n <= 0x10_0000
    requires SpanMapped(w, w', w.kdir, Down(rest[0].vstart), Down(rest[0].pstart), n, rest[0].perm)
    requires n < Up(rest[0].vend) - Down(rest[0].vstart) ==> PoolFull(w')
    ensures Mapping(w', maps, rest[1..], Up(rest[0].vend))
  {
    var e := rest[0];
    var v' := Up(e.vend);
    SpanEntry(w, w', e, n, 0, 0);
    SpanTables(w, w', e, n);
    hide Inv, SpanMapped, PoolFull;
    forall i: nat, j: nat | i < 512 && j < 1024
      ensures v' <= i * 1024 + j ==> !Mapped(w'.mem, w'.kdir, i, j)
      ensures w.hi - w.lo > 512 && i * 1024 + j < v' ==> EntryIs(w', maps, i, j)
    {
      SpanEntry(w, w', e, n, i, j);
      var p := i * 1024 + j;
      if p < v {
        assert w.hi - w.lo > 512 ==> EntryIs(w, maps, i, j);
      } else {
        assert !Mapped(w.mem, w.kdir, i, j);
        if p < v' && !(Down(e.vstart) <= p) {
          PermAbove(rest[1..], v', p);
        }
      }
      if w.hi - w.lo > 512 {
        TablesLeaveRoom(w');
      }
    }
  }

  lemma SpanTables(w: World, w': World, e: MapEntry, n: nat)
    requires Inv(w) && OnlyTables(w) && e.perm < 4096 && Down(e.pstart) + n <= 0x10_0000
    requires SpanMapped(w, w', w.kdir, Down(e.vstart), Down(e.pstart), n, e.perm)
    ensures Inv(w') && OnlyTables(w')
  {
  }

  // The kernel's map is complete, each page mapped to itself, if the pool has room for the tables; a failure
  // of memory_create_map is passed over.
  method CreateKernelTable(mm: MemoryManager, maps: seq<MapEntry>)
    requires mm.Valid() && mm.owner == map[] && mm.kdir < mm.frames.Length && mm.frames[mm.kdir] == ZeroFrame()
    requires InOrder(maps, 0)
    modifies mm`owner, mm.frames, mm.alloc, mm.alloc.bitmap.bits
    ensures mm.Valid() && OnlyTables(mm.State())
    ensures mm.alloc.hi - mm.alloc.lo > 512 ==> MapsBelow(mm.State(), maps, 0x8_0000)
  {
    MappingStart(mm.State(), maps);
    var k := 0;
    ghost var v := 0;
    while k < |maps|
      invariant k <= |maps| && mm.Valid() && Mapping(mm.State(), maps, maps[k..], v)
    {
      ghost var w := mm.State();
      var e := maps[k];
      MappingRequest(w, maps, maps[k..], v);
      hide *;
      ghost var n;
      var err;
      err, n := mm.CreateMap(mm.kdir, e.vstart, Down(e.pstart), Up(e.vend) - Down(e.vstart), e.perm);
      MappingNext(w, mm.State(), maps, maps[k..], v, n);
      v := Up(e.vend);
      assert maps[k..][1..] == maps[k + 1..];
      k := k + 1;
    }
    MappingEnd(mm.State(), maps, v);
  }

  lemma MappingEnd(w: World, maps: seq<MapEntry>, v: nat)
    requires Mapping(w, maps, [], v)
    ensures OnlyTables(w)
    ensures w.hi - w.lo > 512 ==> MapsBelow(w, maps, 0x8_0000)
  {
    if w.hi - w.lo > 512 {
      forall i: nat, j: nat | i < 512 && j < 1024
        ensures EntryIs(w, maps, i, j)
      {
        assert i * 1024 + j >= v ==> !Mapped(w.mem, w.kdir, i, j);
      }
    }
  }

  // With the map of the source, every frame of a pool between 1 MB and 127 MB is mapped to itself: this is
  // what all later operations need.
  lemma KernelMapsIdentity(w: World, textEnd: Word, dataStart: Word)
    requires Inv(w) && 0x1_0000 <= textEnd <= dataStart < 0x8_0000 && dataStart % 4096 == 0
    requires MapsBelow(w, KernelMaps(textEnd, dataStart), 0x8_0000) && 256 <= w.lo && w.hi <= 127 * 256
    ensures Identity(w)
  {
    KernelMapsInOrder(textEnd, dataStart);
    forall f | w.lo <= f < w.hi
      ensures Mapped(w.mem, w.kdir, f / 1024, f % 1024) && PageOf(w.mem, w.kdir, f / 1024, f % 1024) == f
    {
      assert EntryIs(w, KernelMaps(textEnd, dataStart), f / 1024, f % 1024);
      EntryFields(f, 2);
    }
  }

  // What the entry e of page v is after boot: stack, data and the memory above 1 MB are mapped to themselves
  // writable, the text read-only, and nothing else is mapped.
  predicate BootEntry(v: nat, e: Word, textEnd: Word, dataStart: Word) {
    if v < 16 then e == v * 4096 + 3
    else if v * 4096 < textEnd then e == v * 4096 + 1
    else if dataStart <= v * 4096 < 0x8_0000 then e == v * 4096 + 3
    else if 0x10_0000 <= v * 4096 < 0x7F0_0000 then e == v * 4096 + 3
    else e % 2 == 0
  }

  lemma KernelPerms(textEnd: Word, dataStart: Word, v: nat)
    requires 0x1_0000 <= textEnd <= dataStart < 0x8_0000 && dataStart % 4096 == 0
    ensures PermOf(KernelMaps(textEnd, dataStart), v) ==
            if v < 16 then 2 else if v * 4096 < textEnd then 0 else if dataStart <= v * 4096 < 0x8_0000 then 2
            else if 0x10_0000 <= v * 4096 < 0x7F0_0000 then 2 else -1
  {
    var m := KernelMaps(textEnd, dataStart);
    assert m[3..][1..] == [] && m[2..][1..] == m[3..] && m[1..][1..] == m[2..];
    assert PermOf(m[3..], v) == if 256 <= v < 127 * 256 then 2 else -1;
    assert PermOf(m[2..], v) == if Down(dataStart) <= v < 128 then 2 else PermOf(m[3..], v);
    assert PermOf(m[1..], v) == if 16 <= v < Up(textEnd) then 0 else PermOf(m[2..], v);
  }

  lemma KernelEntries(w: World, textEnd: Word, dataStart: Word)
    requires 0x1_0000 <= textEnd <= dataStart < 0x8_0000 && dataStart % 4096 == 0
    requires MapsBelow(w, KernelMaps(textEnd, dataStart), 0x8_0000)
    ensures forall v: nat :: v < 0x8_0000 ==> BootEntry(v, Pte(w.mem, w.kdir, v / 1024, v % 1024), textEnd, dataStart)
  {
    forall v: nat | v < 0x8_0000
      ensures BootEntry(v, Pte(w.mem, w.kdir, v / 1024, v % 1024), textEnd, dataStart)
    {
      assert EntryIs(w, KernelMaps(textEnd, dataStart), v / 1024, v % 1024);
      KernelPerms(textEnd, dataStart, v);
      hide KernelMaps, PermOf, Pte, EntryIs;
    }
  }

  // Page v holds an address from vstart on and one below vend. An end in the last page of the address space wraps
  // around to page 0.
  predicate Reaches(e: MapEntry, v: nat) {
    e.vstart < (v + 1) * 4096 && v * 4096 < e.vend <= 0xFFFF_F000
  }

  lemma PagesOf(e: MapEntry, v: nat)
    ensures Down(e.vstart) <= v < Up(e.vend) <==> Reaches(e, v)
  {
  }

  lemma {:induction false} PermReaches(maps: seq<MapEntry>, from: nat, v: nat, i: nat)
    requires InOrder(maps, from)
    ensures i < |maps| && Reaches(maps[i], v) ==> v >= from && PermOf(maps, v) == maps[i].perm
    ensures (forall k :: 0 <= k < |maps| ==> !Reaches(maps[k], v)) ==> PermOf(maps, v) == -1
  {
    if maps != [] {
      var rest := maps[1..];
      PagesOf(maps[0], v);
      PermReaches(rest, Up(maps[0].vend), v, if i == 0 then 0 else i - 1);
      assert forall k :: 0 <= k < |rest| ==> rest[k] == maps[k + 1];
    }
  }

  // A kernel map, page by page: page v is mapped to itself, with the rights of map i and the present bit, if map i
  // reaches it, and it is not mapped if no map does.
  lemma MapsByAddress(w: World, maps: seq<MapEntry>, v: nat, i: nat)
    requires InOrder(maps, 0) && MapsBelow(w, maps, 0x8_0000) && v < 0x8_0000
    ensures i < |maps| && Reaches(maps[i], v) ==>
              Pte(w.mem, w.kdir, v / 1024, v % 1024) == v * 4096 + (maps[i].perm - maps[i].perm % 2 + 1)
    ensures (forall k :: 0 <= k < |maps| ==> !Reaches(maps[k], v)) ==> !Mapped(w.mem, w.kdir, v / 1024, v % 1024)
  {
    assert EntryIs(w, maps, v / 1024, v % 1024);
    PermReaches(maps, 0, v, i);
    PermInRange(maps, 0, i);
    hide Pte, Mapped, MapsBelow, InOrder, PermOf;
  }

  lemma {:induction false} PermInRange(maps: seq<MapEntry>, from: nat, i: nat)
    requires InOrder(maps, from)
    ensures i < |maps| ==> maps[i].perm < 4096
  {
    if maps != [] && i > 0 {
      PermInRange(maps[1..], Up(maps[0].vend), i - 1);
    }
  }

  // The start of every run: a pool between 1 MB and 127 MB over cleared bookkeeping, and the kernel's map.
  method StartMemory(frames: array<Frame>, bits: array<bv8>, lo: nat, hi: nat, kdir: nat, textEnd: Word, dataStart: Word)
    returns (mm: MemoryManager)
    requires kdir < lo && 256 <= lo <= hi <= 127 * 256 && hi <= frames.Length <= 0x10_0000
    requires Bitmaps.ByteCount(hi - lo) <= bits.Length && frames as object != bits
    requires 0x1_0000 <= textEnd <= dataStart < 0x8_0000 && dataStart % 4096 == 0
    modifies frames, bits
    ensures fresh(mm) && mm.Valid() && OnlyTables(mm.State()) && mm.cr3 == mm.kdir == kdir
    ensures hi - lo > 512 ==> Identity(mm.State())
    ensures hi - lo > 512 ==>
              forall v: nat :: v < 0x8_0000 ==>
                BootEntry(v, Pte(mm.State().mem, kdir, v / 1024, v % 1024), textEnd, dataStart)
    ensures mm.frames == frames && mm.alloc.lo == lo && mm.alloc.hi == hi
  {
    mm := new MemoryManager(frames, bits, lo, hi, kdir);
    KernelMapsInOrder(textEnd, dataStart);
    CreateKernelTable(mm, KernelMaps(textEnd, dataStart));
    if hi - lo > 512 {
      KernelMapsIdentity(mm.State(), textEnd, dataStart);
      KernelEntries(mm.State(), textEnd, dataStart);
    }
  }
}
