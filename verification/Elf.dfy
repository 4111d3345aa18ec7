// reload_elf_file of source/loader/loader_32.c: the segments of an ELF file that lies in memory are copied to
// their places. The file format is that of the System V gABI, chapters 4 (header) and 5 (program header).
module Elf {
  import opened Mmu
  import opened Bytes
  import opened ElfFormat

  const HEADER_SIZE := 52
  const PHDR_SIZE := 32
  const PT_LOAD := 1

  datatype Segment = Segment(kind: Word, offset: Word, paddr: Word, filesz: Word, memsz: Word)

  predicate HasMagic(m: Image, buf: nat)
    requires buf + HEADER_SIZE <= |m|
  {
    m[buf] == 0x7F && m[buf + 1] == 0x45 && m[buf + 2] == 0x4C && m[buf + 3] == 0x46
  }

  function Entry(m: Image, buf: nat): Word
    requires buf + HEADER_SIZE <= |m|
  {
    WordAt(m, buf + 24)
  }

  function PhOff(m: Image, buf: nat): Word
    requires buf + HEADER_SIZE <= |m|
  {
    WordAt(m, buf + 28)
  }

  function PhNum(m: Image, buf: nat): nat
    requires buf + HEADER_SIZE <= |m|
  {
    HalfAt(m, buf + 44)
  }

  function SegmentAt(m: Image, buf: nat, i: nat): Segment
    requires buf + HEADER_SIZE <= |m| && buf + PhOff(m, buf) + PHDR_SIZE * i + PHDR_SIZE <= |m|
  {
    var p := buf + PhOff(m, buf) + PHDR_SIZE * i;
    Segment(WordAt(m, p), WordAt(m, p + 4), WordAt(m, p + 12), WordAt(m, p + 16), WordAt(m, p + 20))
  }

  // ---- The files that the loader expects ----

  // How many zeros the second loop writes: p_memsz - p_filesz, in unsigned 32-bit arithmetic
  function ZeroCount(g: Segment): nat {
    (g.memsz - g.filesz) % 0x1_0000_0000
  }

  // The length of the range that a segment is loaded to
  function Extent(g: Segment): nat {
    g.filesz + ZeroCount(g)
  }

  // A segment that lies in the file and goes to a place in memory that is outside of the file
  predicate SegmentOk(g: Segment, size: nat, buf: nat, len: nat) {
    && g.offset + g.filesz <= len
    && g.paddr + Extent(g) <= size
    && (g.paddr + Extent(g) <= buf || buf + len <= g.paddr)
  }

  // The range is that of p_memsz bytes, as the gABI has it. A segment with p_filesz above p_memsz, for which the
  // number of zeros wraps around, would be longer than the address space.
  lemma ExtentIsMemsz(g: Segment, size: nat, buf: nat, len: nat)
    ensures Extent(g) == g.memsz <==> g.filesz <= g.memsz
    ensures SegmentOk(g, size, buf, len) && size <= 0x1_0000_0000 && 0 < len && buf + len <= size ==> g.filesz <= g.memsz
  {
    if g.filesz <= g.memsz {
    } else {
      assert ZeroCount(g) == g.memsz - g.filesz + 0x1_0000_0000;
    }
  }

  // The file of len bytes at buf
  ghost predicate FileOk(m: Image, buf: nat, len: nat) {
    && HEADER_SIZE <= len && buf + len <= |m|
    && (HasMagic(m, buf) ==>
          && PhOff(m, buf) + PHDR_SIZE * PhNum(m, buf) <= len
          && forall i: nat :: i < PhNum(m, buf) ==> EntryOk(m, buf, len, i))
  }

  ghost predicate EntryOk(m: Image, buf: nat, len: nat, i: nat)
    requires HEADER_SIZE <= len && buf + len <= |m|
    requires i < PhNum(m, buf) && PhOff(m, buf) + PHDR_SIZE * PhNum(m, buf) <= len
  {
    var g := SegmentAt(m, buf, i);
    g.kind == PT_LOAD ==> SegmentOk(g, |m|, buf, len)
  }

  // The part of FileOk that the loops need, as a list of the segments to load
  function Segments(m: Image, buf: nat, n: nat): (gs: seq<Segment>)
    requires buf + HEADER_SIZE <= |m| && buf + PhOff(m, buf) + PHDR_SIZE * n <= |m|
    ensures |gs| == n && forall i :: 0 <= i < n ==> gs[i] == SegmentAt(m, buf, i)
  {
    seq(n, i requires 0 <= i < n => SegmentAt(m, buf, i))
  }

  // ---- The memory after loading ----

  predicate Covers(g: Segment, a: nat) {
    g.kind == PT_LOAD && g.paddr <= a < g.paddr + Extent(g)
  }

  // What segment g brings to address a: a byte of the file, or zero behind its end
  function Brings(m: Image, buf: nat, g: Segment, a: nat): int {
    var k := a - g.paddr;
    if 0 <= k < g.filesz then (if buf + g.offset + k < |m| then m[buf + g.offset + k] else 0) else 0
  }

  // The byte at a after the segments gs have been loaded in turn: the last one that covers a decides.
  function Loaded(m: Image, buf: nat, gs: seq<Segment>, a: nat): int
    requires a < |m|
  {
    if gs == [] then m[a]
    else if Covers(gs[|gs| - 1], a) then Brings(m, buf, gs[|gs| - 1], a)
    else Loaded(m, buf, gs[..|gs| - 1], a)
  }

  ghost predicate IsLoaded(m: Image, m': Image, buf: nat, gs: seq<Segment>) {
    |m'| == |m| && forall a :: 0 <= a < |m| ==> m'[a] == Loaded(m, buf, gs, a)
  }

  // An address that no segment covers keeps its byte.
  lemma {:induction false} LoadedElsewhere(m: Image, buf: nat, gs: seq<Segment>, a: nat)
    requires a < |m| && forall i :: 0 <= i < |gs| ==> !Covers(gs[i], a)
    ensures Loaded(m, buf, gs, a) == m[a]
  {
    if gs != [] {
      LoadedElsewhere(m, buf, gs[..|gs| - 1], a);
    }
  }

  // An address that only segment i covers has what that segment brings.
  lemma {:induction false} LoadedBy(m: Image, buf: nat, gs: seq<Segment>, a: nat, i: nat)
    requires a < |m| && i < |gs| && Covers(gs[i], a)
    requires forall j :: i < j < |gs| ==> !Covers(gs[j], a)
    ensures Loaded(m, buf, gs, a) == Brings(m, buf, gs[i], a)
  {
    if i < |gs| - 1 {
      LoadedBy(m, buf, gs[..|gs| - 1], a, i);
    }
  }

  ghost predicate Apart(gs: seq<Segment>) {
    forall i, j, a :: 0 <= i < |gs| && 0 <= j < |gs| && Covers(gs[i], a) && Covers(gs[j], a) ==> i == j
  }

  // With segments that do not overlap, each has its bytes of the file in its place, then zeros, and all else
  // is as it was.
  lemma ImageOfSegments(m: Image, m': Image, buf: nat, gs: seq<Segment>, i: nat, k: nat)
    requires IsLoaded(m, m', buf, gs) && Apart(gs) && i < |gs| && gs[i].kind == PT_LOAD && k < Extent(gs[i])
    requires gs[i].paddr + Extent(gs[i]) <= |m| && buf + gs[i].offset + gs[i].filesz <= |m|
    ensures m'[gs[i].paddr + k] == if k < gs[i].filesz then m[buf + gs[i].offset + k] else 0
    ensures forall a :: 0 <= a < |m| && (forall j :: 0 <= j < |gs| ==> !Covers(gs[j], a)) ==> m'[a] == m[a]
  {
    var a := gs[i].paddr + k;
    assert Covers(gs[i], a);
    forall j | i < j < |gs|
      ensures !Covers(gs[j], a)
    {
    }
    LoadedBy(m, buf, gs, a, i);
    forall a' | 0 <= a' < |m| && forall j :: 0 <= j < |gs| ==> !Covers(gs[j], a')
      ensures m'[a'] == m[a']
    {
      LoadedElsewhere(m, buf, gs, a');
    }
  }

  // ---- Loading ----

  ghost predicate SameRange(m: Image, m': Image, a: nat, n: nat) {
    |m'| == |m| && a + n <= |m| && forall i :: a <= i < a + n ==> m'[i] == m[i]
  }

  // m with what g brings
  ghost predicate OneLoaded(m: Image, m': Image, buf: nat, g: Segment) {
    && |m'| == |m|
    && forall a :: 0 <= a < |m| ==> m'[a] == if Covers(g, a) then Brings(m, buf, g, a) else m[a]
  }

  // The copying loop
  method CopyUp(mem: array<Byte>, src: nat, dest: nat, n: nat)
    requires src + n <= mem.Length && dest + n <= mem.Length && (dest + n <= src || src + n <= dest)
    modifies mem
    ensures forall a :: 0 <= a < mem.Length ==>
              mem[a] == old(if dest <= a < dest + n then mem[src + (a - dest)] else mem[a])
  {
    var s, d, j := src, dest, 0;
    while j < n
      invariant 0 <= j <= n && s == src + j && d == dest + j
      invariant forall a :: 0 <= a < mem.Length ==>
                  mem[a] == old(if dest <= a < dest + j then mem[src + (a - dest)] else mem[a])
    {
      mem[d] := mem[s];
      s, d, j := s + 1, d + 1, j + 1;
    }
  }

  // The loop that writes zeros
  method ZeroUp(mem: array<Byte>, dest: nat, n: nat)
    requires dest + n <= mem.Length
    modifies mem
    ensures forall a :: 0 <= a < mem.Length ==> mem[a] == if dest <= a < dest + n then 0 else old(mem[a])
  {
    var d, j := dest, 0;
    while j < n
      invariant 0 <= j <= n && d == dest + j
      invariant forall a :: 0 <= a < mem.Length ==> mem[a] == if dest <= a < dest + j then 0 else old(mem[a])
    {
      mem[d] := 0;
      d, j := d + 1, j + 1;
    }
  }

  method LoadSegment(mem: array<Byte>, buf: nat, g: Segment, ghost len: nat)
    requires buf + len <= mem.Length && g.kind == PT_LOAD && SegmentOk(g, mem.Length, buf, len)
    modifies mem
    ensures OneLoaded(old(mem[..]), mem[..], buf, g)
  {
    CopyUp(mem, buf + g.offset, g.paddr, g.filesz);
    ZeroUp(mem, g.paddr + g.filesz, (g.memsz - g.filesz) % 0x1_0000_0000);
  }

  // Loading one more segment. The file, from which it is loaded, has not changed.
  lemma OneMore(m: Image, m1: Image, m2: Image, buf: nat, len: nat, gs: seq<Segment>, g: Segment)
    requires IsLoaded(m, m1, buf, gs) && SameRange(m, m1, buf, len)
    requires g.kind == PT_LOAD ==> SegmentOk(g, |m|, buf, len)
    requires if g.kind == PT_LOAD then OneLoaded(m1, m2, buf, g) else m2 == m1
    ensures IsLoaded(m, m2, buf, gs + [g]) && SameRange(m, m2, buf, len)
  {
    assert (gs + [g])[..|gs|] == gs;
    forall a: nat | a < |m|
      ensures m2[a] == Loaded(m, buf, gs + [g], a)
    {
      if Covers(g, a) && a - g.paddr < g.filesz {
        assert m1[buf + g.offset + (a - g.paddr)] == m[buf + g.offset + (a - g.paddr)];
      }
    }
  }

  // The header and the program headers are read anew in each round: they are what they were.
  lemma SameHeaders(m: Image, m': Image, buf: nat, len: nat, i: nat)
    requires FileOk(m, buf, len) && HasMagic(m, buf) && SameRange(m, m', buf, len)
    ensures |m'| == |m| && buf + HEADER_SIZE <= |m| && buf + PhOff(m, buf) + PHDR_SIZE * PhNum(m, buf) <= |m|
    ensures HasMagic(m', buf) && PhNum(m', buf) == PhNum(m, buf) && Entry(m', buf) == Entry(m, buf)
    ensures PhOff(m', buf) == PhOff(m, buf)
    ensures i < PhNum(m, buf) ==> SegmentAt(m', buf, i) == SegmentAt(m, buf, i)
    ensures i < PhNum(m, buf) && SegmentAt(m, buf, i).kind == PT_LOAD ==> SegmentOk(SegmentAt(m, buf, i), |m|, buf, len)
  {
    hide WordOf;
    assert i < PhNum(m, buf) ==> EntryOk(m, buf, len, i);
  }

  // The loop has done the first i program headers.
  ghost predicate Progress(m: Image, m': Image, buf: nat, len: nat, i: nat)
    requires buf + HEADER_SIZE <= |m| && buf + PhOff(m, buf) + PHDR_SIZE * i <= |m|
  {
    SameRange(m, m', buf, len) && IsLoaded(m, m', buf, Segments(m, buf, i))
  }

  lemma ProgressNext(m: Image, m1: Image, m2: Image, buf: nat, len: nat, i: nat)
    requires FileOk(m, buf, len) && HasMagic(m, buf) && i < PhNum(m, buf)
    requires Progress(m, m1, buf, len, i)
    requires var g := SegmentAt(m, buf, i); if g.kind == PT_LOAD then OneLoaded(m1, m2, buf, g) else m2 == m1
    ensures Progress(m, m2, buf, len, i + 1)
  {
    hide SegmentAt, IsLoaded, SameRange, OneLoaded, SegmentOk, FileOk, HasMagic, PhNum, PhOff, Entry;
    SameHeaders(m, m1, buf, len, i);
    OneMore(m, m1, m2, buf, len, Segments(m, buf, i), SegmentAt(m, buf, i));
    assert Segments(m, buf, i + 1) == Segments(m, buf, i) + [SegmentAt(m, buf, i)];
  }

  // ---- The file, by its contents ----

  // An ELF file with header h and program headers ps lies at buf.
  ghost predicate IsFile(m: Image, buf: nat, h: Header, ps: seq<ProgramHeader>) {
    && |h.ident| == 16 && IsAt(m, buf, HeaderBytes(h)) && |ps| == h.phnum
    && forall i: nat :: i < |ps| ==> IsAt(m, buf + h.phoff + 32 * i, ProgramHeaderBytes(ps[i]))
  }

  // Address a belongs to the loadable segment p.
  predicate InSegment(p: ProgramHeader, a: nat) {
    p.kind == 1 && p.paddr <= a < p.paddr + p.memsz
  }

  // Segment p brings its bytes of the file at buf to address a of m': p_filesz bytes, and zeros behind them.
  predicate Brought(m: Image, m': Image, buf: nat, p: ProgramHeader, a: nat) {
    && p.paddr <= a < |m'|
    && if a - p.paddr < p.filesz then
         buf + p.offset + (a - p.paddr) < |m| && m'[a] == m[buf + p.offset + (a - p.paddr)]
       else
         m'[a] == 0
  }

  // Each address of a loadable segment has what the last such segment brings, all other memory is as it was, and
  // the entry point is that of the header.
  ghost predicate Reloaded(m: Image, m': Image, buf: nat, h: Header, ps: seq<ProgramHeader>, entry: Word) {
    && entry == h.entry && |m'| == |m|
    && (forall i, a :: 0 <= i < |ps| && InSegment(ps[i], a) && (forall j :: i < j < |ps| ==> !InSegment(ps[j], a))
                       ==> Brought(m, m', buf, ps[i], a))
    && (forall a :: 0 <= a < |m| && (forall j :: 0 <= j < |ps| ==> !InSegment(ps[j], a)) ==> m'[a] == m[a])
  }

  // What the loader reads of a file: magic number, entry point, and the place and number of the program headers.
  lemma HeaderFields(m: Image, buf: nat, h: Header)
    requires |h.ident| == 16 && IsAt(m, buf, HeaderBytes(h))
    ensures buf + 52 <= |m|
    ensures Entry(m, buf) == h.entry && PhOff(m, buf) == h.phoff && PhNum(m, buf) == h.phnum
    ensures HasMagic(m, buf) <==> h.ident[..4] == [0x7F, 0x45, 0x4C, 0x46]
  {
    HeaderIsAt(m, buf, h);
    assert m[buf..buf + 16] == h.ident;
    assert h.ident[..4] == [m[buf], m[buf + 1], m[buf + 2], m[buf + 3]];
  }

  // Of program header i it reads the five fields that it needs.
  lemma SegmentFields(m: Image, buf: nat, h: Header, ps: seq<ProgramHeader>, i: nat)
    requires IsFile(m, buf, h, ps) && i < |ps|
    ensures buf + 52 <= |m| && buf + PhOff(m, buf) + 32 * i + 32 <= |m|
    ensures SegmentAt(m, buf, i) == Segment(ps[i].kind, ps[i].offset, ps[i].paddr, ps[i].filesz, ps[i].memsz)
  {
    HeaderFields(m, buf, h);
    ProgramHeaderIsAt(m, buf + h.phoff + 32 * i, ps[i]);
    hide WordAt, HeaderBytes, ProgramHeaderBytes;
  }

  lemma {:induction false} HeadersRead(m: Image, a: nat, n: nat) returns (ps: seq<ProgramHeader>)
    requires a + 32 * n <= |m|
    ensures |ps| == n && forall i: nat :: i < n ==> IsAt(m, a + 32 * i, ProgramHeaderBytes(ps[i]))
  {
    hide IsAt, ProgramHeaderBytes;
    ps := [];
    if n > 0 {
      ps := HeadersRead(m, a, n - 1);
      ps := ps + [ProgramHeaderRead(m, a + 32 * (n - 1))];
    }
  }

  // Every file that the loader accepts has a header and program headers.
  lemma EveryFile(m: Image, buf: nat, len: nat)
    requires FileOk(m, buf, len) && HasMagic(m, buf)
    ensures exists h, ps :: IsFile(m, buf, h, ps)
  {
    var h := HeaderRead(m, buf);
    HeaderFields(m, buf, h);
    hide HeaderBytes, ProgramHeaderBytes, IsAt, HasMagic, Entry, PhOff, PhNum, SegmentAt, EntryOk;
    var ps := HeadersRead(m, buf + h.phoff, h.phnum);
    assert IsFile(m, buf, h, ps);
  }

  // The loader expects no more of a file than this: headers and bytes inside it, and segments that have their
  // p_filesz bytes within p_memsz, lie in memory, and are not loaded over the file.
  lemma FileAccepted(m: Image, buf: nat, len: nat, h: Header, ps: seq<ProgramHeader>)
    requires IsFile(m, buf, h, ps) && 52 <= len && buf + len <= |m| && h.phoff + 32 * |ps| <= len
    requires forall i :: 0 <= i < |ps| && ps[i].kind == 1 ==>
               && ps[i].offset + ps[i].filesz <= len && ps[i].filesz <= ps[i].memsz
               && ps[i].paddr + ps[i].memsz <= |m| && (ps[i].paddr + ps[i].memsz <= buf || buf + len <= ps[i].paddr)
    ensures FileOk(m, buf, len)
  {
    HeaderFields(m, buf, h);
    hide HasMagic, HeaderBytes, ProgramHeaderBytes, PhOff, PhNum, IsFile, EntryOk;
    forall i: nat | i < |ps|
      ensures EntryOk(m, buf, len, i)
    {
      SegmentAccepted(m, buf, len, h, ps, i);
    }
  }

  lemma SegmentAccepted(m: Image, buf: nat, len: nat, h: Header, ps: seq<ProgramHeader>, i: nat)
    requires IsFile(m, buf, h, ps) && 52 <= len && buf + len <= |m| && h.phoff + 32 * |ps| <= len && i < |ps|
    requires ps[i].kind == 1 ==>
               && ps[i].offset + ps[i].filesz <= len && ps[i].filesz <= ps[i].memsz
               && ps[i].paddr + ps[i].memsz <= |m| && (ps[i].paddr + ps[i].memsz <= buf || buf + len <= ps[i].paddr)
    ensures PhNum(m, buf) == |ps| && PhOff(m, buf) == h.phoff && EntryOk(m, buf, len, i)
  {
    FileHeader(m, buf, h, ps);
    HeaderFields(m, buf, h);
    SegmentFields(m, buf, h, ps, i);
    hide HasMagic, HeaderBytes, ProgramHeaderBytes, SegmentAt, PhOff, PhNum, IsFile, SegmentOk, Entry, IsAt;
    if ps[i].kind == 1 {
      PlainSegmentOk(SegmentAt(m, buf, i), |m|, buf, len);
    }
  }

  lemma FileHeader(m: Image, buf: nat, h: Header, ps: seq<ProgramHeader>)
    requires IsFile(m, buf, h, ps)
    ensures |h.ident| == 16 && IsAt(m, buf, HeaderBytes(h)) && |ps| == h.phnum
  {
  }

  lemma PlainSegmentOk(g: Segment, size: nat, buf: nat, len: nat)
    requires g.offset + g.filesz <= len && g.filesz <= g.memsz && g.paddr + g.memsz <= size
    requires g.paddr + g.memsz <= buf || buf + len <= g.paddr
    ensures SegmentOk(g, size, buf, len)
  {
  }

  lemma SegmentCovers(m: Image, buf: nat, len: nat, h: Header, ps: seq<ProgramHeader>, i: nat)
    requires FileOk(m, buf, len) && HasMagic(m, buf) && IsFile(m, buf, h, ps) && i < |ps| && |m| <= 0x1_0000_0000
    ensures buf + 52 <= |m| && buf + PhOff(m, buf) + 32 * |ps| <= |m|
    ensures var g := Segments(m, buf, |ps|)[i];
            && (g.kind == PT_LOAD ==> SegmentOk(g, |m|, buf, len))
            && g == Segment(ps[i].kind, ps[i].offset, ps[i].paddr, ps[i].filesz, ps[i].memsz)
            && forall a :: Covers(g, a) <==> InSegment(ps[i], a)
  {
    HeaderFields(m, buf, h);
    SegmentFields(m, buf, h, ps, i);
    assert EntryOk(m, buf, len, i);
    var g := SegmentAt(m, buf, i);
    ExtentIsMemsz(g, |m|, buf, len);
    hide IsFile, HasMagic, Entry, PhOff, PhNum, SegmentAt;
  }

  lemma LoadedIsReloaded(m: Image, m': Image, buf: nat, len: nat, h: Header, ps: seq<ProgramHeader>)
    requires FileOk(m, buf, len) && HasMagic(m, buf) && IsFile(m, buf, h, ps) && |m| <= 0x1_0000_0000
    requires IsLoaded(m, m', buf, Segments(m, buf, PhNum(m, buf)))
    ensures Reloaded(m, m', buf, h, ps, Entry(m, buf))
  {
    HeaderFields(m, buf, h);
    hide HasMagic, Entry, PhOff, PhNum, SegmentAt, Extent, ZeroCount;
    var gs := Segments(m, buf, |ps|);
    forall i: nat | i < |ps|
      ensures gs[i].kind == PT_LOAD ==> SegmentOk(gs[i], |m|, buf, len)
      ensures gs[i] == Segment(ps[i].kind, ps[i].offset, ps[i].paddr, ps[i].filesz, ps[i].memsz)
      ensures forall a :: Covers(gs[i], a) <==> InSegment(ps[i], a)
    {
      SegmentCovers(m, buf, len, h, ps, i);
    }
    hide FileOk, IsFile, Segments;
    SegmentsBring(m, m', buf, len, gs, ps);
  }

  lemma SegmentsBring(m: Image, m': Image, buf: nat, len: nat, gs: seq<Segment>, ps: seq<ProgramHeader>)
    requires IsLoaded(m, m', buf, gs) && |gs| == |ps| && buf + len <= |m|
    requires forall i :: 0 <= i < |ps| ==>
               && (gs[i].kind == PT_LOAD ==> SegmentOk(gs[i], |m|, buf, len))
               && gs[i] == Segment(ps[i].kind, ps[i].offset, ps[i].paddr, ps[i].filesz, ps[i].memsz)
               && forall a :: Covers(gs[i], a) <==> InSegment(ps[i], a)
    ensures forall i, a :: 0 <= i < |ps| && InSegment(ps[i], a) && (forall j :: i < j < |ps| ==> !InSegment(ps[j], a))
                           ==> Brought(m, m', buf, ps[i], a)
    ensures forall a :: 0 <= a < |m| && (forall j :: 0 <= j < |ps| ==> !InSegment(ps[j], a)) ==> m'[a] == m[a]
  {
    forall i: nat, a: nat | i < |ps| && InSegment(ps[i], a) && forall j :: i < j < |ps| ==> !InSegment(ps[j], a)
      ensures Brought(m, m', buf, ps[i], a)
    {
      assert Covers(gs[i], a) && SegmentOk(gs[i], |m|, buf, len);
      LoadedBy(m, buf, gs, a, i);
    }
    forall a: nat | a < |m| && forall j :: 0 <= j < |ps| ==> !InSegment(ps[j], a)
      ensures m'[a] == m[a]
    {
      LoadedElsewhere(m, buf, gs, a);
    }
  }

  lemma AllReloaded(m: Image, m': Image, buf: nat, len: nat)
    requires FileOk(m, buf, len) && HasMagic(m, buf) && |m| <= 0x1_0000_0000
    requires IsLoaded(m, m', buf, Segments(m, buf, PhNum(m, buf)))
    ensures forall h, ps :: IsFile(m, buf, h, ps) ==> Reloaded(m, m', buf, h, ps, Entry(m, buf))
  {
    forall h, ps | IsFile(m, buf, h, ps)
      ensures Reloaded(m, m', buf, h, ps, Entry(m, buf))
    {
      LoadedIsReloaded(m, m', buf, len, h, ps);
    }
  }

  lemma MagicBytes(m: Image, buf: nat)
    requires buf + 52 <= |m|
    ensures HasMagic(m, buf) <==> m[buf..buf + 4] == [0x7F, 0x45, 0x4C, 0x46]
  {
    assert m[buf..buf + 4] == [m[buf], m[buf + 1], m[buf + 2], m[buf + 3]];
  }

  // A file without the magic number is refused with 0 and nothing is written. Otherwise its segments are
  // loaded one after the other, and the result is its entry point.
  method ReloadElfFile(mem: array<Byte>, buf: nat, ghost len: nat) returns (entry: Word)
    requires FileOk(mem[..], buf, len)
    modifies mem
    ensures var m := old(mem[..]);
            if !HasMagic(m, buf) then entry == 0 && mem[..] == m
            else entry == Entry(m, buf) && IsLoaded(m, mem[..], buf, Segments(m, buf, PhNum(m, buf)))
    ensures old(mem[..])[buf..buf + 4] != [0x7F, 0x45, 0x4C, 0x46] ==> entry == 0 && mem[..] == old(mem[..])
    ensures old(mem[..])[buf..buf + 4] == [0x7F, 0x45, 0x4C, 0x46] && mem.Length <= 0x1_0000_0000 ==>
              forall h, ps :: IsFile(old(mem[..]), buf, h, ps) ==> Reloaded(old(mem[..]), mem[..], buf, h, ps, entry)
  {
    ghost var m := mem[..];
    MagicBytes(m, buf);
    if !HasMagic(mem[..], buf) {
      return 0;
    }
    ProgressStart(m, buf, len);
    hide FileOk, HasMagic, SegmentAt, IsLoaded, Progress, OneLoaded, SegmentOk, PhNum, PhOff, Entry, Segments,
        IsFile, Reloaded;
    var i := 0;
    while i < PhNum(mem[..], buf)
      invariant 0 <= i <= PhNum(m, buf) == PhNum(mem[..], buf)
      invariant Progress(m, mem[..], buf, len, i)
      decreases PhNum(m, buf) - i
    {
      ghost var m1 := mem[..];
      ProgressHeaders(m, m1, buf, len, i);
      var g := SegmentAt(mem[..], buf, i);
      if g.kind == PT_LOAD {
        LoadSegment(mem, buf, g, len);
      }
      ProgressNext(m, m1, mem[..], buf, len, i);
      i := i + 1;
      ProgressHeaders(m, mem[..], buf, len, i);
    }
    ProgressHeaders(m, mem[..], buf, len, i);
    entry := Entry(mem[..], buf);
    if mem.Length <= 0x1_0000_0000 {
      AllReloaded(m, mem[..], buf, len);
    }
  }

  lemma ProgressStart(m: Image, buf: nat, len: nat)
    requires FileOk(m, buf, len) && HasMagic(m, buf)
    ensures buf + HEADER_SIZE <= |m| && buf + PhOff(m, buf) + PHDR_SIZE * PhNum(m, buf) <= |m|
    ensures Progress(m, m, buf, len, 0)
  {
    hide FileOk, HasMagic, PhNum, PhOff;
    assert SameRange(m, m, buf, len) by { FileInside(m, buf, len); }
    SameHeaders(m, m, buf, len, 0);
  }

  lemma FileInside(m: Image, buf: nat, len: nat)
    requires FileOk(m, buf, len)
    ensures buf + len <= |m|
  {
  }

  lemma ProgressHeaders(m: Image, m': Image, buf: nat, len: nat, i: nat)
    requires FileOk(m, buf, len) && HasMagic(m, buf)
    requires buf + HEADER_SIZE <= |m| && buf + PhOff(m, buf) + PHDR_SIZE * i <= |m| && Progress(m, m', buf, len, i)
    ensures |m'| == |m| && buf + len <= |m| && buf + PhOff(m, buf) + PHDR_SIZE * PhNum(m, buf) <= |m|
    ensures PhNum(m', buf) == PhNum(m, buf) && Entry(m', buf) == Entry(m, buf) && PhOff(m', buf) == PhOff(m, buf)
    ensures i < PhNum(m, buf) ==> SegmentAt(m', buf, i) == SegmentAt(m, buf, i)
    ensures i < PhNum(m, buf) && SegmentAt(m, buf, i).kind == PT_LOAD ==> SegmentOk(SegmentAt(m, buf, i), |m|, buf, len)
    ensures IsLoaded(m, m', buf, Segments(m, buf, i))
  {
    hide SegmentAt, IsLoaded, SegmentOk, HasMagic, PhNum, PhOff, Entry, Segments;
    SameHeaders(m, m', buf, len, i);
    FileInside(m, buf, len);
  }
}
