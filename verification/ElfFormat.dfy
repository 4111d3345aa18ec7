// The layout of a 32-bit ELF file, lowest byte first: the header and the program headers with all their fields, as
// in source/comm/elf.h and in the System V gABI, chapters 4 (ELF Header) and 5 (Program Header).
module ElfFormat {
  import opened Mmu
  import opened Bytes

  type Image = seq<Byte>
  type Half = h: int | 0 <= h < 0x1_0000

  datatype Header = Header(
    ident: seq<Byte>, kind: Half, machine: Half, version: Word,
    entry: Word, phoff: Word, shoff: Word, flags: Word,
    ehsize: Half, phentsize: Half, phnum: Half, shentsize: Half, shnum: Half, shstrndx: Half)

  datatype ProgramHeader = ProgramHeader(
    kind: Word, offset: Word, vaddr: Word, paddr: Word, filesz: Word, memsz: Word, flags: Word, align: Word)

  function HalfBytes(v: Half): seq<Byte> {
    [v % 0x100, v / 0x100]
  }

  function WordBytes(v: Word): seq<Byte> {
    [v % 0x100, v / 0x100 % 0x100, v / 0x1_0000 % 0x100, v / 0x100_0000]
  }

  function HeaderBytes(h: Header): seq<Byte> {
    h.ident + HalfBytes(h.kind) + HalfBytes(h.machine) + WordBytes(h.version)
    + WordBytes(h.entry) + WordBytes(h.phoff) + WordBytes(h.shoff) + WordBytes(h.flags)
    + HalfBytes(h.ehsize) + HalfBytes(h.phentsize) + HalfBytes(h.phnum)
    + HalfBytes(h.shentsize) + HalfBytes(h.shnum) + HalfBytes(h.shstrndx)
  }

  function ProgramHeaderBytes(p: ProgramHeader): seq<Byte> {
    WordBytes(p.kind) + WordBytes(p.offset) + WordBytes(p.vaddr) + WordBytes(p.paddr)
    + WordBytes(p.filesz) + WordBytes(p.memsz) + WordBytes(p.flags) + WordBytes(p.align)
  }

  // ---- Reading it ----

  function WordAt(m: Image, a: nat): Word
    requires a + 4 <= |m|
  {
    WordOf(m[a], m[a + 1], m[a + 2], m[a + 3])
  }

  function HalfAt(m: Image, a: nat): Half
    requires a + 2 <= |m|
  {
    var low: int, high: int := m[a], m[a + 1];
    low + 0x100 * high
  }

  // The bytes x lie at address a.
  predicate IsAt(m: Image, a: nat, x: seq<Byte>) {
    a + |x| <= |m| && m[a..a + |x|] == x
  }

  lemma IsAtJoin(m: Image, a: nat, x: seq<Byte>, y: seq<Byte>)
    ensures IsAt(m, a, x + y) <==> IsAt(m, a, x) && IsAt(m, a + |x|, y)
  {
    if a + |x + y| <= |m| {
      assert m[a..a + |x + y|] == m[a..a + |x|] + m[a + |x|..a + |x| + |y|];
      if m[a..a + |x + y|] == x + y {
        assert m[a..a + |x|] == (x + y)[..|x|] == x;
        assert m[a + |x|..a + |x| + |y|] == (x + y)[|x|..] == y;
      }
    }
  }

  lemma WordIsAt(m: Image, a: nat, v: Word)
    ensures |WordBytes(v)| == 4
    ensures IsAt(m, a, WordBytes(v)) <==> a + 4 <= |m| && WordAt(m, a) == v
  {
    if a + 4 <= |m| {
      WordOfBytes(v);
      BytesOfWord(m[a], m[a + 1], m[a + 2], m[a + 3]);
      assert m[a..a + 4] == [m[a], m[a + 1], m[a + 2], m[a + 3]];
    }
  }

  lemma HalfIsAt(m: Image, a: nat, v: Half)
    ensures |HalfBytes(v)| == 2
    ensures IsAt(m, a, HalfBytes(v)) <==> a + 2 <= |m| && HalfAt(m, a) == v
  {
    if a + 2 <= |m| {
      assert m[a..a + 2] == [m[a], m[a + 1]];
    }
  }

  // One more word, or half word, behind the bytes x
  lemma ThenWord(m: Image, a: nat, x: seq<Byte>, v: Word)
    ensures |x + WordBytes(v)| == |x| + 4
    ensures IsAt(m, a, x + WordBytes(v)) <==>
            IsAt(m, a, x) && a + |x| + 4 <= |m| && WordAt(m, a + |x|) == v
  {
    IsAtJoin(m, a, x, WordBytes(v));
    WordIsAt(m, a + |x|, v);
  }

  lemma ThenHalf(m: Image, a: nat, x: seq<Byte>, v: Half)
    ensures |x + HalfBytes(v)| == |x| + 2
    ensures IsAt(m, a, x + HalfBytes(v)) <==>
            IsAt(m, a, x) && a + |x| + 2 <= |m| && HalfAt(m, a + |x|) == v
  {
    IsAtJoin(m, a, x, HalfBytes(v));
    HalfIsAt(m, a + |x|, v);
  }

  lemma ThenFourWords(m: Image, a: nat, x: seq<Byte>, v0: Word, v1: Word, v2: Word, v3: Word)
    ensures var y := x + WordBytes(v0) + WordBytes(v1) + WordBytes(v2) + WordBytes(v3);
            && |y| == |x| + 16
            && (IsAt(m, a, y) <==>
                  && IsAt(m, a, x) && a + |x| + 16 <= |m|
                  && WordAt(m, a + |x|) == v0 && WordAt(m, a + |x| + 4) == v1
                  && WordAt(m, a + |x| + 8) == v2 && WordAt(m, a + |x| + 12) == v3)
  {
    hide WordAt, IsAt, WordBytes;
    var x1 := x + WordBytes(v0);
    var x2 := x1 + WordBytes(v1);
    var x3 := x2 + WordBytes(v2);
    ThenWord(m, a, x, v0);
    ThenWord(m, a, x1, v1);
    ThenWord(m, a, x2, v2);
    ThenWord(m, a, x3, v3);
  }

  lemma ThenThreeHalves(m: Image, a: nat, x: seq<Byte>, v0: Half, v1: Half, v2: Half)
    ensures var y := x + HalfBytes(v0) + HalfBytes(v1) + HalfBytes(v2);
            && |y| == |x| + 6
            && (IsAt(m, a, y) <==>
                  && IsAt(m, a, x) && a + |x| + 6 <= |m|
                  && HalfAt(m, a + |x|) == v0 && HalfAt(m, a + |x| + 2) == v1 && HalfAt(m, a + |x| + 4) == v2)
  {
    hide HalfAt, IsAt, HalfBytes;
    var x1 := x + HalfBytes(v0);
    var x2 := x1 + HalfBytes(v1);
    ThenHalf(m, a, x, v0);
    ThenHalf(m, a, x1, v1);
    ThenHalf(m, a, x2, v2);
  }

  // A header lies at a exactly if its fields are read at the offsets that the layout gives them.
  lemma HeaderIsAt(m: Image, a: nat, h: Header)
    requires |h.ident| == 16
    ensures |HeaderBytes(h)| == 52
    ensures IsAt(m, a, HeaderBytes(h)) <==>
            && a + 52 <= |m| && m[a..a + 16] == h.ident
            && HalfAt(m, a + 16) == h.kind && HalfAt(m, a + 18) == h.machine && WordAt(m, a + 20) == h.version
            && WordAt(m, a + 24) == h.entry && WordAt(m, a + 28) == h.phoff
            && WordAt(m, a + 32) == h.shoff && WordAt(m, a + 36) == h.flags
            && HalfAt(m, a + 40) == h.ehsize && HalfAt(m, a + 42) == h.phentsize && HalfAt(m, a + 44) == h.phnum
            && HalfAt(m, a + 46) == h.shentsize && HalfAt(m, a + 48) == h.shnum && HalfAt(m, a + 50) == h.shstrndx
  {
    assert IsAt(m, a, h.ident) <==> a + 16 <= |m| && m[a..a + 16] == h.ident;
    hide WordAt, HalfAt, IsAt, WordBytes, HalfBytes;
    var x1 := h.ident + HalfBytes(h.kind);
    var x2 := x1 + HalfBytes(h.machine);
    var x3 := x2 + WordBytes(h.version);
    var x4 := x3 + WordBytes(h.entry) + WordBytes(h.phoff) + WordBytes(h.shoff) + WordBytes(h.flags);
    var x5 := x4 + HalfBytes(h.ehsize) + HalfBytes(h.phentsize) + HalfBytes(h.phnum);
    ThenHalf(m, a, h.ident, h.kind);
    ThenHalf(m, a, x1, h.machine);
    ThenWord(m, a, x2, h.version);
    ThenFourWords(m, a, x3, h.entry, h.phoff, h.shoff, h.flags);
    ThenThreeHalves(m, a, x4, h.ehsize, h.phentsize, h.phnum);
    ThenThreeHalves(m, a, x5, h.shentsize, h.shnum, h.shstrndx);
  }

  lemma ProgramHeaderIsAt(m: Image, a: nat, p: ProgramHeader)
    ensures |ProgramHeaderBytes(p)| == 32
    ensures IsAt(m, a, ProgramHeaderBytes(p)) <==>
            && a + 32 <= |m| && WordAt(m, a) == p.kind && WordAt(m, a + 4) == p.offset
            && WordAt(m, a + 8) == p.vaddr && WordAt(m, a + 12) == p.paddr
            && WordAt(m, a + 16) == p.filesz && WordAt(m, a + 20) == p.memsz
            && WordAt(m, a + 24) == p.flags && WordAt(m, a + 28) == p.align
  {
    WordIsAt(m, a, p.kind);
    hide WordAt, IsAt, WordBytes;
    var x1 := WordBytes(p.kind);
    var x2 := x1 + WordBytes(p.offset) + WordBytes(p.vaddr) + WordBytes(p.paddr) + WordBytes(p.filesz);
    var x3 := x2 + WordBytes(p.memsz);
    var x4 := x3 + WordBytes(p.flags);
    ThenFourWords(m, a, x1, p.offset, p.vaddr, p.paddr, p.filesz);
    ThenWord(m, a, x2, p.memsz);
    ThenWord(m, a, x3, p.flags);
    ThenWord(m, a, x4, p.align);
  }

  // Any 52 bytes are a header, and any 32 bytes a program header.
  lemma HeaderRead(m: Image, a: nat) returns (h: Header)
    requires a + 52 <= |m|
    ensures |h.ident| == 16 && IsAt(m, a, HeaderBytes(h))
  {
    h := Header(m[a..a + 16], HalfAt(m, a + 16), HalfAt(m, a + 18), WordAt(m, a + 20),
                WordAt(m, a + 24), WordAt(m, a + 28), WordAt(m, a + 32), WordAt(m, a + 36),
                HalfAt(m, a + 40), HalfAt(m, a + 42), HalfAt(m, a + 44),
                HalfAt(m, a + 46), HalfAt(m, a + 48), HalfAt(m, a + 50));
    HeaderIsAt(m, a, h);
  }

  function ProgramHeaderRead(m: Image, a: nat): (p: ProgramHeader)
    requires a + 32 <= |m|
    ensures IsAt(m, a, ProgramHeaderBytes(p))
  {
    var p := ProgramHeader(WordAt(m, a), WordAt(m, a + 4), WordAt(m, a + 8), WordAt(m, a + 12),
                           WordAt(m, a + 16), WordAt(m, a + 20), WordAt(m, a + 24), WordAt(m, a + 28));
    ProgramHeaderIsAt(m, a, p);
    p
  }
}
