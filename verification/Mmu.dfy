// Words, page-table entries and addresses of 32-bit x86 paging with 4-KByte pages
// (source/kernel/include/cpu/mmu.h; Intel SDM volume 3A, section 4.3).
module Mmu {
  type Word = w: int | 0 <= w < 0x1_0000_0000
  type Frame = s: seq<Word> | |s| == 1024 witness seq(1024, i => 0)

  function ZeroFrame(): Frame {
    seq(1024, i => 0)
  }

  // pde_index and pte_index of a virtual address, and its offset inside the page
  function PdeIndex(va: Word): nat {
    va / 0x40_0000
  }

  function PteIndex(va: Word): nat {
    va / 4096 % 1024
  }

  function Offset(va: Word): nat {
    va % 4096
  }

  // The address with the given indices and offset: (i << 22) | (j << 12) | offset
  function Address(i: nat, j: nat, offset: nat): Word
    requires i < 1024 && j < 1024 && offset < 4096
  {
    i * 0x40_0000 + j * 4096 + offset
  }

  lemma AddressIndices(i: nat, j: nat, offset: nat)
    requires i < 1024 && j < 1024 && offset < 4096
    ensures PdeIndex(Address(i, j, offset)) == i
    ensures PteIndex(Address(i, j, offset)) == j
    ensures Offset(Address(i, j, offset)) == offset
  {
    assert Address(i, j, offset) / 4096 == i * 1024 + j;
  }

  lemma IndicesAddress(va: Word)
    ensures PdeIndex(va) < 1024 && PteIndex(va) < 1024 && Offset(va) < 4096
    ensures Address(PdeIndex(va), PteIndex(va), Offset(va)) == va
  {
    assert va / 4096 / 1024 == va / 0x40_0000;
  }

  // The fields of a PDE or PTE.
  predicate Present(e: Word) {
    e % 2 == 1
  }

  // phy_pt_addr, phy_page_addr: pde_paddr and pte_paddr shifted right by 12
  function FrameNo(e: Word): nat {
    e / 4096
  }

  // get_pte_perm
  function Perm(e: Word): nat {
    e % 1024
  }

  // paddr | perm | PTE_P for the page-aligned address paddr of frame f
  function Entry(f: nat, perm: nat): Word
    requires f < 0x10_0000 && perm < 4096
  {
    f * 4096 + if perm % 2 == 0 then perm + 1 else perm
  }

  lemma EntryFields(f: nat, perm: nat)
    requires f < 0x10_0000 && perm < 4096
    ensures Present(Entry(f, perm))
    ensures FrameNo(Entry(f, perm)) == f
    ensures Perm(Entry(f, perm)) == (if perm % 2 == 0 then perm + 1 else perm) % 1024
  {
    SplitAt4096(f, if perm % 2 == 0 then perm + 1 else perm);
  }

  lemma SplitAt4096(f: nat, low: nat)
    requires low < 4096
    ensures (f * 4096 + low) / 4096 == f
    ensures (f * 4096 + low) % 1024 == low % 1024
    ensures (f * 4096 + low) % 2 == low % 2
  {
    LowTenBits(f, low);
    LowBit(f, low);
  }

  lemma LowTenBits(f: nat, low: nat)
    ensures (f * 4096 + low) % 1024 == low % 1024
  {
    var q, r := low / 1024, low % 1024;
    assert f * 4096 + low == (f * 4 + q) * 1024 + r;
  }

  lemma LowBit(f: nat, low: nat)
    ensures (f * 4096 + low) % 2 == low % 2
  {
    var q, r := low / 2, low % 2;
    assert f * 4096 + low == (f * 2048 + q) * 2 + r;
  }
}
