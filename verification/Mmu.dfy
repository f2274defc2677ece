/** Address fields, page-table words and their bits, as laid out by include/mmu.h.
  * A machine word is a natural number below 2^32; fields are read with division and remainder. */
module Mmu {
  import opened Common
  import opened BitWords

  /** Entries in a page directory or a page table. */
  const ENTRIES: nat := 1024
  /** PDX(UTOP): directory entries below this index belong to the environment alone. */
  const USER_PDES: nat := 509

  /** PTE_D, the write-enable bit. */
  const PTE_D: nat := 0x100

  function Pdx(va: nat): (x: nat)
    ensures x < ENTRIES
  {
    va / 0x40_0000 % 1024
  }

  function Ptx(va: nat): (i: nat)
    ensures i < ENTRIES
  {
    va / 4096 % 1024
  }

  /** The valid bit PTE_V (0x80). */
  predicate PteV(w: nat) { w / 128 % 2 == 1 }

  /** The global bit PTE_G (0x40). */
  predicate PteG(w: nat) { w / 64 % 2 == 1 }

  /** PPN(w): the physical page named by a page-table word. */
  function Ppn(w: nat): nat { w / 4096 }

  /** The low twelve bits of an entry: perm | PTE_C_CACHEABLE | PTE_V, that is bits 9 and 10, and 7. */
  function EntryFlags(perm: nat): nat { OrBit(OrBit(OrBit(perm, 7), 9), 10) }

  /** page2pa(pp) | perm | PTE_C_CACHEABLE | PTE_V. */
  function MkPte(pp: nat, perm: nat): nat { pp * 4096 + EntryFlags(perm) }

  /** What a caller may ask for: twelve permission bits, none of them PTE_G. */
  predicate UserPerm(perm: nat) { perm < 4096 && !PteG(perm) }

  /** The word names page pp and allows exactly what was asked for: of its low twelve bits those of perm are set, and
    * PTE_V (7) and the two of PTE_C_CACHEABLE (9 and 10). */
  ghost predicate Grants(w: nat, pp: nat, perm: nat) {
    Ppn(w) == pp && forall k :: 0 <= k < 12 ==> (BitOf(w, k) <==> BitOf(perm, k) || k == 7 || k == 9 || k == 10)
  }

  /** The two bits that the kernel tests by their weight. */
  lemma FlagBits(w: nat)
    ensures PteG(w) <==> BitOf(w, 6)
    ensures PteV(w) <==> BitOf(w, 7)
  {
    hide BitOf;
    ThirdBit(w, 3);
    ThirdBit(w, 4);
    ThirdBit(w / 8, 0);
    ThirdBit(w / 8, 1);
    FirstBits(w / 8 / 8);
    assert w / 8 / 8 == w / 64 && w / 64 / 2 == w / 128;
  }

  lemma ThirdBit(w: nat, k: nat)
    ensures BitOf(w, k + 3) == BitOf(w / 8, k)
  {
    assert BitOf(w, k + 3) == BitOf(w / 2, k + 2) == BitOf(w / 2 / 2, k + 1) == BitOf(w / 2 / 2 / 2, k);
    assert w / 2 / 2 / 2 == w / 8;
  }

  lemma FirstBits(w: nat)
    ensures BitOf(w, 0) == (w % 2 == 1) && BitOf(w, 1) == (w / 2 % 2 == 1)
  {
  }

  /** PTE_D is bit 8 and no other. */
  lemma WriteBit(k: nat)
    ensures BitOf(PTE_D, k) <==> k == 8
  {
    ZeroHasNoBits(k);
    OrBitEffect(0, 8, k);
    assert OrBit(0, 8) == 2 * OrBit(0, 7) == 4 * OrBit(0, 6) == 8 * OrBit(0, 5) == 16 * OrBit(0, 4) == 32 * OrBit(0, 3)
        == 64 * OrBit(0, 2) == 128 * OrBit(0, 1) == 0x100;
  }

  lemma EntryFlagsBits(perm: nat, k: nat)
    ensures BitOf(EntryFlags(perm), k) <==> BitOf(perm, k) || k == 7 || k == 9 || k == 10
  {
    hide BitOf, OrBit;
    OrBitEffect(perm, 7, k);
    OrBitEffect(OrBit(perm, 7), 9, k);
    OrBitEffect(OrBit(OrBit(perm, 7), 9), 10, k);
  }

  lemma TwelveBits()
    ensures Pow2(12) == 4096
  {
    assert Pow2(12) == 8 * Pow2(9) == 64 * Pow2(6) == 512 * Pow2(3);
  }

  lemma EntryFlagsBelow(perm: nat)
    requires perm < 4096
    ensures EntryFlags(perm) < 4096
  {
    hide OrBit;
    TwelveBits();
    OrBitBelow(perm, 7, 12);
    OrBitBelow(OrBit(perm, 7), 9, 12);
    OrBitBelow(OrBit(OrBit(perm, 7), 9), 10, 12);
  }

  /** A page-table word names the page it was built from, is valid and has the permissions asked for. */
  lemma MkPteFields(pp: nat, perm: nat)
    requires perm < 4096
    ensures Ppn(MkPte(pp, perm)) == pp
    ensures Grants(MkPte(pp, perm), pp, perm)
    ensures PteV(MkPte(pp, perm))
    ensures PteG(MkPte(pp, perm)) == PteG(perm)
    ensures pp < 0x10_0000 ==> MkPte(pp, perm) < WORD
  {
    hide EntryFlags, BitOf;
    var w, f := MkPte(pp, perm), EntryFlags(perm);
    EntryFlagsBelow(perm);
    TwelveBits();
    forall k | 0 <= k < 12 ensures BitOf(w, k) <==> BitOf(perm, k) || k == 7 || k == 9 || k == 10 {
      EntryFlagsBits(perm, k);
      LowBits(pp, f, 12, k);
    }
    assert pp * 4096 + f == w && f < 4096;
    FlagBits(w);
    FlagBits(perm);
  }

  /** (pdeno << PDSHIFT) | (pteno << PGSHIFT) has the two indices it was made from. */
  lemma IndexedAddress(x: nat, i: nat)
    requires x < ENTRIES && i < ENTRIES
    ensures Pdx(x * 0x40_0000 + i * 4096) == x && Ptx(x * 0x40_0000 + i * 4096) == i
  {
    assert (x * 0x40_0000 + i * 4096) / 4096 == x * 1024 + i;
  }

  /** Every address lies in the page of its two indices: two addresses have the same indices if and only if they are on
    * the same page. */
  lemma AddressIndices(va: nat, vb: nat)
    requires va < WORD && vb < WORD
    ensures Pdx(va) * 0x40_0000 + Ptx(va) * PAGE_SIZE == va / PAGE_SIZE * PAGE_SIZE
    ensures Pdx(va) == Pdx(vb) && Ptx(va) == Ptx(vb) <==> va / PAGE_SIZE == vb / PAGE_SIZE
  {
  }

  /** Below UTOP an address falls in one of the directory entries the environment owns. */
  lemma UserAddress(va: nat)
    requires va < UTOP
    ensures Pdx(va) < USER_PDES
  {
  }
}
