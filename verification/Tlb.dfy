/** TLB entries tagged by address-space identifiers, and when they agree with the page tables. */
module Tlb {
  import opened Common
  import opened Mmu
  import opened PageTables

  /** EntryHi of a user address: the pair of pages (directory index and even table index / 2) and the ASID. */
  datatype Hi = Hi(x: nat, j: nat, asid: nat)

  /** EntryLo0 and EntryLo1; entrylo.value == pte.value >> 6. */
  datatype Lo = Lo(even: nat, odd: nat)

  function Half(lo: Lo, h: nat): nat { if h == 0 then lo.even else lo.odd }

  /** The valid bit of an EntryLo word. */
  predicate LoV(lo: nat) { lo / 2 % 2 == 1 }

  /** tlb_invalidate clears the low 13 bits of the address: it names a pair of pages. */
  function HiOf(va: nat, asid: nat): Hi { Hi(Pdx(va), Ptx(va) / 2, asid % NASID) }

  /** Live address spaces: each ASID has its own directory. */
  ghost predicate OwnersOk(owner: map<nat, nat>, dirs: set<nat>) {
    && (forall a :: a in owner ==> a < NASID && owner[a] in dirs)
    && (forall a, b :: a in owner && b in owner && a != b ==> owner[a] != owner[b])
  }

  lemma OwnerFacts(owner: map<nat, nat>, dirs: set<nat>, asid: nat)
    requires OwnersOk(owner, dirs) && asid in owner
    ensures asid < NASID && asid % NASID == asid && owner[asid] in dirs
  {
  }

  lemma OwnersStay(owner: map<nat, nat>, dirs: set<nat>, d: nat)
    requires OwnersOk(owner, dirs)
    ensures OwnersOk(owner, dirs + {d})
  {
  }

  lemma AddOwner(owner: map<nat, nat>, dirs: set<nat>, asid: nat, d: nat)
    requires OwnersOk(owner, dirs) && asid < NASID && asid !in owner && d !in dirs
    ensures OwnersOk(owner[asid := d], dirs + {d})
  {
  }

  lemma RemoveOwner(owner: map<nat, nat>, dirs: set<nat>, asid: nat)
    requires OwnersOk(owner, dirs) && asid in owner
    ensures OwnersOk(owner - {asid}, dirs - {owner[asid]})
  {
  }

  /** Every valid half of a cached pair is the page-table word of that address space, shifted right by 6.
    * An ASID that no live address space owns has no valid half at all. */
  ghost predicate Coherent(tlb: map<Hi, Lo>, owner: map<nat, nat>, pt: map<Pg, nat>) {
    forall k, h :: k in tlb && 0 <= h <= 1 && LoV(Half(tlb[k], h)) ==>
      k.asid in owner
      && Pg(owner[k.asid], k.x, 2 * k.j + h) in pt
      && Half(tlb[k], h) == pt[Pg(owner[k.asid], k.x, 2 * k.j + h)] / 64
  }

  /** With the pair of one page flushed, the flat map may change at that page. */
  lemma FlushAndChange(tlb: map<Hi, Lo>, owner: map<nat, nat>, dirs: set<nat>, pt: map<Pg, nat>,
                       asid: nat, x: nat, i: nat, pt': map<Pg, nat>)
    requires OwnersOk(owner, dirs) && Coherent(tlb, owner, pt) && asid in owner
    requires forall k :: k in pt && k != Pg(owner[asid], x, i) ==> k in pt' && pt'[k] == pt[k]
    ensures Coherent(tlb - {Hi(x, i / 2, asid)}, owner, pt')
  {
    var tlb' := tlb - {Hi(x, i / 2, asid)};
    forall k, h | k in tlb' && 0 <= h <= 1 && LoV(Half(tlb'[k], h))
      ensures k.asid in owner
        && Pg(owner[k.asid], k.x, 2 * k.j + h) in pt'
        && Half(tlb'[k], h) == pt'[Pg(owner[k.asid], k.x, 2 * k.j + h)] / 64
    {
      assert (2 * k.j + h) / 2 == k.j && k == Hi(k.x, k.j, k.asid);
      assert k.x != x || k.j != i / 2 || k.asid != asid;
    }
  }

  /** The refill handler caches the even and odd words of one pair. */
  lemma RefillStep(tlb: map<Hi, Lo>, owner: map<nat, nat>, pt: map<Pg, nat>,
                   asid: nat, x: nat, j: nat, even: nat, odd: nat)
    requires Coherent(tlb, owner, pt) && asid in owner
    requires PteV(even) ==> Pg(owner[asid], x, 2 * j) in pt && pt[Pg(owner[asid], x, 2 * j)] == even
    requires PteV(odd) ==> Pg(owner[asid], x, 2 * j + 1) in pt && pt[Pg(owner[asid], x, 2 * j + 1)] == odd
    ensures Coherent(tlb[Hi(x, j, asid) := Lo(even / 64, odd / 64)], owner, pt)
  {
    ShiftKeepsValid(even);
    ShiftKeepsValid(odd);
  }

  /** Losing an entry is always harmless. */
  lemma Evict(tlb: map<Hi, Lo>, owner: map<nat, nat>, pt: map<Pg, nat>, k: Hi)
    requires Coherent(tlb, owner, pt)
    ensures Coherent(tlb - {k}, owner, pt)
  {
  }

  lemma ShiftKeepsValid(w: nat)
    ensures LoV(w / 64) == PteV(w)
  {
    assert w / 64 / 2 == w / 128;
  }

  /** A new owner of a free ASID inherits no translation from the previous one. */
  lemma NewOwner(tlb: map<Hi, Lo>, owner: map<nat, nat>, pt: map<Pg, nat>, asid: nat, d: nat)
    requires Coherent(tlb, owner, pt) && asid !in owner
    ensures Coherent(tlb, owner[asid := d], pt)
  {
  }

  /** An address space with no pages left can give its ASID back without a full flush. */
  lemma DropOwner(tlb: map<Hi, Lo>, owner: map<nat, nat>, pt: map<Pg, nat>, asid: nat)
    requires Coherent(tlb, owner, pt) && asid in owner
    requires forall k :: k in pt ==> k.d != owner[asid]
    ensures Coherent(tlb, owner - {asid}, pt)
  {
  }
}
