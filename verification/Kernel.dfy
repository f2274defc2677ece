/** kern/pmap.c, the memory part of kern/env.c, kern/tlbex.c and the memory syscalls, updating one kernel
  * in place. Valid() is the counting invariant of PageTables together with TLB coherence. */
module Kernel {
  import opened Common
  import opened Lists
  import opened Mmu
  import opened PageTables
  import opened FlatMemory
  import opened Tlb
  import opened BitWords

  const UVPT: nat := 0x7fc0_0000

  /** The memory fields of struct Env. */
  datatype EnvMem = EnvMem(pgdir: nat, asid: nat)

  /** One kernel entry of a run. */
  datatype Op =
    | NewEnv
    | FreeEnv(e: nat)
    | Alloc(e: nat, va: nat, perm: nat)
    | Share(e: nat, va: nat, dst: nat, dstva: nat, perm: nat)
    | Unmap(e: nat, va: nat)
    | Fault(e: nat, va: nat, victim: Option<Hi>)
    | Message(e: nat, va: nat, dst: nat, dstva: nat, perm: nat)

  datatype Status = Ok | EInval | ENoMem

  /** The flat map without the first n entries of one table. */
  ghost function WithoutEntries(pt: map<Pg, nat>, d: nat, x: nat, n: nat): map<Pg, nat> {
    map k | k in pt && !(k.d == d && k.x == x && k.i < n) :: pt[k]
  }

  /** The flat map without the first n tables of one directory. */
  ghost function WithoutTables(pt: map<Pg, nat>, d: nat, n: nat): map<Pg, nat> {
    map k | k in pt && !(k.d == d && k.x < n) :: pt[k]
  }

  ghost function TabWithoutTables(tab: map<Pd, nat>, d: nat, n: nat): map<Pd, nat> {
    map k | k in tab && !(k.d == d && k.x < n) :: tab[k]
  }

  lemma WithoutEntriesStep(pt: map<Pg, nat>, d: nat, x: nat, i: nat, pt': map<Pg, nat>)
    requires pt' == WithoutEntries(pt, d, x, i) - {Pg(d, x, i)} ||
             (pt' == WithoutEntries(pt, d, x, i) && Pg(d, x, i) !in pt)
    ensures pt' == WithoutEntries(pt, d, x, i + 1)
  {
    forall k | k in pt && k.d == d && k.x == x && k.i == i ensures k == Pg(d, x, i) { }
  }

  lemma WithoutTablesStep(pt: map<Pg, nat>, tab: map<Pd, nat>, d: nat, x: nat)
    ensures WithoutEntries(WithoutTables(pt, d, x), d, x, ENTRIES) == WithoutTables(pt, d, x + 1)
              || exists k :: k in pt && k.i >= ENTRIES
    ensures TabWithoutTables(tab, d, x) - {Pd(d, x)} == TabWithoutTables(tab, d, x + 1)
  {
    forall k | k in tab && k.d == d && k.x == x ensures k == Pd(d, x) { }
    if forall k :: k in pt ==> k.i < ENTRIES {
      assert WithoutEntries(WithoutTables(pt, d, x), d, x, ENTRIES) == WithoutTables(pt, d, x + 1);
    }
  }

  /** With all the user tables gone, what is left belongs to other directories. */
  lemma FreedMaps(pt: map<Pg, nat>, tab: map<Pd, nat>, d: nat)
    requires forall k :: k in pt ==> k.x < USER_PDES
    requires forall k :: k in tab ==> k.x < USER_PDES
    ensures WithoutTables(pt, d, USER_PDES) == map k | k in pt && k.d != d :: pt[k]
    ensures TabWithoutTables(tab, d, USER_PDES) == map k | k in tab && k.d != d :: tab[k]
  {
  }

  /** Some environment that is alive has this ASID. */
  ghost predicate InUse(envs: seq<EnvMem>, envFree: seq<nat>, a: nat) {
    exists e :: 0 <= e < |envs| && e !in envFree && envs[e].asid == a
  }

  lemma SelfMapIndex()
    ensures Pdx(UVPT) == 511
  {
  }

  /** The pages through which a program sees its own page tables, in the window at UVPT, are not cached for the first n
    * tables. */
  ghost predicate TablesFlushed(tlb: map<Hi, Lo>, tab: map<Pd, nat>, d: nat, asid: nat, n: nat) {
    forall x :: 0 <= x < n && Pd(d, x) in tab ==> HiOf(UVPT + x * 4096, asid) !in tlb
  }

  /** Free slots are listed once; every other slot is an environment with an ASID and a directory of its own, and no
    * ASID is in use otherwise. */
  ghost predicate EnvTable(envs: seq<EnvMem>, envFree: seq<nat>, owner: map<nat, nat>) {
    && |envs| == NENV
    && (forall i, j :: 0 <= i < j < |envFree| ==> envFree[i] != envFree[j])
    && (forall e :: e in envFree ==> e < NENV)
    && (forall e :: 0 <= e < NENV && e !in envFree ==> envs[e].asid in owner && owner[envs[e].asid] == envs[e].pgdir)
    && (forall e, f :: 0 <= e < f < NENV && e !in envFree && f !in envFree ==> envs[e].asid != envs[f].asid)
    && (forall a :: a in owner ==> InUse(envs, envFree, a))
  }

  lemma EnvAllocStep(envs: seq<EnvMem>, envFree: seq<nat>, owner: map<nat, nat>, d: nat, asid: nat)
    requires EnvTable(envs, envFree, owner) && envFree != [] && asid !in owner && envFree[0] < |envs|
    ensures EnvTable(envs[envFree[0] := EnvMem(d, asid)], envFree[1..], owner[asid := d])
  {
    var e := envFree[0];
    assert envFree == [e] + envFree[1..];
    forall f ensures f in envFree <==> f == e || f in envFree[1..] { }
    forall f | f in envFree[1..] ensures f != e {
      var i :| 0 <= i < |envFree[1..]| && envFree[1..][i] == f;
      assert envFree[i + 1] == f;
    }
    var envs' := envs[e := EnvMem(d, asid)];
    forall a | a in owner[asid := d] ensures InUse(envs', envFree[1..], a) {
      if a == asid {
        assert envs'[e].asid == a;
      } else {
        assert InUse(envs, envFree, a);
        var f :| 0 <= f < |envs| && f !in envFree && envs[f].asid == a;
        assert envs'[f].asid == a;
      }
    }
  }

  lemma EnvFreeStep(envs: seq<EnvMem>, envFree: seq<nat>, owner: map<nat, nat>, e: nat)
    requires EnvTable(envs, envFree, owner) && e < NENV && e !in envFree
    ensures EnvTable(envs, [e] + envFree, owner - {envs[e].asid})
  {
    forall f ensures f in [e] + envFree <==> f == e || f in envFree { }
    forall a | a in owner - {envs[e].asid} ensures InUse(envs, [e] + envFree, a) {
      assert InUse(envs, envFree, a);
      var f :| 0 <= f < |envs| && f !in envFree && envs[f].asid == a;
      assert f !in [e] + envFree;
    }
  }

  // ----- how many environments can live -----

  function AsidsOf(envs: seq<EnvMem>, live: set<nat>): set<nat>
    requires forall e :: e in live ==> e < |envs|
  {
    set e | e in live :: envs[e].asid
  }

  /** Environments with different ASIDs have as many ASIDs as they are. */
  lemma {:induction false} AsMany(envs: seq<EnvMem>, live: set<nat>)
    requires forall e :: e in live ==> e < |envs|
    requires forall e, f :: e in live && f in live && e != f ==> envs[e].asid != envs[f].asid
    ensures |AsidsOf(envs, live)| == |live|
    decreases live
  {
    if live != {} {
      var e :| e in live;
      AsMany(envs, live - {e});
      assert AsidsOf(envs, live) == AsidsOf(envs, live - {e}) + {envs[e].asid};
    }
  }

  /** As many ASIDs are in use as environments are alive. */
  lemma LiveAsids(envs: seq<EnvMem>, envFree: seq<nat>, owner: map<nat, nat>)
    requires EnvTable(envs, envFree, owner)
    ensures |owner.Keys| == NENV - |envFree|
  {
    hide Numbers;
    var live := Missing(envFree, NENV);
    MissingCount(envFree, NENV);
    AsMany(envs, live);
    var asids := AsidsOf(envs, live);
    forall a | a in owner ensures a in asids {
      assert InUse(envs, envFree, a);
      var e :| 0 <= e < |envs| && e !in envFree && envs[e].asid == a;
      assert e in live;
    }
    assert asids == owner.Keys;
  }

  /** asid_alloc fails exactly when NASID environments are alive. */
  lemma AsidsRunOut(envs: seq<EnvMem>, envFree: seq<nat>, owner: map<nat, nat>, dirs: set<nat>)
    requires EnvTable(envs, envFree, owner) && OwnersOk(owner, dirs)
    ensures (forall i :: 0 <= i < NASID ==> i in owner) <==> NENV - |envFree| >= NASID
  {
    hide EnvTable, Numbers;
    LiveAsids(envs, envFree, owner);
    var all := Numbers(NASID);
    assert owner.Keys <= all;
    Fills(owner.Keys, all);
    if owner.Keys == all { forall i | 0 <= i < NASID ensures i in owner { assert i in all; } }
    if forall i :: 0 <= i < NASID ==> i in owner { assert all <= owner.Keys; }
  }

  lemma Fills(a: set<nat>, b: set<nat>)
    requires a <= b
    ensures |a| <= |b| && (a == b <==> |a| == |b|)
  {
    assert b == a + (b - a);
  }

  lemma EnvTableFacts(envs: seq<EnvMem>, envFree: seq<nat>, owner: map<nat, nat>)
    requires EnvTable(envs, envFree, owner)
    ensures |envs| == NENV && (envFree != [] ==> envFree[0] < NENV)
    ensures forall e :: 0 <= e < NENV && e !in envFree ==> envs[e].asid in owner && owner[envs[e].asid] == envs[e].pgdir
  {
    if envFree != [] { assert envFree[0] in envFree; }
  }

  /** Fields of a free slot do not matter. */
  lemma EnvTableFreeSlot(envs: seq<EnvMem>, envFree: seq<nat>, owner: map<nat, nat>, e: nat, v: EnvMem)
    requires EnvTable(envs, envFree, owner) && e in envFree && e < |envs|
    ensures EnvTable(envs[e := v], envFree, owner)
  {
    forall a | a in owner ensures InUse(envs[e := v], envFree, a) {
      assert InUse(envs, envFree, a);
      var f :| 0 <= f < |envs| && f !in envFree && envs[f].asid == a;
      assert envs[e := v][f].asid == a;
    }
  }

  /** The i'th page that page_alloc hands out from free list l; any number past its end. */
  function Nth(l: seq<nat>, i: nat): nat { if i < |l| then l[i] else 0 }

  lemma NthFree(m: Mem, a: Abs)
    requires Inv(m, a)
    ensures Nth(m.free, 0) in FreePages(a) <==> m.free != []
    ensures m.free != [] ==> (Nth(m.free, 1) in FreePages(a.(held := a.held + {m.free[0]})) <==> |m.free| > 1)
  {
    FreeListPages(m, a, Nth(m.free, 0));
    FreeListPages(m, a, Nth(m.free, 1));
    if m.free != [] {
      HeldLeaves(a, m.free[0], Nth(m.free, 1));
      assert m.free[0] in m.free;
      assert |m.free| > 1 ==> m.free[1] in m.free;
      if |m.free| == 1 { assert m.free == [m.free[0]]; }
    }
  }

  /** A free page for k, and another one for its table if that is missing. */
  ghost predicate Room(a: Abs, k: Pg, free: seq<nat>) {
    |free| >= if Pd(k.d, k.x) in a.tab then 1 else 2
  }

  /** The flat memory after a fault at va, whose key is k. */
  ghost function Faulted(a: Abs, k: Pg, va: nat, free: seq<nat>): Abs {
    if k in a.pt || Forbidden(va) then a else NewPage(a, k, PTE_D, Nth(free, 0), Nth(free, 1)).0
  }

  /** The page at k, if any, can take one more reference: pp_ref is 16 bits wide. */
  ghost predicate CanRefer(a: Abs, k: Pg) {
    k in a.pt && Ppn(a.pt[k]) < |a.base| ==> Refs(a, Ppn(a.pt[k])) < 65535
  }

  /** The flat memory after page_lookup at src and page_insert at dst. */
  ghost function Shared(a: Abs, src: Pg, dst: Pg, perm: nat, free: seq<nat>): Abs {
    if src !in a.pt then a
    else
      var b := MapPage(a, dst, Ppn(a.pt[src]), perm, Nth(free, 0));
      if b.None? then a else b.value
  }

  /** What a kernel entry does to the flat memory; free is the free list. Entries on dead environments, and entries that
    * break the duties of their callers, do nothing. */
  ghost function FlatStep(a: Abs, envs: seq<EnvMem>, envFree: seq<nat>, free: seq<nat>, op: Op): Abs
    requires |envs| == NENV
  {
    if op.NewEnv? then (if envFree == [] || free == [] then a else AddDirectory(a, free[0]))
    else if op.e >= NENV || op.e in envFree then a
    else
      var d := envs[op.e].pgdir;
      match op
      case FreeEnv(e) => DropDirectory(a, d)
      case Alloc(e, va, perm) =>
        if !UserPerm(perm) || IllegalVa(va) then a else NewPage(a, Key(d, va), perm, Nth(free, 0), Nth(free, 1)).0
      case Share(e, va, dst, dstva, perm) =>
        if dst >= NENV || dst in envFree || !UserPerm(perm) || IllegalVa(va) || IllegalVa(dstva)
        || !CanRefer(a, Key(d, va)) then a
        else Shared(a, Key(d, va), Key(envs[dst].pgdir, dstva), perm, free)
      case Message(e, va, dst, dstva, perm) =>
        if dst >= NENV || dst in envFree || !UserPerm(perm) || IllegalVa(va) || (dstva != 0 && IllegalVa(dstva))
           || !CanRefer(a, Key(d, va)) then a
        else Shared(a, Key(d, va), Key(envs[dst].pgdir, dstva), perm, free)
      case Unmap(e, va) => if IllegalVa(va) then a else UnmapPage(a, Key(d, va))
      case Fault(e, va, victim) => if va < UTOP then Faulted(a, Key(d, va), va, free) else a
  }

  /** The entry is a fault that passive_alloc cannot serve. */
  ghost predicate Panics(a: Abs, envs: seq<EnvMem>, envFree: seq<nat>, free: seq<nat>, op: Op)
    requires |envs| == NENV
  {
    op.Fault? && op.e < NENV && op.e !in envFree && op.va < UTOP && Key(envs[op.e].pgdir, op.va) !in a.pt
    && (Forbidden(op.va) || !Room(a, Key(envs[op.e].pgdir, op.va), free))
  }

  /** No kernel entry takes or gives a boot reference. */
  lemma FlatStepBase(a: Abs, envs: seq<EnvMem>, envFree: seq<nat>, free: seq<nat>, op: Op)
    requires |envs| == NENV
    ensures FlatStep(a, envs, envFree, free, op).base == a.base
  {
    hide FreePages, Refs, MkPte, Ppn, Pdx, Ptx;
  }

  /** The mapping at k is the only one that differs between a and b. */
  ghost predicate OnlyAt(a: Abs, b: Abs, k: Pg) {
    forall j :: j != k ==> (j in b.pt <==> j in a.pt) && (j in a.pt ==> b.pt[j] == a.pt[j])
  }

  /** What the entries mean to the program that makes them: an environment that is alive, with permissions that a caller
    * may ask for, at addresses that the kernel accepts. */
  lemma FlatStepEffect(m: Mem, a: Abs, envs: seq<EnvMem>, envFree: seq<nat>, op: Op)
    requires Inv(m, a) && |envs| == NENV && !op.NewEnv? && op.e < NENV && op.e !in envFree
    ensures var b, d := FlatStep(a, envs, envFree, m.free, op), envs[op.e].pgdir;
            match op
            case FreeEnv(e) => forall k :: (k in b.pt <==> k in a.pt && k.d != d) && (k in b.pt ==> b.pt[k] == a.pt[k])
            case Unmap(e, va) => UTEMP <= va < UTOP ==> Key(d, va) !in b.pt && OnlyAt(a, b, Key(d, va))
            case Alloc(e, va, perm) => UTEMP <= va < UTOP && UserPerm(perm) ==>
              && OnlyAt(a, b, Key(d, va))
              && (if Room(a, Key(d, va), m.free)
                  then Key(d, va) in b.pt && Grants(b.pt[Key(d, va)], m.free[0], perm) else b.pt == a.pt)
            case Fault(e, va, _) =>
              && OnlyAt(a, b, Key(d, va))
              && (UTEMP <= va < USTACKTOP && Key(d, va) !in a.pt && Room(a, Key(d, va), m.free) ==>
                  Key(d, va) in b.pt && Grants(b.pt[Key(d, va)], m.free[0], PTE_D))
            case Share(e, va, dst, dstva, perm) => SharedAs(m, a, envs, envFree, op, b)
            case Message(e, va, dst, dstva, perm) => SharedAs(m, a, envs, envFree, op, b)
            case NewEnv => true
  {
    hide Inv, FreePages, Refs, MkPte, Pdx, Ptx, PteG, Grants;
    NthFree(m, a);
    var d := envs[op.e].pgdir;
    if m.free != [] { MkPteFields(m.free[0], PTE_D); }
    if op.Alloc? && m.free != [] && op.perm < 4096 { MkPteFields(m.free[0], op.perm); }
    if (op.Share? || op.Message?) && Key(d, op.va) in a.pt && op.perm < 4096 {
      MkPteFields(Ppn(a.pt[Key(d, op.va)]), op.perm);
    }
  }

  /** The destination has the very page of the source, with the permissions asked for, if a page is there and its table
    * can be had. */
  ghost predicate SharedAs(m: Mem, a: Abs, envs: seq<EnvMem>, envFree: seq<nat>, op: Op, b: Abs)
    requires (op.Share? || op.Message?) && |envs| == NENV && op.e < NENV
  {
    op.dst < NENV && op.dst !in envFree && UserPerm(op.perm) && UTEMP <= op.va < UTOP
    && (UTEMP <= op.dstva < UTOP || (op.Message? && op.dstva == 0)) && CanRefer(a, Key(envs[op.e].pgdir, op.va)) ==>
      var src, dst := Key(envs[op.e].pgdir, op.va), Key(envs[op.dst].pgdir, op.dstva);
      && OnlyAt(a, b, dst)
      && (if src in a.pt && (Pd(dst.d, dst.x) in a.tab || m.free != [])
          then dst in b.pt && Grants(b.pt[dst], Ppn(a.pt[src]), op.perm) else b.pt == a.pt)
  }

  /** A page with a boot reference is not free. */
  lemma BootPageNotFree(m: Mem, a: Abs, p: nat)
    requires Inv(m, a) && p < |a.base| && a.base[p] > 0
    ensures p !in m.free
  {
  }

  lemma CountIs(m: Mem, a: Abs)
    requires Inv(m, a)
    ensures |m.ref| == |a.base| && forall p :: 0 <= p < |m.ref| ==> m.ref[p] == Refs(a, p)
  {
  }

  class Machine {
    // pages[i].pp_ref, page_free_list, and the words of every physical page
    var ppRef: seq<nat>
    var freeList: seq<nat>
    var frames: seq<seq<nat>>
    var tlb: map<Hi, Lo>
    // the template directory, the environments, env_free_list and asid_bitmap
    var basePgdir: nat
    var envs: seq<EnvMem>
    var envFree: seq<nat>
    var asidBitmap: seq<nat>
    // what the words stand for
    ghost var abs: Abs
    ghost var owner: map<nat, nat>

    ghost function M(): Mem
      reads this
    {
      Mem(ppRef, freeList, frames)
    }

    ghost predicate MemValid()
      reads this
    {
      Inv(M(), abs) && OwnersOk(owner, abs.dirs) && Coherent(tlb, owner, abs.pt)
    }

    /** Bit i of asid_bitmap is set exactly for the ASIDs in use; live environments have their own ASIDs. */
    ghost predicate EnvsValid()
      reads this
    {
      && |asidBitmap| == NASID / 32 && basePgdir < |frames| && basePgdir < |abs.base| && abs.base[basePgdir] > 0
      && (forall i :: 0 <= i < NASID ==> (Bit(asidBitmap, i) <==> i in owner))
      && EnvTable(envs, envFree, owner)
    }

    ghost predicate Valid()
      reads this
    {
      MemValid() && EnvsValid()
    }

    // ----- physical pages -----

    /** page_alloc: the first free page, zeroed, goes to the caller with no reference. */
    method PageAlloc() returns (r: Option<nat>)
      requires MemValid()
      modifies this`freeList, this`frames, this`abs
      ensures MemValid()
      ensures r.None? <==> old(freeList) == []
      ensures r.None? ==> M() == old(M()) && abs == old(abs)
      ensures |ppRef| == |frames| == |old(frames)|
      ensures r.Some? ==> r.value == old(freeList)[0] && r.value < |frames|
                          && M() == Mem(ppRef, old(freeList)[1..], old(frames)[r.value := ZERO_PAGE])
                          && abs == old(abs).(held := old(abs.held) + {r.value})
                          && ppRef[r.value] == 0 && r.value !in old(abs.held)
    {
      if freeList == [] {
        return None;
      }
      var pp := freeList[0];
      ghost var m, a := M(), abs;
      assert pp in freeList;
      freeList := freeList[1..];
      frames := frames[pp := ZERO_PAGE];
      abs := abs.(held := abs.held + {pp});
      PageAllocStep(m, a, M(), abs);
      return Some(pp);
    }

    /** page_free */
    method PageFree(pp: nat)
      requires pp < |ppRef| && ppRef[pp] == 0
      modifies this`freeList
      ensures freeList == [pp] + old(freeList)
    {
      freeList := [pp] + freeList;
    }

    /** page_decref */
    method PageDecref(pp: nat)
      requires pp < |ppRef| && ppRef[pp] > 0
      modifies this`ppRef, this`freeList
      ensures M() == Decref(old(M()), pp)
    {
      ppRef := ppRef[pp := ppRef[pp] - 1];
      if ppRef[pp] == 0 {
        PageFree(pp);
      }
    }

    method WriteWord(p: nat, i: nat, w: nat)
      requires p < |frames| && i < |frames[p]|
      modifies this`frames
      ensures M() == Write(old(M()), p, i, w)
    {
      var page: seq<nat> := frames[p][i := w];
      frames := frames[p := page];
    }

    // ----- TLB -----

    /** tlb_invalidate */
    method TlbInvalidate(asid: nat, va: nat)
      modifies this`tlb
      ensures tlb == old(tlb) - {HiOf(va, asid)}
      ensures old(MemValid()) ==> MemValid()
    {
      tlb := tlb - {HiOf(va, asid)};
    }

    // ----- two-level tables -----

    /** pgdir_walk: the table behind va, made on demand. Nothing but a new empty table may appear. */
    method PgdirWalk(d: nat, va: nat, create: bool) returns (ok: bool, t: Option<nat>)
      requires MemValid() && d in abs.dirs && Pdx(va) < USER_PDES
      modifies this`ppRef, this`freeList, this`frames, this`abs
      ensures MemValid()
      ensures ok <==> !create || Pd(d, Pdx(va)) in old(abs.tab) || old(freeList) != []
      ensures ok && create ==> t.Some?
      ensures ok ==> (t.Some? <==> Pd(d, Pdx(va)) in abs.tab)
      ensures t.Some? ==> ok && t.value == abs.tab[Pd(d, Pdx(va))]
      ensures !ok || !create || Pd(d, Pdx(va)) in old(abs.tab) ==> M() == old(M()) && abs == old(abs)
      ensures ok && create ==> abs == old(abs).(tab := old(abs.tab)[Pd(d, Pdx(va)) := t.value])
      ensures ok && create && Pd(d, Pdx(va)) !in old(abs.tab) ==>
                t.value == old(freeList)[0] && d < |frames| && |frames[d]| == ENTRIES
                && Grants(frames[d][Pdx(va)], t.value, 0)
      ensures |ppRef| == |old(ppRef)|
      ensures forall p :: 0 <= p < |ppRef| && p !in old(freeList) ==> ppRef[p] == old(ppRef)[p]
      ensures |frames| == |old(frames)|
      ensures forall p :: 0 <= p < |frames| && p != d && p !in old(freeList) ==> frames[p] == old(frames)[p]
    {
      var x := Pdx(va);
      hide Inv, Coherent, OwnersOk, Pdx, Ptx, Ppn, PteV, PteG, MkPte, Grants;
      WalkRead(M(), abs, d, x, 0);
      if !PteV(frames[d][x]) {
        if !create {
          return true, None;
        }
        label before:
        var r := PageAlloc();
        if r.None? {
          return false, None;
        }
        var pp := r.value;
        ghost var m, a := M(), abs;
        Unreferenced(m, a, pp);
        WalkRead(m, a, d, x, 0);
        ppRef := ppRef[pp := 1];
        WriteWord(d, x, MkPte(pp, 0));
        MkPteFields(pp, 0);
        abs := abs.(tab := abs.tab[Pd(d, x) := pp], held := abs.held - {pp});
        NewTableStep(m, a, Pd(d, x), pp, MkPte(pp, 0), M(), abs);
        assert abs.held == old(abs.held);
      }
      return true, Some(Ppn(frames[d][x]));
    }

    /** page_lookup: the page and the word at va, exactly as the flat map has them. */
    method PageLookup(d: nat, va: nat) returns (pp: Option<nat>)
      requires MemValid() && d in abs.dirs && Pdx(va) < USER_PDES
      ensures pp.Some? <==> Pg(d, Pdx(va), Ptx(va)) in abs.pt
      ensures pp.Some? ==> pp.value == Ppn(abs.pt[Pg(d, Pdx(va), Ptx(va))]) && pp.value < |ppRef|
    {
      hide Inv, Coherent, OwnersOk, Pdx, Ptx, Ppn, PteV;
      WalkRead(M(), abs, d, Pdx(va), Ptx(va));
      if !PteV(frames[d][Pdx(va)]) {
        return None;
      }
      var t := Ppn(frames[d][Pdx(va)]);
      if !PteV(frames[t][Ptx(va)]) {
        return None;
      }
      return Some(Ppn(frames[t][Ptx(va)]));
    }

    /** page_remove: one key leaves the flat map, its page loses one reference. */
    method PageRemove(d: nat, asid: nat, va: nat)
      requires MemValid() && asid in owner && owner[asid] == d && Pdx(va) < USER_PDES
      modifies this`ppRef, this`freeList, this`frames, this`tlb, this`abs
      ensures MemValid()
      ensures abs == old(abs).(pt := old(abs.pt) - {Pg(d, Pdx(va), Ptx(va))})
      ensures Pg(d, Pdx(va), Ptx(va)) !in old(abs.pt) ==> M() == old(M()) && tlb == old(tlb)
      ensures Pg(d, Pdx(va), Ptx(va)) in old(abs.pt) ==>
                tlb == old(tlb) - {HiOf(va, asid)} && |ppRef| == |old(ppRef)|
                && (forall p :: 0 <= p < |ppRef| && p != Ppn(old(abs.pt)[Pg(d, Pdx(va), Ptx(va))]) ==>
                    ppRef[p] == old(ppRef)[p])
      ensures forall p :: p in old(freeList) ==> p in freeList
      ensures |frames| == |old(frames)|
      ensures forall p :: 0 <= p < |frames| && p !in old(abs.tab).Values ==> frames[p] == old(frames)[p]
    {
      hide Inv, Coherent, OwnersOk, Pdx, Ptx, Ppn, PteV;
      ghost var k := Pg(d, Pdx(va), Ptx(va));
      OwnerFacts(owner, abs.dirs, asid);
      var pp := PageLookup(d, va);
      if pp.None? {
        assert abs.pt - {k} == abs.pt;
        return;
      }
      ghost var m, a := M(), abs;
      WalkRead(m, a, d, k.x, k.i);
      MappedReferenced(m, a, k);
      PageDecref(pp.value);
      WriteWord(Ppn(frames[d][Pdx(va)]), Ptx(va), 0);
      abs := abs.(pt := abs.pt - {k});
      UnmapStep(m, a, k, M(), abs);
      FlushAndChange(tlb, owner, abs.dirs, a.pt, asid, k.x, k.i, abs.pt);
      TlbInvalidate(asid, va);
    }

    /** The same page is already there: flush its pair and rewrite the word (kern/pmap.c:240-242). */
    method PageReflag(d: nat, asid: nat, pp: nat, va: nat, perm: nat)
      requires MemValid() && asid in owner && owner[asid] == d && Pdx(va) < USER_PDES && UserPerm(perm)
      requires Pg(d, Pdx(va), Ptx(va)) in abs.pt && Ppn(abs.pt[Pg(d, Pdx(va), Ptx(va))]) == pp
      modifies this`frames, this`tlb, this`abs
      ensures MemValid() && tlb == old(tlb) - {HiOf(va, asid)}
      ensures abs == old(abs).(pt := old(abs.pt)[Pg(d, Pdx(va), Ptx(va)) := MkPte(pp, perm)])
      ensures pp !in abs.held && Pd(d, Pdx(va)) in abs.tab
      ensures |frames| == |old(frames)| && pp < |frames| && frames[pp] == old(frames)[pp]
    {
      hide Inv, Coherent, OwnersOk, Pdx, Ptx, Ppn, PteV, PteG, MkPte, Grants;
      ghost var k := Pg(d, Pdx(va), Ptx(va));
      ghost var m, a := M(), abs;
      OwnerFacts(owner, abs.dirs, asid);
      MkPteFields(pp, perm);
      WalkRead(m, a, d, k.x, k.i);
      MappedReferenced(m, a, k);
      FlushAndChange(tlb, owner, abs.dirs, abs.pt, asid, k.x, k.i, abs.pt[k := MkPte(pp, perm)]);
      TlbInvalidate(asid, va);
      WriteWord(Ppn(frames[d][Pdx(va)]), Ptx(va), MkPte(pp, perm));
      abs := abs.(pt := abs.pt[k := MkPte(pp, perm)]);
      RemapStep(m, a, k, MkPte(pp, perm), M(), abs);
    }

    /** No page is there: flush, find or make the table, count the new reference (kern/pmap.c:248-261). */
    method PageMap(d: nat, asid: nat, pp: nat, va: nat, perm: nat) returns (ok: bool)
      requires MemValid() && asid in owner && owner[asid] == d && Pdx(va) < USER_PDES && UserPerm(perm)
      requires UserPage(abs, pp) && pp < |ppRef| && ppRef[pp] < 65535
      requires Pg(d, Pdx(va), Ptx(va)) !in abs.pt
      modifies this`ppRef, this`freeList, this`frames, this`tlb, this`abs
      ensures MemValid() && tlb == old(tlb) - {HiOf(va, asid)}
      ensures ok <==> Pd(d, Pdx(va)) in old(abs.tab) || old(freeList) != []
      ensures !ok ==> M() == old(M()) && abs == old(abs)
      ensures (if ok then Some(abs) else None) == MapPage(old(abs), Key(d, va), pp, perm, Nth(old(freeList), 0))
      ensures ok ==> abs.pt == old(abs.pt)[Key(d, va) := MkPte(pp, perm)] && Pd(d, Pdx(va)) in abs.tab
      ensures |frames| == |old(frames)| && pp < |frames| && frames[pp] == old(frames)[pp]
    {
      hide Inv, Coherent, OwnersOk, UserPage, Pdx, Ptx, Ppn, PteV, PteG, MkPte, FreePages, Grants;
      ghost var k := Pg(d, Pdx(va), Ptx(va));
      OwnerFacts(owner, abs.dirs, asid);
      MkPteFields(pp, perm);
      UserPageRole(M(), abs, pp);
      FlushAndChange(tlb, owner, abs.dirs, abs.pt, asid, k.x, k.i, abs.pt[k := MkPte(pp, perm)]);
      TlbInvalidate(asid, va);
      NthFree(M(), abs);
      ghost var a0 := abs;
      var walked, t := PgdirWalk(d, va, true);
      if !walked {
        return false;
      }
      ghost var m, a := M(), abs;
      UserPageStays(a0, k, pp, a);
      UserPageRole(m, a, pp);
      WalkRead(m, a, d, k.x, k.i);
      ppRef := ppRef[pp := (ppRef[pp] + 1) % 65536];
      WriteWord(t.value, Ptx(va), MkPte(pp, perm));
      abs := abs.(pt := abs.pt[k := MkPte(pp, perm)], held := abs.held - {pp});
      MapStep(m, a, k, pp, MkPte(pp, perm), M(), abs);
      return true;
    }

    /** page_insert: one key of the flat map is set, and only a missing table with no free page can refuse it. */
    method PageInsert(d: nat, asid: nat, pp: nat, va: nat, perm: nat) returns (ok: bool)
      requires MemValid() && asid in owner && owner[asid] == d && Pdx(va) < USER_PDES && UserPerm(perm)
      requires UserPage(abs, pp) && pp < |ppRef|
      requires ppRef[pp] < 65535 || (Key(d, va) in abs.pt && Ppn(abs.pt[Key(d, va)]) == pp)
      modifies this`ppRef, this`freeList, this`frames, this`tlb, this`abs
      ensures MemValid()
      ensures ok <==> Pd(d, Pdx(va)) in old(abs.tab) || old(freeList) != []
      ensures !ok ==> M() == old(M()) && abs == old(abs)
      ensures (if ok then Some(abs) else None) == MapPage(old(abs), Key(d, va), pp, perm, Nth(old(freeList), 0))
      ensures ok ==> abs.pt == old(abs.pt)[Key(d, va) := MkPte(pp, perm)] && Pd(d, Pdx(va)) in abs.tab
      ensures ok ==> Grants(abs.pt[Key(d, va)], pp, perm)
      ensures abs.base == old(abs.base)
      ensures HiOf(va, asid) !in tlb
      ensures |frames| == |old(frames)| && pp < |frames| && frames[pp] == old(frames)[pp]
    {
      hide Inv, Coherent, OwnersOk, UserPage, Pdx, Ptx, Ppn, PteV, PteG, MkPte, Grants;
      ghost var k := Pg(d, Pdx(va), Ptx(va));
      OwnerFacts(owner, abs.dirs, asid);
      MkPteFields(pp, perm);
      WalkRead(M(), abs, d, k.x, k.i);
      UserPageRole(M(), abs, pp);
      var cur := PageLookup(d, va);
      if cur.Some? {
        if cur.value != pp {
          PageRemove(d, asid, va);
          UserPageStays(old(abs), k, pp, abs);
        } else {
          PageReflag(d, asid, pp, va, perm);
          assert abs.held - {pp} == abs.held;
          return true;
        }
      }
      ok := PageMap(d, asid, pp, va, perm);
      assert old(abs.pt)[k := MkPte(pp, perm)] == (old(abs.pt) - {k})[k := MkPte(pp, perm)];
    }

    /** va2pa: the physical page address, or all ones when va is not mapped. */
    method Va2Pa(d: nat, va: nat) returns (pa: nat)
      requires MemValid() && d in abs.dirs && Pdx(va) < USER_PDES
      ensures Pg(d, Pdx(va), Ptx(va)) in abs.pt ==> pa == Ppn(abs.pt[Pg(d, Pdx(va), Ptx(va))]) * PAGE_SIZE
      ensures Pg(d, Pdx(va), Ptx(va)) !in abs.pt <==> pa == WORD - 1
    {
      WalkRead(M(), abs, d, Pdx(va), Ptx(va));
      if !PteV(frames[d][Pdx(va)]) {
        return WORD - 1;
      }
      var t := Ppn(frames[d][Pdx(va)]);
      if !PteV(frames[t][Ptx(va)]) {
        return WORD - 1;
      }
      pa := Ppn(frames[t][Ptx(va)]) * PAGE_SIZE;
    }

    // ----- TLB refill -----

    /** passive_alloc below UTOP: a fresh zeroed page at va; ok is false exactly when the source panics, on the address
      * or because the page or its table cannot be had. */
    method PassiveAlloc(va: nat, d: nat, asid: nat) returns (ok: bool)
      requires MemValid() && asid in owner && owner[asid] == d && va < UTOP
      requires Key(d, va) !in abs.pt
      modifies this`ppRef, this`freeList, this`frames, this`tlb, this`abs
      ensures MemValid() && |frames| == |old(frames)|
      ensures ok <==> !Forbidden(va) && Room(old(abs), Key(d, va), old(freeList))
      ensures Forbidden(va) <==> va < UTEMP || USTACKTOP <= va < USTACKTOP + PAGE_SIZE
      ensures ok ==> Key(d, va) in abs.pt && Grants(abs.pt[Key(d, va)], old(freeList)[0], PTE_D)
                     && BitOf(abs.pt[Key(d, va)], 8)
      ensures !Forbidden(va) ==>
                (abs, ok) == NewPage(old(abs), Key(d, va), PTE_D, Nth(old(freeList), 0), Nth(old(freeList), 1))
      ensures Forbidden(va) ==> abs == old(abs) && M() == old(M())
      ensures abs.base == old(abs.base)
      ensures ok ==> old(freeList) != [] && abs.pt == old(abs.pt)[Key(d, va) := MkPte(old(freeList)[0], PTE_D)]
                     && abs.held == old(abs.held) && abs.dirs == old(abs.dirs) && abs.base == old(abs.base)
                     && old(freeList)[0] < |frames| && frames[old(freeList)[0]] == ZERO_PAGE
    {
      hide Inv, Coherent, OwnersOk, Pdx, Ptx, Ppn, PteV, MkPte, FreePages, BitOf;
      UserAddress(va);
      WriteBit(8);
      if va < UTEMP || USTACKTOP <= va < USTACKTOP + PAGE_SIZE {
        return false;
      }
      ok := AllocAndInsert(d, asid, va, PTE_D);
    }

    /** page_alloc, then page_insert of the page: the common part of passive_alloc and sys_mem_alloc. */
    method AllocAndInsert(d: nat, asid: nat, va: nat, perm: nat) returns (ok: bool)
      requires MemValid() && asid in owner && owner[asid] == d && Pdx(va) < USER_PDES && UserPerm(perm)
      modifies this`ppRef, this`freeList, this`frames, this`tlb, this`abs
      ensures MemValid() && |frames| == |old(frames)|
      ensures (abs, ok) == NewPage(old(abs), Key(d, va), perm, Nth(old(freeList), 0), Nth(old(freeList), 1))
      ensures ok <==> Room(old(abs), Key(d, va), old(freeList))
      ensures !ok ==> abs == old(abs).(held := old(abs.held) + if old(freeList) == [] then {} else {old(freeList)[0]})
      ensures ok ==> old(freeList) != [] && abs.pt == old(abs.pt)[Key(d, va) := MkPte(old(freeList)[0], perm)]
                     && abs.held == old(abs.held) && abs.dirs == old(abs.dirs) && abs.base == old(abs.base)
                     && old(freeList)[0] < |frames| && frames[old(freeList)[0]] == ZERO_PAGE
                     && Grants(abs.pt[Key(d, va)], old(freeList)[0], perm)
    {
      hide Inv, Coherent, OwnersOk, Pdx, Ptx, Ppn, PteV, MkPte, FreePages, UserPerm, Grants;
      ghost var l := freeList;
      NthFree(M(), abs);
      var p := PageAlloc();
      if p.None? {
        return false;
      }
      assert Nth(freeList, 0) == Nth(l, 1);
      ok := PageInsert(d, asid, p.value, va, perm);
      assert old(abs.held) + {p.value} - {p.value} == old(abs.held);
    }

    /** The pair of va, read from the table, goes into the TLB (kern/tlbex.c:64-66 and tlbwr). */
    method TlbWrite(d: nat, va: nat, asid: nat, victim: Option<Hi>)
      requires MemValid() && asid in owner && owner[asid] == d && Pdx(va) < USER_PDES
      requires Pg(d, Pdx(va), Ptx(va)) in abs.pt
      modifies this`tlb
      ensures MemValid()
      ensures HiOf(va, asid) in tlb
      ensures Half(tlb[HiOf(va, asid)], Ptx(va) % 2) == abs.pt[Pg(d, Pdx(va), Ptx(va))] / 64
    {
      hide Inv, Coherent, OwnersOk, Pdx, Ptx, Ppn, PteV;
      OwnerFacts(owner, abs.dirs, asid);
      var x, i := Pdx(va), Ptx(va);
      assert i == i / 2 * 2 + i % 2;
      WalkRead(M(), abs, d, x, i / 2 * 2);
      WalkRead(M(), abs, d, x, i / 2 * 2 + 1);
      WalkRead(M(), abs, d, x, i);
      var t := Ppn(frames[d][x]);
      var even, odd := frames[t][i / 2 * 2], frames[t][i / 2 * 2 + 1];
      RefillStep(tlb, owner, abs.pt, asid, x, i / 2, even, odd);
      tlb := tlb[Hi(x, i / 2, asid) := Lo(even / 64, odd / 64)];
      if victim.Some? && victim.value != Hi(x, i / 2, asid) {
        Evict(tlb, owner, abs.pt, victim.value);
        tlb := tlb - {victim.value};
      }
    }

    /** _do_tlb_refill and the tlbwr that follows it: the pair of va is cached, one random entry may be lost. */
    method TlbRefill(curPgdir: nat, va: nat, asid: nat, victim: Option<Hi>) returns (ok: bool)
      requires MemValid() && asid in owner && owner[asid] == curPgdir && va < UTOP
      modifies this`ppRef, this`freeList, this`frames, this`tlb, this`abs
      ensures MemValid()
      ensures ok <==>
                Key(curPgdir, va) in old(abs.pt) || (!Forbidden(va) && Room(old(abs), Key(curPgdir, va), old(freeList)))
      ensures abs == Faulted(old(abs), Key(curPgdir, va), va, old(freeList)) && abs.base == old(abs.base)
      ensures ok && Key(curPgdir, va) !in old(abs.pt) ==>
                abs.pt == old(abs.pt)[Key(curPgdir, va) := MkPte(old(freeList)[0], PTE_D)]
                && abs.held == old(abs.held) && abs.dirs == old(abs.dirs) && abs.base == old(abs.base)
      ensures ok ==> Pg(curPgdir, Pdx(va), Ptx(va)) in abs.pt && HiOf(va, asid) in tlb
      ensures ok ==> Half(tlb[HiOf(va, asid)], Ptx(va) % 2) == abs.pt[Pg(curPgdir, Pdx(va), Ptx(va))] / 64
      ensures ok && Pg(curPgdir, Pdx(va), Ptx(va)) in old(abs.pt) ==> abs == old(abs) && M() == old(M())
      ensures |frames| == |old(frames)|
    {
      hide Inv, Coherent, OwnersOk, Pdx, Ptx, Ppn, PteV, MkPte, FreePages, NewPage, BitOf, Grants;
      UserAddress(va);
      OwnerFacts(owner, abs.dirs, asid);
      TlbInvalidate(asid, va);
      var pp := PageLookup(curPgdir, va);
      while pp.None?
        invariant MemValid() && |frames| == |old(frames)| && abs.base == old(abs.base)
        invariant pp.Some? <==> Key(curPgdir, va) in abs.pt
        invariant Key(curPgdir, va) in old(abs.pt) || pp.None? ==> abs == old(abs) && M() == old(M())
        invariant Key(curPgdir, va) !in old(abs.pt) && pp.Some? ==>
                    abs == Faulted(old(abs), Key(curPgdir, va), va, old(freeList))
        invariant Key(curPgdir, va) !in old(abs.pt) && pp.Some? ==>
                    !Forbidden(va) && Room(old(abs), Key(curPgdir, va), old(freeList))
                    && abs.pt == old(abs.pt)[Key(curPgdir, va) := MkPte(old(freeList)[0], PTE_D)]
                    && abs.held == old(abs.held) && abs.dirs == old(abs.dirs) && abs.base == old(abs.base)
        decreases pp.None?
      {
        var mapped := PassiveAlloc(va, curPgdir, asid);
        if !mapped {
          return false;
        }
        pp := PageLookup(curPgdir, va);
      }
      TlbWrite(curPgdir, va, asid, victim);
      return true;
    }

    // ----- address-space identifiers -----

    /** asid_alloc: the smallest unused identifier. */
    method AsidAlloc() returns (r: Option<nat>)
      requires |asidBitmap| == NASID / 32
      modifies this`asidBitmap
      ensures |asidBitmap| == NASID / 32
      ensures r.None? ==> asidBitmap == old(asidBitmap) && forall i :: 0 <= i < NASID ==> Bit(asidBitmap, i)
      ensures r.Some? ==> r.value < NASID && !Bit(old(asidBitmap), r.value)
      ensures r.Some? ==> forall i :: 0 <= i < r.value ==> Bit(old(asidBitmap), i)
      ensures r.Some? ==> forall i :: 0 <= i < NASID ==> Bit(asidBitmap, i) == (i == r.value || Bit(old(asidBitmap), i))
    {
      for i := 0 to NASID
        invariant asidBitmap == old(asidBitmap)
        invariant forall j :: 0 <= j < i ==> Bit(asidBitmap, j)
      {
        if !BitOf(asidBitmap[i / 32], i % 32) {
          forall j | 0 <= j < NASID ensures Bit(SetBit(asidBitmap, i), j) == (j == i || Bit(asidBitmap, j)) {
            SetBitEffect(asidBitmap, i, j);
          }
          asidBitmap := SetBit(asidBitmap, i);
          return Some(i);
        }
      }
      return None;
    }

    /** asid_free */
    method AsidFree(i: nat)
      requires |asidBitmap| == NASID / 32 && i < NASID
      modifies this`asidBitmap
      ensures |asidBitmap| == NASID / 32
      ensures forall j :: 0 <= j < NASID ==> Bit(asidBitmap, j) == (j != i && Bit(old(asidBitmap), j))
    {
      forall j | 0 <= j < NASID ensures Bit(ClearBit(asidBitmap, i), j) == (j != i && Bit(asidBitmap, j)) {
        ClearBitEffect(asidBitmap, i, j);
      }
      asidBitmap := ClearBit(asidBitmap, i);
    }

    // ----- environments -----

    /** env_setup_vm: a directory whose user part is empty and whose top is the template and the self map. */
    method EnvSetupVm() returns (r: Option<nat>)
      requires MemValid() && basePgdir < |frames| && basePgdir < |abs.base| && abs.base[basePgdir] > 0
      modifies this`ppRef, this`freeList, this`frames, this`abs
      ensures MemValid() && |frames| == |old(frames)|
      ensures r.None? <==> old(freeList) == []
      ensures r.None? ==> M() == old(M()) && abs == old(abs)
      ensures r.Some? ==> r.value == old(freeList)[0] && r.value !in old(abs.dirs) && r.value < |frames|
                          && abs == AddDirectory(old(abs), r.value)
                          && |frames[r.value]| == ENTRIES && frames[r.value][511] == r.value * 4096 + 128
                          && |frames[basePgdir]| == ENTRIES && frames[basePgdir] == old(frames)[basePgdir]
                          && frames[r.value][USER_PDES..511] == frames[basePgdir][USER_PDES..511]
    {
      hide Inv, Coherent, OwnersOk, PteV;
      PageLengths(M(), abs);
      BootPageNotFree(M(), abs, basePgdir);
      var p := PageAlloc();
      if p.None? {
        return None;
      }
      var d := p.value;
      ghost var m, a := M(), abs;
      Unreferenced(m, a, d);
      PageLengths(m, a);
      var page: seq<nat> := NewDirectory(frames[d], frames[basePgdir], d);
      ppRef := ppRef[d := ppRef[d] + 1];
      frames := frames[d := page];
      abs := abs.(dirs := abs.dirs + {d}, held := abs.held - {d});
      NewDirectoryEmpty(m.frames[d], m.frames[basePgdir], d);
      NewDirStep(m, a, d, page, M(), abs);
      OwnersStay(owner, a.dirs, d);
      assert abs.held == old(abs.held);
      return Some(d);
    }

    /** env_alloc. A refused ASID leaves the new directory allocated but owned by nobody. */
    method EnvAlloc() returns (r: Option<nat>)
      requires Valid()
      modifies this`ppRef, this`freeList, this`frames, this`abs, this`envs, this`envFree, this`asidBitmap, this`owner
      ensures Valid()
      ensures r.None? <==> old(envFree) == [] || old(freeList) == [] || forall i :: 0 <= i < NASID ==> i in old(owner)
      ensures r.None? <==> old(envFree) == [] || old(freeList) == [] || NENV - |old(envFree)| >= NASID
      ensures abs == if old(envFree) == [] || old(freeList) == [] then old(abs)
              else AddDirectory(old(abs), old(freeList)[0])
      ensures r.Some? ==> r.value == old(envFree)[0] && r.value < |envs| && envFree == old(envFree)[1..]
                          && envs[r.value].asid !in old(owner) && envs[r.value].pgdir == old(freeList)[0]
                          && envs[r.value].pgdir !in old(abs.dirs)
                          && owner == old(owner)[envs[r.value].asid := envs[r.value].pgdir]
                          && forall k :: k in abs.pt ==> k.d != envs[r.value].pgdir
      ensures r.None? ==> envFree == old(envFree) && owner == old(owner)
    {
      hide Inv, Coherent, OwnersOk, Bit, EnvTable;
      EnvTableFacts(envs, envFree, owner);
      AsidsRunOut(envs, envFree, owner, abs.dirs);
      if envFree == [] {
        return None;
      }
      var e := envFree[0];
      ghost var a := abs;
      MappedDirs(M(), abs);
      var d := EnvSetupVm();
      if d.None? {
        return None;
      }
      EnvTableFreeSlot(envs, envFree, owner, e, envs[e].(pgdir := d.value));
      envs := envs[e := envs[e].(pgdir := d.value)];
      var asid := AsidAlloc();
      if asid.None? {
        return None;
      }
      NewOwner(tlb, owner, abs.pt, asid.value, d.value);
      AddOwner(owner, a.dirs, asid.value, d.value);
      EnvAllocStep(envs, envFree, owner, d.value, asid.value);
      owner := owner[asid.value := d.value];
      envs := envs[e := EnvMem(envs[e].pgdir, asid.value)];
      envFree := envFree[1..];
      return Some(e);
    }

    /** The inner loop of env_free: every entry of one table is unmapped. */
    method UnmapTable(d: nat, asid: nat, x: nat)
      requires MemValid() && asid in owner && owner[asid] == d && x < USER_PDES && Pd(d, x) in abs.tab
      modifies this`ppRef, this`freeList, this`frames, this`tlb, this`abs
      ensures MemValid() && |frames| == |old(frames)|
      ensures abs == old(abs).(pt := WithoutEntries(old(abs.pt), d, x, ENTRIES)) && tlb.Keys <= old(tlb).Keys
    {
      hide Inv, Coherent, OwnersOk, Pdx, Ptx, PteV, Ppn;
      OwnerFacts(owner, abs.dirs, asid);
      WalkRead(M(), abs, d, x, 0);
      assert abs.pt == WithoutEntries(abs.pt, d, x, 0);
      for i := 0 to ENTRIES
        invariant MemValid() && |frames| == |old(frames)|
        invariant abs == old(abs).(pt := WithoutEntries(old(abs.pt), d, x, i)) && tlb.Keys <= old(tlb).Keys
      {
        WalkRead(M(), abs, d, x, i);
        var t := Ppn(frames[d][x]);
        if PteV(frames[t][i]) {
          IndexedAddress(x, i);
          PageRemove(d, asid, x * 0x40_0000 + i * 4096);
        }
        WithoutEntriesStep(old(abs.pt), d, x, i, abs.pt);
      }
    }

    /** One round of env_free's outer loop: unmap a table's pages, clear its entry, drop the table. */
    method FreeTable(d: nat, asid: nat, x: nat)
      requires MemValid() && asid in owner && owner[asid] == d && x < USER_PDES && Pd(d, x) in abs.tab
      modifies this`ppRef, this`freeList, this`frames, this`tlb, this`abs
      ensures MemValid() && |frames| == |old(frames)|
      ensures abs == old(abs).(pt := WithoutEntries(old(abs.pt), d, x, ENTRIES), tab := old(abs.tab) - {Pd(d, x)})
      ensures tlb.Keys <= old(tlb).Keys && HiOf(UVPT + x * 4096, asid) !in tlb
    {
      hide Inv, Coherent, OwnersOk, PteV, Ppn, Pdx, Ptx;
      OwnerFacts(owner, abs.dirs, asid);
      WalkRead(M(), abs, d, x, 0);
      var t := Ppn(frames[d][x]);
      UnmapTable(d, asid, x);
      ghost var m, a := M(), abs;
      WalkRead(m, a, d, x, 0);
      SingleReference(m, a, t);
      WriteWord(d, x, 0);
      PageDecref(t);
      abs := abs.(tab := abs.tab - {Pd(d, x)});
      DropTableStep(m, a, Pd(d, x), M(), abs);
      TlbInvalidate(asid, UVPT + x * 4096);
    }

    /** The outer loop of env_free. */
    method FreeTables(d: nat, asid: nat)
      requires MemValid() && asid in owner && owner[asid] == d
      modifies this`ppRef, this`freeList, this`frames, this`tlb, this`abs
      ensures MemValid() && |frames| == |old(frames)|
      ensures abs == Abs(old(abs.dirs), map k | k in old(abs.tab) && k.d != d :: old(abs.tab)[k],
                         map k | k in old(abs.pt) && k.d != d :: old(abs.pt)[k], old(abs.held), old(abs.base))
      ensures TablesFlushed(tlb, old(abs.tab), d, asid, USER_PDES)
    {
      hide Inv, Coherent, OwnersOk, PteV, Ppn, Pdx, Ptx;
      OwnerFacts(owner, abs.dirs, asid);
      EntryBounds(M(), abs);
      assert abs.pt == WithoutTables(abs.pt, d, 0) && abs.tab == TabWithoutTables(abs.tab, d, 0);
      for x := 0 to USER_PDES
        invariant MemValid() && |frames| == |old(frames)|
        invariant abs == old(abs).(pt := WithoutTables(old(abs.pt), d, x), tab := TabWithoutTables(old(abs.tab), d, x))
        invariant TablesFlushed(tlb, old(abs.tab), d, asid, x)
      {
        WalkRead(M(), abs, d, x, 0);
        WithoutTablesStep(old(abs.pt), old(abs.tab), d, x);
        NoTableNoPages(M(), abs, d, x);
        if PteV(frames[d][x]) {
          FreeTable(d, asid, x);
        }
      }
      FreedMaps(old(abs.pt), old(abs.tab), d);
    }

    /** env_free: every reference the environment held is given up and nothing else changes. */
    method EnvFree(e: nat)
      requires Valid() && e < NENV && e !in envFree
      modifies this`ppRef, this`freeList, this`frames, this`tlb, this`abs, this`envFree, this`asidBitmap, this`owner
      ensures Valid()
      ensures envFree == [e] + old(envFree)
      ensures owner == old(owner) - {old(envs)[e].asid}
      ensures abs == DropDirectory(old(abs), old(envs)[e].pgdir)
      ensures freeList != [] && freeList[0] == old(envs)[e].pgdir
      ensures TablesFlushed(tlb, old(abs.tab), old(envs)[e].pgdir, old(envs)[e].asid, USER_PDES)
      ensures HiOf(UVPT + 511 * 4096, old(envs)[e].asid) !in tlb
    {
      hide Inv, Coherent, OwnersOk, PteV, Ppn, Pdx, Ptx, EnvTable, Bit;
      EnvTableFacts(envs, envFree, owner);
      var d, asid := envs[e].pgdir, envs[e].asid;
      OwnerFacts(owner, abs.dirs, asid);
      FreeTables(d, asid);
      ghost var m, a := M(), abs;
      SingleReference(m, a, d);
      PageDecref(d);
      abs := abs.(dirs := abs.dirs - {d});
      DropDirStep(m, a, d, M(), abs);
      EnvFreeStep(envs, envFree, owner, e);
      DropOwner(tlb, owner, abs.pt, asid);
      RemoveOwner(owner, a.dirs, asid);
      AsidFree(asid);
      owner := owner - {asid};
      SelfMapIndex();
      TlbInvalidate(asid, UVPT + Pdx(UVPT) * 4096);
      envFree := [e] + envFree;
    }

    // ----- memory syscalls on environments already resolved by envid2env -----

    /** sys_mem_alloc: a zeroed page appears at va. A refused page_insert leaves the page held by nobody. */
    method SysMemAlloc(e: nat, va: nat, perm: nat) returns (r: Status)
      requires Valid() && e < NENV && e !in envFree && UserPerm(perm)
      modifies this`ppRef, this`freeList, this`frames, this`tlb, this`abs
      ensures Valid()
      ensures r == EInval <==> va < UTEMP || va >= UTOP
      ensures r == EInval ==> M() == old(M()) && abs == old(abs)
      ensures r == ENoMem <==> !IllegalVa(va) && !Room(old(abs), Key(envs[e].pgdir, va), old(freeList))
      ensures r == ENoMem ==>
                abs == old(abs).(held := old(abs.held) + if old(freeList) == [] then {} else {old(freeList)[0]})
      ensures !IllegalVa(va) ==>
                (abs, r == Ok)
                    == NewPage(old(abs), Key(envs[e].pgdir, va), perm, Nth(old(freeList), 0), Nth(old(freeList), 1))
      ensures abs.base == old(abs.base)
      ensures r == Ok ==> old(freeList) != [] && abs.held == old(abs.held)
                          && abs.pt == old(abs.pt)[Key(envs[e].pgdir, va) := MkPte(old(freeList)[0], perm)]
                          && old(freeList)[0] < |frames| && frames[old(freeList)[0]] == ZERO_PAGE
      ensures r == Ok ==> Grants(abs.pt[Key(envs[e].pgdir, va)], old(freeList)[0], perm)
                          && (BitOf(abs.pt[Key(envs[e].pgdir, va)], 8) <==> BitOf(perm, 8))
    {
      hide Inv, Coherent, OwnersOk, Pdx, Ptx, EnvTable, Bit, BitOf, MkPte, UserPerm, NewPage;
      if IllegalVa(va) {
        return EInval;
      }
      UserAddress(va);
      EnvTableFacts(envs, envFree, owner);
      var ok := AllocAndInsert(envs[e].pgdir, envs[e].asid, va, perm);
      return if ok then Ok else ENoMem;
    }

    /** sys_mem_map: dstva of dst maps the very page that srcva of src maps. */
    method SysMemMap(src: nat, srcva: nat, dst: nat, dstva: nat, perm: nat) returns (r: Status)
      requires Valid() && src < NENV && dst < NENV && src !in envFree && dst !in envFree && UserPerm(perm)
      requires !IllegalVa(srcva) ==> CanRefer(abs, Key(envs[src].pgdir, srcva))
      modifies this`ppRef, this`freeList, this`frames, this`tlb, this`abs
      ensures Valid()
      ensures r == EInval <==>
                srcva < UTEMP || srcva >= UTOP || dstva < UTEMP || dstva >= UTOP
                || Key(envs[src].pgdir, srcva) !in old(abs.pt)
      ensures r == ENoMem <==> !IllegalVa(srcva) && !IllegalVa(dstva) && Key(envs[src].pgdir, srcva) in old(abs.pt)
                               && Pd(envs[dst].pgdir, Pdx(dstva)) !in old(abs.tab) && old(freeList) == []
      ensures !IllegalVa(srcva) && !IllegalVa(dstva) ==>
                abs == Shared(old(abs), Key(envs[src].pgdir, srcva), Key(envs[dst].pgdir, dstva), perm, old(freeList))
      ensures r != Ok ==> M() == old(M()) && abs == old(abs)
      ensures r == Ok ==>
                Some(abs) == MapPage(old(abs), Key(envs[dst].pgdir, dstva),
                    Ppn(old(abs.pt)[Key(envs[src].pgdir, srcva)]),
                                               perm, Nth(old(freeList), 0))
      ensures r == Ok ==> abs.pt == old(abs.pt)[Key(envs[dst].pgdir, dstva) :=
                                                  MkPte(Ppn(old(abs.pt)[Key(envs[src].pgdir, srcva)]), perm)]
                          && Grants(abs.pt[Key(envs[dst].pgdir, dstva)],
                              Ppn(old(abs.pt)[Key(envs[src].pgdir, srcva)]), perm)
    {
      hide Inv, Coherent, OwnersOk, Pdx, Ptx, Ppn, EnvTable, Bit, MkPte, UserPerm, Grants;
      if IllegalVa(srcva) || IllegalVa(dstva) {
        return EInval;
      }
      UserAddress(srcva);
      UserAddress(dstva);
      r := ShareMapped(src, srcva, dst, dstva, perm);
    }

    /** page_lookup at one address and page_insert at another: the end of sys_mem_map and of sys_ipc_try_send. The
      * latter may insert at address 0, below the addresses that the memory calls accept. */
    method ShareMapped(src: nat, srcva: nat, dst: nat, dstva: nat, perm: nat) returns (r: Status)
      requires Valid() && src < NENV && dst < NENV && src !in envFree && dst !in envFree && UserPerm(perm)
      requires Pdx(srcva) < USER_PDES && Pdx(dstva) < USER_PDES && CanRefer(abs, Key(envs[src].pgdir, srcva))
      modifies this`ppRef, this`freeList, this`frames, this`tlb, this`abs
      ensures Valid()
      ensures r == EInval <==> Key(envs[src].pgdir, srcva) !in old(abs.pt)
      ensures r == ENoMem <==> Key(envs[src].pgdir, srcva) in old(abs.pt)
                               && Pd(envs[dst].pgdir, Pdx(dstva)) !in old(abs.tab) && old(freeList) == []
      ensures abs == Shared(old(abs), Key(envs[src].pgdir, srcva), Key(envs[dst].pgdir, dstva), perm, old(freeList))
      ensures r != Ok ==> M() == old(M()) && abs == old(abs)
      ensures r == Ok ==>
                Some(abs) == MapPage(old(abs), Key(envs[dst].pgdir, dstva),
                    Ppn(old(abs.pt)[Key(envs[src].pgdir, srcva)]),
                                               perm, Nth(old(freeList), 0))
      ensures r == Ok ==> abs.pt == old(abs.pt)[Key(envs[dst].pgdir, dstva) :=
                                                  MkPte(Ppn(old(abs.pt)[Key(envs[src].pgdir, srcva)]), perm)]
                          && Grants(abs.pt[Key(envs[dst].pgdir, dstva)],
                              Ppn(old(abs.pt)[Key(envs[src].pgdir, srcva)]), perm)
    {
      hide Inv, Coherent, OwnersOk, Pdx, Ptx, Ppn, EnvTable, Bit, MkPte, UserPerm, MapPage, Grants;
      EnvTableFacts(envs, envFree, owner);
      OwnerFacts(owner, abs.dirs, envs[src].asid);
      var pp := PageLookup(envs[src].pgdir, srcva);
      if pp.None? {
        return EInval;
      }
      MappedReferenced(M(), abs, Key(envs[src].pgdir, srcva));
      CountIs(M(), abs);
      var ok := PageInsert(envs[dst].pgdir, envs[dst].asid, pp.value, dstva, perm);
      return if ok then Ok else ENoMem;
    }

    /** sys_mem_unmap: silently succeeds when nothing is mapped. */
    method SysMemUnmap(e: nat, va: nat) returns (r: Status)
      requires Valid() && e < NENV && e !in envFree
      modifies this`ppRef, this`freeList, this`frames, this`tlb, this`abs
      ensures Valid()
      ensures r == EInval <==> va < UTEMP || va >= UTOP
      ensures r != EInval ==> r == Ok
      ensures r == EInval ==> M() == old(M()) && abs == old(abs)
      ensures r == Ok ==> abs == old(abs).(pt := old(abs.pt) - {Pg(envs[e].pgdir, Pdx(va), Ptx(va))})
    {
      hide Inv, Coherent, OwnersOk, Pdx, Ptx, EnvTable, Bit;
      if IllegalVa(va) {
        return EInval;
      }
      UserAddress(va);
      EnvTableFacts(envs, envFree, owner);
      PageRemove(envs[e].pgdir, envs[e].asid, va);
      return Ok;
    }

    // ----- boot and whole runs -----

    /** page_init, then the allocation of the template directory by env_init.
      * Pages below `used` carry a boot reference, the others form the free list, last page first. */
    constructor (memory: seq<seq<nat>>, used: nat)
      requires used < |memory| <= 0x10_0000
      requires forall p :: 0 <= p < |memory| ==> |memory[p]| == ENTRIES
      ensures Valid()
      ensures forall p :: 0 <= p < |memory| ==> (p in freeList <==> used <= p < |memory| - 1)
      ensures forall j :: 0 <= j < |freeList| ==> freeList[j] == |memory| - 2 - j
      ensures owner == map[] && |envFree| == NENV && |abs.base| == |memory|
      ensures forall e :: 0 <= e < NENV ==> envFree[e] == e
      ensures abs == Abs({}, map[], map[], {}, abs.base)
      ensures forall p :: 0 <= p < |memory| ==> abs.base[p] == if p < used || p == |memory| - 1 then 1 else 0
    {
      var refs: seq<nat> := [];
      for i := 0 to used
        invariant |refs| == i && forall p :: 0 <= p < i ==> refs[p] == 1
      {
        refs := refs + [1];
      }
      var free: seq<nat> := [];
      for i := used to |memory|
        invariant |refs| == i
        invariant forall p :: 0 <= p < i ==> refs[p] == if p < used then 1 else 0
        invariant |free| == i - used && forall j :: 0 <= j < |free| ==> free[j] == i - 1 - j
      {
        refs := refs + [0];
        free := [i] + free;
      }
      var slots: seq<nat> := [];
      for i := 0 to NENV
        invariant |slots| == i && forall j :: 0 <= j < i ==> slots[j] == NENV - i + j
      {
        slots := [NENV - 1 - i] + slots;
      }
      var template := free[0];
      ppRef := refs[template := 1];
      freeList := free[1..];
      frames := memory[template := ZERO_PAGE];
      tlb := map[];
      basePgdir := template;
      envs := seq(NENV, _ => EnvMem(0, 0));
      envFree := slots;
      asidBitmap := seq(NASID / 32, _ => 0);
      abs := Abs({}, map[], map[], {}, refs[template := 1]);
      owner := map[];
      new;
      forall i | 0 <= i < NASID ensures !Bit(asidBitmap, i) { ZeroHasNoBits(i % 32); }
      forall e | 0 <= e < NENV ensures e in envFree { assert envFree[e] == e; }
      assert forall j :: 0 <= j < |freeList| ==> freeList[j] == |memory| - 2 - j;
      forall p | used <= p < |memory| - 1 ensures p in freeList { assert freeList[|memory| - 2 - p] == p; }
      assert UserKeys(abs.pt, 0) == {} && TableKeys(abs.tab, 0) == {};
      forall p | 0 <= p < |ppRef| ensures ppRef[p] == Refs(abs, p) {
        assert UserKeys(abs.pt, p) == {} && TableKeys(abs.tab, p) == {};
      }
    }

    method CanCount(e: nat, va: nat) returns (ok: bool)
      requires Valid() && e < NENV && e !in envFree
      ensures !IllegalVa(va) ==> (ok <==> CanRefer(abs, Key(envs[e].pgdir, va)))
    {
      hide Inv, Coherent, OwnersOk, Pdx, Ptx, Ppn, EnvTable, Bit;
      if IllegalVa(va) {
        return true;
      }
      UserAddress(va);
      EnvTableFacts(envs, envFree, owner);
      OwnerFacts(owner, abs.dirs, envs[e].asid);
      var pp := PageLookup(envs[e].pgdir, va);
      CountIs(M(), abs);
      return pp.None? || ppRef[pp.value] < 65535;
    }

    /** Execute one kernel entry; entries on dead environments are refused, as envid2env does.
      * The guards on perm, counts and addresses are the callers' duties listed in PageInsert. */
    method Step(op: Op) returns (panicked: bool)
      requires Valid()
      modifies this
      ensures Valid() && |old(envs)| == NENV
      ensures abs == FlatStep(old(abs), old(envs), old(envFree), old(freeList), op)
      ensures panicked <==> Panics(old(abs), old(envs), old(envFree), old(freeList), op)
      ensures !op.NewEnv? && !op.FreeEnv? ==> envs == old(envs) && envFree == old(envFree) && owner == old(owner)
    {
      hide Inv, Coherent, OwnersOk, EnvTable, Bit, Pdx, Ptx, PteG, FreePages, NewPage, MapPage, CanRefer, Refs,
          UserPerm;
      EnvTableFacts(envs, envFree, owner);
      panicked := false;
      if op.NewEnv? {
        var _ := EnvAlloc();
      } else if op.e < NENV && op.e !in envFree {
        match op
        case FreeEnv(e) => EnvFree(e);
        case Alloc(e, va, perm) =>
          if UserPerm(perm) {
            var _ := SysMemAlloc(e, va, perm);
          }
        case Share(e, va, dst, dstva, perm) =>
          var countable := CanCount(e, va);
          if dst < NENV && dst !in envFree && UserPerm(perm) && countable {
            var _ := SysMemMap(e, va, dst, dstva, perm);
          }
        case Message(e, va, dst, dstva, perm) =>
          var countable := CanCount(e, va);
          if dst < NENV && dst !in envFree && UserPerm(perm) && !IllegalVa(va) && (dstva == 0 || !IllegalVa(dstva))
          && countable {
            UserAddress(va);
            UserAddress(dstva);
            var _ := ShareMapped(e, va, dst, dstva, perm);
          }
        case Unmap(e, va) =>
          var _ := SysMemUnmap(e, va);
        case Fault(e, va, victim) =>
          if va < UTOP {
            var ok := TlbRefill(envs[e].pgdir, va, envs[e].asid, victim);
            panicked := !ok;
          }
      }
    }

    /** Every run, of any length and in any order: each count is the boot count, which stays what it was, plus the
      * number of references; no page on the free list is referenced by any table, and every valid cached translation
      * of a live environment is what its own tables say. */
    method Run(ops: seq<Op>) returns (panicked: bool, ghost trace: seq<Snapshot>)
      requires Valid()
      modifies this
      ensures 0 < |trace| <= |ops| + 1 && (!panicked ==> |trace| == |ops| + 1)
      ensures trace[0] == old(Snap()) && trace[|trace| - 1] == Snap() && FlatRun(trace, ops)
      ensures Valid() && |ppRef| == |abs.base| && abs.base == old(abs.base)
      ensures forall p :: 0 <= p < |ppRef| ==> ppRef[p] == Refs(abs, p)
      ensures forall p, k :: p in freeList && k in abs.pt ==> Ppn(abs.pt[k]) != p
      ensures forall p, k :: p in freeList && k in abs.tab ==> abs.tab[k] != p
      ensures forall p :: p in freeList ==> p !in abs.dirs
      ensures forall e, k, h :: 0 <= e < |envs| && e !in envFree && k in tlb && k.asid == envs[e].asid
                                && 0 <= h <= 1 && LoV(Half(tlb[k], h)) ==>
                Pg(envs[e].pgdir, k.x, 2 * k.j + h) in abs.pt
                && Half(tlb[k], h) == abs.pt[Pg(envs[e].pgdir, k.x, 2 * k.j + h)] / 64
    {
      hide Inv, Coherent, OwnersOk, EnvTable, Bit, FlatStep, FlatRun;
      FlatRunStarts(Snap(), ops);
      panicked, trace := false, [Snap()];
      for i := 0 to |ops|
        invariant Valid() && abs.base == old(abs.base) && !panicked
        invariant |trace| == i + 1 && trace[0] == old(Snap()) && trace[i] == Snap() && FlatRun(trace, ops)
      {
        EnvTableFacts(envs, envFree, owner);
        FlatStepBase(abs, envs, envFree, freeList, ops[i]);
        panicked := Step(ops[i]);
        FlatRunGoesOn(trace, ops, Snap());
        trace := trace + [Snap()];
        if panicked { break; }
      }
      RunEnds(M(), abs, tlb, owner, envs, envFree);
    }

    ghost function Snap(): Snapshot
      reads this
    {
      Snapshot(abs, envs, envFree, freeList)
    }
  }

  lemma RunEnds(m: Mem, a: Abs, tlb: map<Hi, Lo>, owner: map<nat, nat>, envs: seq<EnvMem>, envFree: seq<nat>)
    requires Inv(m, a) && OwnersOk(owner, a.dirs) && Coherent(tlb, owner, a.pt) && EnvTable(envs, envFree, owner)
    ensures |m.ref| == |a.base| && forall p :: 0 <= p < |m.ref| ==> m.ref[p] == Refs(a, p)
    ensures forall p, k :: p in m.free && k in a.pt ==> Ppn(a.pt[k]) != p
    ensures forall p, k :: p in m.free && k in a.tab ==> a.tab[k] != p
    ensures forall p :: p in m.free ==> p !in a.dirs
    ensures forall e, k, h :: 0 <= e < |envs| && e !in envFree && k in tlb && k.asid == envs[e].asid
                              && 0 <= h <= 1 && LoV(Half(tlb[k], h)) ==>
              Pg(envs[e].pgdir, k.x, 2 * k.j + h) in a.pt
              && Half(tlb[k], h) == a.pt[Pg(envs[e].pgdir, k.x, 2 * k.j + h)] / 64
  {
    FreePagesUnmapped(m, a);
    assert Counted(m, a);
  }

  /** What a run leaves a trace of: the flat memory, the environments and the free list before each entry. */
  datatype Snapshot = Snapshot(abs: Abs, envs: seq<EnvMem>, envFree: seq<nat>, free: seq<nat>)

  /** An entry between two snapshots changed the flat memory as FlatStep says. */
  ghost predicate FlatBetween(s: Snapshot, op: Op, t: Snapshot) {
    |s.envs| == NENV && t.abs == FlatStep(s.abs, s.envs, s.envFree, s.free, op)
  }

  ghost predicate FlatRun(trace: seq<Snapshot>, ops: seq<Op>)
    requires |trace| <= |ops| + 1
  {
    forall i :: 0 <= i < |trace| - 1 ==> FlatBetween(trace[i], ops[i], trace[i + 1])
  }

  lemma FlatRunStarts(s: Snapshot, ops: seq<Op>)
    ensures FlatRun([s], ops)
  {
  }

  lemma FlatRunGoesOn(trace: seq<Snapshot>, ops: seq<Op>, t: Snapshot)
    requires 0 < |trace| <= |ops| && FlatRun(trace, ops) && FlatBetween(trace[|trace| - 1], ops[|trace| - 1], t)
    ensures FlatRun(trace + [t], ops)
  {
    hide FlatBetween;
  }
}
