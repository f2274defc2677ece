/** The kernel's memory operations on the flat level: live directories, tables and the map from user page to word.
  * Kernel proves that its words do exactly this; Scheduler runs messages and memory calls on it. */
module FlatMemory {
  import opened Common
  import opened Mmu
  import opened PageTables

  /** The pages that page_alloc can hand out. */
  function FreePages(a: Abs): set<nat> {
    set p | 0 <= p < |a.base| && Refs(a, p) == 0 && p !in a.held
  }

  /** Addresses below UTOP on which passive_alloc panics. */
  predicate Forbidden(va: nat) { va < UTEMP || USTACKTOP <= va < USTACKTOP + PAGE_SIZE }

  /** The key of address va under directory d. */
  function Key(d: nat, va: nat): Pg { Pg(d, Pdx(va), Ptx(va)) }

  /** page_insert of page pp at key k. Only a missing table without a free page for it refuses; t is the page that
    * page_alloc hands out, if any is free. */
  function MapPage(a: Abs, k: Pg, pp: nat, perm: nat, t: nat): Option<Abs> {
    var b := a.(pt := a.pt[k := MkPte(pp, perm)], held := a.held - {pp});
    if Pd(k.d, k.x) in a.tab then Some(b)
    else if t !in FreePages(a) then None
    else Some(b.(tab := a.tab[Pd(k.d, k.x) := t]))
  }

  /** page_remove */
  function UnmapPage(a: Abs, k: Pg): Abs { a.(pt := a.pt - {k}) }

  /** page_alloc of p, then page_insert of p; a refused insertion leaves p held by nobody. */
  function NewPage(a: Abs, k: Pg, perm: nat, p: nat, t: nat): (r: (Abs, bool)) {
    if p !in FreePages(a) then (a, false)
    else
      var held := a.(held := a.held + {p});
      var b := MapPage(held, k, p, perm, t);
      if b.None? then (held, false) else (b.value, true)
  }

  /** env_setup_vm makes page d a directory. */
  function AddDirectory(a: Abs, d: nat): Abs { a.(dirs := a.dirs + {d}) }

  /** env_free gives up the directory and everything behind it. */
  function DropDirectory(a: Abs, d: nat): Abs {
    Abs(a.dirs - {d}, map k | k in a.tab && k.d != d :: a.tab[k],
        map k | k in a.pt && k.d != d :: a.pt[k], a.held, a.base)
  }

  /** The free list holds exactly the free pages. */
  lemma FreeListPages(m: Mem, a: Abs, p: nat)
    requires Inv(m, a)
    ensures p in m.free <==> p in FreePages(a)
  {
  }

  /** Taking the head of the free list leaves its tail. */
  lemma HeldLeaves(a: Abs, p: nat, q: nat)
    ensures q in FreePages(a.(held := a.held + {p})) <==> q in FreePages(a) && q != p
  {
    if q < |a.base| { assert Refs(a.(held := a.held + {p}), q) == Refs(a, q); }
  }

  /** A free page is no directory. */
  lemma FreeIsNoDirectory(a: Abs, p: nat)
    requires p in FreePages(a)
    ensures p !in a.dirs
  {
  }
}
