/** The counting invariant of kern/pmap.c.
  *
  * Mem is the concrete state: reference counts, the free list and the words of every physical page.
  * Abs is what that state stands for: the live page directories, the page table behind each directory
  * entry, the flat map from user page to page-table word, the pages a caller holds between page_alloc
  * and page_insert, and the references that boot code took. Inv says that the words of the tables are
  * exactly the flat map, that table pages never alias, and that every reference count is the number
  * of references. Each lemma below is one step of the kernel on both levels. */
module PageTables {
  import opened Mmu

  /** A directory entry: directory page and index. */
  datatype Pd = Pd(d: nat, x: nat)

  /** A user page: directory page, directory index, table index. */
  datatype Pg = Pg(d: nat, x: nat, i: nat)

  datatype Mem = Mem(ref: seq<nat>, free: seq<nat>, frames: seq<seq<nat>>)

  datatype Abs = Abs(dirs: set<nat>, tab: map<Pd, nat>, pt: map<Pg, nat>, held: set<nat>, base: seq<nat>)

  // ----- counting references -----

  /** User page-table entries that name page p. */
  function UserKeys(pt: map<Pg, nat>, p: nat): set<Pg> {
    set k | k in pt && Ppn(pt[k]) == p
  }

  /** Directory entries whose table is page p. */
  function TableKeys(tab: map<Pd, nat>, p: nat): set<Pd> {
    set k | k in tab && tab[k] == p
  }

  /** Every reference to page p: boot references, page-table entries, directory entries, live directory. */
  function Refs(a: Abs, p: nat): nat
    requires p < |a.base|
  {
    a.base[p] + |UserKeys(a.pt, p)| + |TableKeys(a.tab, p)| + (if p in a.dirs then 1 else 0)
  }

  // ----- the invariant -----

  ghost predicate Shape(m: Mem, a: Abs) {
    && |m.ref| == |m.frames| == |a.base|
    && |m.frames| <= 0x10_0000
    && (forall p :: 0 <= p < |m.frames| ==> |m.frames[p]| == ENTRIES)
  }

  /** The free list and the held pages split the unreferenced pages. */
  ghost predicate Pool(m: Mem, a: Abs)
    requires Shape(m, a)
  {
    && (forall i, j :: 0 <= i < j < |m.free| ==> m.free[i] != m.free[j])
    && (forall p :: p in m.free ==> p < |m.ref| && p !in a.held)
    && (forall p :: p in a.held ==> p < |m.ref|)
    && (forall p :: 0 <= p < |m.ref| ==> (m.ref[p] == 0 <==> p in m.free || p in a.held))
  }

  /** Directories, tables and user pages are different pages, and no two directory entries share a table. */
  ghost predicate Separate(m: Mem, a: Abs)
    requires Shape(m, a)
  {
    && (forall d :: d in a.dirs ==> d < |m.ref| && a.base[d] == 0)
    && (forall k :: k in a.tab ==>
          k.d in a.dirs && k.x < USER_PDES && a.tab[k] < |m.ref| && a.tab[k] !in a.dirs && a.base[a.tab[k]] == 0)
    && (forall k, l :: k in a.tab && l in a.tab && k != l ==> a.tab[k] != a.tab[l])
    && (forall k :: k in a.pt ==>
          Pd(k.d, k.x) in a.tab && k.i < ENTRIES && Ppn(a.pt[k]) < |m.ref| && Ppn(a.pt[k]) !in a.dirs
          && !PteG(a.pt[k]))
    && (forall k, l :: k in a.pt && l in a.tab ==> Ppn(a.pt[k]) != a.tab[l])
  }

  /** The words of the directories spell out tab. */
  ghost predicate DirWords(m: Mem, a: Abs)
    requires Shape(m, a)
  {
    forall d, x :: d in a.dirs && d < |m.frames| && 0 <= x < USER_PDES ==>
      (Pd(d, x) in a.tab <==> PteV(m.frames[d][x]))
      && (Pd(d, x) in a.tab ==> Ppn(m.frames[d][x]) == a.tab[Pd(d, x)])
  }

  /** The words of the tables spell out pt. */
  ghost predicate TableWords(m: Mem, a: Abs)
    requires Shape(m, a)
  {
    forall k, i :: k in a.tab && a.tab[k] < |m.frames| && 0 <= i < ENTRIES ==>
      (Pg(k.d, k.x, i) in a.pt <==> PteV(m.frames[a.tab[k]][i]))
      && (Pg(k.d, k.x, i) in a.pt ==> m.frames[a.tab[k]][i] == a.pt[Pg(k.d, k.x, i)])
  }

  ghost predicate Counted(m: Mem, a: Abs)
    requires Shape(m, a)
  {
    forall p :: 0 <= p < |m.ref| ==> m.ref[p] == Refs(a, p)
  }

  ghost predicate Inv(m: Mem, a: Abs) {
    && Shape(m, a) && Pool(m, a) && Separate(m, a)
    && DirWords(m, a) && TableWords(m, a) && Counted(m, a)
  }

  // ----- cardinality steps -----

  lemma UserKeysInsert(pt: map<Pg, nat>, k: Pg, w: nat, p: nat)
    requires k !in pt
    ensures |UserKeys(pt[k := w], p)| == |UserKeys(pt, p)| + (if Ppn(w) == p then 1 else 0)
  {
    var s, t := UserKeys(pt, p), UserKeys(pt[k := w], p);
    assert t == if Ppn(w) == p then s + {k} else s;
  }

  lemma UserKeysRemap(pt: map<Pg, nat>, k: Pg, w: nat, p: nat)
    requires k in pt && Ppn(w) == Ppn(pt[k])
    ensures |UserKeys(pt[k := w], p)| == |UserKeys(pt, p)|
  {
    assert UserKeys(pt[k := w], p) == UserKeys(pt, p);
  }

  lemma UserKeysDelete(pt: map<Pg, nat>, k: Pg, p: nat)
    requires k in pt
    ensures |UserKeys(pt, p)| == |UserKeys(pt - {k}, p)| + (if Ppn(pt[k]) == p then 1 else 0)
  {
    var s, t := UserKeys(pt, p), UserKeys(pt - {k}, p);
    assert s == if Ppn(pt[k]) == p then t + {k} else t;
  }

  lemma TableKeysInsert(tab: map<Pd, nat>, k: Pd, t: nat, p: nat)
    requires k !in tab
    ensures |TableKeys(tab[k := t], p)| == |TableKeys(tab, p)| + (if t == p then 1 else 0)
  {
    var s, s' := TableKeys(tab, p), TableKeys(tab[k := t], p);
    assert s' == if t == p then s + {k} else s;
  }

  lemma TableKeysDelete(tab: map<Pd, nat>, k: Pd, p: nat)
    requires k in tab
    ensures |TableKeys(tab, p)| == |TableKeys(tab - {k}, p)| + (if tab[k] == p then 1 else 0)
  {
    var s, s' := TableKeys(tab, p), TableKeys(tab - {k}, p);
    assert s == if tab[k] == p then s' + {k} else s';
  }

  /** A page without references is no directory, no table and in no page-table entry. */
  lemma Unreferenced(m: Mem, a: Abs, p: nat)
    requires Inv(m, a) && p < |m.ref| && m.ref[p] == 0
    ensures p !in a.dirs
    ensures forall k :: k in a.tab ==> a.tab[k] != p
    ensures forall k :: k in a.pt ==> Ppn(a.pt[k]) != p
    ensures a.base[p] == 0
  {
    assert Refs(a, p) == 0;
    assert UserKeys(a.pt, p) == {} && TableKeys(a.tab, p) == {};
    forall k | k in a.tab ensures a.tab[k] != p { assert k !in TableKeys(a.tab, p); }
    forall k | k in a.pt ensures Ppn(a.pt[k]) != p { assert k !in UserKeys(a.pt, p); }
  }

  /** No page on the free list is mapped anywhere. */
  lemma FreePagesUnmapped(m: Mem, a: Abs)
    requires Inv(m, a)
    ensures forall p :: p in m.free ==> p !in a.dirs
    ensures forall p, k :: p in m.free && k in a.tab ==> a.tab[k] != p
    ensures forall p, k :: p in m.free && k in a.pt ==> Ppn(a.pt[k]) != p
  {
    forall p | p in m.free
      ensures p !in a.dirs
      ensures forall k :: k in a.tab ==> a.tab[k] != p
      ensures forall k :: k in a.pt ==> Ppn(a.pt[k]) != p
    {
      Unreferenced(m, a, p);
    }
  }

  /** A page named by a page-table entry has a positive count. */
  lemma MappedReferenced(m: Mem, a: Abs, k: Pg)
    requires Inv(m, a) && k in a.pt
    ensures Ppn(a.pt[k]) < |m.ref| && m.ref[Ppn(a.pt[k])] > 0
    ensures Ppn(a.pt[k]) !in m.free && Ppn(a.pt[k]) !in a.held
    ensures forall l :: l in a.tab ==> a.tab[l] != Ppn(a.pt[k])
  {
    assert k in UserKeys(a.pt, Ppn(a.pt[k]));
  }

  /** What a two-level walk reads: the directory word and the table word are the maps' own answers. */
  lemma WalkRead(m: Mem, a: Abs, d: nat, x: nat, i: nat)
    requires Inv(m, a) && d in a.dirs && x < USER_PDES && i < ENTRIES
    ensures |m.ref| == |m.frames| && d < |m.frames| && |m.frames[d]| == ENTRIES
    ensures PteV(m.frames[d][x]) <==> Pd(d, x) in a.tab
    ensures Pd(d, x) in a.tab ==>
              var t := Ppn(m.frames[d][x]);
              t == a.tab[Pd(d, x)] && t < |m.frames| && |m.frames[t]| == ENTRIES
              && (PteV(m.frames[t][i]) <==> Pg(d, x, i) in a.pt)
              && (Pg(d, x, i) in a.pt ==> m.frames[t][i] == a.pt[Pg(d, x, i)] && Ppn(a.pt[Pg(d, x, i)]) < |m.ref|)
    ensures Pg(d, x, i) in a.pt ==> Pd(d, x) in a.tab
  {
  }

  lemma PageLengths(m: Mem, a: Abs)
    requires Inv(m, a)
    ensures |m.ref| == |m.frames| == |a.base|
    ensures forall p :: 0 <= p < |m.frames| ==> |m.frames[p]| == ENTRIES
  {
  }

  /** Only live directories map pages. */
  lemma MappedDirs(m: Mem, a: Abs)
    requires Inv(m, a)
    ensures forall k :: k in a.pt ==> k.d in a.dirs
    ensures forall k :: k in a.tab ==> k.d in a.dirs && k.x < USER_PDES
  {
    forall k | k in a.pt ensures k.d in a.dirs { assert Pd(k.d, k.x) in a.tab; }
  }

  lemma EntryBounds(m: Mem, a: Abs)
    requires Inv(m, a)
    ensures forall k :: k in a.pt ==> k.x < USER_PDES && k.i < ENTRIES
    ensures forall k :: k in a.tab ==> k.x < USER_PDES
  {
    forall k | k in a.pt ensures k.x < USER_PDES { assert Pd(k.d, k.x) in a.tab; }
  }

  /** Without a table there is nothing mapped behind a directory entry. */
  lemma NoTableNoPages(m: Mem, a: Abs, d: nat, x: nat)
    requires Inv(m, a)
    ensures Pd(d, x) !in a.tab ==> forall k :: k in a.pt ==> k.d != d || k.x != x
  {
  }

  // ----- one kernel step at a time -----

  const ZERO_PAGE: seq<nat> := seq(ENTRIES, _ => 0)

  function Write(m: Mem, p: nat, i: nat, w: nat): Mem
    requires p < |m.frames| && i < |m.frames[p]|
  {
    var page: seq<nat> := m.frames[p][i := w];
    m.(frames := m.frames[p := page])
  }

  /** page_decref: the count drops by one and the page joins the free list when it reaches zero. */
  function Decref(m: Mem, p: nat): Mem
    requires p < |m.ref| && m.ref[p] > 0
  {
    m.(ref := m.ref[p := m.ref[p] - 1], free := if m.ref[p] == 1 then [p] + m.free else m.free)
  }

  lemma DecrefPool(m: Mem, a: Abs, p: nat, m': Mem, a': Abs)
    requires Shape(m, a) && Pool(m, a) && p < |m.ref| && m.ref[p] > 0
    requires m'.ref == Decref(m, p).ref && m'.free == Decref(m, p).free
    requires Shape(m', a') && a'.held == a.held
    ensures Pool(m', a')
  {
    if m.ref[p] == 1 {
      assert p !in m.free;
      forall q ensures q in m'.free <==> q == p || q in m.free { assert m'.free == [p] + m.free; }
    }
  }

  lemma AllocPool(m: Mem, a: Abs, m': Mem, a': Abs)
    requires Shape(m, a) && Pool(m, a) && m.free != []
    requires m'.ref == m.ref && m'.free == m.free[1..] && Shape(m', a')
    requires a'.held == a.held + {m.free[0]}
    ensures Pool(m', a')
  {
    assert m.free == [m.free[0]] + m'.free;
    forall q ensures q in m.free <==> q == m.free[0] || q in m'.free { }
    forall q | q in m'.free ensures q != m.free[0] {
      var i :| 0 <= i < |m'.free| && m'.free[i] == q;
      assert m.free[i + 1] == q;
    }
  }

  /** A write to one entry of the table behind k changes the flat map at k alone. */
  lemma TableWrite(m: Mem, a: Abs, k: Pg, w: nat, m': Mem, a': Abs)
    requires Shape(m, a) && Separate(m, a) && DirWords(m, a) && TableWords(m, a)
    requires Pd(k.d, k.x) in a.tab && k.i < ENTRIES
    requires m'.frames == Write(m, a.tab[Pd(k.d, k.x)], k.i, w).frames && Shape(m', a')
    requires a'.tab == a.tab && a'.dirs == a.dirs
    requires a'.pt == if PteV(w) then a.pt[k := w] else a.pt - {k}
    ensures DirWords(m', a') && TableWords(m', a')
  {
    var t := a.tab[Pd(k.d, k.x)];
    forall l, i | l in a'.tab && a'.tab[l] < |m'.frames| && 0 <= i < ENTRIES
      ensures Pg(l.d, l.x, i) in a'.pt <==> PteV(m'.frames[a'.tab[l]][i])
      ensures Pg(l.d, l.x, i) in a'.pt ==> m'.frames[a'.tab[l]][i] == a'.pt[Pg(l.d, l.x, i)]
    {
      if l == Pd(k.d, k.x) && i == k.i {
      } else {
        assert m'.frames[a.tab[l]][i] == m.frames[a.tab[l]][i];
      }
    }
  }

  /** env_setup_vm: the template's entries between UTOP and UVPT, and the directory itself at UVPT. */
  function NewDirectory(zeroed: seq<nat>, base: seq<nat>, d: nat): (page: seq<nat>)
    requires |zeroed| == |base| == ENTRIES
    ensures |page| == ENTRIES
  {
    zeroed[..USER_PDES] + base[USER_PDES..511] + [d * 4096 + 128] + zeroed[512..]
  }

  lemma NewDirectoryEmpty(zeroed: seq<nat>, base: seq<nat>, d: nat)
    requires zeroed == ZERO_PAGE && |base| == ENTRIES
    ensures forall x :: 0 <= x < USER_PDES ==> !PteV(NewDirectory(zeroed, base, d)[x])
  {
  }

  lemma PageAllocStep(m: Mem, a: Abs, m': Mem, a': Abs)
    requires Inv(m, a) && m.free != [] && m.free[0] < |m.frames|
    requires m' == Mem(m.ref, m.free[1..], m.frames[m.free[0] := ZERO_PAGE])
    requires a' == a.(held := a.held + {m.free[0]})
    ensures Inv(m', a')
  {
    Unreferenced(m, a, m.free[0]);
    AllocPool(m, a, m', a');
  }

  /** pgdir_walk gives a directory entry a fresh, zeroed page table. */
  lemma NewTableStep(m: Mem, a: Abs, k: Pd, t: nat, w: nat, m': Mem, a': Abs)
    requires Inv(m, a) && k.d in a.dirs && k.x < USER_PDES && k !in a.tab
    requires t in a.held && m.frames[t] == ZERO_PAGE
    requires PteV(w) && Ppn(w) == t
    requires m' == Write(m, k.d, k.x, w).(ref := m.ref[t := 1])
    requires a' == a.(tab := a.tab[k := t], held := a.held - {t})
    ensures Inv(m', a')
  {
    Unreferenced(m, a, t);
    assert Shape(m', a');
    hide Pool, Separate, DirWords, TableWords, Counted;
    NewTableCounts(m, a, k, t, m', a');
    NewTableSeparate(m, a, k, t, m', a');
    NewTableWords(m, a, k, t, w, m', a');
    HeldPool(m, a, t, 1, m', a');
  }

  /** A held page gets its first reference, or a referenced one gets another. */
  lemma HeldPool(m: Mem, a: Abs, p: nat, r: nat, m': Mem, a': Abs)
    requires Shape(m, a) && Pool(m, a) && p < |m.ref| && p !in m.free && r > 0
    requires m'.ref == m.ref[p := r] && m'.free == m.free && a'.held == a.held - {p} && Shape(m', a')
    ensures Pool(m', a')
  {
  }

  lemma NewTableSeparate(m: Mem, a: Abs, k: Pd, t: nat, m': Mem, a': Abs)
    requires Shape(m, a) && Separate(m, a) && k.d in a.dirs && k.x < USER_PDES
    requires t < |m.ref| && t !in a.dirs && a.base[t] == 0
    requires forall l :: l in a.tab ==> a.tab[l] != t
    requires forall l :: l in a.pt ==> Ppn(a.pt[l]) != t
    requires Shape(m', a') && a'.tab == a.tab[k := t] && a'.pt == a.pt && a'.dirs == a.dirs && a'.base == a.base
    ensures Separate(m', a')
  {
    forall l | l in a'.tab ensures a'.tab[l] == if l == k then t else a.tab[l] { }
  }

  lemma NewTableCounts(m: Mem, a: Abs, k: Pd, t: nat, m': Mem, a': Abs)
    requires Shape(m, a) && Counted(m, a) && k !in a.tab && t < |m.ref| && m.ref[t] == 0
    requires m'.ref == m.ref[t := 1] && a'.base == a.base && Shape(m', a')
    requires a'.tab == a.tab[k := t] && a'.pt == a.pt && a'.dirs == a.dirs
    ensures Counted(m', a')
  {
    forall p | 0 <= p < |m.ref| ensures m'.ref[p] == Refs(a', p) {
      TableKeysInsert(a.tab, k, t, p);
    }
  }

  lemma NewTableWords(m: Mem, a: Abs, k: Pd, t: nat, w: nat, m': Mem, a': Abs)
    requires Shape(m, a) && Separate(m, a) && DirWords(m, a) && TableWords(m, a)
    requires k.d in a.dirs && k.x < USER_PDES && k !in a.tab
    requires t < |m.frames| && t !in a.dirs && m.frames[t] == ZERO_PAGE
    requires PteV(w) && Ppn(w) == t
    requires m'.frames == Write(m, k.d, k.x, w).frames && Shape(m', a')
    requires a'.tab == a.tab[k := t] && a'.pt == a.pt && a'.dirs == a.dirs
    ensures DirWords(m', a') && TableWords(m', a')
  {
    forall l, i | l in a'.tab && a'.tab[l] < |m'.frames| && 0 <= i < ENTRIES
      ensures Pg(l.d, l.x, i) in a'.pt <==> PteV(m'.frames[a'.tab[l]][i])
      ensures Pg(l.d, l.x, i) in a'.pt ==> m'.frames[a'.tab[l]][i] == a'.pt[Pg(l.d, l.x, i)]
    {
      if l == k {
        assert m'.frames[t][i] == 0 && !PteV(0);
        assert Pd(Pg(l.d, l.x, i).d, Pg(l.d, l.x, i).x) == k;
      } else {
        assert m'.frames[a.tab[l]] == m.frames[a.tab[l]];
      }
    }
  }

  /** The last step of page_insert: a missing entry starts to name page pp. */
  lemma MapStep(m: Mem, a: Abs, k: Pg, pp: nat, w: nat, m': Mem, a': Abs)
    requires Inv(m, a) && Pd(k.d, k.x) in a.tab && k.i < ENTRIES && k !in a.pt
    requires pp < |m.ref| && pp !in a.dirs && pp !in m.free && forall l :: l in a.tab ==> a.tab[l] != pp
    requires PteV(w) && !PteG(w) && Ppn(w) == pp
    requires m' == Write(m, a.tab[Pd(k.d, k.x)], k.i, w).(ref := m.ref[pp := m.ref[pp] + 1])
    requires a' == a.(pt := a.pt[k := w], held := a.held - {pp})
    ensures Inv(m', a')
  {
    assert Shape(m', a');
    hide Pool, Separate, DirWords, TableWords, Counted;
    TableWrite(m, a, k, w, m', a');
    MapCounts(m, a, k, pp, w, m', a');
    MapSeparate(m, a, k, pp, w, m', a');
    HeldPool(m, a, pp, m.ref[pp] + 1, m', a');
  }

  /** A page that page_insert may be given: one the caller holds, or one some environment maps. */
  ghost predicate UserPage(a: Abs, pp: nat) {
    pp in a.held || exists l :: l in a.pt && Ppn(a.pt[l]) == pp
  }

  /** Removing the mapping of another page leaves pp mapped or held. */
  lemma UserPageStays(a: Abs, k: Pg, pp: nat, a': Abs)
    requires UserPage(a, pp) && a'.held == a.held
    requires a'.pt == a.pt || (a'.pt == a.pt - {k} && k in a.pt && Ppn(a.pt[k]) != pp)
    ensures UserPage(a', pp)
  {
    if pp !in a.held {
      var l :| l in a.pt && Ppn(a.pt[l]) == pp;
      assert l in a'.pt && a'.pt[l] == a.pt[l];
    }
  }

  lemma UserPageRole(m: Mem, a: Abs, pp: nat)
    requires Inv(m, a) && UserPage(a, pp)
    ensures pp < |m.ref| == |m.frames| && pp !in a.dirs && pp !in m.free
    ensures forall l :: l in a.tab ==> a.tab[l] != pp
  {
    if pp in a.held {
      Unreferenced(m, a, pp);
    } else {
      var l :| l in a.pt && Ppn(a.pt[l]) == pp;
      MappedReferenced(m, a, l);
    }
  }

  lemma MapCounts(m: Mem, a: Abs, k: Pg, pp: nat, w: nat, m': Mem, a': Abs)
    requires Shape(m, a) && Counted(m, a) && k !in a.pt && pp < |m.ref| && Ppn(w) == pp
    requires m'.ref == m.ref[pp := m.ref[pp] + 1] && a'.base == a.base && Shape(m', a')
    requires a'.pt == a.pt[k := w] && a'.tab == a.tab && a'.dirs == a.dirs
    ensures Counted(m', a')
  {
    forall p | 0 <= p < |m.ref| ensures m'.ref[p] == Refs(a', p) {
      UserKeysInsert(a.pt, k, w, p);
    }
  }

  lemma MapSeparate(m: Mem, a: Abs, k: Pg, pp: nat, w: nat, m': Mem, a': Abs)
    requires Shape(m, a) && Separate(m, a) && Pd(k.d, k.x) in a.tab && k.i < ENTRIES
    requires pp < |m.ref| && pp !in a.dirs && forall l :: l in a.tab ==> a.tab[l] != pp
    requires !PteG(w) && Ppn(w) == pp && Shape(m', a')
    requires a'.pt == a.pt[k := w] && a'.tab == a.tab && a'.dirs == a.dirs && a'.base == a.base
    ensures Separate(m', a')
  {
  }

  /** page_insert of the page that is already there: only the flags change. */
  lemma RemapStep(m: Mem, a: Abs, k: Pg, w: nat, m': Mem, a': Abs)
    requires Inv(m, a) && k in a.pt
    requires PteV(w) && !PteG(w) && Ppn(w) == Ppn(a.pt[k])
    requires m' == Write(m, a.tab[Pd(k.d, k.x)], k.i, w)
    requires a' == a.(pt := a.pt[k := w])
    ensures Inv(m', a')
  {
    assert Shape(m', a') && Pool(m', a');
    TableWrite(m, a, k, w, m', a');
    MapSeparate(m, a, k, Ppn(w), w, m', a');
    RemapCounts(m, a, k, w, m', a');
  }

  lemma RemapCounts(m: Mem, a: Abs, k: Pg, w: nat, m': Mem, a': Abs)
    requires Shape(m, a) && Counted(m, a) && k in a.pt && Ppn(w) == Ppn(a.pt[k])
    requires m'.ref == m.ref && Shape(m', a') && a'.base == a.base
    requires a'.pt == a.pt[k := w] && a'.tab == a.tab && a'.dirs == a.dirs
    ensures Counted(m', a')
  {
    forall p | 0 <= p < |m.ref| ensures m'.ref[p] == Refs(a', p) {
      UserKeysRemap(a.pt, k, w, p);
    }
  }

  /** page_remove: the entry is cleared and its page loses one reference. */
  lemma UnmapStep(m: Mem, a: Abs, k: Pg, m': Mem, a': Abs)
    requires Inv(m, a) && k in a.pt && m.ref[Ppn(a.pt[k])] > 0
    requires m' == Write(Decref(m, Ppn(a.pt[k])), a.tab[Pd(k.d, k.x)], k.i, 0)
    requires a' == a.(pt := a.pt - {k})
    ensures Inv(m', a')
  {
    assert !PteV(0) && Shape(m', a') && Pd(k.d, k.x) in a.tab && k.i < ENTRIES && Ppn(a.pt[k]) < |m.ref|;
    hide Pool, Separate, DirWords, TableWords, Counted;
    TableWrite(m, a, k, 0, m', a');
    DecrefPool(m, a, Ppn(a.pt[k]), m', a');
    UnmapCounts(m, a, k, m', a');
  }

  lemma UnmapCounts(m: Mem, a: Abs, k: Pg, m': Mem, a': Abs)
    requires Shape(m, a) && Separate(m, a) && Counted(m, a) && k in a.pt && m.ref[Ppn(a.pt[k])] > 0
    requires m'.ref == Decref(m, Ppn(a.pt[k])).ref && Shape(m', a') && a' == a.(pt := a.pt - {k})
    ensures Counted(m', a') && Separate(m', a')
  {
    forall p | 0 <= p < |m.ref| ensures m'.ref[p] == Refs(a', p) {
      UserKeysDelete(a.pt, k, p);
    }
  }

  /** env_setup_vm: a held page becomes a directory with no user entries. */
  lemma NewDirStep(m: Mem, a: Abs, d: nat, page: seq<nat>, m': Mem, a': Abs)
    requires Inv(m, a) && d in a.held
    requires |page| == ENTRIES && forall x :: 0 <= x < USER_PDES ==> !PteV(page[x])
    requires m' == m.(ref := m.ref[d := 1], frames := m.frames[d := page])
    requires a' == a.(dirs := a.dirs + {d}, held := a.held - {d})
    ensures Inv(m', a')
  {
    Unreferenced(m, a, d);
    HeldPool(m, a, d, 1, m', a');
    NewDirSeparate(m, a, d, m', a');
    NewDirWords(m, a, d, page, m', a');
  }

  lemma NewDirSeparate(m: Mem, a: Abs, d: nat, m': Mem, a': Abs)
    requires Shape(m, a) && Separate(m, a) && d < |m.ref| && a.base[d] == 0
    requires forall l :: l in a.tab ==> a.tab[l] != d
    requires forall l :: l in a.pt ==> Ppn(a.pt[l]) != d
    requires Shape(m', a') && |m'.ref| == |m.ref|
    requires a' == a.(dirs := a.dirs + {d}, held := a.held - {d})
    ensures Separate(m', a')
  {
    hide PteG, Ppn;
  }

  lemma NewDirWords(m: Mem, a: Abs, d: nat, page: seq<nat>, m': Mem, a': Abs)
    requires Shape(m, a) && Separate(m, a) && DirWords(m, a) && TableWords(m, a)
    requires d < |m.frames| && d !in a.dirs && forall l :: l in a.tab ==> a.tab[l] != d
    requires |page| == ENTRIES && forall x :: 0 <= x < USER_PDES ==> !PteV(page[x])
    requires m'.frames == m.frames[d := page] && Shape(m', a')
    requires a' == a.(dirs := a.dirs + {d}, held := a.held - {d})
    ensures DirWords(m', a') && TableWords(m', a')
  {
    forall e, x | e in a'.dirs && e < |m'.frames| && 0 <= x < USER_PDES
      ensures Pd(e, x) in a'.tab <==> PteV(m'.frames[e][x])
      ensures Pd(e, x) in a'.tab ==> Ppn(m'.frames[e][x]) == a'.tab[Pd(e, x)]
    {
      assert e != d ==> m'.frames[e] == m.frames[e];
    }
  }

  /** env_free drops a page table none of whose entries is valid any more. */
  lemma DropTableStep(m: Mem, a: Abs, k: Pd, m': Mem, a': Abs)
    requires Inv(m, a) && k in a.tab && m.ref[a.tab[k]] > 0
    requires forall i :: 0 <= i < ENTRIES ==> Pg(k.d, k.x, i) !in a.pt
    requires m' == Decref(Write(m, k.d, k.x, 0), a.tab[k])
    requires a' == a.(tab := a.tab - {k})
    ensures Inv(m', a')
  {
    assert !PteV(0);
    DecrefPool(m, a, a.tab[k], m', a');
    DropTableSeparate(m, a, k, m', a');
    DropTableWords(m, a, k, m', a');
    forall p | 0 <= p < |m.ref| ensures m'.ref[p] == Refs(a', p) {
      TableKeysDelete(a.tab, k, p);
    }
  }

  lemma DropTableSeparate(m: Mem, a: Abs, k: Pd, m': Mem, a': Abs)
    requires Shape(m, a) && Separate(m, a) && k in a.tab
    requires forall i :: 0 <= i < ENTRIES ==> Pg(k.d, k.x, i) !in a.pt
    requires Shape(m', a') && |m'.ref| == |m.ref| && a' == a.(tab := a.tab - {k})
    ensures Separate(m', a')
  {
    forall l | l in a'.pt ensures Pd(l.d, l.x) in a'.tab {
      assert l == Pg(l.d, l.x, l.i);
    }
  }

  lemma DropTableWords(m: Mem, a: Abs, k: Pd, m': Mem, a': Abs)
    requires Shape(m, a) && Separate(m, a) && DirWords(m, a) && TableWords(m, a) && k in a.tab
    requires m'.frames == Write(m, k.d, k.x, 0).frames && Shape(m', a')
    requires a' == a.(tab := a.tab - {k})
    ensures DirWords(m', a') && TableWords(m', a')
  {
    assert !PteV(0);
    forall l, i | l in a'.tab && a'.tab[l] < |m'.frames| && 0 <= i < ENTRIES
      ensures Pg(l.d, l.x, i) in a'.pt <==> PteV(m'.frames[a'.tab[l]][i])
      ensures Pg(l.d, l.x, i) in a'.pt ==> m'.frames[a'.tab[l]][i] == a'.pt[Pg(l.d, l.x, i)]
    {
      assert l in a.tab && m'.frames[a.tab[l]] == m.frames[a.tab[l]];
    }
  }

  /** env_free drops a directory that has no tables left. */
  lemma DropDirStep(m: Mem, a: Abs, d: nat, m': Mem, a': Abs)
    requires Inv(m, a) && d in a.dirs && m.ref[d] > 0
    requires forall x :: 0 <= x < USER_PDES ==> Pd(d, x) !in a.tab
    requires m' == Decref(m, d)
    requires a' == a.(dirs := a.dirs - {d})
    ensures Inv(m', a')
  {
    DecrefPool(m, a, d, m', a');
    DropDirWords(m, a, d, m', a');
    hide Pool, Separate, DirWords, TableWords;
  }

  lemma DropDirWords(m: Mem, a: Abs, d: nat, m': Mem, a': Abs)
    requires Shape(m, a) && Separate(m, a) && DirWords(m, a) && TableWords(m, a)
    requires forall x :: 0 <= x < USER_PDES ==> Pd(d, x) !in a.tab
    requires Shape(m', a') && m'.frames == m.frames && a' == a.(dirs := a.dirs - {d})
    ensures Separate(m', a') && DirWords(m', a') && TableWords(m', a')
  {
    forall k | k in a.tab ensures k.d != d { assert k == Pd(k.d, k.x); }
  }

  /** Table pages and directories carry exactly one reference, so dropping that one frees them. */
  lemma SingleReference(m: Mem, a: Abs, p: nat)
    requires Inv(m, a) && (p in a.dirs || exists k :: k in a.tab && a.tab[k] == p)
    ensures p < |m.ref| && m.ref[p] == 1
  {
    assert UserKeys(a.pt, p) == {};
    if p in a.dirs {
      assert TableKeys(a.tab, p) == {};
    } else {
      var k :| k in a.tab && a.tab[k] == p;
      assert TableKeys(a.tab, p) == {k};
    }
  }
}
