/** Directories of fs/fs.c: entries stored in the blocks of other entries, walks along names, and what changing one
  * entry does to all walks. */
module Directories {
  import opened Common
  import opened Paths

  const MAXNAMELEN: nat := 128
  const ROOT: nat := 0

  /** A struct File: slots are the entries in its directory blocks, FILE2BLK of them in each. An empty name is an unused
    * entry. hollow: its size counts one more block, which does not exist yet. */
  datatype Entry = Entry(name: string, isDir: bool, slots: seq<nat>, hollow: bool)

  /** Every struct File on the disk; entry 0 is the root in the super block. */
  type Tree = seq<Entry>

  /** Where a walk ends: at a file and the directory it is in; at a directory where the last component, or an earlier
    * one, is missing; at a file that is no directory; or at a component that is too long. */
  datatype Outcome =
    | Found(dir: Option<nat>, file: nat)
    | Missing(parent: nat, name: string)
    | Absent(at: nat)
    | NotADirectory
    | BadPath

  /** d is an entry and has a slot i. */
  predicate At(t: Tree, d: int, i: int) { 0 <= d < |t| && 0 <= i < |t[d].slots| }

  ghost predicate InRange(t: Tree) {
    && |t| > 0
    && (forall d :: 0 <= d < |t| ==> |t[d].slots| % FILE2BLK == 0)
    && (forall d, i :: At(t, d, i) ==> ROOT < t[d].slots[i] < |t|)
  }

  /** No entry sits in two places. */
  ghost predicate NoSharing(t: Tree)
    requires InRange(t)
  {
    forall d, i, e, j :: At(t, d, i) && At(t, e, j) && t[d].slots[i] == t[e].slots[j] ==> d == e && i == j
  }

  ghost predicate SameName(t: Tree, d: int, i: int, j: int)
    requires InRange(t) && At(t, d, i) && At(t, d, j)
  {
    t[t[d].slots[i]].name == t[t[d].slots[j]].name != ""
  }

  /** Names are unique within a directory. */
  ghost predicate UniqueNames(t: Tree)
    requires InRange(t)
  {
    forall d, i, j :: At(t, d, i) && At(t, d, j) && SameName(t, d, i, j) ==> i == j
  }

  ghost predicate Inv(t: Tree) {
    && InRange(t) && NoSharing(t) && UniqueNames(t) && t[ROOT].isDir
    && (forall x :: ROOT < x < |t| && t[x].name == "" ==> t[x].slots == [] && !t[x].hollow)
  }

  /** The first entry of s that has the name n. */
  function Find(t: Tree, s: seq<nat>, n: string): (r: Option<nat>)
    requires forall i :: 0 <= i < |s| ==> s[i] < |t|
    ensures r.Some? ==> r.value < |t| && r.value in s && t[r.value].name == n
    ensures r.None? ==> forall i :: 0 <= i < |s| ==> t[s[i]].name != n
  {
    if s == [] then None else if t[s[0]].name == n then Some(s[0]) else Find(t, s[1..], n)
  }

  /** An entry is found if and only if one has the name, and no entry before it does. */
  lemma {:induction false} FindFirst(t: Tree, s: seq<nat>, n: string, i: nat)
    requires (forall j :: 0 <= j < |s| ==> s[j] < |t|) && i < |s| && t[s[i]].name == n
    requires forall j :: 0 <= j < i ==> t[s[j]].name != n
    ensures Find(t, s, n) == Some(s[i])
  {
    if i > 0 {
      forall j | 0 <= j < i - 1 ensures t[s[1..][j]].name != n { assert s[1..][j] == s[j + 1]; }
      FindFirst(t, s[1..], n, i - 1);
    }
  }

  /** walk_path as a fold of dir_lookup over components. */
  ghost function Resolve(t: Tree, dir: Option<nat>, file: nat, cs: seq<string>): (r: Outcome)
    requires InRange(t) && file < |t|
    ensures r.Found? ==> r.file < |t|
    ensures r.Missing? ==> r.parent < |t|
    ensures r.Absent? ==> r.at < |t|
    decreases |cs|
  {
    if cs == [] then Found(dir, file)
    else if |cs[0]| >= MAXNAMELEN then BadPath
    else if !t[file].isDir then NotADirectory
    else match Find(t, t[file].slots, cs[0])
      case None => if |cs| == 1 then Missing(file, cs[0]) else Absent(file)
      case Some(x) => Resolve(t, Some(file), x, cs[1..])
  }

  ghost function Walk(t: Tree, path: string): Outcome
    requires InRange(t)
  {
    Resolve(t, None, ROOT, Components(path))
  }

  // ----- walks -----

  lemma FindIn(t: Tree, d: nat, n: string, x: nat)
    requires Inv(t) && d < |t| && n != ""
    ensures Find(t, t[d].slots, n) == Some(x) <==> x in t[d].slots && t[x].name == n
  {
    var r := Find(t, t[d].slots, n);
    if x in t[d].slots && t[x].name == n {
      var i :| 0 <= i < |t[d].slots| && t[d].slots[i] == x;
      var j :| 0 <= j < |t[d].slots| && t[d].slots[j] == r.value;
      assert At(t, d, i) && At(t, d, j) && SameName(t, d, i, j);
    }
  }

  /** A longer walk goes on from where the shorter one ended. */
  lemma {:induction false} ResolveAppend(t: Tree, dir: Option<nat>, file: nat, a: seq<string>, b: seq<string>)
    requires InRange(t) && file < |t|
    ensures var r := Resolve(t, dir, file, a);
            && (r.Found? ==> r.file < |t| && Resolve(t, dir, file, a + b) == Resolve(t, r.dir, r.file, b))
            && (b != [] && r.Missing? ==> Resolve(t, dir, file, a + b) == Absent(r.parent))
            && (!r.Found? && !r.Missing? ==> Resolve(t, dir, file, a + b) == r)
    decreases |a|
  {
    if a == [] {
      assert a + b == b;
    } else if |a[0]| < MAXNAMELEN && t[file].isDir {
      assert (a + b)[1..] == a[1..] + b;
      var x := Find(t, t[file].slots, a[0]);
      if x.Some? { ResolveAppend(t, Some(file), x.value, a[1..], b); }
    }
  }

  /** Component lists as paths have them. */
  predicate Proper(cs: seq<string>) {
    forall i :: 0 <= i < |cs| ==> cs[i] != ""
  }

  /** The last step of a walk that finds x. */
  lemma LastStep(t: Tree, cs: seq<string>)
    requires InRange(t) && cs != [] && Resolve(t, None, ROOT, cs).Found?
    ensures var x := Resolve(t, None, ROOT, cs).file;
            var r := Resolve(t, None, ROOT, cs[..|cs| - 1]);
            && x < |t| && r.Found? && r.file < |t| && Resolve(t, None, ROOT, cs).dir == Some(r.file)
            && x in t[r.file].slots && t[x].name == cs[|cs| - 1]
  {
    var a, b := cs[..|cs| - 1], [cs[|cs| - 1]];
    assert cs == a + b;
    ResolveAppend(t, None, ROOT, a, b);
    var r := Resolve(t, None, ROOT, a);
    assert r.Found?;
    assert b[1..] == [];
  }

  /** An entry is reached by one component list only. */
  lemma {:induction false} OnePath(t: Tree, a: seq<string>, b: seq<string>)
    requires Inv(t)
    requires Resolve(t, None, ROOT, a).Found? && Resolve(t, None, ROOT, b).Found?
    requires Resolve(t, None, ROOT, a).file == Resolve(t, None, ROOT, b).file
    ensures a == b
    decreases |a|
  {
    hide Resolve, Find, UniqueNames, SameName;
    ResolveEnd(t, None, ROOT);
    if a != [] { LastStep(t, a); }
    if b != [] { LastStep(t, b); }
    if a != [] && b != [] {
      var a', b' := a[..|a| - 1], b[..|b| - 1];
      var x := Resolve(t, None, ROOT, a).file;
      var d, e := Resolve(t, None, ROOT, a').file, Resolve(t, None, ROOT, b').file;
      var i :| 0 <= i < |t[d].slots| && t[d].slots[i] == x;
      var j :| 0 <= j < |t[e].slots| && t[e].slots[j] == x;
      assert d == e;
      OnePath(t, a', b');
      assert a == a' + [t[x].name] && b == b' + [t[x].name];
    }
  }

  /** Leading, trailing and repeated slashes do not matter. */
  lemma WalkSlashes(t: Tree, a: string, b: string)
    requires InRange(t)
    ensures Walk(t, "/" + a) == Walk(t, a) == Walk(t, a + "/")
    ensures Walk(t, a + "//" + b) == Walk(t, a + "/" + b)
  {
    Slashes(a, b);
  }

  // ----- what create and remove do -----

  predicate Unused(t: Tree, s: seq<nat>)
    requires forall i :: 0 <= i < |s| ==> s[i] < |t|
  {
    exists i :: 0 <= i < |s| && t[s[i]].name == ""
  }

  function Fresh(from: nat): (s: seq<nat>)
    ensures |s| == FILE2BLK && forall i :: 0 <= i < FILE2BLK ==> s[i] == from + i
  {
    seq(FILE2BLK, i => from + i)
  }

  function EmptyEntries(): (s: seq<Entry>)
    ensures |s| == FILE2BLK && forall i :: 0 <= i < FILE2BLK ==> s[i] == Entry("", false, [], false)
  {
    seq(FILE2BLK, _ => Entry("", false, [], false))
  }

  /** The directory gets a block that reads as zero. */
  function Grow(t: Tree, d: nat): Tree
    requires d < |t|
  {
    t[d := t[d].(slots := t[d].slots + Fresh(|t|), hollow := false)] + EmptyEntries()
  }

  /** A removed entry: truncated, and its name emptied. */
  function Dropped(e: Entry): Entry { e.(name := "", slots := [], hollow := false) }

  lemma {:induction false} WalkRange(t: Tree, dir: Option<nat>, file: nat, cs: seq<string>)
    requires InRange(t) && file < |t|
    ensures var r := Resolve(t, dir, file, cs);
            && (r.Found? ==> r.file < |t|)
            && (r.Missing? ==> cs != [] && r.parent < |t| && r.name == cs[|cs| - 1] && |r.name| < MAXNAMELEN
                               && t[r.parent].isDir && Find(t, t[r.parent].slots, r.name).None?)
    decreases |cs|
  {
    if cs != [] && |cs[0]| < MAXNAMELEN && t[file].isDir {
      var x := Find(t, t[file].slots, cs[0]);
      if x.Some? { WalkRange(t, Some(file), x.value, cs[1..]); }
    }
  }

  // ----- a change and what it leaves alone -----

  ghost predicate Reaches(t: Tree, a: seq<string>, x: nat)
    requires InRange(t)
  {
    Proper(a) && Resolve(t, None, ROOT, a).Found? && Resolve(t, None, ROOT, a).file == x
  }

  function Parent(cs: seq<string>): seq<string>
    requires cs != []
  {
    cs[..|cs| - 1]
  }

  /** u differs from t in entry x and in what directory d has under the name that p ends in; p is where they are
    * reached. */
  ghost predicate Edit(t: Tree, u: Tree, d: nat, x: nat, p: seq<string>)
    requires InRange(t) && InRange(u)
  {
    && p != [] && |t| <= |u|
    && (forall g :: 0 <= g < |t| && g != x ==> u[g].isDir == t[g].isDir)
    && (forall g, c | 0 <= g < |t| && g != x && c != "" && !(g == d && c == p[|p| - 1]) ::
          Find(u, u[g].slots, c) == Find(t, t[g].slots, c))
    && (forall a | Reaches(t, a, x) :: p <= a)
    && (forall a | Reaches(t, a, d) :: a == Parent(p))
  }

  /** Walks that do not start with p are the same before and after. */
  lemma {:induction false} EditFrame(t: Tree, u: Tree, d: nat, x: nat, p: seq<string>, pre: seq<string>,
      cs: seq<string>)
    requires Inv(t) && InRange(u) && Edit(t, u, d, x, p)
    requires Proper(pre + cs) && !(p <= pre + cs)
    requires Resolve(t, None, ROOT, pre).Found?
    ensures var r := Resolve(t, None, ROOT, pre);
              r.file < |t| && Resolve(u, r.dir, r.file, cs) == Resolve(t, r.dir, r.file, cs)
    decreases |cs|
  {
    hide Inv, InRange, Find, Resolve;
    InvFacts(t);
    var r := Resolve(t, None, ROOT, pre);
    ResolveEnd(t, r.dir, r.file);
    ResolveEnd(u, r.dir, r.file);
    if cs != [] {
      SlotsInRange(t, r.file);
      EditStep(t, u, d, x, p, pre, cs);
      assert cs == [cs[0]] + cs[1..];
      ResolveStep(t, r.dir, r.file, cs[0], cs[1..]);
      ResolveStep(u, r.dir, r.file, cs[0], cs[1..]);
    }
    if cs != [] && |cs[0]| < MAXNAMELEN && t[r.file].isDir {
      var c := cs[0];
      var y := Find(t, t[r.file].slots, c);
      if y.Some? {
        ResolveAppend(t, None, ROOT, pre, [c]);
        ResolveStep(t, r.dir, r.file, c, []);
        ResolveEnd(t, Some(r.file), y.value);
        assert [c] + [] == [c];
        assert pre + cs == pre + [c] + cs[1..];
        EditFrame(t, u, d, x, p, pre + [c], cs[1..]);
      }
    }
  }

  lemma InvFacts(t: Tree)
    requires Inv(t)
    ensures InRange(t)
  {
  }

  lemma EditStep(t: Tree, u: Tree, d: nat, x: nat, p: seq<string>, pre: seq<string>, cs: seq<string>)
    requires InRange(t) && InRange(u) && Edit(t, u, d, x, p)
    requires cs != [] && Proper(pre + cs) && !(p <= pre + cs)
    requires Resolve(t, None, ROOT, pre).Found? && Resolve(t, None, ROOT, pre).file < |t|
    ensures var g := Resolve(t, None, ROOT, pre).file;
            Find(u, u[g].slots, cs[0]) == Find(t, t[g].slots, cs[0]) && u[g].isDir == t[g].isDir
  {
    hide InRange, Find;
    assert Proper(pre) by { forall i | 0 <= i < |pre| ensures pre[i] != "" { assert (pre + cs)[i] == pre[i]; } }
    var g := Resolve(t, None, ROOT, pre).file;
    assert Reaches(t, pre, g);
    assert cs[0] != "" by { assert (pre + cs)[|pre|] == cs[0]; }
    assert pre <= pre + cs && pre + [cs[0]] <= pre + cs;
    assert p == Parent(p) + [p[|p| - 1]];
  }

  lemma EditWalk(t: Tree, u: Tree, d: nat, x: nat, p: seq<string>, cs: seq<string>)
    requires Inv(t) && InRange(u) && Edit(t, u, d, x, p) && Proper(cs) && !(p <= cs)
    ensures Resolve(u, None, ROOT, cs) == Resolve(t, None, ROOT, cs)
  {
    assert [] + cs == cs;
    EditFrame(t, u, d, x, p, [], cs);
  }

  /** A missing last component is missing from a directory that its parent path finds. */
  lemma MissingParent(t: Tree, cs: seq<string>)
    requires InRange(t) && Resolve(t, None, ROOT, cs).Missing?
    ensures cs != [] && Resolve(t, None, ROOT, Parent(cs)).Found?
    ensures Resolve(t, None, ROOT, Parent(cs)).file == Resolve(t, None, ROOT, cs).parent
  {
    WalkRange(t, None, ROOT, cs);
    assert cs == Parent(cs) + [cs[|cs| - 1]];
    ResolveAppend(t, None, ROOT, Parent(cs), [cs[|cs| - 1]]);
  }

  lemma ReachedName(t: Tree, a: seq<string>, x: nat)
    requires InRange(t) && Reaches(t, a, x)
    ensures x < |t| && (x == ROOT || t[x].name != "")
  {
    if a != [] { LastStep(t, a); }
  }

  // ----- growing a directory -----

  lemma {:induction false} FindSame(t: Tree, u: Tree, s: seq<nat>, n: string)
    requires forall i :: 0 <= i < |s| ==> s[i] < |t| <= |u| && (u[s[i]].name == n <==> t[s[i]].name == n)
    ensures Find(u, s, n) == Find(t, s, n)
  {
    if s != [] {
      forall i | 0 <= i < |s[1..]|
        ensures s[1..][i] < |t| <= |u| && (u[s[1..][i]].name == n <==> t[s[1..][i]].name == n)
      {
        assert s[1..][i] == s[i + 1];
      }
      FindSame(t, u, s[1..], n);
    }
  }

  lemma {:induction false} FindMore(t: Tree, s: seq<nat>, more: seq<nat>, n: string)
    requires forall i :: 0 <= i < |s| ==> s[i] < |t|
    requires forall i :: 0 <= i < |more| ==> more[i] < |t| && t[more[i]].name != n
    ensures forall i :: 0 <= i < |s + more| ==> (s + more)[i] < |t|
    ensures Find(t, s + more, n) == Find(t, s, n)
  {
    if s == [] {
      assert s + more == more;
    } else {
      assert (s + more)[1..] == s[1..] + more;
      FindMore(t, s[1..], more, n);
    }
  }

  lemma GrowFacts(t: Tree, d: nat)
    requires InRange(t) && d < |t|
    ensures InRange(Grow(t, d))
    ensures forall g, i :: At(Grow(t, d), g, i) ==>
              Grow(t, d)[g].slots[i] == (if At(t, g, i) then t[g].slots[i] else |t| + i - |t[d].slots|)
    ensures forall g, i :: At(Grow(t, d), g, i) ==> At(t, g, i) || (g == d && i >= |t[d].slots|)
  {
    var u := Grow(t, d);
    forall g, i | At(u, g, i)
      ensures At(t, g, i) || (g == d && i >= |t[d].slots|)
      ensures u[g].slots[i] == if At(t, g, i) then t[g].slots[i] else |t| + i - |t[d].slots|
    {
      if g < |t| && g != d { assert u[g] == t[g]; }
    }
  }

  lemma GrowInv(t: Tree, d: nat)
    requires Inv(t) && d < |t| && (d == ROOT || t[d].name != "")
    ensures Inv(Grow(t, d))
  {
    GrowFacts(t, d);
    var u := Grow(t, d);
    assert forall g :: 0 <= g < |t| ==> u[g].name == t[g].name;
    forall g, i, j | At(u, g, i) && At(u, g, j) && SameName(u, g, i, j) ensures i == j {
      assert At(t, g, i) && At(t, g, j);
      assert SameName(t, g, i, j);
    }
  }

  /** Growing changes no lookup, so no walk. */
  lemma GrowWalks(t: Tree, d: nat, cs: seq<string>)
    requires Inv(t) && d < |t| && Proper(cs)
    ensures InRange(Grow(t, d)) && Resolve(Grow(t, d), None, ROOT, cs) == Resolve(t, None, ROOT, cs)
  {
    GrowFacts(t, d);
    var u := Grow(t, d);
    forall g, c | 0 <= g < |t| && c != "" ensures Find(u, u[g].slots, c) == Find(t, t[g].slots, c) {
      GrowFind(t, d, g, c);
    }
    forall a ensures !Reaches(t, a, |t|) { if Reaches(t, a, |t|) { ReachedName(t, a, |t|); } }
    assert Edit(t, u, |t|, |t|, [""]);
    assert cs != [] ==> cs[0] != "";
    EditWalk(t, u, |t|, |t|, [""], cs);
  }

  lemma GrowFind(t: Tree, d: nat, g: nat, c: string)
    requires InRange(t) && d < |t| && g < |t| && c != ""
    ensures InRange(Grow(t, d)) && Find(Grow(t, d), Grow(t, d)[g].slots, c) == Find(t, t[g].slots, c)
  {
    GrowFacts(t, d);
    var u := Grow(t, d);
    FindSame(t, u, t[g].slots, c);
    if g == d { FindMore(u, t[d].slots, Fresh(|t|), c); }
  }

  // ----- naming and unnaming one entry -----

  /** Entry x, in directory d, gets another name or loses its slots: lookups elsewhere, and of other names, are as
    * before. */
  lemma RenameFind(t: Tree, d: nat, x: nat, e: Entry, g: nat, c: string)
    requires Inv(t) && d < |t| && x in t[d].slots && InRange(t[x := e])
    requires g < |t| && g != x && (g == d ==> c != e.name && c != t[x].name)
    ensures Find(t[x := e], t[g].slots, c) == Find(t, t[g].slots, c)
  {
    var k :| 0 <= k < |t[d].slots| && t[d].slots[k] == x;
    assert At(t, d, k);
    var u, s := t[x := e], t[g].slots;
    forall i | 0 <= i < |s| ensures s[i] < |t| <= |u| && (u[s[i]].name == c <==> t[s[i]].name == c) {
      assert At(t, g, i);
    }
    FindSame(t, u, s, c);
  }

  lemma NameInv(t: Tree, d: nat, x: nat, n: string)
    requires Inv(t) && d < |t| && x in t[d].slots && t[x].name == "" && Find(t, t[d].slots, n).None?
    ensures Inv(t[x := t[x].(name := n)])
  {
    hide Find;
    var u := t[x := t[x].(name := n)];
    assert forall g, i :: At(u, g, i) ==> At(t, g, i) && u[g].slots[i] == t[g].slots[i];
    var k :| 0 <= k < |t[d].slots| && t[d].slots[k] == x;
    assert At(t, d, k);
    forall g, i, j | At(u, g, i) && At(u, g, j) && SameName(u, g, i, j) ensures i == j {
      if t[g].slots[i] != x && t[g].slots[j] != x { assert SameName(t, g, i, j); }
    }
  }

  lemma DropInv(t: Tree, x: nat)
    requires Inv(t) && x < |t|
    ensures Inv(t[x := Dropped(t[x])])
  {
    var u := t[x := Dropped(t[x])];
    assert forall g, i :: At(u, g, i) ==> At(t, g, i) && u[g].slots[i] == t[g].slots[i];
    forall g, i, j | At(u, g, i) && At(u, g, j) && SameName(u, g, i, j) ensures i == j { assert SameName(t, g, i, j); }
  }

  /** The directory that p's parent reaches is reached in no other way. */
  lemma OnlyParent(t: Tree, d: nat, p: seq<string>, a: seq<string>)
    requires Inv(t) && p != [] && Reaches(t, Parent(p), d) && Reaches(t, a, d)
    ensures a == Parent(p)
  {
    OnePath(t, a, Parent(p));
  }

  lemma ProperParent(p: seq<string>)
    requires Proper(p) && p != []
    ensures Proper(Parent(p)) && p[|p| - 1] != "" && !(p <= Parent(p)) && p == Parent(p) + [p[|p| - 1]]
  {
  }

  /** A walk ends with a lookup in the directory that the parent path finds. */
  lemma ResolveLast(t: Tree, p: seq<string>)
    requires InRange(t) && p != [] && Resolve(t, None, ROOT, Parent(p)).Found?
    ensures var d := Resolve(t, None, ROOT, Parent(p)).file;
            && d < |t|
            && (|p[|p| - 1]| < MAXNAMELEN && t[d].isDir ==>
                  Resolve(t, None, ROOT, p) == match Find(t, t[d].slots, p[|p| - 1])
                                               case None => Missing(d, p[|p| - 1])
                                               case Some(x) => Found(Some(d), x))
  {
    var c := p[|p| - 1];
    assert p == Parent(p) + [c];
    ResolveAppend(t, None, ROOT, Parent(p), [c]);
    WalkRange(t, None, ROOT, Parent(p));
    assert [c][1..] == [];
  }

  /** Naming an unused entry of d: p, missing before, now finds it; all other walks stay. */
  lemma NameStep(t: Tree, d: nat, x: nat, p: seq<string>, u: Tree)
    requires Inv(t) && Proper(p) && p != [] && Resolve(t, None, ROOT, p) == Missing(d, p[|p| - 1])
    requires d < |t| && x in t[d].slots && t[x].name == "" && u == t[x := t[x].(name := p[|p| - 1])]
    ensures Inv(u) && Edit(t, u, d, x, p) && Resolve(u, None, ROOT, p) == Found(Some(d), x)
  {
    hide Resolve, Find, Inv;
    InvFacts(t);
    var n := p[|p| - 1];
    MissingParent(t, p);
    WalkRange(t, None, ROOT, p);
    ProperParent(p);
    NameInv(t, d, x, n);
    InvFacts(u);
    forall a ensures !Reaches(t, a, x) { UnusedUnreached(t, d, x, a); }
    forall a | Reaches(t, a, d) ensures a == Parent(p) { OnlyParent(t, d, p, a); }
    forall g, c | 0 <= g < |t| && g != x && c != "" && !(g == d && c == n)
      ensures Find(u, u[g].slots, c) == Find(t, t[g].slots, c)
    {
      RenameFind(t, d, x, t[x].(name := n), g, c);
    }
    EditWalk(t, u, d, x, p, Parent(p));
    FindIn(u, d, n, x);
    ResolveLast(u, p);
  }

  lemma UnusedUnreached(t: Tree, d: nat, x: nat, a: seq<string>)
    requires InRange(t) && d < |t| && x in t[d].slots && t[x].name == ""
    ensures !Reaches(t, a, x)
  {
    var k :| 0 <= k < |t[d].slots| && t[d].slots[k] == x;
    assert At(t, d, k);
    if Reaches(t, a, x) { ReachedName(t, a, x); }
  }

  /** Unnaming the entry that p finds: p is missing from its directory; walks that do not start with p stay. */
  lemma DropStep(t: Tree, x: nat, p: seq<string>, u: Tree)
    requires Inv(t) && Proper(p) && p != [] && Reaches(t, p, x) && x < |t| && u == t[x := Dropped(t[x])]
    ensures Resolve(t, None, ROOT, p).dir.Some?
    ensures Inv(u) && Edit(t, u, Resolve(t, None, ROOT, p).dir.value, x, p)
    ensures Resolve(u, None, ROOT, p) == Missing(Resolve(t, None, ROOT, p).dir.value, p[|p| - 1])
  {
    hide Resolve, Find, Inv;
    InvFacts(t);
    var n := p[|p| - 1];
    LastStep(t, p);
    ProperParent(p);
    var d := Resolve(t, None, ROOT, p).dir.value;
    LastLookup(t, p);
    DropInv(t, x);
    InvFacts(u);
    assert Reaches(t, Parent(p), d);
    assert d != x by { if d == x { OnlyParent(t, d, p, p); } }
    DropEdit(t, d, x, p, u);
    EditWalk(t, u, d, x, p, Parent(p));
    NotFoundAgain(t, d, x, u, n);
    ResolveLast(u, p);
  }

  lemma DropEdit(t: Tree, d: nat, x: nat, p: seq<string>, u: Tree)
    requires Inv(t) && InRange(u) && p != [] && Reaches(t, p, x) && Reaches(t, Parent(p), d) && x < |t| && d < |t|
    requires x in t[d].slots && t[x].name == p[|p| - 1] && u == t[x := Dropped(t[x])]
    ensures Edit(t, u, d, x, p)
  {
    hide Resolve, Find, Inv;
    InvFacts(t);
    forall a | Reaches(t, a, x) ensures p <= a { OnePath(t, a, p); }
    forall a | Reaches(t, a, d) ensures a == Parent(p) { OnlyParent(t, d, p, a); }
    forall g, c | 0 <= g < |t| && g != x && c != "" && !(g == d && c == p[|p| - 1])
      ensures Find(u, u[g].slots, c) == Find(t, t[g].slots, c)
    {
      RenameFind(t, d, x, Dropped(t[x]), g, c);
    }
  }

  lemma LastLookup(t: Tree, p: seq<string>)
    requires InRange(t) && p != [] && Resolve(t, None, ROOT, p).Found?
    ensures Resolve(t, None, ROOT, Parent(p)).Found?
    ensures var d := Resolve(t, None, ROOT, Parent(p)).file; d < |t| && t[d].isDir && |p[|p| - 1]| < MAXNAMELEN
  {
    LastStep(t, p);
    assert p == Parent(p) + [p[|p| - 1]];
    ResolveAppend(t, None, ROOT, Parent(p), [p[|p| - 1]]);
  }

  lemma NotFoundAgain(t: Tree, d: nat, x: nat, u: Tree, n: string)
    requires Inv(t) && Inv(u) && d < |t| && d != x && x in t[d].slots && t[x].name == n != ""
    requires u == t[x := Dropped(t[x])]
    ensures Find(u, u[d].slots, n).None?
  {
    FindIn(t, d, n, x);
    var r := Find(u, u[d].slots, n);
    if r.Some? { FindIn(t, d, n, r.value); }
  }

  // ----- smaller facts -----

  lemma MissingDir(t: Tree, p: seq<string>)
    requires InRange(t) && Proper(p) && Resolve(t, None, ROOT, p).Missing?
    ensures var d := Resolve(t, None, ROOT, p).parent;
            d < |t| && (d == ROOT || t[d].name != "") && p != [] && Resolve(t, None, ROOT, p).name == p[|p| - 1]
  {
    WalkRange(t, None, ROOT, p);
    MissingParent(t, p);
    ProperParent(p);
    ReachedName(t, Parent(p), Resolve(t, None, ROOT, p).parent);
  }

  /** A prefix of a path that finds a file finds one too. */
  lemma PrefixFound(t: Tree, p: seq<string>, cs: seq<string>)
    requires InRange(t) && p <= cs && Resolve(t, None, ROOT, cs).Found?
    ensures Resolve(t, None, ROOT, p).Found?
  {
    assert cs == p + cs[|p|..];
    ResolveAppend(t, None, ROOT, p, cs[|p|..]);
    if cs[|p|..] == [] { assert cs == p; }
  }

  /** What is known about sizes does not matter to walks. */
  lemma HollowWalks(t: Tree, d: nat, hollow: bool, dir: Option<nat>, file: nat, cs: seq<string>)
    requires InRange(t) && d < |t| && file < |t|
    ensures InRange(t[d := t[d].(hollow := hollow)])
    ensures Resolve(t[d := t[d].(hollow := hollow)], dir, file, cs) == Resolve(t, dir, file, cs)
    decreases |cs|
  {
    var u := t[d := t[d].(hollow := hollow)];
    forall g, i | At(u, g, i) ensures At(t, g, i) && u[g].slots[i] == t[g].slots[i] { }
    if cs != [] {
      FindSame(t, u, t[file].slots, cs[0]);
      var x := Find(t, t[file].slots, cs[0]);
      if x.Some? { HollowWalks(t, d, hollow, Some(file), x.value, cs[1..]); }
    }
  }

  lemma HollowInv(t: Tree, d: nat, hollow: bool)
    requires Inv(t) && d < |t| && (d == ROOT || t[d].name != "")
    ensures Inv(t[d := t[d].(hollow := hollow)])
  {
    var u := t[d := t[d].(hollow := hollow)];
    forall g, i | At(u, g, i) ensures At(t, g, i) && u[g].slots[i] == t[g].slots[i] { }
    forall g, i, j | At(u, g, i) && At(u, g, j) && SameName(u, g, i, j) ensures i == j { assert SameName(t, g, i, j); }
  }

  ghost predicate AllIn(t: Tree, s: seq<nat>) {
    forall i :: 0 <= i < |s| ==> s[i] < |t|
  }

  ghost function FindFrom(t: Tree, s: seq<nat>, k: nat, n: string): Option<nat>
    requires AllIn(t, s) && k <= |s|
  {
    Find(t, s[k..], n)
  }

  lemma FindHere(t: Tree, s: seq<nat>, k: nat, n: string)
    requires AllIn(t, s) && k < |s|
    ensures s[k] < |t|
    ensures FindFrom(t, s, k, n) == if t[s[k]].name == n then Some(s[k]) else FindFrom(t, s, k + 1, n)
  {
    assert s[k..][1..] == s[k + 1..];
  }

  lemma SlotsInRange(t: Tree, d: nat)
    requires InRange(t) && (d < |t| || d == ROOT)
    ensures d < |t| && AllIn(t, t[d].slots) && |t[d].slots| % FILE2BLK == 0
    ensures forall n ::
              FindFrom(t, t[d].slots, 0, n) == Find(t, t[d].slots, n)
                  && FindFrom(t, t[d].slots, |t[d].slots|, n) == None
  {
    var s := t[d].slots;
    assert s[0..] == s && s[|s|..] == [];
    forall i | 0 <= i < |s| ensures s[i] < |t| { assert At(t, d, i); }
  }

  lemma ResolveEnd(t: Tree, dir: Option<nat>, file: nat)
    requires InRange(t) && file < |t|
    ensures Resolve(t, dir, file, []) == Found(dir, file)
  {
  }

  lemma ResolveStep(t: Tree, dir: Option<nat>, file: nat, c: string, cs: seq<string>)
    requires InRange(t) && file < |t|
    ensures Resolve(t, dir, file, [c] + cs) ==
            if |c| >= MAXNAMELEN then BadPath
            else if !t[file].isDir then NotADirectory
            else match Find(t, t[file].slots, c)
              case None => if cs == [] then Missing(file, c) else Absent(file)
              case Some(x) => Resolve(t, Some(file), x, cs)
  {
    assert ([c] + cs)[1..] == cs;
  }
}
