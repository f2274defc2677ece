/** walk_path, dir_lookup, file_create and file_remove of fs/fs.c, and the mkdir of fs/serv.c, on directory trees. */
module FileServer {
  import opened Common
  import opened Paths
  import opened Directories

  /** What file_get_block answers when a block must be allocated. */
  datatype Block = Got | NoDisk | NoMem

  /** For each directory, the answer for its missing block, should it be asked for in this call. */
  type Rooms = nat -> Block

  datatype Code = Ok | EBadPath | ENotFound | EFileExists | ENoDisk | ENoMem | Panic

  function BlockError(b: Block): Code
    requires b != Got
  {
    if b == NoDisk then ENoDisk else ENoMem
  }

  // ----- walk_path -----

  /** The directory in which the last lookup of a walk failed. */
  function EndDir(o: Outcome): Option<nat> {
    match o
    case Missing(d, _) => Some(d)
    case Absent(d) => Some(d)
    case _ => None
  }

  /** The walk runs into a block that its directory counts but does not have, and cannot get it. */
  predicate Blocked(t: Tree, o: Outcome, room: Rooms) {
    EndDir(o).Some? && EndDir(o).value < |t| && t[EndDir(o).value].hollow && room(EndDir(o).value) != Got
  }

  /** What walk_path returns: code, *pdir, *pfile and lastelem. */
  datatype Reply = Reply(code: Code, pdir: Option<nat>, pfile: Option<nat>, lastelem: Option<string>)

  function Answer(t: Tree, o: Outcome, room: Rooms): Reply {
    if Blocked(t, o, room) then Reply(BlockError(room(EndDir(o).value)), None, None, None)
    else match o
      case Found(dir, file) => Reply(Ok, dir, Some(file), None)
      case Missing(d, n) => Reply(ENotFound, Some(d), None, Some(n))
      case BadPath => Reply(EBadPath, None, None, None)
      case _ => Reply(ENotFound, None, None, None)
  }

  /** The tree after the walk: a missing block that could be had is there now. */
  function Filled(t: Tree, o: Outcome, room: Rooms): Tree {
    if EndDir(o).Some? && EndDir(o).value < |t| && t[EndDir(o).value].hollow && room(EndDir(o).value) == Got
    then Grow(t, EndDir(o).value) else t
  }

  ghost function Open(t: Tree, path: string, room: Rooms): Reply
    requires InRange(t)
  {
    Answer(t, Walk(t, path), room)
  }

  // ----- file_create, file_remove, mkdir -----

  /** The tree that dir_alloc_file leaves, and the entry it picks: the first unused one, else the first of a new block.
    * Without the block the directory counts it all the same. */
  function AllocTree(t: Tree, d: nat, room: Rooms): Tree
    requires d < |t| && AllIn(t, t[d].slots)
  {
    if Unused(t, t[d].slots) then t else if room(d) == Got then Grow(t, d) else t[d := t[d].(hollow := true)]
  }

  function AllocEntry(t: Tree, d: nat): nat
    requires d < |t| && AllIn(t, t[d].slots)
  {
    var r := Find(t, t[d].slots, "");
    if r.Some? then r.value else |t|
  }

  /** dir_alloc_file finds or makes an entry. */
  predicate CanAlloc(t: Tree, d: nat, room: Rooms)
    requires d < |t| && AllIn(t, t[d].slots)
  {
    Unused(t, t[d].slots) || room(d) == Got
  }

  /** file_create. room: what file_get_block would answer for each directory. */
  ghost function Create(t: Tree, path: string, room: Rooms): (Code, Tree)
    requires Inv(t)
  {
    var o := Walk(t, path);
    var a, t1 := Answer(t, o, room), Filled(t, o, room);
    if a.code == Ok then (EFileExists, t1)
    else if a.pdir.None? then (a.code, t1)
    else
      var d := a.pdir.value;
      FilledFacts(t, path, room);
      SlotsInRange(t1, d);
      AllocRange(t1, d);
      var u, x := AllocTree(t1, d, room), AllocEntry(t1, d);
      if CanAlloc(t1, d, room) then (Ok, u[x := u[x].(name := o.name)]) else (ENotFound, u)
  }

  /** file_remove: truncate the file, then empty its name. stuck: the files whose truncation panics. */
  ghost function Remove(t: Tree, path: string, room: Rooms, stuck: nat -> bool): (Code, Tree)
    requires InRange(t)
  {
    var o := Walk(t, path);
    match o
    case Found(_, x) => if stuck(x) then (Panic, t) else (Ok, t[x := Dropped(t[x])])
    case _ => (Answer(t, o, room).code, Filled(t, o, room))
  }

  /** serve_open with O_MKDIR: create the file unless it is there, and mark it as a directory. */
  ghost function Mkdir(t: Tree, path: string, room: Rooms): (Code, Tree)
    requires Inv(t)
  {
    var (code, u) := Create(t, path, room);
    CreateLaws(t, path, room);
    if code != Ok && code != EFileExists then (code, u)
    else
      var x := Walk(u, path).file;
      (Ok, u[x := u[x].(isDir := true)])
  }

  lemma AllocRange(t: Tree, d: nat)
    requires d < |t| && AllIn(t, t[d].slots)
    ensures AllocEntry(t, d) < |t| <==> Unused(t, t[d].slots)
    ensures AllocEntry(t, d) <= |t|
  {
  }

  /** The directory where a walk ends is the root or has a name. */
  lemma {:induction false} EndLive(t: Tree, dir: Option<nat>, file: nat, cs: seq<string>)
    requires InRange(t) && file < |t| && Proper(cs) && (file == ROOT || t[file].name != "")
    ensures var e := EndDir(Resolve(t, dir, file, cs));
            e.Some? ==> e.value < |t| && (e.value == ROOT || t[e.value].name != "")
    decreases |cs|
  {
    if cs != [] {
      var x := Find(t, t[file].slots, cs[0]);
      if x.Some? { EndLive(t, Some(file), x.value, cs[1..]); }
    }
  }

  /** A walk that fills a block changes no walk. */
  lemma FilledFacts(t: Tree, path: string, room: Rooms)
    requires Inv(t)
    ensures var o := Walk(t, path); var u := Filled(t, o, room);
            && Inv(u) && |t| <= |u| && (forall q :: Walk(u, q) == Walk(t, q))
            && (forall g :: 0 <= g < |t| ==> u[g].hollow == (t[g].hollow && !(EndDir(o) == Some(g) && room(g) == Got)))
  {
    hide Inv, InRange, Resolve, Find;
    InvFacts(t);
    var o := Walk(t, path);
    SlotsInRange(t, ROOT);
    EndLive(t, None, ROOT, Components(path));
    if EndDir(o).Some? {
      var d := EndDir(o).value;
      GrowInv(t, d);
      InvFacts(Grow(t, d));
      forall q ensures Walk(Grow(t, d), q) == Walk(t, q) { GrowWalks(t, d, Components(q)); }
    }
  }

  // ----- the laws -----

  lemma AllocStep(t: Tree, d: nat, room: Rooms)
    requires Inv(t) && d < |t| && (d == ROOT || t[d].name != "") && AllIn(t, t[d].slots)
    ensures var u, x := AllocTree(t, d, room), AllocEntry(t, d);
            && Inv(u) && |t| <= |u| && (forall q :: Walk(u, q) == Walk(t, q))
            && (CanAlloc(t, d, room) ==> x in u[d].slots && x < |u| && u[x].name == "")
            && (forall g :: 0 <= g < |t| && g != d ==> u[g].hollow == t[g].hollow)
            && (!CanAlloc(t, d, room) ==> u[d].hollow)
  {
    hide Inv, InRange, Resolve;
    InvFacts(t);
    if Unused(t, t[d].slots) {
      AllocRange(t, d);
    } else if room(d) == Got {
      GrowInv(t, d);
      InvFacts(Grow(t, d));
      forall q ensures Walk(Grow(t, d), q) == Walk(t, q) { GrowWalks(t, d, Components(q)); }
      assert Grow(t, d)[d].slots[|t[d].slots|] == |t|;
      AllocRange(t, d);
    } else {
      HollowInv(t, d, true);
      var u := t[d := t[d].(hollow := true)];
      InvFacts(u);
      SlotsInRange(t, ROOT);
      forall q ensures Walk(u, q) == Walk(t, q) { HollowWalks(t, d, true, None, ROOT, Components(q)); }
    }
  }

  /** file_create: the invariant stays; on success the path, missing before, finds the entry that was named; a path that
    * does not run through it walks as before, and after a failure every path does. */
  lemma CreateLaws(t: Tree, path: string, room: Rooms)
    requires Inv(t)
    ensures var (code, u) := Create(t, path, room);
            && Inv(u) && |t| <= |u|
            && (code == EFileExists <==> Walk(t, path).Found?)
            && (code == Ok ==>
                  var t1, d := Filled(t, Walk(t, path), room), Walk(t, path).parent;
                  Walk(t, path).Missing? && d < |t1| && AllIn(t1, t1[d].slots)
                      && Walk(u, path) == Found(Some(d), AllocEntry(t1, d)))
            && (forall q | code != Ok || !(Components(path) <= Components(q)) :: Walk(u, q) == Walk(t, q))
  {
    hide Inv, InRange, Resolve, Find, AllocTree, AllocEntry, Unused, Filled;
    InvFacts(t);
    FilledFacts(t, path, room);
    var p, o := Components(path), Walk(t, path);
    var t1 := Filled(t, o, room);
    InvFacts(t1);
    if o.Missing? {
      MissingDir(t1, p);
      var d := o.parent;
      SlotsInRange(t1, d);
      AllocStep(t1, d, room);
      var u0, x := AllocTree(t1, d, room), AllocEntry(t1, d);
      InvFacts(u0);
      if CanAlloc(t1, d, room) {
        var u := u0[x := u0[x].(name := p[|p| - 1])];
        assert Walk(u0, path) == o;
        NameStep(u0, d, x, p, u);
        InvFacts(u);
        forall q | !(p <= Components(q)) ensures Walk(u, q) == Walk(t, q) {
          EditWalk(u0, u, d, x, p, Components(q));
          assert Walk(u0, q) == Walk(t, q);
        }
      }
    }
  }

  /** file_create will find its directory full and get no block for it. */
  ghost predicate NoRoom(t: Tree, path: string, room: Rooms)
    requires InRange(t)
  {
    var o := Walk(t, path);
    o.Missing? && AllIn(t, t[o.parent].slots) && !t[o.parent].hollow && !Unused(t, t[o.parent].slots)
    && room(o.parent) != Got
  }

  lemma GrownUnused(t: Tree, d: nat)
    requires d < |t| && AllIn(Grow(t, d), Grow(t, d)[d].slots)
    ensures Unused(Grow(t, d), Grow(t, d)[d].slots)
  {
    var u := Grow(t, d);
    assert u[d].slots[|t[d].slots|] == |t| && u[|t|].name == "";
  }

  /** Which directories count a block that they do not have, after file_create. */
  lemma CreateHollow(t: Tree, path: string, room: Rooms)
    requires Inv(t)
    ensures var (code, u) := Create(t, path, room);
            && |t| <= |u|
            && (NoRoom(t, path, room) ==> code == ENotFound)
            && forall g :: 0 <= g < |t| ==>
                 u[g].hollow == if EndDir(Walk(t, path)) != Some(g) then t[g].hollow
                                else if t[g].hollow then room(g) != Got else NoRoom(t, path, room)
  {
    hide Inv, Resolve, Find, UniqueNames, NoSharing;
    InvFacts(t);
    FilledFacts(t, path, room);
    CreateLaws(t, path, room);
    var o := Walk(t, path);
    var t1 := Filled(t, o, room);
    InvFacts(t1);
    if o.Missing? {
      var d := o.parent;
      MissingDir(t, Components(path));
      SlotsInRange(t, d);
      SlotsInRange(t1, d);
      AllocRange(t1, d);
      if t[d].hollow && room(d) == Got { GrownUnused(t, d); }
      assert !Blocked(t, o, room) ==> Answer(t, o, room).pdir == Some(d);
    }
  }

  /** What open says after a create, for every path that does not run through the created one and for every later
    * state of the disk: it differs from before exactly for names that were looked for in vain in the same directory
    * while no block can be had, if the create could not get one either, or did get the one that was missing. */
  lemma OpenAfterCreate(t: Tree, path: string, room: Rooms, q: string, later: Rooms)
    requires Inv(t) && (Create(t, path, room).0 != Ok || !(Components(path) <= Components(q)))
    ensures var u := Create(t, path, room).1;
            && InRange(u)
            && (Open(u, q, later) != Open(t, q, later) <==>
                  var e := EndDir(Walk(t, path));
                  e.Some? && e.value < |t| && EndDir(Walk(t, q)) == e && later(e.value) != Got
                  && (if t[e.value].hollow then room(e.value) == Got else NoRoom(t, path, room)))
  {
    hide Inv, InRange, Resolve, Find, Create, NoRoom;
    InvFacts(t);
    CreateLaws(t, path, room);
    CreateHollow(t, path, room);
    InvFacts(Create(t, path, room).1);
    SlotsInRange(t, ROOT);
    EndLive(t, None, ROOT, Components(q));
    EndLive(t, None, ROOT, Components(path));
    assert Walk(Create(t, path, room).1, q) == Walk(t, q);
  }

  // ----- the answers, entry by entry -----

  /** The entries that these components lead through, from the root: each is named by its component in the directory
    * before it. */
  ghost predicate Chain(t: Tree, xs: seq<nat>, cs: seq<string>) {
    && |xs| == |cs| + 1 && xs[0] == ROOT && (forall i :: 0 <= i < |xs| ==> xs[i] < |t|)
    && (forall i :: 0 <= i < |cs| ==>
          |cs[i]| < 128 && t[xs[i]].isDir && xs[i + 1] in t[xs[i]].slots && t[xs[i + 1]].name == cs[i])
  }

  /** Entry x, a directory, has an entry with this name. */
  ghost predicate HasName(t: Tree, x: nat, n: string) {
    x < |t| && exists y :: y in t[x].slots && y < |t| && t[y].name == n
  }

  lemma {:induction false} ChainResolves(t: Tree, xs: seq<nat>, cs: seq<string>)
    requires Inv(t) && Chain(t, xs, cs) && Proper(cs)
    ensures Resolve(t, None, ROOT, cs) == Found(if cs == [] then None else Some(xs[|cs| - 1]), xs[|cs|])
    decreases |cs|
  {
    hide Resolve, Find, NoSharing, UniqueNames;
    if cs == [] {
      ResolveEnd(t, None, ROOT);
    } else {
      var n := |cs| - 1;
      ProperParent(cs);
      ChainResolves(t, xs[..n + 1], cs[..n]);
      ResolveLast(t, cs);
      SlotsInRange(t, xs[n]);
      FindIn(t, xs[n], cs[n], xs[n + 1]);
    }
  }

  /** What walk_path answers at the entry that the first i components lead to. With WalkStops this covers every path:
    * all of it leads somewhere, or its next component is too long, or that entry is no directory, or the directory
    * does not have the name, in which case an error of the block that it counts and does not have comes first. */
  lemma OpenCodes(t: Tree, path: string, room: Rooms, xs: seq<nat>, i: nat)
    requires Inv(t) && i <= |Components(path)| && Chain(t, xs, Components(path)[..i])
    ensures var cs, x, r := Components(path), xs[i], Open(t, path, room);
            && (i == |cs| ==> r == Reply(Ok, if i == 0 then None else Some(xs[i - 1]), Some(x), None))
            && (i < |cs| && |cs[i]| >= 128 ==> r == Reply(EBadPath, None, None, None))
            && (i < |cs| && |cs[i]| < 128 && !t[x].isDir ==> r == Reply(ENotFound, None, None, None))
            && (i < |cs| && |cs[i]| < 128 && t[x].isDir && !HasName(t, x, cs[i]) ==>
                r == if t[x].hollow && room(x) == NoDisk then Reply(ENoDisk, None, None, None)
                     else if t[x].hollow && room(x) == NoMem then Reply(ENoMem, None, None, None)
                     else if i == |cs| - 1 then Reply(ENotFound, Some(x), None, Some(cs[i]))
                     else Reply(ENotFound, None, None, None))
  {
    hide Resolve, Find, Inv, InRange;
    InvFacts(t);
    var cs := Components(path);
    var pre, rest := cs[..i], cs[i..];
    assert cs == pre + rest;
    ChainResolves(t, xs, pre);
    ResolveAppend(t, None, ROOT, pre, rest);
    var r := Resolve(t, None, ROOT, pre);
    ResolveEnd(t, r.dir, r.file);
    if i < |cs| {
      assert rest == [cs[i]] + cs[i + 1..];
      ResolveStep(t, r.dir, r.file, cs[i], cs[i + 1..]);
      SlotsInRange(t, xs[i]);
      var y := Find(t, t[xs[i]].slots, cs[i]);
      if y.Some? { assert y.value in t[xs[i]].slots; }
    }
  }

  /** Every path stops somewhere. */
  lemma {:induction false} WalkStops(t: Tree, cs: seq<string>) returns (xs: seq<nat>, i: nat)
    requires |t| > 0
    ensures i <= |cs| && Chain(t, xs, cs[..i])
    ensures i == |cs| || |cs[i]| >= 128 || !t[xs[i]].isDir || !HasName(t, xs[i], cs[i])
    decreases |cs|
  {
    if cs == [] {
      xs, i := [ROOT], 0;
    } else {
      var n := |cs| - 1;
      xs, i := WalkStops(t, cs[..n]);
      assert cs[..n][..i] == cs[..i] && (i < n ==> cs[..n][i] == cs[i]);
      if i == n && |cs[n]| < 128 && t[xs[n]].isDir && HasName(t, xs[n], cs[n]) {
        var y :| y in t[xs[n]].slots && y < |t| && t[y].name == cs[n];
        ChainNext(t, xs, cs[..n], cs[n], y);
        xs, i := xs + [y], n + 1;
        assert cs[..n + 1] == cs[..n] + [cs[n]];
      }
    }
  }

  lemma ChainNext(t: Tree, xs: seq<nat>, cs: seq<string>, c: string, y: nat)
    requires Chain(t, xs, cs) && |c| < 128 && t[xs[|cs|]].isDir && y in t[xs[|cs|]].slots && y < |t| && t[y].name == c
    ensures Chain(t, xs + [y], cs + [c])
  {
  }

  /** What file_create answers: success exactly when the name alone is missing and the directory has an unused entry or
    * can get a block; not found when it can get none; otherwise what walk_path answers, or that the file exists. */
  lemma CreateCodes(t: Tree, path: string, room: Rooms)
    requires Inv(t)
    ensures var code, r := Create(t, path, room).0, Open(t, path, room);
            && (r.code == Ok ==> code == EFileExists)
            && (r.code != Ok && r.pdir.None? ==> code == r.code)
            && (r.code != Ok && r.pdir.Some? ==>
                var d := r.pdir.value;
                d < |t| && code == if HasName(t, d, "") || room(d) == Got then Ok else ENotFound)
  {
    hide Inv, Resolve, Find, UniqueNames, NoSharing;
    InvFacts(t);
    FilledFacts(t, path, room);
    var o := Walk(t, path);
    var t1 := Filled(t, o, room);
    InvFacts(t1);
    if Open(t, path, room).pdir.Some? && o.Missing? {
      var d := o.parent;
      MissingDir(t, Components(path));
      SlotsInRange(t, d);
      SlotsInRange(t1, d);
      AllocRange(t1, d);
      if t[d].hollow && room(d) == Got { GrownUnused(t, d); }
      assert Unused(t, t[d].slots) <==> HasName(t, d, "") by { UnusedName(t, d); }
    }
  }

  /** The created entry has the last name of the path and no blocks. Its type is what the entry had before: creating a
    * file does not set it, and removing one does not clear it. */
  lemma CreatedEntry(t: Tree, path: string, room: Rooms)
    requires Inv(t) && Create(t, path, room).0 == Ok
    ensures var u := Create(t, path, room).1;
            && InRange(u) && Walk(u, path).Found?
            && (var x, p := Walk(u, path).file, Components(path);
                && x < |u| && p != [] && u[x].name == p[|p| - 1] && u[x].slots == [] && !u[x].hollow
                && (u[x].isDir <==> x < |t| && t[x].isDir) && (x < |t| ==> t[x].name == ""))
  {
    hide Resolve, Find, Inv, InRange, AllocTree, AllocEntry, Unused, Filled;
    InvFacts(t);
    CreateLaws(t, path, room);
    FilledFacts(t, path, room);
    var t1, d := Filled(t, Walk(t, path), room), Walk(t, path).parent;
    InvFacts(t1);
    InvFacts(Create(t, path, room).1);
    MissingDir(t, Components(path));
    SlotsInRange(t1, d);
    FilledEntries(t, path, room);
    PickedEntry(t1, d, room);
  }

  /** A walk adds unused entries at most. */
  lemma FilledEntries(t: Tree, path: string, room: Rooms)
    requires InRange(t)
    ensures var t1 := Filled(t, Walk(t, path), room);
            && |t| <= |t1| && (forall x :: 0 <= x < |t| ==> t1[x].name == t[x].name && t1[x].isDir == t[x].isDir)
            && forall x :: |t| <= x < |t1| ==> !t1[x].isDir
  {
  }

  lemma PickedEntry(t: Tree, d: nat, room: Rooms)
    requires Inv(t) && d < |t| && AllIn(t, t[d].slots) && CanAlloc(t, d, room)
    ensures var u, x := AllocTree(t, d, room), AllocEntry(t, d);
            && x < |u| && u[x].name == "" && u[x].slots == [] && !u[x].hollow
            && (x < |t| ==> u[x] == t[x] && t[x].name == "") && (x >= |t| ==> !u[x].isDir)
  {
    hide NoSharing, UniqueNames;
    AllocRange(t, d);
    var x := AllocEntry(t, d);
    if x < |t| {
      assert x in t[d].slots;
      var i :| 0 <= i < |t[d].slots| && t[d].slots[i] == x;
      assert At(t, d, i);
    }
  }

  /** A root with one directory, "a", in its first entry. */
  function OneDirectory(): Tree {
    [Entry("/", true, seq(FILE2BLK, i => i + 1), false), Entry("a", true, [], false)]
    + seq(FILE2BLK - 1, _ => Entry("", false, [], false))
  }

  /** The directory is removed and a file is created: the file is a directory. */
  lemma RecycledDirectory(room: Rooms, stuck: nat -> bool)
    requires !stuck(1)
    ensures Inv(OneDirectory()) && Remove(OneDirectory(), "a", room, stuck).0 == Ok
    ensures var u := Remove(OneDirectory(), "a", room, stuck).1;
            && Inv(u) && Create(u, "b", room).0 == Ok
            && var v := Create(u, "b", room).1; InRange(v) && Walk(v, "b") == Found(Some(ROOT), 1) && v[1].isDir
  {
    hide Resolve, Create, Remove, Find, Inv, InRange;
    var t := OneDirectory();
    RemovedDirectory();
    InvFacts(t);
    var u := t[1 := Dropped(t[1])];
    RemovedTree(t, "a", room, stuck);
    NamesAB();
    InvFacts(u);
    AllUnused(u);
    SlotsInRange(u, ROOT);
    ResolveStep(u, None, ROOT, "b", []);
    assert ["b"] + [] == ["b"];
    FindFirst(u, u[ROOT].slots, "", 0);
    CreatedHere(u, room);
  }

  lemma RemovedDirectory()
    ensures var t := OneDirectory();
            Inv(t) && 1 < |t| && Walk(t, "a") == Found(Some(ROOT), 1) && Inv(t[1 := Dropped(t[1])])
  {
    hide Resolve, Find, Inv, InRange;
    var t := OneDirectory();
    OneDirectoryInv();
    OneDirectoryShape();
    InvFacts(t);
    NamesAB();
    SlotsInRange(t, ROOT);
    FindFirst(t, t[ROOT].slots, "a", 0);
    ResolveStep(t, None, ROOT, "a", []);
    ResolveEnd(t, Some(ROOT), 1);
    assert ["a"] + [] == ["a"];
    DropInv(t, 1);
  }

  lemma RemovedTree(t: Tree, path: string, room: Rooms, stuck: nat -> bool)
    requires InRange(t) && Walk(t, path).Found? && !stuck(Walk(t, path).file)
    ensures Remove(t, path, room, stuck) == (Ok, t[Walk(t, path).file := Dropped(t[Walk(t, path).file])])
  {
  }

  lemma OneDirectoryInv()
    ensures Inv(OneDirectory())
  {
    hide OneDirectory, SameName, NoSharing, InRange;
    var t := OneDirectory();
    OneDirectoryShape();
    assert forall x :: 1 <= x < |t| ==> t[x].slots == [];
    FlatTree(t);
    forall d, i, j | At(t, d, i) && At(t, d, j) && SameName(t, d, i, j) ensures i == j {
      assert d == ROOT;
      OneName(t, i, j);
    }
  }

  lemma FlatTree(t: Tree)
    requires |t| == FILE2BLK + 1 && |t[ROOT].slots| == FILE2BLK && forall x :: 1 <= x < |t| ==> t[x].slots == []
    requires forall i :: 0 <= i < FILE2BLK ==> t[ROOT].slots[i] == i + 1
    ensures InRange(t) && NoSharing(t)
  {
    forall d, i | At(t, d, i) ensures d == ROOT && t[d].slots[i] == i + 1 && i < FILE2BLK { }
  }

  lemma OneName(t: Tree, i: nat, j: nat)
    requires InRange(t) && At(t, ROOT, i) && At(t, ROOT, j) && SameName(t, ROOT, i, j)
    requires forall k :: 0 < k < |t[ROOT].slots| ==> t[t[ROOT].slots[k]].name == ""
    ensures i == j
  {
  }

  lemma OneDirectoryShape()
    ensures var t := OneDirectory();
            && |t| == FILE2BLK + 1 && t[ROOT].isDir && |t[ROOT].slots| == FILE2BLK
            && (forall i :: 0 <= i < FILE2BLK ==> t[ROOT].slots[i] == i + 1)
            && t[1] == Entry("a", true, [], false) && (forall x :: 2 <= x < |t| ==> t[x] == Entry("", false, [], false))
  {
  }

  lemma NamesAB()
    ensures Components("a") == ["a"] && Components("b") == ["b"]
  {
    assert First("a") == "a" && First("b") == "b";
    assert Components("a") == ["a"] + Components("") && Components("b") == ["b"] + Components("");
  }

  lemma AllUnused(u: Tree)
    requires u == OneDirectory()[1 := Dropped(OneDirectory()[1])]
    ensures |u| == FILE2BLK + 1 && u[ROOT].isDir && !u[ROOT].hollow && |u[ROOT].slots| == FILE2BLK && u[1].isDir
    ensures forall i :: 0 <= i < FILE2BLK ==> u[ROOT].slots[i] == i + 1 && u[i + 1].name == ""
  {
  }

  lemma CreatedHere(u: Tree, room: Rooms)
    requires Inv(u) && Walk(u, "b") == Missing(ROOT, "b") && !u[ROOT].hollow && AllIn(u, u[ROOT].slots)
    requires 1 < |u| && u[1].isDir && Find(u, u[ROOT].slots, "") == Some(1) && HasName(u, ROOT, "")
    ensures Create(u, "b", room).0 == Ok
    ensures var v := Create(u, "b", room).1; InRange(v) && 1 < |v| && Walk(v, "b") == Found(Some(ROOT), 1) && v[1].isDir
  {
    hide Resolve, Find, Create;
    CreateCodes(u, "b", room);
    CreateLaws(u, "b", room);
    CreatedEntry(u, "b", room);
  }

  lemma UnusedName(t: Tree, d: nat)
    requires d < |t| && AllIn(t, t[d].slots)
    ensures Unused(t, t[d].slots) <==> HasName(t, d, "")
  {
    if HasName(t, d, "") {
      var y :| y in t[d].slots && y < |t| && t[y].name == "";
      var i :| 0 <= i < |t[d].slots| && t[d].slots[i] == y;
      assert t[t[d].slots[i]].name == "";
    }
    if Unused(t, t[d].slots) {
      var i :| 0 <= i < |t[d].slots| && t[t[d].slots[i]].name == "";
      assert t[d].slots[i] in t[d].slots;
    }
  }

  /** A tree with an empty root. */
  function EmptyRoot(): Tree { [Entry("/", true, [], false)] }

  lemma EmptyRootWalks()
    ensures Inv(EmptyRoot()) && Walk(EmptyRoot(), "a") == Missing(ROOT, "a")
            && Walk(EmptyRoot(), "b") == Missing(ROOT, "b")
  {
    assert First("a") == "a" && First("b") == "b";
    assert Components("a") == ["a"] + Components("") && Components("b") == ["b"] + Components("");
  }

  /** The failure, concretely: on a full disk the creation of "a" fails as not found. From then on opening any missing
    * file gives the disk error instead of "not found", and so does the next creation, until there is room. */
  lemma FailedCreateSpoils(room: Rooms)
    requires room(ROOT) == NoDisk
    ensures Inv(EmptyRoot()) && Create(EmptyRoot(), "a", room).0 == ENotFound
    ensures var u := Create(EmptyRoot(), "a", room).1;
            && Inv(u) && Open(EmptyRoot(), "b", room).code == ENotFound && Open(u, "b", room).code == ENoDisk
            && Create(u, "a", room).0 == ENoDisk && Create(u, "a", _ => Got).0 == Ok
  {
    hide Resolve, Find, Create, Inv, InRange;
    EmptyRootWalks();
    var t := EmptyRoot();
    InvFacts(t);
    SlotsInRange(t, ROOT);
    CreateHollow(t, "a", room);
    CreateLaws(t, "a", room);
    var u := Create(t, "a", room).1;
    InvFacts(u);
    assert NoRoom(t, "a", room);
    assert Walk(u, "a") == Walk(t, "a") && Walk(u, "b") == Walk(t, "b");
    SecondCreate(u, room);
  }

  /** A directory that misses a block: create is refused with the disk error, and works when the block can be had. */
  lemma SecondCreate(u: Tree, room: Rooms)
    requires Inv(u) && Walk(u, "a") == Missing(ROOT, "a") && u[ROOT].hollow && room(ROOT) == NoDisk
    ensures Create(u, "a", room).0 == ENoDisk && Create(u, "a", _ => Got).0 == Ok
  {
    hide Inv, Resolve, Find, UniqueNames, NoSharing;
    InvFacts(u);
    var all: Rooms := _ => Got;
    FilledFacts(u, "a", all);
    var t1 := Filled(u, Walk(u, "a"), all);
    InvFacts(t1);
    SlotsInRange(t1, ROOT);
    GrownUnused(u, ROOT);
  }

  /** file_remove below the root: unless truncation panics, a path that finds a file is gone afterwards, so is every
    * path below it, and every other path walks as before. */
  lemma RemoveLaws(t: Tree, path: string, room: Rooms, stuck: nat -> bool)
    requires Inv(t) && Components(path) != []
    ensures var (code, u) := Remove(t, path, room, stuck); var o := Walk(t, path);
            && Inv(u)
            && (code == Ok <==> o.Found? && !stuck(o.file)) && (code == Panic <==> o.Found? && stuck(o.file))
            && (code == Ok ==>
                o.dir.Some? && Walk(u, path) == Missing(o.dir.value, Components(path)[|Components(path)| - 1]))
            && (code == Ok ==> forall q | Components(path) < Components(q) :: Walk(u, q) == Absent(o.dir.value))
            && (forall q | code != Ok || !(Components(path) <= Components(q)) :: Walk(u, q) == Walk(t, q))
  {
    hide Inv, InRange, Resolve, Find, Filled, Dropped;
    InvFacts(t);
    FilledFacts(t, path, room);
    var p, o := Components(path), Walk(t, path);
    if o.Found? && !stuck(o.file) {
      var x := o.file;
      var u := t[x := Dropped(t[x])];
      DropStep(t, x, p, u);
      InvFacts(u);
      var d := o.dir.value;
      forall q | p < Components(q) ensures Walk(u, q) == Absent(d) {
        var rest := Components(q)[|p|..];
        assert Components(q) == p + rest;
        ResolveAppend(u, None, ROOT, p, rest);
      }
      forall q | !(p <= Components(q)) ensures Walk(u, q) == Walk(t, q) { EditWalk(t, u, d, x, p, Components(q)); }
    }
  }

  /** Creating a path and removing it again leaves every walk as it was. */
  lemma CreateThenRemove(t: Tree, path: string, room: Rooms, later: Rooms, stuck: nat -> bool)
    requires Inv(t) && Create(t, path, room).0 == Ok
    requires InRange(Create(t, path, room).1) && Remove(Create(t, path, room).1, path, later, stuck).0 != Panic
    ensures var v := Remove(Create(t, path, room).1, path, later, stuck);
            v.0 == Ok && Inv(v.1) && forall q :: Walk(v.1, q) == Walk(t, q)
  {
    hide Inv, InRange, Resolve, Find, Create, Remove;
    InvFacts(t);
    CreateLaws(t, path, room);
    var p, u := Components(path), Create(t, path, room).1;
    MissingDir(t, p);
    RemoveLaws(u, path, later, stuck);
    var v := Remove(u, path, later, stuck).1;
    InvFacts(v);
    forall q ensures Walk(v, q) == Walk(t, q) {
      var cs := Components(q);
      if p < cs {
        assert cs == p + cs[|p|..];
        ResolveAppend(t, None, ROOT, p, cs[|p|..]);
      } else if p <= cs {
        assert cs == p;
      }
    }
  }

  /** Removing the root empties it; it stays the root and stays open. */
  lemma RemoveRoot(t: Tree, path: string, room: Rooms, stuck: nat -> bool)
    requires Inv(t) && Components(path) == []
    ensures var (code, u) := Remove(t, path, room, stuck);
            && Inv(u) && (code == Panic <==> stuck(ROOT)) && (code == Ok <==> !stuck(ROOT))
            && Walk(u, path) == Found(None, ROOT)
            && (code == Ok ==> forall q | Components(q) != [] :: !Walk(u, q).Found?)
  {
    DropInv(t, ROOT);
  }

  /** Marking the entry that p finds as a directory leaves all walks that do not go through it. */
  lemma MarkStep(t: Tree, x: nat, p: seq<string>, u: Tree)
    requires Inv(t) && Reaches(t, p, x) && x < |t| && u == t[x := t[x].(isDir := true)]
    ensures Inv(u)
    ensures forall cs | Proper(cs) && (!(p <= cs) || cs == p || t[x].isDir) ::
              Resolve(u, None, ROOT, cs) == Resolve(t, None, ROOT, cs)
  {
    hide Resolve, Find;
    MarkInv(t, x);
    if t[x].isDir {
      assert u == t;
    } else {
      if p == [] { ResolveEnd(t, None, ROOT); }
      forall g, c | 0 <= g < |t| ensures Find(u, u[g].slots, c) == Find(t, t[g].slots, c) { MarkFind(t, x, g, c); }
      forall a | Reaches(t, a, x) ensures p <= a { OnePath(t, a, p); }
      forall a ensures !Reaches(t, a, |t|) { if Reaches(t, a, |t|) { ReachedName(t, a, |t|); } }
      assert Edit(t, u, |t|, x, p);
      forall cs | Proper(cs) && !(p <= cs) ensures Resolve(u, None, ROOT, cs) == Resolve(t, None, ROOT, cs) {
        EditWalk(t, u, |t|, x, p, cs);
      }
      MarkSelf(t, x, p, u);
    }
  }

  lemma MarkInv(t: Tree, x: nat)
    requires Inv(t) && x < |t|
    ensures Inv(t[x := t[x].(isDir := true)])
  {
    var u := t[x := t[x].(isDir := true)];
    forall g, i | At(u, g, i) ensures At(t, g, i) && u[g].slots[i] == t[g].slots[i] { }
    forall g, i, j | At(u, g, i) && At(u, g, j) && SameName(u, g, i, j) ensures i == j { assert SameName(t, g, i, j); }
  }

  lemma MarkFind(t: Tree, x: nat, g: nat, c: string)
    requires InRange(t) && x < |t| && g < |t| && InRange(t[x := t[x].(isDir := true)])
    ensures Find(t[x := t[x].(isDir := true)], t[g].slots, c) == Find(t, t[g].slots, c)
  {
    SlotsInRange(t, g);
    FindSame(t, t[x := t[x].(isDir := true)], t[g].slots, c);
  }

  lemma MarkSelf(t: Tree, x: nat, p: seq<string>, u: Tree)
    requires Inv(t) && InRange(u) && Reaches(t, p, x) && x < |t| && p != [] && u == t[x := t[x].(isDir := true)]
             && !t[x].isDir
    requires Edit(t, u, |t|, x, p)
    ensures Resolve(u, None, ROOT, p) == Resolve(t, None, ROOT, p)
  {
    hide Resolve, Find, Inv;
    InvFacts(t);
    ProperParent(p);
    LastStep(t, p);
    LastLookup(t, p);
    EditWalk(t, u, |t|, x, p, Parent(p));
    var d := Resolve(t, None, ROOT, Parent(p)).file;
    MarkFind(t, x, d, p[|p| - 1]);
    ResolveLast(t, p);
    ResolveLast(u, p);
  }

  /** mkdir: the path finds a directory afterwards, and paths that do not run through it walk as before. */
  lemma MkdirLaws(t: Tree, path: string, room: Rooms)
    requires Inv(t)
    ensures var (code, u) := Mkdir(t, path, room);
            && Inv(u)
            && code == (if Create(t, path, room).0 == EFileExists then Ok else Create(t, path, room).0)
            && (code == Ok ==> Walk(u, path).Found? && Walk(u, path).file < |u| && u[Walk(u, path).file].isDir)
            && (code == Ok && Walk(t, path).Found? ==> Walk(u, path) == Walk(t, path))
            && (forall q | code != Ok || !(Components(path) <= Components(q)) :: Walk(u, q) == Walk(t, q))
            && (forall q | Walk(t, q).Found? :: Walk(u, q) == Walk(t, q))
  {
    hide Inv, InRange, Resolve, Find, Create;
    InvFacts(t);
    CreateLaws(t, path, room);
    var (code, v) := Create(t, path, room);
    InvFacts(v);
    var p := Components(path);
    if code == Ok || code == EFileExists {
      var x := Walk(v, path).file;
      var u := v[x := v[x].(isDir := true)];
      MarkStep(v, x, p, u);
      InvFacts(u);
      assert Walk(u, path) == Walk(v, path);
      forall q | !(p <= Components(q)) ensures Walk(u, q) == Walk(t, q) { assert Walk(v, q) == Walk(t, q); }
      forall q | Walk(t, q).Found? ensures Walk(u, q) == Walk(t, q) {
        if p <= Components(q) { MkdirBelow(t, p, Components(q)); }
        assert Walk(v, q) == Walk(t, q);
        if p <= Components(q) { MkdirBelow(v, p, Components(q)); }
      }
    }
  }

  /** A path that finds a file runs through directories only. */
  lemma MkdirBelow(t: Tree, p: seq<string>, cs: seq<string>)
    requires InRange(t) && p <= cs && Resolve(t, None, ROOT, cs).Found?
    ensures Resolve(t, None, ROOT, p).Found? && (p != cs ==> t[Resolve(t, None, ROOT, p).file].isDir)
  {
    PrefixFound(t, p, cs);
    var rest := cs[|p|..];
    assert cs == p + rest;
    ResolveAppend(t, None, ROOT, p, rest);
  }

  // ----- runs -----

  datatype Op =
    | OpOpen(path: string, room: Rooms)
    | OpCreate(path: string, room: Rooms)
    | OpMkdir(path: string, room: Rooms)
    | OpRemove(path: string, room: Rooms, stuck: nat -> bool)

  ghost function Do(t: Tree, op: Op): (Code, Tree)
    requires Inv(t)
  {
    match op
    case OpOpen(path, room) => (Open(t, path, room).code, Filled(t, Walk(t, path), room))
    case OpCreate(path, room) => Create(t, path, room)
    case OpMkdir(path, room) => Mkdir(t, path, room)
    case OpRemove(path, room, stuck) => Remove(t, path, room, stuck)
  }

  lemma DoKeepsInv(t: Tree, op: Op)
    requires Inv(t)
    ensures Inv(Do(t, op).1)
  {
    hide Inv, Create, Remove, Mkdir;
    InvFacts(t);
    match op
    case OpOpen(path, room) => FilledFacts(t, path, room);
    case OpCreate(path, room) => CreateLaws(t, path, room);
    case OpMkdir(path, room) => MkdirLaws(t, path, room);
    case OpRemove(path, room, stuck) =>
      if Components(path) == [] { RemoveRoot(t, path, room, stuck); } else { RemoveLaws(t, path, room, stuck); }
  }

  /** A run of opens, creates, mkdirs and removes, up to a panic. */
  ghost function Run(t: Tree, ops: seq<Op>): (u: Tree)
    requires Inv(t)
    ensures Inv(u)
    decreases |ops|
  {
    if ops == [] || Do(t, ops[0]).0 == Panic then t
    else
      DoKeepsInv(t, ops[0]);
      Run(Do(t, ops[0]).1, ops[1..])
  }

  /** op does not remove path q or anything above it. */
  predicate Spares(op: Op, q: string) {
    op.OpRemove? ==> !(Components(op.path) <= Components(q))
  }

  /** A file keeps its entry and its directory through every run that does not remove it or a directory above it. */
  lemma {:induction false} FilesStay(t: Tree, ops: seq<Op>, q: string)
    requires Inv(t) && Walk(t, q).Found? && forall i :: 0 <= i < |ops| ==> Spares(ops[i], q)
    ensures Walk(Run(t, ops), q) == Walk(t, q)
    decreases |ops|
  {
    if ops != [] && Do(t, ops[0]).0 != Panic {
      DoKeepsInv(t, ops[0]);
      StepKeepsFile(t, ops[0], q);
      assert Spares(ops[0], q) && forall i :: 0 <= i < |ops[1..]| ==> Spares(ops[1..][i], q);
      FilesStay(Do(t, ops[0]).1, ops[1..], q);
    }
  }

  lemma StepKeepsFile(t: Tree, op: Op, q: string)
    requires Inv(t) && Inv(Do(t, op).1) && Walk(t, q).Found? && Spares(op, q)
    ensures Walk(Do(t, op).1, q) == Walk(t, q)
  {
    hide Inv, InRange, Resolve, Find, Create, Remove, Mkdir, Filled;
    InvFacts(t);
    InvFacts(Do(t, op).1);
    match op
    case OpOpen(path, room) => FilledFacts(t, path, room);
    case OpCreate(path, room) =>
      CreateLaws(t, path, room);
      if Components(path) <= Components(q) { PrefixFound(t, Components(path), Components(q)); }
    case OpMkdir(path, room) => MkdirLaws(t, path, room);
    case OpRemove(path, room, stuck) => RemoveLaws(t, path, room, stuck);
  }

  // ----- the code -----

  lemma AtEnd(path: string, i: nat)
    requires i <= |path| && (i < |path| ==> path[i] != '/')
    ensures i == |path| <==> Components(path[i..]) == []
  {
  }

  class Server {
    var t: seq<Entry>

    /** The first entry of directory d with this name, in the blocks that exist. */
    method Search(d: nat, name: string) returns (r: Option<nat>)
      requires InRange(t) && d < |t|
      ensures r == Find(t, t[d].slots, name)
    {
      hide InRange, Find;
      var s := t[d].slots;
      SlotsInRange(t, d);
      assert s[0..] == s;
      var nblock, i := |s| / FILE2BLK, 0;
      while i < nblock
        invariant 0 <= i <= nblock && FindFrom(t, s, FILE2BLK * i, name) == FindFrom(t, s, 0, name)
      {
        var j := 0;
        while j < FILE2BLK
          invariant 0 <= j <= FILE2BLK && FindFrom(t, s, FILE2BLK * i + j, name) == FindFrom(t, s, 0, name)
        {
          var k := FILE2BLK * i + j;
          FindHere(t, s, k, name);
          if t[s[k]].name == name {
            return Some(s[k]);
          }
          j := j + 1;
        }
        i := i + 1;
      }
      return None;
    }

    /** dir_lookup. Only when the name is in none of the existing blocks is the missing one asked for; it reads as zero,
      * so the name is not in it either. */
    method DirLookup(d: nat, name: string, room: Rooms) returns (code: Code, r: Option<nat>)
      requires InRange(t) && d < |t|
      modifies this
      ensures r == Find(old(t), old(t)[d].slots, name)
      ensures code == if r.Some? then Ok else if old(t)[d].hollow && room(d) != Got then BlockError(room(d))
              else ENotFound
      ensures t == if r.None? && old(t)[d].hollow && room(d) == Got then Grow(old(t), d) else old(t)
    {
      r := Search(d, name);
      if r.Some? {
        return Ok, r;
      }
      if t[d].hollow {
        if room(d) != Got {
          return BlockError(room(d)), None;
        }
        t := t[d := t[d].(slots := t[d].slots + Fresh(|t|), hollow := false)] + EmptyEntries();
      }
      return ENotFound, None;
    }

    /** dir_alloc_file */
    method DirAllocFile(d: nat, room: Rooms) returns (x: Option<nat>)
      requires InRange(t) && d < |t| && AllIn(t, t[d].slots)
      modifies this
      ensures t == AllocTree(old(t), d, room)
      ensures x == if CanAlloc(old(t), d, room) then Some(AllocEntry(old(t), d)) else None
    {
      AllocRange(t, d);
      x := Search(d, "");
      if x.Some? {
        return;
      }
      t := t[d := t[d].(hollow := true)];
      if room(d) != Got {
        return None;
      }
      var first := |t|;
      t := t[d := t[d].(slots := t[d].slots + Fresh(first), hollow := false)] + EmptyEntries();
      assert t == Grow(old(t), d);
      return Some(first);
    }

    /** walk_path. The scan over the characters computes the fold over the components. */
    method WalkPath(path: string, room: Rooms) returns (reply: Reply)
      requires InRange(t)
      modifies this
      ensures reply == Open(old(t), path, room) && t == Filled(old(t), Walk(old(t), path), room)
    {
      hide Resolve, InRange, Find, Components;
      SlotsInRange(t, ROOT);
      assert path[0..] == path;
      var i := SkipSlash(path, 0);
      var file: nat, dir: Option<nat> := ROOT, None;
      while i < |path|
        invariant i <= |path| && (i < |path| ==> path[i] != '/') && file < |t| && t == old(t)
        invariant Resolve(t, dir, file, Components(path[i..])) == Walk(t, path)
      {
        var p := i;
        while i < |path| && path[i] != '/'
          invariant p <= i <= |path| && '/' !in path[p..i]
          invariant i == p ==> i < |path| && path[i] != '/'
        {
          i := i + 1;
        }
        var name := path[p..i];
        CutComponent(path, p, i);
        ResolveStep(t, dir, file, name, Components(path[i..]));
        if i - p >= MAXNAMELEN {
          return Reply(EBadPath, None, None, None);
        }
        i := SkipSlash(path, i);
        AtEnd(path, i);
        dir := Some(file);
        if !t[file].isDir {
          return Reply(ENotFound, None, None, None);
        }
        var code, r := DirLookup(file, name, room);
        if code != Ok {
          if code == ENotFound && i == |path| {
            return Reply(code, dir, None, Some(name));
          }
          return Reply(code, None, None, None);
        }
        file := r.value;
      }
      AtEnd(path, i);
      ResolveEnd(t, dir, file);
      return Reply(Ok, dir, Some(file), None);
    }

    /** file_create */
    method FileCreate(path: string, room: Rooms) returns (code: Code, file: Option<nat>)
      requires Inv(t)
      modifies this
      ensures (code, t) == Create(old(t), path, room) && Inv(t)
      ensures code == Ok ==> file.Some? && Walk(t, path).Found? && Walk(t, path).file == file.value
    {
      hide Inv, InRange, Resolve, Find, AllocTree, AllocEntry, Unused, Filled;
      ghost var t0 := t;
      InvFacts(t);
      CreateLaws(t, path, room);
      FilledFacts(t, path, room);
      var reply := WalkPath(path, room);
      InvFacts(t);
      if reply.code == Ok {
        return EFileExists, None;
      }
      if reply.code != ENotFound || reply.pdir.None? {
        return reply.code, None;
      }
      SlotsInRange(t, reply.pdir.value);
      MissingDir(t, Components(path));
      AllocStep(t, reply.pdir.value, room);
      file := DirAllocFile(reply.pdir.value, room);
      if file.None? {
        return reply.code, None;
      }
      t := t[file.value := t[file.value].(name := reply.lastelem.value)];
      code := Ok;
    }

    /** file_remove; the code is Panic when file_truncate stops the server. */
    method FileRemove(path: string, room: Rooms, stuck: nat -> bool) returns (code: Code)
      requires Inv(t)
      modifies this
      ensures (code, t) == Remove(old(t), path, room, stuck) && Inv(t)
    {
      hide Resolve, Find;
      DoKeepsInv(t, OpRemove(path, room, stuck));
      var reply := WalkPath(path, room);
      if reply.code != Ok {
        return reply.code;
      }
      var f := reply.pfile.value;
      if stuck(f) {
        return Panic;
      }
      ghost var t0 := t;
      t := t[f := t[f].(slots := [], hollow := false)];
      t := t[f := t[f].(name := "")];
      assert t == t0[f := Dropped(t0[f])];
      return Ok;
    }
  }
}
