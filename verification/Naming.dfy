/** mkenvid and envid2env: which environment an id names, whom a system call can touch, and what it answers. */
module Naming {
  import opened Common
  import opened Mmu
  import opened FlatMemory
  import opened Lists
  import opened TailQueue
  import opened Scheduler
  import opened Discipline
  import opened Runs
  import PT = PageTables

  // ----- ids -----

  /** The low bits of the id of a living environment are its slot. */
  ghost predicate IdsOk(s: State)
    requires |s.envs| == NENV
  {
    forall e :: 0 <= e < NENV && s.envs[e].status != Free ==> s.envs[e].id % NENV == e
  }

  /** So no two living environments have the same id, and every kernel entry keeps it so. */
  lemma IdsStep(s: State, ev: Event)
    requires Inv(s) && Goes(s, ev) && IdsOk(s)
    ensures |Step(s, ev).value.envs| == NENV && IdsOk(Step(s, ev).value)
    ensures forall e, f :: 0 <= e < f < NENV && s.envs[e].status != Free && s.envs[f].status != Free ==>
              s.envs[e].id != s.envs[f].id
  {
    hide Step, Repr, Allowed, FreePages, MemInv;
    StepMailbox(s, ev, 0);
    var t := Step(s, ev).value;
    forall e | 0 <= e < NENV && t.envs[e].status != Free ensures t.envs[e].id % NENV == e {
      StepMailbox(s, ev, e);
      if s.envs[e].status == Free { BornByFork(s, ev, e); }
    }
  }

  /** A free slot comes to life only as the child of a fork. */
  lemma BornByFork(s: State, ev: Event, e: nat)
    requires Inv(s) && Goes(s, ev) && e < NENV && s.envs[e].status == Free
    requires |Step(s, ev).value.envs| == NENV && Step(s, ev).value.envs[e].status != Free
    ensures ev.Exofork? && s.cur.Some? && Step(s, ev).value == SysExofork(s, ev.p).0
    ensures s.free != [] && e == s.free[0] && Step(s, ev).value.envs[e].id % NENV == e
  {
    hide Schedule, SysIpcTrySend, SysSetEnvStatus, SysMemAlloc, SysMemMap, SysMemUnmap, PageFault,
      Repr, Remove, InsertTail, Drop, Harmless, FreePages, MemInv, MkEnvId;
    if ev.Tick? {
      ScheduleMailbox(s, false, e);
    } else if s.cur.Some? {
      match ev
      case Yield => ScheduleMailbox(s, true, e);
      case Exofork(p) => if s.free != [] { assert s.free[0] in s.free; NewIdSlot(s.ids, s.free[0]); }
      case SetStatus(envid, status) => StatusFree(s, envid, status, e);
      case Send(_, _, _, _, _) => SendFree(s, ev, e);
      case Recv(dstva) => if !(dstva != 0 && IllegalVa(dstva)) { ScheduleMailbox(Block(s, dstva), true, e); }
      case Destroy(envid) =>
        var x := Target(s, envid, true);
        if x.Some? && s.cur == x { ScheduleMailbox(FreeEnv(s, x.value).(cur := None), true, e); }
      case _ => MemoryKeepsInv(s, ev);
    }
  }

  lemma StatusFree(s: State, envid: nat, status: EnvStatus, e: nat)
    requires Inv(s) && s.cur.Some? && e < NENV && s.envs[e].status == Free
    ensures SysSetEnvStatus(s, envid, status).0.envs[e].status == Free
  {
    hide Repr, Wf, Remove, InsertTail, Drop, NoDup;
  }

  lemma SendFree(s: State, ev: Event, e: nat)
    requires Inv(s) && s.cur.Some? && ev.Send? && e < NENV && s.envs[e].status == Free
    ensures SysIpcTrySend(s, ev.envid, ev.value, ev.srcva, ev.perm, ev.t).0.envs[e].status == Free
  {
    hide Repr, Wf, InsertTail, FreePages, NoDup, MemInv;
  }

  // ----- fork -----

  /** The counter above the slot has run through all its values. */
  lemma IdZero(ids: nat, e: nat)
    requires e < NENV
    ensures MkEnvId(ids, e) == 0 <==> (ids + 1) % 0x20_0000 == 0 && e == 0
  {
    var q, r := (ids + 1) / 0x20_0000, (ids + 1) % 0x20_0000;
    assert (ids + 1) * 2048 == q * WORD + r * 2048;
    assert (q * WORD + r * 2048) % WORD == r * 2048 by { WholeWords(q, r * 2048); }
  }

  lemma WholeWords(q: nat, r: nat)
    requires r < WORD
    ensures (q * WORD + r) % WORD == r
  {
  }

  /** sys_exofork. It fails exactly without a free slot, without a page for the directory, or with NASID environments
    * alive. Otherwise the id that the parent gets is the id of a new environment, its child, which is not runnable, has
    * never run and has its parent's priority. Through that id envid2env finds the child, except when the id is 0: then
    * it finds the parent itself. Without an ASID the directory page is taken all the same. */
  lemma ForkedChild(s: State, p: nat)
    requires Inv(s) && s.cur.Some?
    ensures var (t, code) := SysExofork(s, p);
            && (code == ENoFreeEnv <==> s.free == [] || (p in FreePages(s.mem) && NENV - |s.free| >= NASID))
            && (code == ENoMem <==> s.free != [] && p !in FreePages(s.mem))
            && (code.Id? <==> s.free != [] && p in FreePages(s.mem) && NENV - |s.free| < NASID)
            && (s.free != [] && p in FreePages(s.mem) ==>
                t.ids == s.ids + 1 && t.mem == s.mem.(dirs := s.mem.dirs + {p}))
            && (s.free == [] || p !in FreePages(s.mem) ==> t == s)
            && (!code.Id? ==> t.free == s.free && forall e :: 0 <= e < NENV ==> t.envs[e].status == s.envs[e].status)
            && (code.Id? ==>
                var e, c := s.free[0], s.cur.value;
                && e < NENV && e != c && s.envs[e].status == Free && t.free == s.free[1..] && t.list == s.list
                && t.envs[e].id == code.id && code.id % NENV == e && t.envs[e].parent == s.envs[c].id
                && t.envs[e].status == NotRunnable && t.envs[e].pri == s.envs[c].pri && t.envs[e].runs == 0
                && t.envs[e].pgdir == p && p !in s.mem.dirs
                && (forall f :: 0 <= f < NENV && f != e ==> t.envs[f] == s.envs[f])
                && Target(t, code.id, true) == Target(t, code.id, false) == Some(if code.id == 0 then c else e)
                && (code.id == 0 <==> e == 0 && (s.ids + 1) % 0x20_0000 == 0))
  {
    hide Repr, FreePages, MkEnvId, MemInv;
    if s.free != [] {
      var e := s.free[0];
      assert e in s.free;
      NewIdSlot(s.ids, e);
      IdZero(s.ids, e);
      if p in FreePages(s.mem) { FreeIsNoDirectory(s.mem, p); }
    }
  }

  // ----- who may touch whom -----

  /** e is the caller, or a child of it. */
  predicate Own(s: State, e: nat)
    requires s.cur.Some? && s.cur.value < |s.envs| && e < |s.envs|
  {
    s.cur == Some(e) || s.envs[e].parent == s.envs[s.cur.value].id
  }

  /** envid2env: zero is the caller; any other id is an environment that is alive and has this id, and with checkperm
    * one of the caller's own. */
  lemma TargetExact(s: State, envid: nat, checkperm: bool)
    requires Inv(s) && s.cur.Some? && IdsOk(s)
    ensures Target(s, envid, checkperm).Some? <==>
              envid == 0 || (IsAlive(s, envid) && (checkperm ==> Own(s, envid % NENV)))
    ensures Target(s, envid, checkperm).Some? ==> Target(s, envid, checkperm).value == Named(s, envid)
  {
    hide Repr, MemInv;
  }

  /** sys_set_env_status: its answers, and what it leaves. */
  lemma StatusCodes(s: State, envid: nat, status: EnvStatus)
    requires Inv(s) && s.cur.Some? && IdsOk(s)
    ensures var (t, code) := SysSetEnvStatus(s, envid, status);
            var r := Named(s, envid);
            && r < NENV
            && (code == EInval <==> status == Free)
            && (code == EBadEnv <==> status != Free && envid != 0 && !(IsAlive(s, envid) && Own(s, r)))
            && (code != EInval && code != EBadEnv ==> code == Ok)
            && (code == Ok ==> t.envs == s.envs[r := s.envs[r].(status := status)])
            && (code != Ok ==> t == s)
  {
    hide Repr, MemInv, Remove, InsertTail, Drop, Wf, NoDup;
    TargetExact(s, envid, true);
  }

  /** The system calls that check permissions. */
  predicate Checked(ev: Event) {
    ev.SetStatus? || ev.Destroy? || ev.MemAlloc? || ev.MemMap? || ev.MemUnmap?
  }

  /** Changing a status, destroying, and mapping or unmapping memory touch the caller and its children alone: every
    * other living environment keeps its status, its place among the runnable, its mailbox and every page of its
    * memory. */
  lemma OthersUntouched(s: State, ev: Event, x: nat, va: nat)
    requires Inv(s) && Goes(s, ev) && IdsOk(s) && s.cur.Some? && Checked(ev)
    requires x < NENV && s.envs[x].status != Free && !Own(s, x)
    ensures var t := Step(s, ev).value;
            && |t.envs| == NENV && t.envs[x] == s.envs[x].(runs := t.envs[x].runs)
            && (x in t.list <==> x in s.list)
            && WordAt(t.mem, Key(s.envs[x].pgdir, va)) == WordAt(s.mem, Key(s.envs[x].pgdir, va))
  {
    hide Step, Allowed, Repr, Key, NewPage, HasTable, MkPte;
    StepChange(s, ev, Key(s.envs[x].pgdir, va));
    KeyDirectory(s.envs[x].pgdir, va);
    assert ChangeAt(s, ev, Key(s.envs[x].pgdir, va)) == Same by { OthersMemory(s, ev, x, va); }
    OthersFields(s, ev, x);
    StepKeepsInv(s, ev);
  }

  lemma KeyDirectory(d: nat, va: nat)
    ensures Key(d, va).d == d
  {
  }

  lemma OthersMemory(s: State, ev: Event, x: nat, va: nat)
    requires Inv(s) && IdsOk(s) && s.cur.Some? && Checked(ev)
    requires x < NENV && s.envs[x].status != Free && !Own(s, x)
    ensures ChangeAt(s, ev, Key(s.envs[x].pgdir, va)) == Same
  {
    hide Repr, Pdx, Ptx, NewPage, HasTable, MkPte, FreePages, ListInv;
    InvListed(s);
    match ev
    case SetStatus(_, _) =>
    case Destroy(envid) => OtherDirectory(s, envid, x);
    case MemAlloc(envid, _, _, _, _) => OtherDirectory(s, envid, x);
    case MemMap(srcid, _, dstid, _, _, _) => OtherDirectory(s, dstid, x);
    case MemUnmap(envid, _) => OtherDirectory(s, envid, x);
  }

  lemma OtherDirectory(s: State, envid: nat, x: nat)
    requires Inv(s) && IdsOk(s) && s.cur.Some? && x < NENV && s.envs[x].status != Free && !Own(s, x)
    ensures var r := Target(s, envid, true);
            r.Some? ==> r.value != x && s.envs[r.value].pgdir != s.envs[x].pgdir
  {
    hide Repr;
    TargetExact(s, envid, true);
    if Target(s, envid, true).Some? { TargetLive(s, envid, true); }
  }

  lemma OthersFields(s: State, ev: Event, x: nat)
    requires Inv(s) && Goes(s, ev) && IdsOk(s) && s.cur.Some? && Checked(ev)
    requires x < NENV && s.envs[x].status != Free && !Own(s, x)
    ensures |Step(s, ev).value.envs| == NENV
    ensures Step(s, ev).value.envs[x] == s.envs[x].(runs := Step(s, ev).value.envs[x].runs)
  {
    hide Schedule, SysMemAlloc, SysMemMap, SysMemUnmap, Repr, Remove, InsertTail, Drop, Harmless, FreePages, MemInv;
    match ev
    case SetStatus(envid, status) => OtherDirectory(s, envid, x);
    case Destroy(envid) =>
      OtherDirectory(s, envid, x);
      var r := Target(s, envid, true);
      if r.Some? && s.cur == r { ScheduleKeepsFields(FreeEnv(s, r.value).(cur := None), x); }
    case _ => MemoryKeepsInv(s, ev);
  }

  lemma ScheduleKeepsFields(s: State, x: nat)
    requires Shaped(s) && x < NENV && Schedule(s, true).Some?
    ensures var t := Schedule(s, true).value; |t.envs| == NENV && t.envs[x] == s.envs[x].(runs := t.envs[x].runs)
  {
  }
}
