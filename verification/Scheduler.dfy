/** kern/sched.c, the scheduling part of kern/env.c, and the IPC and memory calls of kern/syscall_all.c as a state
  * machine. The code reads and writes the links of env_sched_list; list records the sequence that they are meant to
  * spell. */
module Scheduler {
  import opened Common
  import opened BitWords
  import opened Mmu
  import opened PageTables
  import opened FlatMemory
  import opened Lists
  import opened TailQueue

  datatype EnvStatus = Free | Runnable | NotRunnable

  datatype Env = Env(id: nat, parent: nat, status: EnvStatus, pri: nat, runs: nat, pgdir: nat,
                     recving: bool, dstva: nat, ipcValue: nat, ipcFrom: nat, ipcPerm: nat)

  datatype State = State(envs: seq<Env>, free: seq<nat>, list: seq<nat>, q: Queue, cur: Option<nat>, count: int,
                         ids: nat, mem: Abs)

  datatype Code = Ok | EBadEnv | EInval | ENoMem | ENoFreeEnv | ENotRecv | Id(id: nat)

  /** Kernel entries. p and t are the pages that page_alloc hands out, for a page and for a table. */
  datatype Event =
    | Tick
    | Yield
    | Exofork(p: nat)
    | SetStatus(envid: nat, status: EnvStatus)
    | Recv(dstva: nat)
    | Send(envid: nat, value: nat, srcva: nat, perm: nat, t: nat)
    | Destroy(envid: nat)
    | MemAlloc(envid: nat, va: nat, perm: nat, p: nat, t: nat)
    | MemMap(srcid: nat, srcva: nat, dstid: nat, dstva: nat, perm: nat, t: nat)
    | MemUnmap(envid: nat, va: nat)
    | Fault(va: nat, p: nat, t: nat)

  /** env_pri is unsigned, the slice counter is a signed int. */
  function AsInt(pri: nat): int { if pri % WORD < 0x8000_0000 then pri % WORD else pri % WORD - WORD }

  // ----- the kernel's operations -----

  predicate CurOk(s: State) { s.cur.Some? ==> s.cur.value < |s.envs| }

  /** Pointers lead to environments. */
  predicate Shaped(s: State) {
    && |s.envs| == NENV == |s.q.next| && Wf(s.q) && CurOk(s) && (forall e :: e in s.free ==> e < NENV)
  }

  /** mkenvid: a counter above the slot index. */
  function MkEnvId(ids: nat, e: nat): nat { (ids + 1) * 2048 % WORD + e }

  /** envid2env. The slot, or None for -E_BAD_ENV. */
  function EnvId2Env(envs: seq<Env>, cur: nat, envid: nat, checkperm: bool): (r: Option<nat>)
    requires cur < |envs| == NENV
    ensures r.Some? ==> r.value < NENV
  {
    if envid == 0 then Some(cur)
    else
      var e := envid % NENV;
      if envs[e].status == Free || envs[e].id != envid then None
      else if checkperm && envs[e].id != envs[cur].id && envs[e].parent != envs[cur].id then None
      else Some(e)
  }

  /** envid2env for the current environment. */
  function Target(s: State, envid: nat, checkperm: bool): (r: Option<nat>)
    requires Shaped(s) && s.cur.Some?
    ensures r.Some? ==> r.value < NENV
  {
    EnvId2Env(s.envs, s.cur.value, envid, checkperm)
  }

  /** env_run */
  function RunEnv(s: State, e: nat): State
    requires e < |s.envs|
  {
    s.(cur := Some(e), envs := s.envs[e := s.envs[e].(runs := s.envs[e].runs + 1)])
  }

  /** schedule leaves the current environment. */
  predicate Switches(s: State, giveUp: bool)
    requires CurOk(s)
  {
    giveUp || s.count <= 0 || s.cur.None? || s.envs[s.cur.value].status != Runnable
  }

  /** schedule moves a runnable current environment to the tail, and drops one that is not. */
  function Requeue(s: State): seq<nat>
    requires CurOk(s)
  {
    if s.cur.None? then s.list
    else Drop(s.list, s.cur.value) + (if s.envs[s.cur.value].status == Runnable then [s.cur.value] else [])
  }

  /** The same on the links. */
  function RequeueLinks(s: State): (q: Queue)
    requires Shaped(s)
    ensures Wf(q) && |q.next| == NENV
  {
    if s.cur.None? then s.q
    else
      var q := Remove(s.q, s.cur.value);
      if s.envs[s.cur.value].status == Runnable then InsertTail(q, s.cur.value) else q
  }

  /** schedule; None stops the kernel: a write through a null link, the panic on an empty list, or the assertion in
    * env_run that the chosen environment is runnable. */
  function Schedule(s: State, giveUp: bool): Option<State>
    requires Shaped(s)
  {
    if !Switches(s, giveUp) then Some(RunEnv(s.(count := s.count - 1), s.cur.value))
    else if s.cur.Some? && Wild(s.q, s.cur.value) then None
    else
      var q := RequeueLinks(s);
      if q.first.None? || s.envs[q.first.value].status != Runnable then None
      else
        var e := q.first.value;
        Some(RunEnv(s.(list := Requeue(s), q := q, count := AsInt(s.envs[e].pri) - 1), e))
  }

  /** env_alloc. Every live environment has an ASID, so asid_alloc fails when NASID are alive; the directory page that
    * env_setup_vm took stays taken. */
  function EnvAlloc(s: State, parent: nat, p: nat): (r: (State, Code, nat))
    requires Shaped(s)
    ensures Shaped(r.0) && r.2 < NENV
  {
    if s.free == [] then (s, ENoFreeEnv, 0)
    else if p !in FreePages(s.mem) then (s, ENoMem, 0)
    else
      var e := s.free[0];
      assert e in s.free && forall x :: x in s.free[1..] ==> x in s.free;
      var named := s.envs[e].(runs := 0, id := MkEnvId(s.ids, e), pgdir := p);
      var mem := AddDirectory(s.mem, p);
      if NENV - |s.free| >= NASID then (s.(envs := s.envs[e := named], ids := s.ids + 1, mem := mem), ENoFreeEnv, e)
      else (s.(envs := s.envs[e := named.(parent := parent)], ids := s.ids + 1, mem := mem, free := s.free[1..]), Ok, e)
  }

  function SysExofork(s: State, p: nat): (r: (State, Code))
    requires Shaped(s) && s.cur.Some?
    ensures Shaped(r.0)
  {
    var (t, code, e) := EnvAlloc(s, s.envs[s.cur.value].id, p);
    if code != Ok then (t, code)
    else (t.(envs := t.envs[e := t.envs[e].(status := NotRunnable, pri := t.envs[s.cur.value].pri)]), Id(t.envs[e].id))
  }

  function SysSetEnvStatus(s: State, envid: nat, status: EnvStatus): (r: (State, Code))
    requires Shaped(s) && s.cur.Some?
    ensures Shaped(r.0)
  {
    if status == Free then (s, EInval)
    else
      var r := Target(s, envid, true);
      if r.None? then (s, EBadEnv)
      else
        var e := r.value;
        var t := if s.envs[e].status == status then s
                 else if status == Runnable then s.(list := s.list + [e], q := InsertTail(s.q, e))
                 else s.(list := Drop(s.list, e), q := Remove(s.q, e));
        (t.(envs := s.envs[e := s.envs[e].(status := status)]), Ok)
  }

  /** The part of sys_ipc_recv before it gives up the CPU. */
  function Block(s: State, dstva: nat): (t: State)
    requires Shaped(s) && s.cur.Some?
    ensures Shaped(t)
  {
    var c := s.cur.value;
    s.(envs := s.envs[c := s.envs[c].(recving := true, dstva := dstva, status := NotRunnable)],
       list := Drop(s.list, c), q := Remove(s.q, c))
  }

  /** sys_ipc_try_send. The message is stored and the receiver woken before the page is looked at. */
  function SysIpcTrySend(s: State, envid: nat, value: nat, srcva: nat, perm: nat, t: nat): (r: (State, Code))
    requires Shaped(s) && s.cur.Some?
    ensures Shaped(r.0)
  {
    if srcva != 0 && IllegalVa(srcva) then (s, EInval)
    else
      var r := Target(s, envid, false);
      if r.None? then (s, EBadEnv)
      else if !s.envs[r.value].recving then (s, ENotRecv)
      else
        var e, c := r.value, s.cur.value;
        var woken := s.envs[e].(ipcValue := value, ipcFrom := s.envs[c].id, ipcPerm := OrBit(perm, 7),
            recving := false, status := Runnable);
        var u := s.(envs := s.envs[e := woken], list := s.list + [e], q := InsertTail(s.q, e));
        if srcva == 0 then (u, Ok)
        else
          var k := Key(s.envs[c].pgdir, srcva);
          if k !in s.mem.pt then (u, EInval)
          else
            var mem := MapPage(s.mem, Key(woken.pgdir, woken.dstva), Ppn(s.mem.pt[k]), perm, t);
            if mem.None? then (u, ENoMem) else (u.(mem := mem.value), Ok)
  }

  /** env_free */
  function FreeEnv(s: State, e: nat): (t: State)
    requires Shaped(s) && e < NENV
    ensures Shaped(t)
  {
    s.(envs := s.envs[e := s.envs[e].(status := Free)], free := [e] + s.free, list := Drop(s.list, e),
        q := Remove(s.q, e),
       mem := DropDirectory(s.mem, s.envs[e].pgdir))
  }

  function SysMemAlloc(s: State, envid: nat, va: nat, perm: nat, p: nat, t: nat): State
    requires Shaped(s) && s.cur.Some?
  {
    var r := Target(s, envid, true);
    if IllegalVa(va) || r.None? then s
    else s.(mem := NewPage(s.mem, Key(s.envs[r.value].pgdir, va), perm, p, t).0)
  }

  function SysMemMap(s: State, srcid: nat, srcva: nat, dstid: nat, dstva: nat, perm: nat, t: nat): State
    requires Shaped(s) && s.cur.Some?
  {
    var src, dst := Target(s, srcid, true), Target(s, dstid, true);
    if IllegalVa(srcva) || IllegalVa(dstva) || src.None? || dst.None? then s
    else
      var k := Key(s.envs[src.value].pgdir, srcva);
      if k !in s.mem.pt then s
      else
        var mem := MapPage(s.mem, Key(s.envs[dst.value].pgdir, dstva), Ppn(s.mem.pt[k]), perm, t);
        if mem.None? then s else s.(mem := mem.value)
  }

  function SysMemUnmap(s: State, envid: nat, va: nat): State
    requires Shaped(s) && s.cur.Some?
  {
    var r := Target(s, envid, true);
    if IllegalVa(va) || r.None? then s else s.(mem := UnmapPage(s.mem, Key(s.envs[r.value].pgdir, va)))
  }

  /** A page fault of the current environment below UTOP; None when passive_alloc panics. */
  function PageFault(s: State, va: nat, p: nat, t: nat): Option<State>
    requires Shaped(s) && s.cur.Some?
  {
    var k := Key(s.envs[s.cur.value].pgdir, va);
    if va >= UTOP || k in s.mem.pt then Some(s)
    else
      var (mem, ok) := NewPage(s.mem, k, PTE_D, p, t);
      if Forbidden(va) || !ok then None else Some(s.(mem := mem))
  }

  /** One kernel entry. None stops the kernel; without a current environment only the timer can enter. */
  function Step(s: State, ev: Event): Option<State>
    requires Shaped(s)
  {
    if ev.Tick? then Schedule(s, false)
    else if s.cur.None? then Some(s)
    else match ev
      case Yield => Schedule(s, true)
      case Exofork(p) => Some(SysExofork(s, p).0)
      case SetStatus(envid, status) => Some(SysSetEnvStatus(s, envid, status).0)
      case Recv(dstva) =>
        if dstva != 0 && IllegalVa(dstva) then Some(s)
        else if Wild(s.q, s.cur.value) then None
        else Schedule(Block(s, dstva), true)
      case Send(envid, value, srcva, perm, t) => Some(SysIpcTrySend(s, envid, value, srcva, perm, t).0)
      case Destroy(envid) =>
        var r := Target(s, envid, true);
        if r.None? then Some(s)
        else if Wild(s.q, r.value) then None
        else if s.cur == r then Schedule(FreeEnv(s, r.value).(cur := None), true)
        else Some(FreeEnv(s, r.value))
      case MemAlloc(envid, va, perm, p, t) => Some(SysMemAlloc(s, envid, va, perm, p, t))
      case MemMap(srcid, srcva, dstid, dstva, perm, t) => Some(SysMemMap(s, srcid, srcva, dstid, dstva, perm, t))
      case MemUnmap(envid, va) => Some(SysMemUnmap(s, envid, va))
      case Fault(va, p, t) => PageFault(s, va, p, t)
  }

  // ----- the invariant of kern/env.c:14 -----

  /** An environment is on the list, once, exactly when it is runnable; a receiver is never runnable. */
  ghost predicate ListInv(s: State) {
    && |s.envs| == NENV
    && NoDup(s.list) && (forall e :: e in s.list ==> e < NENV)
    && (forall e :: 0 <= e < NENV ==> (e in s.list <==> s.envs[e].status == Runnable))
    && NoDup(s.free) && (forall e :: e in s.free ==> e < NENV)
    && (forall e :: 0 <= e < NENV ==> (e in s.free <==> s.envs[e].status == Free))
    && (forall e :: 0 <= e < NENV && s.envs[e].recving ==> s.envs[e].status != Runnable)
    && (s.cur.Some? ==> s.cur.value < NENV && s.envs[s.cur.value].status != Free && !s.envs[s.cur.value].recving)
  }

  /** Live environments have directories of their own. */
  ghost predicate MemInv(envs: seq<Env>, mem: Abs) {
    && (forall e :: 0 <= e < |envs| && envs[e].status != Free ==> envs[e].pgdir in mem.dirs)
    && (forall e, f :: 0 <= e < f < |envs| && envs[e].status != Free && envs[f].status != Free ==>
        envs[e].pgdir != envs[f].pgdir)
  }

  /** The links spell the list, the list is the runnable environments, and address spaces are separate. */
  ghost predicate Inv(s: State) {
    Shaped(s) && ListInv(s) && Repr(s.q, s.list) && MemInv(s.envs, s.mem)
  }

  /** Removing x in this state does what the list says: x is queued, or its stale links do no harm. */
  ghost predicate Removable(s: State, x: nat)
    requires Shaped(s) && x < NENV
  {
    x in s.list || Harmless(s.q, s.list, x)
  }

  /** schedule may be called: the list is in order, and the current environment can be taken off it. */
  ghost predicate Schedulable(s: State, giveUp: bool) {
    Inv(s.(cur := None)) && CurOk(s) && (s.cur.Some? && Switches(s, giveUp) ==> Removable(s, s.cur.value))
  }

  /** The requeued list has the same members once. */
  lemma RequeueKeeps(s: State)
    requires CurOk(s) && NoDup(s.list)
    requires s.cur.Some? ==> (s.cur.value in s.list <==> s.envs[s.cur.value].status == Runnable)
    ensures NoDup(Requeue(s)) && forall e :: e in Requeue(s) <==> e in s.list
  {
    if s.cur.Some? {
      var c := s.cur.value;
      DropMembers(s.list, c);
      AppendNoDup(Drop(s.list, c), c);
      assert Drop(s.list, c) + [] == Drop(s.list, c);
    }
  }

  lemma RequeueRepr(s: State)
    requires Shaped(s) && Repr(s.q, s.list) && (s.cur.Some? ==> Removable(s, s.cur.value))
    ensures Repr(RequeueLinks(s), Requeue(s)) && (s.cur.Some? ==> !Wild(s.q, s.cur.value))
  {
    hide Repr, Remove, InsertTail, Harmless, Drop;
    if s.cur.Some? {
      var c := s.cur.value;
      SafeRemove(s.q, s.list, c);
      if s.envs[c].status == Runnable { InsertTailRepr(Remove(s.q, c), Drop(s.list, c), c); }
      assert Drop(s.list, c) + [] == Drop(s.list, c);
    }
  }

  /** schedule in terms of the list: the head of the requeued list is picked, and the kernel panics exactly when that is
    * empty. */
  lemma SchedulePicks(s: State, giveUp: bool)
    requires Schedulable(s, giveUp)
    ensures Switches(s, giveUp) ==> Repr(RequeueLinks(s), Requeue(s))
    ensures Switches(s, giveUp) && Requeue(s) != [] ==> Requeue(s)[0] < NENV
    ensures Switches(s, giveUp) ==>
              Schedule(s, giveUp) ==
              if Requeue(s) == [] then None
              else Some(RunEnv(s.(list := Requeue(s), q := RequeueLinks(s),
                  count := AsInt(s.envs[Requeue(s)[0]].pri) - 1), Requeue(s)[0]))
  {
    hide Remove, InsertTail, Harmless, Drop, NoDup, MemInv;
    if Switches(s, giveUp) {
      RequeueRepr(s);
      RequeueKeeps(s);
      var l := Requeue(s);
      if l != [] { assert l[0] in l; }
    }
  }

  lemma ScheduleKeepsInv(s: State, giveUp: bool)
    requires Schedulable(s, giveUp)
    ensures Schedule(s, giveUp).Some? ==> Inv(Schedule(s, giveUp).value) && Schedule(s, giveUp).value.cur.Some?
  {
    hide Remove, InsertTail, Harmless, Drop, Repr, Schedule;
    SchedulePicks(s, giveUp);
    RequeueKeeps(s);
    if Switches(s, giveUp) {
      var l := Requeue(s);
      if l != [] { assert l[0] in l; }
    } else {
      StaysOn(s, giveUp);
    }
  }

  lemma StaysOn(s: State, giveUp: bool)
    requires Shaped(s) && !Switches(s, giveUp)
    ensures Schedule(s, giveUp) == Some(RunEnv(s.(count := s.count - 1), s.cur.value))
  {
  }

  lemma BlockKeepsInv(s: State, dstva: nat)
    requires Inv(s) && s.cur.Some? && Removable(s, s.cur.value)
    ensures Inv(Block(s, dstva).(cur := None)) && Removable(Block(s, dstva), s.cur.value) && !Wild(s.q, s.cur.value)
  {
    hide Remove, Harmless, Drop, Repr;
    DropMembers(s.list, s.cur.value);
    SafeRemove(s.q, s.list, s.cur.value);
  }

  lemma FreeEnvKeepsInv(s: State, e: nat)
    requires Inv(s) && e < NENV && s.envs[e].status != Free && Removable(s, e)
    ensures Inv(FreeEnv(s, e).(cur := if s.cur == Some(e) then None else s.cur)) && !Wild(s.q, e)
  {
    hide Remove, Harmless, Drop, Repr;
    DropMembers(s.list, e);
    SafeRemove(s.q, s.list, e);
    PrependNoDup(s.free, e);
  }

  lemma ExoforkKeepsInv(s: State, p: nat)
    requires Inv(s) && s.cur.Some?
    ensures Inv(SysExofork(s, p).0)
  {
    hide Repr, Wf, FreePages;
    if s.free != [] {
      TailNoDup(s.free);
      if p in FreePages(s.mem) { FreeIsNoDirectory(s.mem, p); }
    }
  }

  lemma SetStatusKeepsInv(s: State, envid: nat, status: EnvStatus)
    requires Inv(s) && s.cur.Some?
    requires status == Runnable && Target(s, envid, true).Some? ==> !s.envs[Target(s, envid, true).value].recving
    ensures Inv(SysSetEnvStatus(s, envid, status).0)
  {
    hide Remove, InsertTail, Harmless, Drop, Repr;
    var r := Target(s, envid, true);
    if r.Some? {
      DropMembers(s.list, r.value);
      if r.value in s.list {
        SafeRemove(s.q, s.list, r.value);
      } else {
        AppendNoDup(s.list, r.value);
        InsertTailRepr(s.q, s.list, r.value);
      }
    }
  }

  lemma SendKeepsInv(s: State, envid: nat, value: nat, srcva: nat, perm: nat, t: nat)
    requires Inv(s) && s.cur.Some?
    ensures Inv(SysIpcTrySend(s, envid, value, srcva, perm, t).0)
  {
    hide InsertTail, Repr, FreePages, Wf, MkPte, OrBit;
    var r := Target(s, envid, false);
    if r.Some? && r.value !in s.list {
      AppendNoDup(s.list, r.value);
      InsertTailRepr(s.q, s.list, r.value);
    }
  }

  lemma MemoryKeepsInv(s: State, ev: Event)
    requires Inv(s) && s.cur.Some? && (ev.MemAlloc? || ev.MemMap? || ev.MemUnmap? || ev.Fault?)
    ensures Step(s, ev).Some? ==> Inv(Step(s, ev).value) && Step(s, ev).value == s.(mem := Step(s, ev).value.mem)
                                  && Step(s, ev).value.mem.dirs == s.mem.dirs
  {
    hide Repr, Wf, FreePages, ListInv, Key, Inv, Shaped;
    InvShaped(s);
    if Step(s, ev).Some? { NewMemory(s, Step(s, ev).value.mem); }
  }

  lemma InvShaped(s: State)
    requires Inv(s)
    ensures Shaped(s)
  {
  }

  /** Memory may change as long as the directories stay. */
  lemma NewMemory(s: State, mem: Abs)
    requires Inv(s) && mem.dirs == s.mem.dirs
    ensures Inv(s.(mem := mem))
  {
    hide Repr;
  }

  // ----- which runs -----

  /** The environment that the event takes off the list. */
  function Victim(s: State, ev: Event): (x: Option<nat>)
    requires Shaped(s)
    ensures x.Some? ==> x.value < NENV
  {
    if ev.Tick? then (if Switches(s, false) then s.cur else None)
    else if s.cur.None? then None
    else if ev.Yield? || (ev.Recv? && !(ev.dstva != 0 && IllegalVa(ev.dstva))) then s.cur
    else if ev.Destroy? then Target(s, ev.envid, true)
    else None
  }

  /** The event does not make an environment runnable that is blocked in receive. */
  predicate StatusAllowed(s: State, ev: Event)
    requires Shaped(s)
  {
    ev.SetStatus? && ev.status == Runnable && s.cur.Some? && Target(s, ev.envid, true).Some? ==>
      !s.envs[Target(s, ev.envid, true).value].recving
  }

  /** The event takes nothing off the list whose stale links would do harm. */
  ghost predicate LinksAllowed(s: State, ev: Event)
    requires Shaped(s)
  {
    Victim(s, ev).Some? ==> Removable(s, Victim(s, ev).value)
  }

  ghost predicate Allowed(s: State, ev: Event)
    requires Shaped(s)
  {
    StatusAllowed(s, ev) && LinksAllowed(s, ev)
  }

  /** Every allowed kernel entry keeps the invariant. */
  lemma StepKeepsInv(s: State, ev: Event)
    requires Inv(s) && Allowed(s, ev)
    ensures Step(s, ev).Some? ==> Inv(Step(s, ev).value)
  {
    hide Repr, Schedule, Harmless, SysExofork, SysSetEnvStatus, SysIpcTrySend, Block, FreeEnv;
    if ev.Tick? {
      ScheduleKeepsInv(s, false);
    } else if s.cur.Some? {
      match ev
      case Yield => ScheduleKeepsInv(s, true);
      case Exofork(p) => ExoforkKeepsInv(s, p);
      case SetStatus(envid, status) => SetStatusKeepsInv(s, envid, status);
      case Recv(dstva) =>
        if !(dstva != 0 && IllegalVa(dstva)) {
          BlockKeepsInv(s, dstva);
          BlockCur(s, dstva);
          ScheduleKeepsInv(Block(s, dstva), true);
        }
      case Send(envid, value, srcva, perm, t) => SendKeepsInv(s, envid, value, srcva, perm, t);
      case Destroy(envid) =>
        var r := Target(s, envid, true);
        if r.Some? {
          TargetLive(s, envid, true);
          FreeEnvKeepsInv(s, r.value);
          FreeEnvCur(s, r.value);
          if s.cur == r { ScheduleKeepsInv(FreeEnv(s, r.value).(cur := None), true); }
        }
      case _ => MemoryKeepsInv(s, ev);
    }
  }

  lemma BlockCur(s: State, dstva: nat)
    requires Shaped(s) && s.cur.Some?
    ensures Block(s, dstva).cur == s.cur
  {
  }

  lemma FreeEnvCur(s: State, e: nat)
    requires Shaped(s) && e < NENV
    ensures FreeEnv(s, e).cur == s.cur
  {
  }

  lemma TargetLive(s: State, envid: nat, checkperm: bool)
    requires Inv(s) && s.cur.Some? && Target(s, envid, checkperm).Some?
    ensures s.envs[Target(s, envid, checkperm).value].status != Free
  {
  }

  // ----- boot -----

  /** The queue after TAILQ_INIT: the link fields of struct Env are zero. */
  function EmptyQueue(): Queue {
    Queue(None, First, seq(NENV, _ => None), seq(NENV, _ => Null))
  }

  /** env_init: every slot free, in order, and nobody receiving; mem is the memory that page_init and env_init leave. */
  function Boot(mem: Abs): State {
    State(seq(NENV, _ => Env(0, 0, Free, 0, 0, 0, false, 0, 0, 0, 0)), seq(NENV, i => i), [], EmptyQueue(), None, 0, 0,
        mem)
  }

  /** env_create: during boot only; the new environment joins the head of the list. */
  function EnvCreate(s: State, pri: nat, p: nat): (t: State)
    requires Shaped(s)
    ensures Shaped(t)
  {
    var (t, code, e) := EnvAlloc(s, 0, p);
    if code != Ok then t
    else t.(envs := t.envs[e := t.envs[e].(pri := pri, status := Runnable)], list := [e] + t.list,
        q := InsertHead(t.q, e))
  }

  /** Only living environments wait for messages. */
  ghost predicate LiveReceivers(s: State)
    requires |s.envs| == NENV
  {
    forall e :: 0 <= e < NENV && s.envs[e].recving ==> s.envs[e].status != Free
  }

  lemma BootInv(mem: Abs)
    ensures Inv(Boot(mem)) && LiveReceivers(Boot(mem)) && Boot(mem).cur.None?
    ensures |Boot(mem).free| == NENV && forall e :: 0 <= e < NENV ==> Boot(mem).free[e] == e
  {
    forall e | 0 <= e < NENV ensures e in Boot(mem).free { assert Boot(mem).free[e] == e; }
  }

  lemma CreateKeepsInv(s: State, pri: nat, p: nat)
    requires Inv(s) && LiveReceivers(s) && s.cur.None?
    ensures Inv(EnvCreate(s, pri, p)) && LiveReceivers(EnvCreate(s, pri, p)) && EnvCreate(s, pri, p).cur.None?
  {
    hide Repr, Wf, FreePages, InsertHead;
    if s.free != [] {
      TailNoDup(s.free);
      PrependNoDup(s.list, s.free[0]);
      InsertHeadRepr(s.q, s.list, s.free[0]);
      if p in FreePages(s.mem) { FreeIsNoDirectory(s.mem, p); }
    }
  }
}
