/** Whole runs: every message is delivered exactly once, and what becomes of its page. */
module Runs {
  import opened Common
  import opened BitWords
  import opened Mmu
  import opened FlatMemory
  import opened Lists
  import opened TailQueue
  import opened Scheduler
  import PT = PageTables

  /** The state after a run; None when the kernel stops or the run does what Allowed forbids. */
  ghost function Exec(s: State, evs: seq<Event>): (r: Option<State>)
    requires Inv(s)
    ensures r.Some? ==> Inv(r.value)
    decreases |evs|
  {
    if evs == [] then Some(s)
    else if !Allowed(s, evs[0]) || Step(s, evs[0]).None? then None
    else
      StepKeepsInv(s, evs[0]);
      Exec(Step(s, evs[0]).value, evs[1..])
  }

  /** One step of a run that goes on. */
  ghost predicate Goes(s: State, ev: Event)
    requires Inv(s)
  {
    Allowed(s, ev) && Step(s, ev).Some?
  }

  // ----- messages -----

  /** The event makes r the receiver of a message; the code returned to the sender does not matter. */
  predicate Delivers(s: State, ev: Event, r: nat)
    requires Shaped(s) && r < NENV
  {
    ev.Send? && s.cur.Some? && (ev.srcva == 0 || !IllegalVa(ev.srcva))
    && Target(s, ev.envid, false) == Some(r) && s.envs[r].recving
  }

  /** r blocks in sys_ipc_recv. */
  predicate Receives(s: State, ev: Event, r: nat) {
    ev.Recv? && s.cur == Some(r) && (ev.dstva == 0 || !IllegalVa(ev.dstva))
  }

  predicate Kills(s: State, ev: Event, r: nat)
    requires Shaped(s)
  {
    ev.Destroy? && s.cur.Some? && Target(s, ev.envid, true) == Some(r)
  }

  /** Nothing about r's mailbox differs, and r is the same environment. */
  predicate SameMailbox(s: State, t: State, r: nat)
    requires r < |s.envs| && r < |t.envs|
  {
    && t.envs[r].recving == s.envs[r].recving && t.envs[r].dstva == s.envs[r].dstva
    && t.envs[r].ipcValue == s.envs[r].ipcValue && t.envs[r].ipcFrom == s.envs[r].ipcFrom
    && t.envs[r].ipcPerm == s.envs[r].ipcPerm && SameEnv(s, t, r)
  }

  /** A live slot keeps its environment. */
  predicate SameEnv(s: State, t: State, r: nat)
    requires r < |s.envs| && r < |t.envs|
  {
    s.envs[r].status != Free ==>
        t.envs[r].status != Free && t.envs[r].id == s.envs[r].id && t.envs[r].pgdir == s.envs[r].pgdir
  }

  lemma ScheduleMailbox(s: State, giveUp: bool, r: nat)
    requires Shaped(s) && r < NENV
    ensures Schedule(s, giveUp).Some? ==>
              |Schedule(s, giveUp).value.envs| == NENV && SameMailbox(s, Schedule(s, giveUp).value, r)
    ensures Schedule(s, giveUp).Some? ==> Schedule(s, giveUp).value.envs[r].status == s.envs[r].status
    ensures Schedule(s, giveUp).Some? ==> Schedule(s, giveUp).value.mem == s.mem
  {
  }

  lemma ExoforkMailbox(s: State, p: nat, r: nat)
    requires Inv(s) && s.cur.Some? && r < NENV
    ensures SameMailbox(s, SysExofork(s, p).0, r)
    ensures s.envs[r].status == Free ==> SysExofork(s, p).0.envs[r].recving == s.envs[r].recving
  {
    hide Repr, Wf, FreePages;
    if s.free != [] { assert s.free[0] in s.free; }
  }

  /** What one step does to one mailbox. */
  lemma StepMailbox(s: State, ev: Event, r: nat)
    requires Inv(s) && Goes(s, ev) && r < NENV
    ensures var t := Step(s, ev).value;
            && |t.envs| == NENV
            && (Delivers(s, ev, r) ==> s.envs[r].recving && !t.envs[r].recving && t.envs[r].dstva == s.envs[r].dstva
                                       && t.envs[r].ipcValue == ev.value && t.envs[r].ipcFrom == s.envs[s.cur.value].id
                                       && t.envs[r].ipcPerm == OrBit(ev.perm, 7))
            && (Receives(s, ev, r) ==> !s.envs[r].recving && t.envs[r].recving && t.envs[r].dstva == ev.dstva)
            && (!Delivers(s, ev, r) && !Receives(s, ev, r) && !Kills(s, ev, r) ==> SameMailbox(s, t, r))
            && (!Kills(s, ev, r) ==> SameEnv(s, t, r))
            && (Kills(s, ev, r) ==>
                t.envs[r].recving == s.envs[r].recving && s.envs[r].status != Free && t.envs[r].status == Free)
  {
    hide Schedule, SysExofork, SysIpcTrySend, SysSetEnvStatus, SysMemAlloc, SysMemMap, SysMemUnmap, PageFault,
      Repr, Remove, InsertTail, Drop, Harmless, FreePages, MemInv;
    if ev.Tick? {
      ScheduleMailbox(s, false, r);
    } else if s.cur.Some? {
      match ev
      case Yield => ScheduleMailbox(s, true, r);
      case Exofork(p) => ExoforkMailbox(s, p, r);
      case SetStatus(envid, status) => StatusMailbox(s, envid, status, r);
      case Send(_, _, _, _, _) => SendMailbox(s, ev, r);
      case Recv(dstva) => if !(dstva != 0 && IllegalVa(dstva)) { ScheduleMailbox(Block(s, dstva), true, r); }
      case Destroy(envid) =>
        var x := Target(s, envid, true);
        if x.Some? && s.cur == x { ScheduleMailbox(FreeEnv(s, x.value).(cur := None), true, r); }
      case _ => MemoryKeepsInv(s, ev);
    }
  }

  lemma StatusMailbox(s: State, envid: nat, status: EnvStatus, r: nat)
    requires Inv(s) && s.cur.Some? && r < NENV
    ensures SameMailbox(s, SysSetEnvStatus(s, envid, status).0, r)
  {
    hide Repr, Wf, Remove, InsertTail, Drop;
  }

  lemma SendMailbox(s: State, ev: Event, r: nat)
    requires Inv(s) && ev.Send? && s.cur.Some? && r < NENV
    ensures var t := SysIpcTrySend(s, ev.envid, ev.value, ev.srcva, ev.perm, ev.t).0;
            && SameEnv(s, t, r)
            && (Delivers(s, ev, r) ==> !t.envs[r].recving && t.envs[r].dstva == s.envs[r].dstva
                                       && t.envs[r].ipcValue == ev.value && t.envs[r].ipcFrom == s.envs[s.cur.value].id
                                       && t.envs[r].ipcPerm == OrBit(ev.perm, 7))
            && (!Delivers(s, ev, r) ==> SameMailbox(s, t, r))
  {
    hide Repr, Wf, InsertTail, FreePages;
  }

  ghost function Deliveries(s: State, evs: seq<Event>, r: nat): nat
    requires Inv(s) && Exec(s, evs).Some? && r < NENV
    decreases |evs|
  {
    if evs == [] then 0
    else
      StepKeepsInv(s, evs[0]);
      (if Delivers(s, evs[0], r) then 1 else 0) + Deliveries(Step(s, evs[0]).value, evs[1..], r)
  }

  ghost function Receipts(s: State, evs: seq<Event>, r: nat): nat
    requires Inv(s) && Exec(s, evs).Some? && r < NENV
    decreases |evs|
  {
    if evs == [] then 0
    else
      StepKeepsInv(s, evs[0]);
      (if Receives(s, evs[0], r) then 1 else 0) + Receipts(Step(s, evs[0]).value, evs[1..], r)
  }

  ghost predicate Spared(s: State, evs: seq<Event>, r: nat)
    requires Inv(s) && Exec(s, evs).Some?
    decreases |evs|
  {
    evs == [] ||
    (StepKeepsInv(s, evs[0]); !Kills(s, evs[0], r) && Spared(Step(s, evs[0]).value, evs[1..], r))
  }

  function Pending(s: State, r: nat): nat
    requires r < |s.envs|
  {
    if s.envs[r].recving then 1 else 0
  }

  /** Messages are conserved, slot by slot: over any run each receive is answered by exactly one delivery or still
    * pending. */
  lemma {:induction false} SlotConservation(s: State, evs: seq<Event>, r: nat)
    requires Inv(s) && Exec(s, evs).Some? && r < NENV
    ensures Deliveries(s, evs, r) + Pending(Exec(s, evs).value, r) == Receipts(s, evs, r) + Pending(s, r)
    decreases |evs|
  {
    hide Step, Inv, Allowed;
    InvShaped(s);
    if evs != [] {
      StepKeepsInv(s, evs[0]);
      StepMailbox(s, evs[0], r);
      SlotConservation(Step(s, evs[0]).value, evs[1..], r);
    }
  }

  // ----- by environment -----

  /** The slot of an id holds that environment, alive. */
  predicate IsAlive(s: State, id: nat)
    requires |s.envs| == NENV
  {
    s.envs[id % NENV].id == id && s.envs[id % NENV].status != Free
  }

  predicate DeliversTo(s: State, ev: Event, id: nat)
    requires Shaped(s)
  {
    IsAlive(s, id) && Delivers(s, ev, id % NENV)
  }

  predicate ReceivesAs(s: State, ev: Event, id: nat)
    requires Shaped(s)
  {
    IsAlive(s, id) && Receives(s, ev, id % NENV)
  }

  function PendingFor(s: State, id: nat): nat
    requires |s.envs| == NENV
  {
    if IsAlive(s, id) && s.envs[id % NENV].recving then 1 else 0
  }

  /** The event does not destroy an environment that waits for a message. */
  predicate SparesReceivers(s: State, ev: Event)
    requires Shaped(s)
  {
    ev.Destroy? && s.cur.Some? && Target(s, ev.envid, true).Some? ==> !s.envs[Target(s, ev.envid, true).value].recving
  }

  /** Only living environments wait, exactly as long as no receiver is destroyed. */
  lemma LiveReceiversExact(s: State, ev: Event)
    requires Inv(s) && LiveReceivers(s) && Goes(s, ev)
    ensures |Step(s, ev).value.envs| == NENV && (LiveReceivers(Step(s, ev).value) <==> SparesReceivers(s, ev))
  {
    hide Step, Inv, Allowed;
    InvShaped(s);
    InvListed(s);
    var t := Step(s, ev).value;
    StepMailbox(s, ev, 0);
    forall r | 0 <= r < NENV && !Kills(s, ev, r) && t.envs[r].recving ensures t.envs[r].status != Free {
      StepMailbox(s, ev, r);
    }
    if ev.Destroy? && s.cur.Some? && Target(s, ev.envid, true).Some? {
      var x := Target(s, ev.envid, true).value;
      StepMailbox(s, ev, x);
    }
  }

  lemma InvListed(s: State)
    requires Inv(s)
    ensures ListInv(s)
  {
  }

  lemma StepPending(s: State, ev: Event, id: nat)
    requires Inv(s) && LiveReceivers(s) && Goes(s, ev) && SparesReceivers(s, ev)
    ensures |Step(s, ev).value.envs| == NENV
    ensures (if DeliversTo(s, ev, id) then 1 else 0) + PendingFor(Step(s, ev).value, id)
            == (if ReceivesAs(s, ev, id) then 1 else 0) + PendingFor(s, id)
  {
    hide Step, Inv, Allowed;
    InvShaped(s);
    InvListed(s);
    StepMailbox(s, ev, id % NENV);
  }

  ghost function DeliveriesTo(s: State, evs: seq<Event>, id: nat): nat
    requires Inv(s) && Exec(s, evs).Some?
    decreases |evs|
  {
    if evs == [] then 0
    else
      StepKeepsInv(s, evs[0]);
      (if DeliversTo(s, evs[0], id) then 1 else 0) + DeliveriesTo(Step(s, evs[0]).value, evs[1..], id)
  }

  ghost function ReceiptsOf(s: State, evs: seq<Event>, id: nat): nat
    requires Inv(s) && Exec(s, evs).Some?
    decreases |evs|
  {
    if evs == [] then 0
    else
      StepKeepsInv(s, evs[0]);
      (if ReceivesAs(s, evs[0], id) then 1 else 0) + ReceiptsOf(Step(s, evs[0]).value, evs[1..], id)
  }

  ghost predicate ReceiversSpared(s: State, evs: seq<Event>)
    requires Inv(s) && Exec(s, evs).Some?
    decreases |evs|
  {
    evs == [] ||
    (StepKeepsInv(s, evs[0]); SparesReceivers(s, evs[0]) && ReceiversSpared(Step(s, evs[0]).value, evs[1..]))
  }

  /** Messages are conserved, environment by environment, over every run that destroys no receiver. */
  lemma {:induction false} DeliveryConservation(s: State, evs: seq<Event>, id: nat)
    requires Inv(s) && LiveReceivers(s) && Exec(s, evs).Some? && ReceiversSpared(s, evs)
    ensures DeliveriesTo(s, evs, id) + PendingFor(Exec(s, evs).value, id) == ReceiptsOf(s, evs, id) + PendingFor(s, id)
    ensures LiveReceivers(Exec(s, evs).value)
    decreases |evs|
  {
    hide Step, Inv, Allowed;
    InvShaped(s);
    if evs != [] {
      StepKeepsInv(s, evs[0]);
      StepPending(s, evs[0], id);
      LiveReceiversExact(s, evs[0]);
      DeliveryConservation(Step(s, evs[0]).value, evs[1..], id);
    }
  }

  /** As long as no receiver has been destroyed, a child forked now can be started at any later time at which it has not
    * itself called receive. */
  lemma ChildCanStart(s: State, p: nat, evs: seq<Event>, envid: nat)
    requires Inv(s) && LiveReceivers(s) && s.cur.Some? && s.free != [] && s.free[0] < NENV
    requires Inv(SysExofork(s, p).0) && Exec(SysExofork(s, p).0, evs).Some?
    requires Receipts(SysExofork(s, p).0, evs, s.free[0]) == 0
    requires var t := Exec(SysExofork(s, p).0, evs).value; t.cur.Some? && Target(t, envid, true) == Some(s.free[0])
    ensures Allowed(Exec(SysExofork(s, p).0, evs).value, SetStatus(envid, Runnable))
  {
    hide Step, Repr, SysExofork;
    var e := s.free[0];
    assert e in s.free;
    ExoforkMailbox(s, p, e);
    SlotConservation(SysExofork(s, p).0, evs, e);
  }

  // ----- pages -----

  /** What an event does to the page-table word at a key. */
  datatype Change = Same | Gone | Now(w: nat)

  /** The event, read off its own arguments: which key it writes, and what. */
  function ChangeAt(s: State, ev: Event, k: PT.Pg): Change
    requires Shaped(s)
  {
    if s.cur.None? then Same
    else match ev
      case Send(envid, value, srcva, perm, t) =>
        var r, src := Target(s, envid, false), Key(s.envs[s.cur.value].pgdir, srcva);
        if r.Some? && Delivers(s, ev, r.value) && k == Key(s.envs[r.value].pgdir, s.envs[r.value].dstva) && srcva != 0
           && src in s.mem.pt && HasTable(s.mem, k, t)
        then Now(MkPte(Ppn(s.mem.pt[src]), perm)) else Same
      case MemAlloc(envid, va, perm, p, t) =>
        var r := Target(s, envid, true);
        if !IllegalVa(va) && r.Some? && k == Key(s.envs[r.value].pgdir, va) && NewPage(s.mem, k, perm, p, t).1
        then Now(MkPte(p, perm)) else Same
      case MemMap(srcid, srcva, dstid, dstva, perm, t) =>
        var src, dst := Target(s, srcid, true), Target(s, dstid, true);
        if !IllegalVa(srcva) && !IllegalVa(dstva) && src.Some? && dst.Some? && k == Key(s.envs[dst.value].pgdir, dstva)
           && Key(s.envs[src.value].pgdir, srcva) in s.mem.pt && HasTable(s.mem, k, t)
        then Now(MkPte(Ppn(s.mem.pt[Key(s.envs[src.value].pgdir, srcva)]), perm)) else Same
      case MemUnmap(envid, va) =>
        var r := Target(s, envid, true);
        if !IllegalVa(va) && r.Some? && k == Key(s.envs[r.value].pgdir, va) then Gone else Same
      case Fault(va, p, t) =>
        if va < UTOP && k == Key(s.envs[s.cur.value].pgdir, va) && k !in s.mem.pt then Now(MkPte(p, PTE_D)) else Same
      case Destroy(envid) =>
        var r := Target(s, envid, true);
        if r.Some? && k.d == s.envs[r.value].pgdir then Gone else Same
      case _ => Same
  }

  /** page_insert at k finds its table or a page for one. */
  predicate HasTable(a: PT.Abs, k: PT.Pg, t: nat) { PT.Pd(k.d, k.x) in a.tab || t in FreePages(a) }

  function WordAt(a: PT.Abs, k: PT.Pg): Option<nat> { if k in a.pt then Some(a.pt[k]) else None }

  function Apply(c: Change, w: Option<nat>): Option<nat> {
    match c case Same => w case Gone => None case Now(v) => Some(v)
  }

  lemma MapPageAt(a: PT.Abs, k: PT.Pg, pp: nat, perm: nat, t: nat, j: PT.Pg)
    ensures MapPage(a, k, pp, perm, t).Some? <==> HasTable(a, k, t)
    ensures HasTable(a, k, t) ==>
              WordAt(MapPage(a, k, pp, perm, t).value, j) == if j == k then Some(MkPte(pp, perm)) else WordAt(a, j)
  {
    hide FreePages, MkPte;
  }

  lemma NewPageAt(a: PT.Abs, k: PT.Pg, perm: nat, p: nat, t: nat, j: PT.Pg)
    ensures var (b, ok) := NewPage(a, k, perm, p, t);
            WordAt(b, j) == if j == k && ok then Some(MkPte(p, perm)) else WordAt(a, j)
  {
    hide FreePages, MkPte, MapPage, HasTable;
    MapPageAt(a.(held := a.held + {p}), k, p, perm, t, j);
  }

  lemma SendChange(s: State, ev: Event, k: PT.Pg)
    requires Inv(s) && s.cur.Some? && ev.Send?
    ensures WordAt(SysIpcTrySend(s, ev.envid, ev.value, ev.srcva, ev.perm, ev.t).0.mem, k)
            == Apply(ChangeAt(s, ev, k), WordAt(s.mem, k))
  {
    hide Repr, InsertTail, FreePages, MkPte, MemInv, ListInv, MapPage, HasTable, Wf;
    var r, src := Target(s, ev.envid, false), Key(s.envs[s.cur.value].pgdir, ev.srcva);
    if r.Some? && src in s.mem.pt {
      var dst := Key(s.envs[r.value].pgdir, s.envs[r.value].dstva);
      MapPageAt(s.mem, dst, Ppn(s.mem.pt[src]), ev.perm, ev.t, k);
    }
  }

  lemma AllocChange(s: State, ev: Event, k: PT.Pg)
    requires Inv(s) && s.cur.Some? && (ev.MemAlloc? || ev.Fault?) && Step(s, ev).Some?
    ensures WordAt(Step(s, ev).value.mem, k) == Apply(ChangeAt(s, ev, k), WordAt(s.mem, k))
  {
    hide Repr, FreePages, MkPte, MemInv, ListInv, NewPage, Wf;
    if ev.MemAlloc? {
      var r := Target(s, ev.envid, true);
      if r.Some? { NewPageAt(s.mem, Key(s.envs[r.value].pgdir, ev.va), ev.perm, ev.p, ev.t, k); }
    } else {
      NewPageAt(s.mem, Key(s.envs[s.cur.value].pgdir, ev.va), PTE_D, ev.p, ev.t, k);
    }
  }

  lemma ShareChange(s: State, ev: Event, k: PT.Pg)
    requires Inv(s) && s.cur.Some? && ev.MemMap?
    ensures WordAt(Step(s, ev).value.mem, k) == Apply(ChangeAt(s, ev, k), WordAt(s.mem, k))
  {
    hide Repr, FreePages, MkPte, MemInv, ListInv, MapPage, HasTable, Wf;
    var src, dst := Target(s, ev.srcid, true), Target(s, ev.dstid, true);
    if src.Some? && dst.Some? && Key(s.envs[src.value].pgdir, ev.srcva) in s.mem.pt {
      MapPageAt(s.mem, Key(s.envs[dst.value].pgdir, ev.dstva), Ppn(s.mem.pt[Key(s.envs[src.value].pgdir, ev.srcva)]),
          ev.perm, ev.t, k);
    }
  }

  /** Every step changes every key exactly as ChangeAt says: sends, memory calls, faults and deaths, and nothing
    * else. */
  lemma StepChange(s: State, ev: Event, k: PT.Pg)
    requires Inv(s) && Step(s, ev).Some?
    ensures WordAt(Step(s, ev).value.mem, k) == Apply(ChangeAt(s, ev, k), WordAt(s.mem, k))
  {
    hide Repr, Remove, InsertTail, Drop, FreePages, MkPte, Schedule, MemInv, ListInv, SysIpcTrySend, SysMemAlloc,
        SysMemMap,
      Wf, PageFault, NewPage, MapPage, HasTable;
    if ev.Tick? {
      ScheduleMailbox(s, false, 0);
    } else if s.cur.Some? {
      match ev
      case Yield => ScheduleMailbox(s, true, 0);
      case Send(_, _, _, _, _) => SendChange(s, ev, k);
      case MemAlloc(_, _, _, _, _) => AllocChange(s, ev, k);
      case Fault(_, _, _) => AllocChange(s, ev, k);
      case MemMap(_, _, _, _, _, _) => ShareChange(s, ev, k);
      case Recv(dstva) => if !(dstva != 0 && IllegalVa(dstva)) { ScheduleMailbox(Block(s, dstva), true, 0); }
      case Destroy(envid) =>
        var x := Target(s, envid, true);
        if x.Some? && s.cur == x { ScheduleMailbox(FreeEnv(s, x.value).(cur := None), true, 0); }
      case _ =>
    }
  }

  /** The last change that a run makes to a key. */
  ghost function LastChange(s: State, evs: seq<Event>, k: PT.Pg): Change
    requires Inv(s) && Exec(s, evs).Some?
    decreases |evs|
  {
    if evs == [] then Same
    else
      StepKeepsInv(s, evs[0]);
      var later := LastChange(Step(s, evs[0]).value, evs[1..], k);
      if later == Same then ChangeAt(s, evs[0], k) else later
  }

  lemma {:induction false} RunChange(s: State, evs: seq<Event>, k: PT.Pg)
    requires Inv(s) && Exec(s, evs).Some?
    ensures WordAt(Exec(s, evs).value.mem, k) == Apply(LastChange(s, evs, k), WordAt(s.mem, k))
    decreases |evs|
  {
    hide Step, Inv, Allowed, ChangeAt;
    InvShaped(s);
    if evs != [] {
      StepKeepsInv(s, evs[0]);
      StepChange(s, evs[0], k);
      RunChange(Step(s, evs[0]).value, evs[1..], k);
    }
  }

  // ----- exactly once -----

  /** A message: value, sender, permissions, and the page-table word that it puts at the receiver's dstva, if any. */
  datatype Msg = Msg(value: nat, from: nat, perm: nat, word: Option<nat>)

  function DstKey(s: State, r: nat): PT.Pg
    requires r < |s.envs|
  {
    Key(s.envs[r].pgdir, s.envs[r].dstva)
  }

  /** The message of a delivering event. */
  function MsgOf(s: State, ev: Event, r: nat): Msg
    requires Shaped(s) && r < NENV && Delivers(s, ev, r)
  {
    Msg(ev.value, s.envs[s.cur.value].id, OrBit(ev.perm, 7), Apply(ChangeAt(s, ev, DstKey(s, r)), None))
  }

  /** The message carries a page exactly when its sender asks for it, has the page and page_insert finds room; what
    * arrives is the very page that the sender has at srcva, with the permissions of the call. The permissions that the
    * receiver is told are those, and PTE_V. */
  lemma VeryPage(s: State, ev: Event, r: nat)
    requires Inv(s) && r < NENV && Delivers(s, ev, r)
    ensures var src := Key(s.envs[s.cur.value].pgdir, ev.srcva);
            && (MsgOf(s, ev, r).word.Some? <==> ev.srcva != 0 && src in s.mem.pt && HasTable(s.mem, DstKey(s, r), ev.t))
            && (MsgOf(s, ev, r).word.Some? && UserPerm(ev.perm) ==>
                Grants(MsgOf(s, ev, r).word.value, Ppn(s.mem.pt[src]), ev.perm))
            && (forall k: nat :: BitOf(MsgOf(s, ev, r).perm, k) <==> BitOf(ev.perm, k) || k == 7)
  {
    hide Repr, MemInv, ListInv, FreePages, HasTable, MkPte, PteG, PteV, Grants, BitOf, OrBit;
    forall k: nat ensures BitOf(OrBit(ev.perm, 7), k) <==> BitOf(ev.perm, k) || k == 7 { OrBitEffect(ev.perm, 7, k); }
    var src := Key(s.envs[s.cur.value].pgdir, ev.srcva);
    if src in s.mem.pt && UserPerm(ev.perm) { MkPteFields(Ppn(s.mem.pt[src]), ev.perm); }
  }

  /** The first message delivered to r in a run, and the last change to r's dstva after it. */
  ghost function FirstMsg(s: State, evs: seq<Event>, r: nat): Option<(Msg, Change)>
    requires Inv(s) && Exec(s, evs).Some? && r < NENV
    decreases |evs|
  {
    if evs == [] then None
    else
      StepKeepsInv(s, evs[0]);
      var t := Step(s, evs[0]).value;
      if Delivers(s, evs[0], r) then Some((MsgOf(s, evs[0], r), LastChange(t, evs[1..], DstKey(s, r))))
      else FirstMsg(t, evs[1..], r)
  }

  lemma {:induction false} QuietMailbox(s: State, evs: seq<Event>, r: nat)
    requires Inv(s) && Exec(s, evs).Some? && r < NENV && !s.envs[r].recving && s.envs[r].status != Free
    requires Receipts(s, evs, r) == 0 && Spared(s, evs, r)
    ensures Deliveries(s, evs, r) == 0 && SameMailbox(s, Exec(s, evs).value, r)
    decreases |evs|
  {
    hide Step, Inv, Allowed;
    InvShaped(s);
    if evs != [] {
      StepKeepsInv(s, evs[0]);
      StepMailbox(s, evs[0], r);
      QuietMailbox(Step(s, evs[0]).value, evs[1..], r);
    }
  }

  /** Exactly once: a blocked receiver that runs again got one message and finds its value, sender and permissions.
    * The page of that message is at dstva if and only if the last change there since, if any, put the same word. */
  lemma {:induction false} ExactlyOnce(s: State, evs: seq<Event>, r: nat)
    requires Inv(s) && Exec(s, evs).Some? && r < NENV && s.envs[r].recving && s.envs[r].status != Free
    requires Receipts(s, evs, r) == 0 && Spared(s, evs, r)
    requires Exec(s, evs).value.cur == Some(r)
    ensures Deliveries(s, evs, r) == 1 && FirstMsg(s, evs, r).Some?
    ensures var (m, since), t := FirstMsg(s, evs, r).value, Exec(s, evs).value;
            && t.envs[r].ipcValue == m.value && t.envs[r].ipcFrom == m.from && t.envs[r].ipcPerm == m.perm
            && t.envs[r].id == s.envs[r].id && DstKey(t, r) == DstKey(s, r)
            && (m.word.Some? ==>
                (WordAt(t.mem, DstKey(t, r)) == m.word <==> since == Same || since == Now(m.word.value)))
    decreases |evs|
  {
    hide Step, Inv, Allowed, ChangeAt;
    InvShaped(s);
    InvListed(s);
    if evs != [] {
      StepKeepsInv(s, evs[0]);
      StepMailbox(s, evs[0], r);
      var t := Step(s, evs[0]).value;
      if Delivers(s, evs[0], r) {
        QuietMailbox(t, evs[1..], r);
        StepChange(s, evs[0], DstKey(s, r));
        RunChange(t, evs[1..], DstKey(s, r));
      } else {
        ExactlyOnce(t, evs[1..], r);
      }
    }
  }

  /** page_alloc hands out a page whenever one is free. */
  predicate Fair(a: PT.Abs, t: nat) { FreePages(a) == {} || t in FreePages(a) }

  /** The sender is told -E_INVAL or -E_NO_MEM about the page exactly when it has none, or when a table is missing and
    * no page is free; the message has been delivered all the same. */
  lemma RefusedButDelivered(s: State, ev: Event, r: nat)
    requires Inv(s) && r < NENV && Delivers(s, ev, r) && Fair(s.mem, ev.t)
    ensures var (t, code) := SysIpcTrySend(s, ev.envid, ev.value, ev.srcva, ev.perm, ev.t);
            var k := DstKey(s, r);
            && (code == EInval <==> ev.srcva != 0 && Key(s.envs[s.cur.value].pgdir, ev.srcva) !in s.mem.pt)
            && (code == ENoMem <==> ev.srcva != 0 && Key(s.envs[s.cur.value].pgdir, ev.srcva) in s.mem.pt
                                    && PT.Pd(k.d, k.x) !in s.mem.tab && FreePages(s.mem) == {})
            && t.envs[r].ipcValue == ev.value && t.envs[r].status == Runnable && r in t.list
  {
    hide Repr, InsertTail, FreePages, MkPte, MemInv, Wf;
    assert (s.list + [r])[|s.list|] == r;
  }

  // ----- what the sender is told -----

  /** The slot that an id names, whoever is in it. */
  function Named(s: State, envid: nat): nat
    requires s.cur.Some?
  {
    if envid == 0 then s.cur.value else envid % NENV
  }

  /** The code of a send, in terms of its arguments and the state before. Only a send to a living environment that waits
    * in receive is ever answered with success, or with an error about its page; every other send changes nothing. */
  lemma SendCodes(s: State, ev: Event)
    requires Inv(s) && ev.Send? && s.cur.Some?
    ensures var (t, code) := SysIpcTrySend(s, ev.envid, ev.value, ev.srcva, ev.perm, ev.t);
            var r := Named(s, ev.envid);
            var badVa := ev.srcva != 0 && (ev.srcva < UTEMP || ev.srcva >= UTOP);
            var named := ev.envid == 0 || IsAlive(s, ev.envid);
            var mapped := Key(s.envs[s.cur.value].pgdir, ev.srcva) in s.mem.pt;
            && r < NENV
            && (Delivers(s, ev, r) <==> !badVa && named && s.envs[r].recving)
            && (code == EBadEnv <==> !badVa && !named)
            && (code == ENotRecv <==> !badVa && named && !s.envs[r].recving)
            && (code == EInval <==> badVa || (Delivers(s, ev, r) && ev.srcva != 0 && !mapped))
            && (code == ENoMem <==>
                Delivers(s, ev, r) && ev.srcva != 0 && mapped && !HasTable(s.mem, DstKey(s, r), ev.t))
            && (code == Ok <==>
                Delivers(s, ev, r) && (ev.srcva == 0 || (mapped && HasTable(s.mem, DstKey(s, r), ev.t))))
            && (!Delivers(s, ev, r) ==> t == s)
            && (forall x :: 0 <= x < NENV && Delivers(s, ev, x) ==> x == r)
  {
    hide Repr, InsertTail, FreePages, MkPte, MemInv, Wf, OrBit, NoDup;
  }

  /** A send to slot r is answered with success. */
  ghost predicate AnsweredOk(s: State, ev: Event, r: nat)
    requires Shaped(s)
  {
    ev.Send? && s.cur.Some? && Named(s, ev.envid) == r
    && SysIpcTrySend(s, ev.envid, ev.value, ev.srcva, ev.perm, ev.t).1 == Ok
  }

  /** A send to slot r is answered with an error about its page. */
  ghost predicate PageRefused(s: State, ev: Event, r: nat)
    requires Shaped(s)
  {
    ev.Send? && s.cur.Some? && Named(s, ev.envid) == r && (ev.srcva == 0 || UTEMP <= ev.srcva < UTOP)
    && SysIpcTrySend(s, ev.envid, ev.value, ev.srcva, ev.perm, ev.t).1 in {EInval, ENoMem}
  }

  ghost function OkSends(s: State, evs: seq<Event>, r: nat): nat
    requires Inv(s) && Exec(s, evs).Some?
    decreases |evs|
  {
    if evs == [] then 0
    else
      StepKeepsInv(s, evs[0]);
      (if AnsweredOk(s, evs[0], r) then 1 else 0) + OkSends(Step(s, evs[0]).value, evs[1..], r)
  }

  ghost function RefusedSends(s: State, evs: seq<Event>, r: nat): nat
    requires Inv(s) && Exec(s, evs).Some?
    decreases |evs|
  {
    if evs == [] then 0
    else
      StepKeepsInv(s, evs[0]);
      (if PageRefused(s, evs[0], r) then 1 else 0) + RefusedSends(Step(s, evs[0]).value, evs[1..], r)
  }

  /** No message is lost: over every run, the sends to r that were answered with success, together with those that were
    * refused only because of their page, are exactly the deliveries to r. */
  lemma {:induction false} NoLostMessage(s: State, evs: seq<Event>, r: nat)
    requires Inv(s) && Exec(s, evs).Some? && r < NENV
    ensures OkSends(s, evs, r) + RefusedSends(s, evs, r) == Deliveries(s, evs, r)
    decreases |evs|
  {
    hide Step, Inv, Allowed, SysIpcTrySend;
    InvShaped(s);
    if evs != [] {
      StepKeepsInv(s, evs[0]);
      if evs[0].Send? && s.cur.Some? { SendCodes(s, evs[0]); }
      NoLostMessage(Step(s, evs[0]).value, evs[1..], r);
    }
  }
}
