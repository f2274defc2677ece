/** Exactly which kernel entries keep env_sched_list in order, a rule for user programs that implies it, and runs that
  * break it. */
module Discipline {
  import opened Common
  import opened Mmu
  import PT = PageTables
  import opened FlatMemory
  import opened Lists
  import opened TailQueue
  import opened Scheduler

  // ----- the exact condition -----

  /** Taking an unqueued environment off the list is a stale removal and nothing more. */
  lemma UnqueuedVictim(s: State, ev: Event)
    requires Inv(s) && Victim(s, ev).Some? && Victim(s, ev).value !in s.list && Step(s, ev).Some?
    ensures var x := Victim(s, ev).value;
              !Wild(s.q, x) && Step(s, ev).value.q == Remove(s.q, x) && Step(s, ev).value.list == s.list
  {
    hide Repr, Remove, InsertTail, Drop, NoDup, MemInv;
    var x := Victim(s, ev).value;
    DropMembers(s.list, x);
    RemoveTwice(s.q, x);
    assert s.list + [] == s.list;
    if ev.Recv? {
      var b := Block(s, ev.dstva);
      assert RequeueLinks(b) == Remove(s.q, x) && Requeue(b) == s.list;
    }
  }

  /** A step that does not stop the kernel keeps the invariant if and only if it is allowed. */
  lemma StepExact(s: State, ev: Event)
    requires Inv(s) && Step(s, ev).Some?
    ensures Inv(Step(s, ev).value) <==> Allowed(s, ev)
  {
    hide Repr, Remove, InsertTail, Drop, NoDup, Harmless, MemInv, Schedule;
    if Allowed(s, ev) {
      StepKeepsInv(s, ev);
    } else if StatusAllowed(s, ev) {
      var x := Victim(s, ev).value;
      UnqueuedVictim(s, ev);
      StaleRemoveExact(s.q, s.list, x);
    } else {
      var e := Target(s, ev.envid, true).value;
      var t := Step(s, ev).value;
      assert t.envs[e].recving && t.envs[e].status == Runnable;
    }
  }

  /** No environment but the one that leaves is runnable. */
  predicate NobodyElse(s: State, leaves: bool)
  {
    forall e :: e in s.list ==> leaves && s.cur == Some(e)
  }

  /** The panics of schedule and of passive_alloc. */
  predicate Stops(s: State, ev: Event)
    requires Shaped(s)
  {
    match ev
    case Tick => Switches(s, false) && NobodyElse(s, false)
    case Yield => s.cur.Some? && NobodyElse(s, false)
    case Recv(dstva) => s.cur.Some? && (dstva == 0 || !IllegalVa(dstva)) && NobodyElse(s, true)
    case Destroy(envid) => s.cur.Some? && Target(s, envid, true) == s.cur && NobodyElse(s, true)
    case Fault(va, p, t) =>
      s.cur.Some? && va < UTOP && Key(s.envs[s.cur.value].pgdir, va) !in s.mem.pt
      && (Forbidden(va) || !NewPage(s.mem, Key(s.envs[s.cur.value].pgdir, va), PTE_D, p, t).1)
    case _ => false
  }

  lemma ScheduleStops(s: State, giveUp: bool)
    requires Schedulable(s, giveUp)
    ensures Schedule(s, giveUp).None? <==> Switches(s, giveUp) && s.list == []
  {
    hide Repr, Drop, NoDup, Harmless, MemInv, Remove, InsertTail, Schedule;
    SchedulePicks(s, giveUp);
    RequeueKeeps(s);
    if !Switches(s, giveUp) { StaysOn(s, giveUp); }
    if s.list != [] { assert s.list[0] in s.list; }
    if Requeue(s) != [] { assert Requeue(s)[0] in Requeue(s); }
  }

  /** An allowed step stops the kernel exactly when nobody is left to run, or on a page fault that cannot be served. */
  lemma StopsExact(s: State, ev: Event)
    requires Inv(s) && Allowed(s, ev)
    ensures Step(s, ev).None? <==> Stops(s, ev)
  {
    hide Repr, Drop, NoDup, Harmless, MemInv, Remove, InsertTail, Schedule;
    if s.list != [] { assert s.list[0] in s.list; }
    if ev.Tick? {
      ScheduleStops(s, false);
    } else if s.cur.Some? {
      match ev
      case Yield => ScheduleStops(s, true);
      case Recv(dstva) =>
        if !(dstva != 0 && IllegalVa(dstva)) {
          BlockKeepsInv(s, dstva);
          var b := Block(s, dstva);
          ScheduleStops(b, true);
          DropMembers(s.list, s.cur.value);
          if b.list != [] { assert b.list[0] in b.list; }
        }
      case Destroy(envid) =>
        var r := Target(s, envid, true);
        if r.Some? {
          TargetLive(s, envid, true);
          FreeEnvKeepsInv(s, r.value);
          if s.cur == r {
            var b := FreeEnv(s, r.value).(cur := None);
            ScheduleStops(b, true);
            DropMembers(s.list, r.value);
            if b.list != [] { assert b.list[0] in b.list; }
          }
        }
      case _ =>
    }
  }

  // ----- a rule that user programs can follow -----

  /** The current environment has made itself not runnable and still has the CPU. */
  predicate Parked(s: State)
    requires CurOk(s)
  {
    s.cur.Some? && s.envs[s.cur.value].status != Runnable
  }

  ghost predicate ParkedSafely(s: State)
    requires Shaped(s)
  {
    Parked(s) ==> Harmless(s.q, s.list, s.cur.value)
  }

  /** The event puts another environment on the list or takes one off. */
  predicate MovesOthers(s: State, ev: Event)
    requires Shaped(s) && s.cur.Some?
  {
    match ev
    case SetStatus(envid, status) =>
      status != Free && Target(s, envid, true).Some? && Target(s, envid, true) != s.cur
      && s.envs[Target(s, envid, true).value].status != status
    case Send(envid, value, srcva, perm, t) =>
      (srcva == 0 || !IllegalVa(srcva)) && Target(s, envid, false).Some?
          && s.envs[Target(s, envid, false).value].recving
    case Destroy(envid) => Target(s, envid, true).Some? && Target(s, envid, true) != s.cur
    case _ => false
  }

  /** Nobody starts a receiver, nobody destroys another environment that is not runnable, and a parked environment moves
    * no other one before it gives up the CPU. */
  predicate Disciplined(s: State, ev: Event)
    requires Shaped(s)
  {
    && StatusAllowed(s, ev)
    && (ev.Destroy? && s.cur.Some? && Target(s, ev.envid, true).Some? && Target(s, ev.envid, true) != s.cur ==>
          s.envs[Target(s, ev.envid, true).value].status == Runnable)
    && (Parked(s) ==> !MovesOthers(s, ev))
  }

  lemma ScheduleUnparks(s: State, giveUp: bool)
    requires Shaped(s) && Schedule(s, giveUp).Some?
    ensures CurOk(Schedule(s, giveUp).value) && !Parked(Schedule(s, giveUp).value)
  {
  }

  /** Disciplined steps are allowed, and keep it so. */
  lemma DisciplineWorks(s: State, ev: Event)
    requires Inv(s) && ParkedSafely(s) && Disciplined(s, ev)
    ensures Allowed(s, ev)
    ensures Step(s, ev).Some? ==> Inv(Step(s, ev).value) && ParkedSafely(Step(s, ev).value)
  {
    hide Repr, Remove, InsertTail, Drop, NoDup, Harmless, MemInv, Schedule;
    assert Allowed(s, ev);
    StepKeepsInv(s, ev);
    if Step(s, ev).Some? { DisciplineParks(s, ev); }
  }

  lemma DisciplineParks(s: State, ev: Event)
    requires Inv(s) && ParkedSafely(s) && Disciplined(s, ev) && Step(s, ev).Some? && Inv(Step(s, ev).value)
    ensures ParkedSafely(Step(s, ev).value)
  {
    hide Repr, Remove, InsertTail, Drop, NoDup, Harmless, MemInv, Schedule, FreePages;
    if ev.Tick? {
      ScheduleUnparks(s, false);
    } else if s.cur.Some? {
      match ev
      case Yield => ScheduleUnparks(s, true);
      case Recv(dstva) => if !(dstva != 0 && IllegalVa(dstva)) { ScheduleUnparks(Block(s, dstva), true); }
      case Destroy(envid) =>
        if Target(s, envid, true) == s.cur { ScheduleUnparks(FreeEnv(s, s.cur.value).(cur := None), true); }
      case SetStatus(envid, status) =>
        if Target(s, envid, true) == s.cur && s.cur.value in s.list { RemovedHarmless(s.q, s.list, s.cur.value); }
      case Exofork(p) => if s.free != [] { assert s.free[0] in s.free; }
      case _ =>
    }
  }

  /** Every run that follows the rule is allowed at every step. */
  ghost predicate FollowsRule(s: State, evs: seq<Event>)
    requires Inv(s) && ParkedSafely(s)
    decreases |evs|
  {
    evs == [] ||
    (Disciplined(s, evs[0]) &&
     (DisciplineWorks(s, evs[0]); Step(s, evs[0]).Some? ==> FollowsRule(Step(s, evs[0]).value, evs[1..])))
  }

  ghost predicate AllowedRun(s: State, evs: seq<Event>)
    requires Inv(s)
    decreases |evs|
  {
    evs == [] ||
    (Allowed(s, evs[0])
        && (StepKeepsInv(s, evs[0]); Step(s, evs[0]).Some? ==> AllowedRun(Step(s, evs[0]).value, evs[1..])))
  }

  lemma {:induction false} RuleSuffices(s: State, evs: seq<Event>)
    requires Inv(s) && ParkedSafely(s) && FollowsRule(s, evs)
    ensures AllowedRun(s, evs)
    decreases |evs|
  {
    if evs != [] {
      DisciplineWorks(s, evs[0]);
      if Step(s, evs[0]).Some? { RuleSuffices(Step(s, evs[0]).value, evs[1..]); }
    }
  }

  // ----- runs that break it -----

  function Slot(i: nat, receiving: bool): Env {
    if i == 0 then Env(2048, 0, Runnable, 1, 1, 10, false, 0, 0, 0, 0)
    else if i == 1 then Env(4097, 2048, NotRunnable, 1, 1, 11, receiving, 0, 0, 0, 0)
    else Env(0, 0, Free, 0, 0, 0, false, 0, 0, 0, 0)
  }

  /** Parent 0, current and alone on the list, and its child 1, which blocked in receive while it stood before 0. */
  function BlockedChild(): State {
    State(seq(NENV, i requires 0 <= i < NENV => Slot(i, true)), seq(NENV - 2, i => i + 2), [0],
          Queue(Some(0), NextOf(0), seq(NENV, i => if i == 1 then Some(0) else None),
                seq(NENV, i => if i <= 1 then First else Null)),
          Some(0), 0, 2, PT.Abs({10, 11}, map[], map[], {}, seq(16, _ => 0)))
  }

  lemma BlockedChildInv()
    ensures Inv(BlockedChild()) && LiveReceivers(BlockedChild()) && ParkedSafely(BlockedChild())
    ensures Target(BlockedChild(), 4097, true) == Some(1) == Target(BlockedChild(), 4097, false)
  {
    var s := BlockedChild();
    forall e | 2 <= e < NENV ensures e in s.free { assert s.free[e - 2] == e; }
    assert 4097 % NENV == 1;
    BlockedChildLinks();
  }

  lemma BlockedChildLinks()
    ensures Repr(BlockedChild().q, [0]) && Harmless(BlockedChild().q, [0], 1)
  {
  }

  /** The parent makes the blocked child runnable, which is not allowed, then sends it a message: it is listed twice. */
  lemma RunnableReceiverListedTwice()
    ensures var s := BlockedChild();
            Inv(s) && !StatusAllowed(s, SetStatus(4097, Runnable))
                && Step(s, SetStatus(4097, Runnable)) == Some(Started())
    ensures Step(Started(), Send(4097, 7, 0, 0, 0)).Some?
            && Step(Started(), Send(4097, 7, 0, 0, 0)).value.list == [0, 1, 1]
  {
    BlockedChildInv();
    assert 4097 % NENV == 1;
    assert Target(Started(), 4097, false) == Some(1);
  }

  function Started(): (t: State)
    ensures Shaped(t)
  {
    SysSetEnvStatus(BlockedChild(), 4097, Runnable).0
  }

  /** The current environment has parked itself; then it has woken the receiver. */
  function SelfParked(): (t: State)
    ensures Shaped(t)
  {
    SysSetEnvStatus(BlockedChild(), 0, NotRunnable).0
  }

  function Woken(): (t: State)
    ensures Shaped(t)
  {
    SysIpcTrySend(SelfParked(), 4097, 7, 0, 0, 0).0
  }

  lemma SelfParkedFacts()
    ensures Inv(SelfParked()) && Step(BlockedChild(), SetStatus(0, NotRunnable)) == Some(SelfParked())
    ensures Allowed(BlockedChild(), SetStatus(0, NotRunnable))
    ensures var t := SelfParked();
              t.list == [] && t.cur == Some(0)
              && t.envs == BlockedChild().envs[0 := Slot(0, true).(status := NotRunnable)]
    ensures Repr(SelfParked().q, []) && SelfParked().q.next[0] == None && SelfParked().q.prev[0] == First
  {
    hide Repr;
    BlockedChildInv();
    StepKeepsInv(BlockedChild(), SetStatus(0, NotRunnable));
    assert Drop([0], 0) == [];
  }

  lemma WokenFacts()
    ensures Inv(Woken()) && Step(SelfParked(), Send(4097, 7, 0, 0, 0)) == Some(Woken())
    ensures Allowed(SelfParked(), Send(4097, 7, 0, 0, 0)) && !Disciplined(SelfParked(), Send(4097, 7, 0, 0, 0))
    ensures var t := Woken(); t.list == [1] && t.cur == Some(0) && t.envs[0].status == NotRunnable
    ensures Woken().q == InsertTail(SelfParked().q, 1)
  {
    hide Repr, InsertTail, SelfParked;
    SelfParkedFacts();
    assert 4097 % NENV == 1;
    assert Target(SelfParked(), 4097, false) == Some(1);
    StepKeepsInv(SelfParked(), Send(4097, 7, 0, 0, 0));
  }

  /** Then it yields: the scheduler removes it once more, forgets the woken environment and panics, although that is
    * runnable. */
  lemma ParkSendYieldPanics()
    ensures Inv(Woken()) && Woken().list == [1] && !Allowed(Woken(), Yield) && Step(Woken(), Yield).None?
  {
    hide Repr, Woken, SelfParked;
    SelfParkedFacts();
    WokenFacts();
    var q := Woken().q;
    assert q.first == Some(1) && q.last == NextOf(1) && q.next[0] == None && q.prev[0] == First;
    assert RequeueLinks(Woken()).first == None;
  }

  /** The child is destroyed while it receives; then its slot is reused. */
  function Destroyed(): (t: State)
    ensures Shaped(t)
  {
    FreeEnv(BlockedChild(), 1)
  }

  function Reforked(): (t: State)
    ensures Shaped(t)
  {
    SysExofork(Destroyed(), 5).0
  }

  lemma DestroyedFacts()
    ensures Allowed(BlockedChild(), Destroy(4097)) && !Disciplined(BlockedChild(), Destroy(4097))
    ensures Step(BlockedChild(), Destroy(4097)) == Some(Destroyed()) && Inv(Destroyed()) && !LiveReceivers(Destroyed())
    ensures var t := Destroyed();
              t.list == [0] && t.cur == Some(0) && t.free == [1] + seq(NENV - 2, i => i + 2) && t.ids == 2
                                  && t.envs == BlockedChild().envs[1 := Slot(1, true).(status := Free)]
                                  && t.mem == PT.Abs({10}, map[], map[], {}, seq(16, _ => 0))
  {
    hide Repr, Remove, Harmless;
    BlockedChildInv();
    BlockedChildLinks();
    StepKeepsInv(BlockedChild(), Destroy(4097));
    DropMembers([0], 1);
    var m := Destroyed().mem;
    assert m.pt == map[] && m.tab == map[] && m.dirs == {10};
  }

  /** A successful fork takes the first free slot and leaves its receiving flag as it finds it. */
  lemma ForkReuses(s: State, p: nat)
    requires Inv(s) && s.cur.Some? && s.free != [] && p in FreePages(s.mem) && NENV - |s.free| < NASID
    ensures var t, e, c := SysExofork(s, p).0, s.free[0], s.cur.value;
            && Inv(t) && e < NENV && t.list == s.list && t.cur == s.cur && t.envs[c] == s.envs[c]
            && t.envs[e] == s.envs[e].(id := MkEnvId(s.ids, e), parent := s.envs[c].id, status := NotRunnable,
                                       pri := s.envs[c].pri, runs := 0, pgdir := p)
  {
    hide Repr, FreePages;
    assert s.free[0] in s.free;
    ExoforkKeepsInv(s, p);
  }

  lemma ReforkedFacts()
    ensures Step(Destroyed(), Exofork(5)) == Some(Reforked()) && Inv(Reforked())
    ensures var u := Reforked(); u.list == [0] && u.cur == Some(0) && u.envs[0] == Slot(0, true)
                                 && u.envs[1] == Env(6145, 2048, NotRunnable, 1, 0, 5, true, 0, 0, 0, 0)
  {
    hide Repr, Destroyed, Inv, SysExofork, FreePages;
    DestroyedFacts();
    var t := Destroyed();
    PageIsFree(t.mem, 5);
    ForkReuses(t, 5);
  }

  lemma PageIsFree(a: PT.Abs, p: nat)
    requires a.pt == map[] && a.tab == map[] && p < |a.base| && a.base[p] == 0 && p !in a.held && p !in a.dirs
    ensures p in FreePages(a)
  {
    assert PT.UserKeys(a.pt, p) == {} && PT.TableKeys(a.tab, p) == {};
  }

  /** The fresh child, which never called receive, still counts as receiving: it cannot be started without breaking the
    * list, and a message to it lists it twice. */
  lemma RecycledReceiver()
    ensures var u := Reforked(); Inv(u) && u.envs[1].recving && u.cur.Some? && !Allowed(u, SetStatus(6145, Runnable))
    ensures var v := SysSetEnvStatus(Reforked(), 6145, Runnable).0;
            v.cur.Some? && SysIpcTrySend(v, 6145, 7, 0, 0, 0).0.list == [0, 1, 1]
  {
    hide Repr, Reforked, InsertTail, Remove;
    ReforkedFacts();
    assert 6145 % NENV == 1;
    assert Target(Reforked(), 6145, true) == Some(1);
    var v := SysSetEnvStatus(Reforked(), 6145, Runnable).0;
    assert Target(v, 6145, false) == Some(1);
  }

  /** A send whose page does not exist: the sender is told -E_INVAL, and the child has the value and is runnable. */
  lemma RefusedSend()
    ensures Inv(BlockedChild())
    ensures var (t, code) := SysIpcTrySend(BlockedChild(), 4097, 7, UTEMP, 0, 0);
            code == EInval && t.list == [0, 1] && t.envs[1].ipcValue == 7 && !t.envs[1].recving
  {
    hide Repr, InsertTail;
    BlockedChildInv();
  }

  // ----- the error path of spawn -----

  lemma NewIdSlot(ids: nat, e: nat)
    requires e < NENV
    ensures MkEnvId(ids, e) % NENV == e
  {
    var k := (ids + 1) * 2048;
    assert k % WORD == k - k / WORD * WORD;
    assert k % WORD == 1024 * (2 * (ids + 1) - k / WORD * 0x40_0000);
  }

  /** An element that was never queued has null links. */
  predicate NeverQueued(s: State, e: nat) { e < |s.q.prev| && Wild(s.q, e) }

  /** A child is forked into a slot that was never queued and destroyed before it is started, as spawn does when loading
    * the program fails: removing the child from the list writes through its null link and stops the kernel. */
  lemma UnstartedChildCrashes(s: State, p: nat)
    requires Inv(s) && s.cur.Some? && s.free != [] && p in FreePages(s.mem) && NENV - |s.free| < NASID
    requires NeverQueued(s, s.free[0]) && MkEnvId(s.ids, s.free[0]) != 0
    ensures var u, envid := SysExofork(s, p).0, MkEnvId(s.ids, s.free[0]);
            && Step(s, Exofork(p)) == Some(u) && Inv(u) && Target(u, envid, true) == Some(s.free[0])
            && !Disciplined(u, Destroy(envid)) && !Allowed(u, Destroy(envid)) && Step(u, Destroy(envid)).None?
  {
    hide Repr, FreePages, MkEnvId, MemInv;
    var e, c := s.free[0], s.cur.value;
    assert e in s.free;
    ForkReuses(s, p);
    NewIdSlot(s.ids, e);
    var u := SysExofork(s, p).0;
    assert u.q == s.q;
    assert e != c;
  }
}
