/** Whole runs: the place of the current environment, and bounded waiting. */
module Waiting {
  import opened Common
  import opened FlatMemory
  import opened Lists
  import opened TailQueue
  import opened Scheduler
  import opened Runs
  import opened Discipline

  // ----- the current environment and the head of the list -----

  /** A runnable current environment is the head of the list. */
  ghost predicate CurAtHead(s: State)
    requires Inv(s)
  {
    s.cur.Some? && s.envs[s.cur.value].status == Runnable ==> s.list != [] && s.list[0] == s.cur.value
  }

  /** The one way to lose that place: the current environment parks itself and then makes itself runnable again
    * while others wait. */
  predicate RejoinsBehind(s: State, ev: Event)
    requires Shaped(s)
  {
    ev.SetStatus? && ev.status == Runnable && s.cur.Some? && Target(s, ev.envid, true) == s.cur
    && s.envs[s.cur.value].status == NotRunnable && s.list != []
  }

  lemma DropHead(l: seq<nat>, x: nat)
    requires l != [] && l[0] != x
    ensures Drop(l, x) != [] && Drop(l, x)[0] == l[0]
  {
  }

  lemma ScheduleHead(s: State, giveUp: bool)
    requires Schedulable(s, giveUp)
    requires s.cur.Some? && s.envs[s.cur.value].status == Runnable ==> s.list != [] && s.list[0] == s.cur.value
    ensures Schedule(s, giveUp).Some? ==>
              var t := Schedule(s, giveUp).value; t.cur.Some? && t.list != [] && t.list[0] == t.cur.value
  {
    hide Repr, Remove, InsertTail, Drop, Harmless, MemInv, NoDup, Schedule;
    SchedulePicks(s, giveUp);
    if !Switches(s, giveUp) { StaysOn(s, giveUp); }
  }

  lemma StatusHead(s: State, ev: Event)
    requires Inv(s) && CurAtHead(s) && s.cur.Some? && ev.SetStatus? && Inv(SysSetEnvStatus(s, ev.envid, ev.status).0)
    ensures CurAtHead(SysSetEnvStatus(s, ev.envid, ev.status).0) <==> !RejoinsBehind(s, ev)
  {
    hide Repr, Wf, Remove, InsertTail, NoDup, MemInv;
    var x := Target(s, ev.envid, true);
    if x.Some? && s.list != [] && s.list[0] != x.value { DropHead(s.list, x.value); }
  }

  lemma ExoforkHead(s: State, p: nat)
    requires Inv(s) && s.cur.Some?
    ensures var t := SysExofork(s, p).0; t.cur == s.cur && t.list == s.list && |t.envs| == NENV
                                              && t.envs[s.cur.value].status == s.envs[s.cur.value].status
  {
    if s.free != [] { assert s.free[0] in s.free; }
  }

  lemma SendHead(s: State, ev: Event)
    requires Inv(s) && CurAtHead(s) && s.cur.Some? && ev.Send?
    requires Inv(SysIpcTrySend(s, ev.envid, ev.value, ev.srcva, ev.perm, ev.t).0)
    ensures CurAtHead(SysIpcTrySend(s, ev.envid, ev.value, ev.srcva, ev.perm, ev.t).0)
  {
    hide Repr, InsertTail, MemInv, FreePages, NoDup, Wf;
  }

  /** curenv stays at the head of the list while it is runnable, except after RejoinsBehind. */
  lemma CurStaysAtHead(s: State, ev: Event)
    requires Inv(s) && CurAtHead(s) && Goes(s, ev) && Inv(Step(s, ev).value)
    ensures CurAtHead(Step(s, ev).value) <==> !RejoinsBehind(s, ev)
  {
    hide Schedule, SysSetEnvStatus, SysExofork, SysIpcTrySend, NoDup, Repr, Remove, InsertTail, Harmless, MemInv,
        FreePages;
    if ev.Tick? {
      ScheduleHead(s, false);
    } else if s.cur.Some? {
      match ev
      case Yield => ScheduleHead(s, true);
      case Exofork(p) => ExoforkHead(s, p);
      case SetStatus(envid, status) => StatusHead(s, ev);
      case Recv(dstva) =>
        if !(dstva != 0 && IllegalVa(dstva)) {
          BlockKeepsInv(s, dstva);
          ScheduleHead(Block(s, dstva), true);
        }
      case Send(_, _, _, _, _) => SendHead(s, ev);
      case Destroy(envid) =>
        var x := Target(s, envid, true);
        if x.Some? {
          TargetLive(s, envid, true);
          FreeEnvKeepsInv(s, x.value);
          if s.cur == x {
            ScheduleHead(FreeEnv(s, x.value).(cur := None), true);
          } else if s.list != [] && s.list[0] != x.value {
            DropHead(s.list, x.value);
          }
        }
      case _ => MemoryKeepsInv(s, ev);
    }
  }

  /** 0 is current and 1 is ready behind it. */
  function TwoReady(): State {
    BlockedChild().(envs := BlockedChild().envs[1 := Slot(1, false).(status := Runnable)], list := [0, 1],
                    q := BlockedChild().q.(last := NextOf(1), next := BlockedChild().q.next[0 := Some(1)][1 := None],
                                           prev := BlockedChild().q.prev[1 := NextOf(0)]))
  }

  /** It parks itself, then makes itself runnable again: it is current and stands behind 1. */
  lemma RejoinLosesHead()
    ensures Inv(TwoReady()) && CurAtHead(TwoReady())
    ensures Goes(TwoReady(), SetStatus(0, NotRunnable))
    ensures var t := Step(TwoReady(), SetStatus(0, NotRunnable)).value;
            && Inv(t) && Goes(t, SetStatus(0, Runnable)) && RejoinsBehind(t, SetStatus(0, Runnable))
            && Step(t, SetStatus(0, Runnable)).value.list == [1, 0]
            && Step(t, SetStatus(0, Runnable)).value.cur == Some(0)
  {
    hide Remove, InsertTail;
    TwoReadyInv();
    var s := TwoReady();
    StepKeepsInv(s, SetStatus(0, NotRunnable));
    assert Drop([0, 1], 0) == [1];
  }

  lemma TwoReadyInv()
    ensures Inv(TwoReady())
  {
    var s := TwoReady();
    forall e | 2 <= e < NENV ensures e in s.free { assert s.free[e - 2] == e; }
    assert s.envs[0] == Slot(0, true) && forall e :: 2 <= e < NENV ==> s.envs[e] == Slot(e, true);
    TwoReadyLinks();
  }

  lemma TwoReadyLinks()
    ensures Repr(TwoReady().q, [0, 1])
  {
    assert NextIn([0, 1], 0) == Some(1) && NextIn([0, 1], 1) == None && PrevIn([0, 1], 1) == NextOf(0);
  }

  // ----- bounded waiting -----

  /** max(1, env_pri) scheduler calls for every environment but the current one. */
  function Turn(envs: seq<Env>, cur: Option<nat>, x: nat): nat {
    if cur == Some(x) || x >= |envs| then 0 else if envs[x].pri < 1 then 1 else envs[x].pri
  }

  /** The turns of those ahead of e in the list, the current environment aside. */
  function Turns(envs: seq<Env>, l: seq<nat>, cur: Option<nat>, e: nat): nat {
    if l == [] || l[0] == e then 0 else Turn(envs, cur, l[0]) + Turns(envs, l[1..], cur, e)
  }

  /** The remaining slice plus the turns of those ahead. */
  function Bound(s: State, e: nat): nat {
    (if s.count > 0 then s.count else 0) + Turns(s.envs, s.list, s.cur, e)
  }

  lemma {:induction false} TurnsAgree(envs: seq<Env>, envs': seq<Env>, l: seq<nat>, cur: Option<nat>,
      cur': Option<nat>, e: nat)
    requires forall i :: 0 <= i < |l| ==> Turn(envs', cur', l[i]) == Turn(envs, cur, l[i])
    ensures Turns(envs', l, cur', e) == Turns(envs, l, cur, e)
  {
    if l != [] && l[0] != e {
      assert forall i :: 0 <= i < |l[1..]| ==> l[1..][i] == l[i + 1];
      TurnsAgree(envs, envs', l[1..], cur, cur', e);
    }
  }

  lemma {:induction false} TurnsAppend(envs: seq<Env>, l: seq<nat>, more: seq<nat>, cur: Option<nat>, e: nat)
    requires e in l
    ensures Turns(envs, l + more, cur, e) == Turns(envs, l, cur, e)
  {
    if l[0] != e {
      assert (l + more)[1..] == l[1..] + more;
      TurnsAppend(envs, l[1..], more, cur, e);
    }
  }

  /** Taking another environment off the list takes its turn out of the sum. */
  lemma {:induction false} TurnsDrop(envs: seq<Env>, l: seq<nat>, x: nat, cur: Option<nat>, e: nat)
    requires e in l && x != e
    ensures Turns(envs, Drop(l, x), cur, e) <= Turns(envs, l, cur, e)
    ensures cur == Some(x) ==> Turns(envs, Drop(l, x), cur, e) == Turns(envs, l, cur, e)
  {
    if l[0] != e && l[0] != x {
      TurnsDrop(envs, l[1..], x, cur, e);
      assert Drop(l, x)[1..] == Drop(l[1..], x);
    }
  }

  /** A scheduler call either picks e or shortens its wait. */
  lemma ScheduleShortens(s: State, giveUp: bool, e: nat)
    requires Schedulable(s, giveUp) && e in s.list && s.cur != Some(e)
    ensures Schedule(s, giveUp).Some?
    ensures var t := Schedule(s, giveUp).value; t.cur == Some(e) || Bound(t, e) < Bound(s, e)
  {
    hide Schedule, Repr, NoDup, Drop, MemInv;
    if Switches(s, giveUp) {
      SwitchShortens(s, giveUp, e);
    } else {
      StaysOn(s, giveUp);
      TurnsAgree(s.envs, Schedule(s, giveUp).value.envs, s.list, s.cur, s.cur, e);
    }
  }

  /** The list without the current environment: the order in which the others will be picked. */
  function Others(s: State): seq<nat> {
    if s.cur.None? then s.list else Drop(s.list, s.cur.value)
  }

  lemma OthersFacts(s: State, e: nat)
    requires Inv(s.(cur := None)) && CurOk(s) && e in s.list && s.cur != Some(e)
    ensures e in Others(s) && NoDup(Others(s)) && Others(s)[0] < |s.envs|
    ensures s.cur.Some? ==> s.cur.value !in Others(s)
    ensures Turns(s.envs, Others(s), s.cur, e) == Turns(s.envs, s.list, s.cur, e)
    ensures exists more :: Requeue(s) == Others(s) + more
  {
    if s.cur.Some? {
      var c := s.cur.value;
      DropMembers(s.list, c);
      TurnsDrop(s.envs, s.list, c, s.cur, e);
      assert Requeue(s) == Others(s) + (if s.envs[c].status == Runnable then [c] else []);
    } else {
      assert Requeue(s) == Others(s) + [];
    }
    assert Others(s)[0] in Others(s);
  }

  /** The first of the others starts its turn: that turn leaves the sum, everyone else's stays. */
  lemma NextTurn(envs: seq<Env>, envs': seq<Env>, d: seq<nat>, c: Option<nat>, e: nat)
    requires d != [] && d[0] != e && NoDup(d) && d[0] < |envs| == |envs'|
    requires c.Some? ==> c.value !in d
    requires forall x :: 0 <= x < |envs| ==> envs'[x].pri == envs[x].pri
    ensures Turns(envs', d, Some(d[0]), e) + (if envs[d[0]].pri < 1 then 1 else envs[d[0]].pri) == Turns(envs, d, c, e)
  {
    var r := d[1..];
    forall i | 0 <= i < |r| ensures Turn(envs', Some(d[0]), r[i]) == Turn(envs, c, r[i]) {
      assert r[i] == d[i + 1] && d[i + 1] in d;
    }
    TurnsAgree(envs, envs', r, c, Some(d[0]), e);
    assert d[0] in d;
  }

  lemma SwitchShortens(s: State, giveUp: bool, e: nat)
    requires Schedulable(s, giveUp) && Switches(s, giveUp) && e in s.list && s.cur != Some(e)
    ensures Schedule(s, giveUp).Some?
    ensures var t := Schedule(s, giveUp).value; t.cur == Some(e) || Bound(t, e) < Bound(s, e)
  {
    hide NoDup, Schedule, Repr, Harmless, MemInv;
    OthersFacts(s, e);
    SchedulePicks(s, giveUp);
    var d, l := Others(s), Requeue(s);
    var more :| l == d + more;
    assert l[0] == d[0];
    var t := Schedule(s, giveUp).value;
    if d[0] != e {
      NextTurn(s.envs, t.envs, d, s.cur, e);
      TurnsAppend(t.envs, d, more, t.cur, e);
    }
  }

  /** The event enters schedule(). */
  predicate CallsScheduler(s: State, ev: Event)
    requires Shaped(s)
  {
    ev.Tick? ||
    (s.cur.Some? && (ev.Yield? || (ev.Recv? && !(ev.dstva != 0 && IllegalVa(ev.dstva)))
                     || (ev.Destroy? && Target(s, ev.envid, true) == s.cur)))
  }

  lemma BlockBound(s: State, dstva: nat, e: nat)
    requires Inv(s) && s.cur.Some? && e in s.list && s.cur != Some(e)
    ensures e in Block(s, dstva).list && Bound(Block(s, dstva), e) == Bound(s, e)
  {
    hide Repr, Wf, Remove, NoDup, MemInv;
    var c, t := s.cur.value, Block(s, dstva);
    DropMembers(s.list, c);
    TurnsDrop(s.envs, s.list, c, s.cur, e);
    TurnsAgree(s.envs, t.envs, t.list, s.cur, s.cur, e);
  }

  lemma FreeBound(s: State, x: nat, e: nat)
    requires Inv(s) && x < NENV && e in s.list && x != e
    ensures e in FreeEnv(s, x).list
    ensures Bound(FreeEnv(s, x), e) <= Bound(s, e)
    ensures s.cur == Some(x) ==> Bound(FreeEnv(s, x).(cur := None), e) <= Bound(s, e)
  {
    hide Repr, Wf, Remove, NoDup, MemInv;
    var t := FreeEnv(s, x);
    DropMembers(s.list, x);
    TurnsDrop(s.envs, s.list, x, s.cur, e);
    TurnsAgree(s.envs, t.envs, t.list, s.cur, s.cur, e);
    if s.cur == Some(x) {
      forall i | 0 <= i < |t.list| ensures Turn(t.envs, None, t.list[i]) == Turn(t.envs, s.cur, t.list[i]) {
        assert t.list[i] in t.list;
      }
      TurnsAgree(t.envs, t.envs, t.list, s.cur, None, e);
    }
  }

  lemma StatusBound(s: State, envid: nat, status: EnvStatus, e: nat)
    requires Inv(s) && s.cur.Some? && e in s.list && e in SysSetEnvStatus(s, envid, status).0.list
    requires Inv(SysSetEnvStatus(s, envid, status).0)
    ensures Bound(SysSetEnvStatus(s, envid, status).0, e) <= Bound(s, e)
  {
    hide Repr, Wf, Remove, InsertTail, NoDup;
    var r := Target(s, envid, true);
    var t := SysSetEnvStatus(s, envid, status).0;
    if r.Some? && status != Free {
      TurnsAgree(s.envs, t.envs, t.list, s.cur, s.cur, e);
      TurnsAppend(s.envs, s.list, [r.value], s.cur, e);
      if r.value != e { TurnsDrop(s.envs, s.list, r.value, s.cur, e); }
    }
  }

  lemma SendBound(s: State, ev: Event, e: nat)
    requires Inv(s) && s.cur.Some? && ev.Send? && e in s.list
    ensures var t := SysIpcTrySend(s, ev.envid, ev.value, ev.srcva, ev.perm, ev.t).0;
            t.cur == s.cur && Bound(t, e) <= Bound(s, e)
  {
    hide Repr, Wf, InsertTail, NoDup, MemInv, FreePages;
    var t := SysIpcTrySend(s, ev.envid, ev.value, ev.srcva, ev.perm, ev.t).0;
    var r := Target(s, ev.envid, false);
    if r.Some? { TurnsAppend(s.envs, s.list, [r.value], s.cur, e); }
    TurnsAgree(s.envs, t.envs, t.list, s.cur, s.cur, e);
  }

  lemma ExoforkBound(s: State, p: nat, e: nat)
    requires Inv(s) && s.cur.Some?
    ensures SysExofork(s, p).0.cur == s.cur && Bound(SysExofork(s, p).0, e) == Bound(s, e)
  {
    var t := SysExofork(s, p).0;
    if s.free != [] {
      assert s.free[0] in s.free;
      forall i | 0 <= i < |s.list| ensures Turn(t.envs, s.cur, s.list[i]) == Turn(s.envs, s.cur, s.list[i]) {
        assert s.list[i] in s.list;
      }
      TurnsAgree(s.envs, t.envs, s.list, s.cur, s.cur, e);
    }
  }

  /** Every step picks the waiting environment, or does not lengthen its wait; a scheduler call shortens it. */
  lemma StepShortens(s: State, ev: Event, e: nat)
    requires Inv(s) && Goes(s, ev) && Inv(Step(s, ev).value)
    requires e in s.list && e in Step(s, ev).value.list && s.cur != Some(e)
    ensures var t := Step(s, ev).value;
            t.cur == Some(e) || Bound(t, e) + (if CallsScheduler(s, ev) then 1 else 0) <= Bound(s, e)
  {
    hide Schedule, SysSetEnvStatus, SysExofork, SysIpcTrySend, NoDup, Bound, Repr, Harmless, MemInv, Remove, FreePages;
    if ev.Tick? {
      ScheduleShortens(s, false, e);
    } else if s.cur.Some? {
      match ev
      case Yield => ScheduleShortens(s, true, e);
      case Exofork(p) => ExoforkBound(s, p, e);
      case SetStatus(envid, status) => StatusBound(s, envid, status, e);
      case Recv(dstva) =>
        if !(dstva != 0 && IllegalVa(dstva)) {
          BlockKeepsInv(s, dstva);
          BlockBound(s, dstva, e);
          ScheduleShortens(Block(s, dstva), true, e);
        }
      case Send(envid, value, srcva, perm, t) => SendBound(s, ev, e);
      case Destroy(envid) =>
        var x := Target(s, envid, true);
        if x.Some? {
          TargetLive(s, envid, true);
          FreeEnvKeepsInv(s, x.value);
          if x.value != e {
            FreeBound(s, x.value, e);
            if s.cur == x { ScheduleShortens(FreeEnv(s, x.value).(cur := None), true, e); }
          } else {
            DropMembers(s.list, e);
          }
        }
      case _ => MemoryBound(s, ev, e);
    }
  }

  lemma MemoryBound(s: State, ev: Event, e: nat)
    requires Inv(s) && s.cur.Some? && (ev.MemAlloc? || ev.MemMap? || ev.MemUnmap? || ev.Fault?)
    ensures Step(s, ev).Some? ==> Bound(Step(s, ev).value, e) == Bound(s, e)
  {
    hide Step, Inv;
    InvShaped(s);
    MemoryKeepsInv(s, ev);
  }

  // ----- how long a turn lasts -----

  /** The scheduler call leaves the current environment, or finds none. */
  predicate Reschedules(s: State, ev: Event)
    requires Shaped(s)
  {
    CallsScheduler(s, ev) && (ev.Tick? ==> Switches(s, false))
  }

  /** The environment that a scheduler call picks starts with env_pri - 1 further calls, if that is a positive int, and
    * none otherwise; env_runs goes up by one for it alone. */
  lemma PickStarts(s: State, giveUp: bool, x: nat)
    requires Shaped(s) && Schedule(s, giveUp).Some? && x < NENV
    ensures var t := Schedule(s, giveUp).value;
            && t.cur.Some? && t.cur.value < NENV && |t.envs| == NENV
            && t.envs[x].runs == s.envs[x].runs + (if t.cur == Some(x) then 1 else 0)
            && (var p := s.envs[t.cur.value].pri;
                Switches(s, giveUp) && p < WORD ==> if 1 <= p < 0x8000_0000 then t.count == p - 1 else t.count < 0)
  {
  }

  lemma TurnStarts(s: State, ev: Event, e: nat)
    requires Inv(s) && Goes(s, ev) && Reschedules(s, ev) && Step(s, ev).value.cur == Some(e) && e < NENV
    ensures var t, p := Step(s, ev).value, s.envs[e].pri;
            |t.envs| == NENV && (p < WORD ==> if 1 <= p < 0x8000_0000 then t.count == p - 1 else t.count < 0)
  {
    hide Schedule, Repr, Remove, InsertTail, Drop, NoDup, MemInv, Harmless;
    match ev
    case Tick => PickStarts(s, false, e);
    case Yield => PickStarts(s, true, e);
    case Recv(dstva) => PickStarts(Block(s, dstva), true, e);
    case Destroy(envid) => PickStarts(FreeEnv(s, s.cur.value).(cur := None), true, e);
  }

  function Ticks(evs: seq<Event>): nat {
    if evs == [] then 0 else (if evs[0].Tick? then 1 else 0) + Ticks(evs[1..])
  }

  /** Throughout the run e is runnable, and nobody gives up the CPU. */
  ghost predicate Undisturbed(s: State, evs: seq<Event>, e: nat)
    requires Inv(s) && Exec(s, evs).Some? && e < NENV
    decreases |evs|
  {
    s.envs[e].status == Runnable &&
    (evs == [] || (StepKeepsInv(s, evs[0]); (CallsScheduler(s, evs[0]) ==> evs[0].Tick?)
                                            && Undisturbed(Step(s, evs[0]).value, evs[1..], e)))
  }

  lemma StaysCurrent(s: State, ev: Event)
    requires Inv(s) && Goes(s, ev) && s.cur.Some?
    requires CallsScheduler(s, ev) ==> ev.Tick? && !Switches(s, false)
    ensures Step(s, ev).value.cur == s.cur
    ensures Step(s, ev).value.count == s.count - (if ev.Tick? then 1 else 0)
  {
    hide Schedule, Repr, Remove, InsertTail, Drop, NoDup, MemInv, Harmless, FreePages;
    if ev.Tick? { StaysOn(s, false); }
  }

  /** A current environment keeps the CPU for as many ticks as its slice counter says, and each takes one off. */
  lemma {:induction false} HoldsCpu(s: State, evs: seq<Event>, e: nat)
    requires Inv(s) && Exec(s, evs).Some? && e < NENV && Undisturbed(s, evs, e)
    requires s.cur == Some(e) && Ticks(evs) <= (if s.count > 0 then s.count else 0)
    ensures Exec(s, evs).value.cur == Some(e) && Exec(s, evs).value.count == s.count - Ticks(evs)
    ensures Exec(s, evs).value.envs[e].status == Runnable
    decreases |evs|
  {
    hide Step, Inv, Allowed, CallsScheduler;
    InvShaped(s);
    if evs != [] {
      StepKeepsInv(s, evs[0]);
      assert Goes(s, evs[0]);
      StaysCurrent(s, evs[0]);
      HoldsCpu(Step(s, evs[0]).value, evs[1..], e);
    }
  }

  /** A tick with the slice used up moves the current environment to the tail and runs the head of the list. */
  lemma SliceEnds(s: State, e: nat)
    requires Inv(s) && s.cur == Some(e) && e < NENV && s.envs[e].status == Runnable && s.count <= 0
    ensures Goes(s, Tick)
    ensures var t := Step(s, Tick).value; t.list == Drop(s.list, e) + [e] && t.cur == Some(t.list[0])
  {
    hide Schedule, Repr, Remove, InsertTail, Drop, NoDup, MemInv, Harmless;
    SchedulePicks(s, false);
    assert Requeue(s) == Drop(s.list, e) + [e];
  }

  /** Priorities: an environment that schedule switches to keeps the CPU, while it stays runnable and nobody gives the
    * CPU up, for exactly env_pri - 1 further scheduler calls, and the next one sends it to the tail of the list. With a
    * priority of zero, or one that is negative as an int, the very next call does. */
  lemma TurnLength(s: State, ev: Event, evs: seq<Event>, e: nat)
    requires Inv(s) && Goes(s, ev) && Reschedules(s, ev) && e < NENV && s.envs[e].pri < WORD
    requires Step(s, ev).value.cur == Some(e) && Inv(Step(s, ev).value)
    requires Exec(Step(s, ev).value, evs).Some? && Undisturbed(Step(s, ev).value, evs, e)
    ensures var u, p := Exec(Step(s, ev).value, evs).value, s.envs[e].pri;
            && (1 <= p < 0x8000_0000 && Ticks(evs) <= p - 1 ==> u.cur == Some(e))
            && ((if 1 <= p < 0x8000_0000 then Ticks(evs) == p - 1 else Ticks(evs) == 0) ==>
                u.cur == Some(e) && Goes(u, Tick)
                && Step(u, Tick).value.list == Drop(u.list, e) + [e]
                && Step(u, Tick).value.cur == Some(Step(u, Tick).value.list[0]))
  {
    hide Step, Inv, Allowed, Undisturbed, Exec, Reschedules;
    InvShaped(s);
    TurnStarts(s, ev, e);
    var t, p := Step(s, ev).value, s.envs[e].pri;
    InvShaped(t);
    if (1 <= p < 0x8000_0000 && Ticks(evs) <= p - 1) || Ticks(evs) == 0 {
      HoldsCpu(t, evs, e);
      var u := Exec(t, evs).value;
      if u.count <= 0 { SliceEnds(u, e); }
    }
  }

  /** env_runs of a living environment counts the scheduler calls that ran it, and nothing else. */
  lemma StepRuns(s: State, ev: Event, x: nat)
    requires Inv(s) && Goes(s, ev) && x < NENV && s.envs[x].status != Free
    ensures var t := Step(s, ev).value;
            && |t.envs| == NENV
            && t.envs[x].runs == s.envs[x].runs + (if CallsScheduler(s, ev) && t.cur == Some(x) then 1 else 0)
  {
    hide Schedule, Repr, Remove, InsertTail, Drop, NoDup, MemInv, Harmless, FreePages, SysMemAlloc, SysMemMap,
      SysMemUnmap, PageFault, SysExofork, SysSetEnvStatus, SysIpcTrySend;
    if ev.Tick? {
      PickStarts(s, false, x);
    } else if s.cur.Some? {
      match ev
      case Yield => PickStarts(s, true, x);
      case Exofork(p) => ExoforkRuns(s, p, x);
      case SetStatus(envid, status) => StatusRuns(s, envid, status, x);
      case Recv(dstva) => if !(dstva != 0 && IllegalVa(dstva)) { PickStarts(Block(s, dstva), true, x); }
      case Send(_, _, _, _, _) => SendRuns(s, ev, x);
      case Destroy(envid) =>
        if Target(s, envid, true) == s.cur { PickStarts(FreeEnv(s, s.cur.value).(cur := None), true, x); }
      case _ => MemoryKeepsInv(s, ev);
    }
  }

  lemma ExoforkRuns(s: State, p: nat, x: nat)
    requires Inv(s) && s.cur.Some? && x < NENV && s.envs[x].status != Free
    ensures SysExofork(s, p).0.envs[x].runs == s.envs[x].runs
  {
    hide Repr, Wf, FreePages, MemInv, NoDup;
    if s.free != [] { assert s.free[0] in s.free; }
  }

  lemma StatusRuns(s: State, envid: nat, status: EnvStatus, x: nat)
    requires Shaped(s) && s.cur.Some? && x < NENV
    ensures SysSetEnvStatus(s, envid, status).0.envs[x].runs == s.envs[x].runs
  {
    hide Wf, Remove, InsertTail, Drop;
  }

  lemma SendRuns(s: State, ev: Event, x: nat)
    requires Shaped(s) && s.cur.Some? && ev.Send? && x < NENV
    ensures SysIpcTrySend(s, ev.envid, ev.value, ev.srcva, ev.perm, ev.t).0.envs[x].runs == s.envs[x].runs
  {
    hide Wf, InsertTail, FreePages;
  }

  /** env_create during boot: the new environment has the priority asked for, and is the first to run. */
  lemma CreatedRuns(s: State, pri: nat, p: nat)
    requires Inv(s) && LiveReceivers(s) && s.cur.None?
    requires s.free != [] && p in FreePages(s.mem) && NENV - |s.free| < NASID
    ensures var t, e := EnvCreate(s, pri, p), s.free[0];
            && e < NENV && Inv(t) && t.list == [e] + s.list && t.envs[e].pri == pri && t.envs[e].status == Runnable
            && t.envs[e].pgdir == p && Goes(t, Tick) && Step(t, Tick).value.cur == Some(e)
  {
    hide Repr, Wf, FreePages, InsertHead, Schedule, NoDup, MemInv;
    CreateKeepsInv(s, pri, p);
    assert s.free[0] in s.free;
    SchedulePicks(EnvCreate(s, pri, p), false);
  }

  // ----- whole runs -----

  /** e is runnable in every state of the run and never picked. */
  ghost predicate Waits(s: State, evs: seq<Event>, e: nat)
    requires Inv(s) && Exec(s, evs).Some?
    decreases |evs|
  {
    e in s.list && s.cur != Some(e) &&
    (evs == [] || (StepKeepsInv(s, evs[0]); Waits(Step(s, evs[0]).value, evs[1..], e)))
  }

  ghost function SchedulerCalls(s: State, evs: seq<Event>): nat
    requires Inv(s) && Exec(s, evs).Some?
    decreases |evs|
  {
    if evs == [] then 0
    else
      StepKeepsInv(s, evs[0]);
      (if CallsScheduler(s, evs[0]) then 1 else 0) + SchedulerCalls(Step(s, evs[0]).value, evs[1..])
  }

  /** Bounded waiting: an environment that stays runnable is passed over by at most Bound scheduler calls. */
  lemma {:induction false} BoundedWaiting(s: State, evs: seq<Event>, e: nat)
    requires Inv(s) && Exec(s, evs).Some? && Waits(s, evs, e)
    ensures SchedulerCalls(s, evs) <= Bound(s, e)
    decreases |evs|
  {
    if evs != [] {
      StepKeepsInv(s, evs[0]);
      StepShortens(s, evs[0], e);
      BoundedWaiting(Step(s, evs[0]).value, evs[1..], e);
    }
  }
}
