/** The "pipe is closed" test of user/lib/pipe.c under interleaved dup, close, exit, fork and spawn.
  *
  * A descriptor slot of an environment maps two pages: its Fd page and, through fd2data, the Pipe page.
  * dup maps the Pipe page first and the Fd page second; close unmaps the Fd page first. fork and spawn share pages in
  * address order, so a child has the Fd pages of all its slots before the first Pipe page. The test reads two reference
  * counts and retries while its environment has been switched out in between. */
module PipeClosed {
  import opened Common

  datatype End = Read | Write

  datatype Slot = Slot(env: nat, fd: nat, end: End)

  /** Progress of _pipe_is_closed in one environment. */
  datatype Check =
    | Idle
    | GotRuns(slot: Slot, runs: nat)
    | GotFd(slot: Slot, runs: nat, fdRef: nat)
    | GotBoth(slot: Slot, runs: nat, fdRef: nat, pipeRef: nat)

  /** fds and pipes: slots whose Fd page and whose Pipe page is mapped; runs: env_runs; cur: who has the CPU. */
  datatype State = State(fds: set<Slot>, pipes: set<Slot>, cur: nat, runs: seq<nat>, checks: seq<Check>)

  datatype Step =
    | Switch(env: nat)
    | DupPipe(from: Slot, to: Slot)
    | DupFd(from: Slot, to: Slot)
    | CloseFd(slot: Slot)
    | ClosePipe(slot: Slot)
    | Exit(env: nat)
    | ShareFd(from: Slot, to: Slot)
    | SharePipe(from: Slot, to: Slot)
    | ReadRuns(slot: Slot)
    | ReadFdRef
    | ReadPipeRef
    | Compare

  /** pageref of the Fd page of one end, and of the Pipe page. */
  function FdsOf(s: State, end: End): set<Slot> { set x | x in s.fds && x.end == end }

  predicate Wf(s: State) { s.cur < |s.runs| == |s.checks| }

  /** What the compare step answers, if it does not retry. */
  datatype Answer = Retry | Closed | Open

  function Verdict(s: State): Answer
    requires Wf(s)
  {
    match s.checks[s.cur]
    case GotBoth(slot, runs, fdRef, pipeRef) =>
      if runs != s.runs[s.cur] then Retry else if fdRef == pipeRef then Closed else Open
    case _ => Retry
  }

  function Next(s: State, step: Step): State
    requires Wf(s)
  {
    var c := s.cur;
    var check := s.checks[c];
    match step
    case Switch(e) =>
      // env_run: the environment that gets the CPU has its env_runs incremented
      if e < |s.runs| && s.runs[e] + 1 < WORD then s.(cur := e, runs := s.runs[e := s.runs[e] + 1]) else s
    case DupPipe(from, to) =>
      if check == Idle && from.env == c && to.env == c && to.end == from.end && from in s.fds && to !in s.fds
      then s.(pipes := s.pipes + {to}) else s
    case DupFd(from, to) =>
      if check == Idle && from.env == c && to.env == c && to.end == from.end && from in s.fds && to in s.pipes
      then s.(fds := s.fds + {to}) else s
    case CloseFd(slot) =>
      if check == Idle && slot.env == c then s.(fds := s.fds - {slot}) else s
    case ClosePipe(slot) =>
      if check == Idle && slot.env == c && slot !in s.fds then s.(pipes := s.pipes - {slot}) else s
    case Exit(e) =>
      // env_free runs in the kernel: both pages of every slot of e go at once
      if check == Idle && e < |s.checks|
      then s.(fds := (set x | x in s.fds && x.env != e), pipes := (set x | x in s.pipes && x.env != e),
              checks := s.checks[e := Idle])
      else s
    case ShareFd(from, to) =>
      if check == Idle && from.env == c && to.end == from.end && to.fd == from.fd && from in s.fds
      then s.(fds := s.fds + {to}) else s
    case SharePipe(from, to) =>
      if check == Idle && from.env == c && to.end == from.end && to.fd == from.fd && from in s.pipes
      then s.(pipes := s.pipes + {to}) else s
    case ReadRuns(slot) =>
      if check == Idle && slot.env == c && slot in s.fds then s.(checks := s.checks[c := GotRuns(slot, s.runs[c])])
      else s
    case ReadFdRef =>
      if check.GotRuns? then s.(checks := s.checks[c := GotFd(check.slot, check.runs, |FdsOf(s, check.slot.end)|)])
      else s
    case ReadPipeRef =>
      if check.GotFd? then s.(checks := s.checks[c := GotBoth(check.slot, check.runs, check.fdRef, |s.pipes|)]) else s
    case Compare =>
      if !check.GotBoth? then s
      else if Verdict(s) == Retry then s.(checks := s.checks[c := GotRuns(check.slot, s.runs[c])])
      else s.(checks := s.checks[c := Idle])
  }

  /** A check that its environment has not been switched out of has read the present counts. */
  ghost predicate Inv(s: State) {
    Wf(s) && forall e :: 0 <= e < |s.checks| ==> Undisturbed(s, e)
  }

  ghost predicate Undisturbed(s: State, e: nat)
    requires Wf(s) && e < |s.checks|
  {
    var k := s.checks[e];
    k.Idle? ||
    (k.runs <= s.runs[e] &&
     (s.cur == e && k.runs == s.runs[e] ==>
        (k.GotFd? ==> k.fdRef == |FdsOf(s, k.slot.end)|) &&
        (k.GotBoth? ==> k.fdRef == |FdsOf(s, k.slot.end)| && k.pipeRef == |s.pipes|)))
  }

  lemma StepKeepsInv(s: State, step: Step)
    requires Inv(s)
    ensures Inv(Next(s, step))
  {
    var t := Next(s, step);
    forall e | 0 <= e < |t.checks| ensures Undisturbed(t, e) {
      assert Undisturbed(s, e);
      if t.fds == s.fds && t.checks == s.checks && t.cur == s.cur {
        assert FdsOf(t, Read) == FdsOf(s, Read) && FdsOf(t, Write) == FdsOf(s, Write);
      }
    }
  }

  ghost function Exec(s: State, steps: seq<Step>): (t: State)
    requires Inv(s)
    ensures Inv(t)
    decreases |steps|
  {
    if steps == [] then s
    else
      StepKeepsInv(s, steps[0]);
      Exec(Next(s, steps[0]), steps[1..])
  }

  lemma {:induction false} SubsetSize<T>(a: set<T>, b: set<T>)
    requires a <= b
    ensures |a| <= |b| && (|a| == |b| <==> a == b)
    decreases b
  {
    if a != b {
      var x :| x in b && x !in a;
      SubsetSize(a, b - {x});
    }
  }

  // ----- without fork and spawn -----

  /** Slots of which a child has the Fd page and not yet the Pipe page. */
  function HalfShared(s: State): set<Slot> { s.fds - s.pipes }

  /** Only the first half of a share leaves a slot half shared. */
  lemma HalfSharedStep(s: State, step: Step)
    requires Inv(s)
    ensures HalfShared(Next(s, step)) <= HalfShared(s) + if step.ShareFd? then {step.to} else {}
  {
  }

  predicate NoShare(steps: seq<Step>) { forall i :: 0 <= i < |steps| ==> !steps[i].ShareFd? }

  lemma {:induction false} NoShareNoHalf(s: State, steps: seq<Step>)
    requires Inv(s) && NoShare(steps) && HalfShared(s) == {}
    ensures HalfShared(Exec(s, steps)) == {}
    decreases |steps|
  {
    if steps != [] {
      StepKeepsInv(s, steps[0]);
      HalfSharedStep(s, steps[0]);
      assert !steps[0].ShareFd? && NoShare(steps[1..]);
      NoShareNoHalf(Next(s, steps[0]), steps[1..]);
    }
  }

  /** Without fork and spawn the Pipe page has in every reachable state at least as many references as both Fd pages
    * together. */
  lemma PipeRefsCover(s: State, steps: seq<Step>)
    requires Inv(s) && NoShare(steps) && HalfShared(s) == {}
    ensures var t := Exec(s, steps); |t.pipes| >= |FdsOf(t, Read)| + |FdsOf(t, Write)|
  {
    var t := Exec(s, steps);
    NoShareNoHalf(s, steps);
    assert t.fds == FdsOf(t, Read) + FdsOf(t, Write) && FdsOf(t, Read) !! FdsOf(t, Write);
    forall x | x in t.fds ensures x in t.pipes { assert x !in HalfShared(t); }
    SubsetSize(t.fds, t.pipes);
  }

  // ----- when the answer is true -----

  /** Mappings of the pipe that are not slots of this end with both pages: the other end, or a slot on its way in or
    * out. */
  function Foreign(s: State, end: End): set<Slot> { s.pipes - FdsOf(s, end) }

  function HalfOwn(s: State, end: End): set<Slot> { FdsOf(s, end) - s.pipes }

  /** The answer is true: "closed" is said exactly when nothing but whole slots of the own end maps the pipe. */
  predicate Truthful(s: State)
    requires Wf(s) && Verdict(s) != Retry
  {
    Verdict(s) == Closed <==> Foreign(s, s.checks[s.cur].slot.end) == {}
  }

  /** Over every run, forks and spawns included, when the test answers: it answers "closed" exactly when the half-shared
    * slots of its own end are as many as the foreign mappings. */
  lemma VerdictCounts(s: State, steps: seq<Step>)
    requires Inv(s)
    ensures var t := Exec(s, steps);
            Verdict(t) != Retry ==>
              var end := t.checks[t.cur].slot.end;
              Verdict(t) == Closed <==> |HalfOwn(t, end)| == |Foreign(t, end)|
  {
    var t := Exec(s, steps);
    if Verdict(t) != Retry {
      assert Undisturbed(t, t.cur);
      var end := t.checks[t.cur].slot.end;
      var a, b := FdsOf(t, end), t.pipes;
      assert a == (a - b) + (a * b) && b == (b - a) + (a * b);
      assert |a| == |a - b| + |a * b| && |b| == |b - a| + |a * b|;
    }
  }

  /** The answer is true if and only if no slot of the own end is half shared, or there are foreign mappings and not
    * just as many of them: k half-shared slots turn k foreign mappings into a false "closed", and none into a false
    * "open". */
  lemma VerdictExact(s: State, steps: seq<Step>)
    requires Inv(s)
    ensures var t := Exec(s, steps);
            Verdict(t) != Retry ==>
              var end := t.checks[t.cur].slot.end;
              var k, foreign := |HalfOwn(t, end)|, |Foreign(t, end)|;
              && (Truthful(t) <==> k == 0 || (foreign != 0 && foreign != k))
              && (!Truthful(t) && Verdict(t) == Closed <==> k > 0 && foreign == k)
              && (!Truthful(t) && Verdict(t) == Open <==> k > 0 && foreign == 0)
  {
    VerdictCounts(s, steps);
    var t := Exec(s, steps);
    if Verdict(t) != Retry {
      var f := Foreign(t, t.checks[t.cur].slot.end);
      assert |f| == 0 <==> f == {};
    }
  }

  /** Without fork and spawn the answer is always true. */
  lemma NoFalseAnswer(s: State, steps: seq<Step>)
    requires Inv(s) && NoShare(steps) && HalfShared(s) == {}
    ensures var t := Exec(s, steps); Verdict(t) != Retry ==> Truthful(t)
    ensures var t := Exec(s, steps);
              Verdict(t) == Closed ==> forall x :: x in t.fds ==> x.end == t.checks[t.cur].slot.end
  {
    var t := Exec(s, steps);
    NoShareNoHalf(s, steps);
    VerdictExact(s, steps);
    if Verdict(t) != Retry {
      var end := t.checks[t.cur].slot.end;
      assert HalfOwn(t, end) <= HalfShared(t);
      if Verdict(t) == Closed {
        forall x | x in t.fds ensures x.end == end {
          assert x !in HalfShared(t);
          assert x.end == end || x in Foreign(t, end);
        }
      }
    }
  }

  // ----- what the calls do when nobody interferes -----

  /** The current environment is not in the middle of a test. */
  predicate Ready(s: State) { Wf(s) && s.checks[s.cur] == Idle }

  /** dup of an open descriptor opens the other one, with both its pages, and changes nothing else. */
  lemma DupOpens(s: State, from: Slot, to: Slot)
    requires Ready(s) && from.env == to.env == s.cur && from.end == to.end && from in s.fds && to !in s.fds
    ensures Next(Next(s, DupPipe(from, to)), DupFd(from, to)) == s.(fds := s.fds + {to}, pipes := s.pipes + {to})
  {
  }

  /** close takes both pages of a descriptor away, and nothing else. */
  lemma CloseCloses(s: State, slot: Slot)
    requires Ready(s) && slot.env == s.cur
    ensures Next(Next(s, CloseFd(slot)), ClosePipe(slot)) == s.(fds := s.fds - {slot}, pipes := s.pipes - {slot})
  {
  }

  /** exit takes both pages of every descriptor of the environment away; fork and spawn give the child both pages of a
    * descriptor, one after the other. */
  lemma ExitAndShare(s: State, e: nat, from: Slot, to: Slot)
    requires Ready(s) && e < |s.checks| && from.env == s.cur && from.end == to.end && from.fd == to.fd
    requires from in s.fds && from in s.pipes
    ensures forall x :: x in Next(s, Exit(e)).fds <==> x in s.fds && x.env != e
    ensures forall x :: x in Next(s, Exit(e)).pipes <==> x in s.pipes && x.env != e
    ensures Next(Next(s, ShareFd(from, to)), SharePipe(from, to)) == s.(fds := s.fds + {to}, pipes := s.pipes + {to})
  {
  }

  /** The test, run without interruption, ends with an answer and leaves everything as it was. With no slot half
    * shared it says "closed" exactly when every mapping of the pipe belongs to an open descriptor of its own end. */
  lemma TestAnswers(s: State, slot: Slot)
    requires Ready(s) && slot.env == s.cur && slot in s.fds
    ensures var t := Next(Next(Next(s, ReadRuns(slot)), ReadFdRef), ReadPipeRef);
            && Wf(t) && Verdict(t) != Retry && Next(t, Compare) == s
            && (HalfShared(s) == {} ==>
                (Verdict(t) == Closed <==> forall x :: x in s.pipes ==> x in s.fds && x.end == slot.end))
  {
    var t1 := Next(s, ReadRuns(slot));
    var fds := FdsOf(s, slot.end);
    assert FdsOf(t1, slot.end) == fds;
    if HalfShared(s) == {} {
      forall x | x in fds ensures x in s.pipes { assert x !in HalfShared(s); }
      SubsetSize(fds, s.pipes);
      assert fds == s.pipes <==> forall x :: x in s.pipes ==> x in s.fds && x.end == slot.end;
    }
  }

  /** Closing the last descriptor of the other end is noticed: the next test says "closed". */
  lemma LastCloseNoticed(s: State, slot: Slot, other: Slot)
    requires Ready(s) && HalfShared(s) == {} && slot.env == other.env == s.cur && slot in s.fds && slot.end != other.end
    requires forall x :: x in s.pipes ==> x in s.fds && (x.end != slot.end ==> x == other)
    ensures var u := Next(Next(s, CloseFd(other)), ClosePipe(other));
            && Ready(u) && HalfShared(u) == {}
            && Verdict(Next(Next(Next(u, ReadRuns(slot)), ReadFdRef), ReadPipeRef)) == Closed
  {
    hide Verdict, FdsOf;
    CloseCloses(s, other);
    var u := s.(fds := s.fds - {other}, pipes := s.pipes - {other});
    assert HalfShared(u) <= HalfShared(s);
    TestAnswers(u, slot);
  }

  // ----- runs with a fork in them -----

  /** Environment 0 has the read end open, and the write end too if write; environment 2 has the read end. 0 forks 1. */
  function Forking(write: bool): State {
    var r0, w0, r2 := Slot(0, 0, Read), Slot(0, 1, Write), Slot(2, 0, Read);
    var open := if write then {r0, w0, r2} else {r0, r2};
    State(open, open, 0, [0, 0, 0], [Idle, Idle, Idle])
  }

  /** 0 maps the child's Fd page; then 2 gets the CPU and tests whether the pipe is closed. */
  function HalfFork(): seq<Step> {
    [ShareFd(Slot(0, 0, Read), Slot(1, 0, Read)), Switch(2), ReadRuns(Slot(2, 0, Read)), ReadFdRef, ReadPipeRef]
  }

  lemma HalfForkRuns(write: bool)
    ensures Inv(Forking(write)) && HalfShared(Forking(write)) == {}
    ensures var t := Exec(Forking(write), HalfFork());
            && t.cur == 2 && t.pipes == Forking(write).pipes && t.fds == Forking(write).fds + {Slot(1, 0, Read)}
            && t.runs == [0, 0, 1] && t.checks == [Idle, Idle, GotBoth(Slot(2, 0, Read), 1, 3, if write then 3 else 2)]
  {
    hide Next, Exec, FdsOf;
    var s := Forking(write);
    FiveSteps(s, HalfFork());
    HalfForkSteps(s);
    HalfForkCounts(write, s.(fds := s.fds + {Slot(1, 0, Read)}));
  }

  lemma HalfForkSteps(s: State)
    requires s.cur == 0 && s.runs == [0, 0, 0] && s.checks == [Idle, Idle, Idle]
    requires Slot(0, 0, Read) in s.fds && Slot(2, 0, Read) in s.fds
    ensures var h := HalfFork(); var u := s.(fds := s.fds + {Slot(1, 0, Read)});
            Next(Next(Next(Next(Next(s, h[0]), h[1]), h[2]), h[3]), h[4])
            == u.(cur := 2, runs := [0, 0, 1],
                  checks := [Idle, Idle, GotBoth(Slot(2, 0, Read), 1, |FdsOf(u, Read)|, |u.pipes|)])
  {
    var u := s.(fds := s.fds + {Slot(1, 0, Read)});
    var s3 := u.(cur := 2, runs := [0, 0, 1], checks := [Idle, Idle, GotRuns(Slot(2, 0, Read), 1)]);
    assert FdsOf(s3, Read) == FdsOf(u, Read);
  }

  lemma HalfForkCounts(write: bool, s3: State)
    requires s3.fds == Forking(write).fds + {Slot(1, 0, Read)} && s3.pipes == Forking(write).pipes
    ensures |FdsOf(s3, Read)| == 3 && |s3.pipes| == if write then 3 else 2
  {
    assert FdsOf(s3, Read) == {Slot(0, 0, Read), Slot(1, 0, Read), Slot(2, 0, Read)};
  }

  lemma FiveSteps(s: State, steps: seq<Step>)
    requires Inv(s) && |steps| == 5
    ensures Wf(Next(s, steps[0])) && Wf(Next(Next(s, steps[0]), steps[1]))
            && Wf(Next(Next(Next(s, steps[0]), steps[1]), steps[2]))
    ensures Wf(Next(Next(Next(Next(s, steps[0]), steps[1]), steps[2]), steps[3]))
    ensures Exec(s, steps) == Next(Next(Next(Next(Next(s, steps[0]), steps[1]), steps[2]), steps[3]), steps[4])
  {
    hide Next;
    StepKeepsInv(s, steps[0]);
    var s1 := Next(s, steps[0]);
    StepKeepsInv(s1, steps[1]);
    var s2 := Next(s1, steps[1]);
    StepKeepsInv(s2, steps[2]);
    var s3 := Next(s2, steps[2]);
    StepKeepsInv(s3, steps[3]);
    var s4 := Next(s3, steps[3]);
    StepKeepsInv(s4, steps[4]);
    assert steps[4..][1..] == [] && steps[3..][1..] == steps[4..] && steps[2..][1..] == steps[3..]
           && steps[1..][1..] == steps[2..];
    assert Exec(s4, steps[4..]) == Exec(Next(s4, steps[4]), []);
    assert Exec(s3, steps[3..]) == Exec(s4, steps[4..]);
    assert Exec(s2, steps[2..]) == Exec(s3, steps[3..]);
  }

  /** The reader is told that the pipe is closed while the write end is open. */
  lemma FalseClosed()
    ensures Inv(Forking(true))
    ensures var t := Exec(Forking(true), HalfFork());
              Verdict(t) == Closed && Slot(0, 1, Write) in t.fds && Slot(0, 1, Write) in t.pipes
  {
    HalfForkRuns(true);
  }

  /** The reader is told that the pipe is open although nobody has the write end. */
  lemma FalseOpen()
    ensures Inv(Forking(false))
    ensures var t := Exec(Forking(false), HalfFork());
            Verdict(t) == Open && forall x :: x in t.fds || x in t.pipes ==> x.end == Read
  {
    HalfForkRuns(false);
  }
}
