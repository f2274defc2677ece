/** The ring buffer of user/lib/pipe.c shared by one reader and one writer that interleave at every memory access.
  * Positions are 32-bit counters; the history variables written and read are unbounded. */
module PipeFifo {
  import opened Common

  const PIPE_SIZE: nat := 32

  /** Where the writer stands in its loop: testing for room, about to store, about to advance p_wpos past byte b. */
  datatype Writer = WTesting | WReady | WStored(b: nat)

  /** Where the reader stands: testing for data, about to load, about to advance p_rpos. */
  datatype Reader = RTesting | RReady | RLoaded

  datatype State = State(rpos: nat, wpos: nat, buf: seq<nat>, w: Writer, r: Reader,
                         written: seq<nat>, read: seq<nat>)

  datatype Step = WTest | WStore(b: nat) | WAdvance | RTest | RLoad | RAdvance

  /** pipe(): both positions zero, the buffer whatever the fresh page holds. */
  predicate Init(s: State) {
    s.rpos == 0 && s.wpos == 0 && |s.buf| == PIPE_SIZE && s.w == WTesting && s.r == RTesting && s.written == []
    && s.read == []
  }

  /** Unsigned subtraction. */
  function Minus(a: nat, b: nat): nat
    requires a < WORD && b < WORD
  {
    (a + WORD - b) % WORD
  }

  /** One micro-step; a step that is not enabled changes nothing (the process does something else or yields). */
  function Next(s: State, step: Step): State
    requires |s.buf| == PIPE_SIZE && s.rpos < WORD && s.wpos < WORD
  {
    match step
    case WTest =>
      // while (p->p_wpos - p->p_rpos >= PIPE_SIZE)
      if s.w == WTesting && Minus(s.wpos, s.rpos) < PIPE_SIZE then s.(w := WReady) else s
    case WStore(b) =>
      // p->p_buf[p->p_wpos % PIPE_SIZE] = wbuf[i]
      if s.w == WReady then s.(w := WStored(b), buf := s.buf[s.wpos % PIPE_SIZE := b]) else s
    case WAdvance =>
      // p->p_wpos++
      if s.w.WStored? then s.(w := WTesting, wpos := (s.wpos + 1) % WORD, written := s.written + [s.w.b]) else s
    case RTest =>
      // while (p->p_rpos >= p->p_wpos)
      if s.r == RTesting && s.rpos < s.wpos then s.(r := RReady) else s
    case RLoad =>
      // rbuf[i] = p->p_buf[p->p_rpos % PIPE_SIZE]
      if s.r == RReady then s.(r := RLoaded, read := s.read + [s.buf[s.rpos % PIPE_SIZE]]) else s
    case RAdvance =>
      // p->p_rpos++
      if s.r == RLoaded then s.(r := RTesting, rpos := (s.rpos + 1) % WORD) else s
  }

  /** Bytes the reader has taken off the ring. */
  function Taken(s: State): int { |s.read| - (if s.r == RLoaded then 1 else 0) }

  ghost predicate Inv(s: State) {
    var n, t := |s.written|, Taken(s);
    && |s.buf| == PIPE_SIZE && 0 <= t <= n <= t + PIPE_SIZE && |s.read| <= n
    && s.wpos == n % WORD && s.rpos == t % WORD
    && (s.w != WTesting ==> n < t + PIPE_SIZE)
    && (s.r != RTesting ==> t < n)
    && (s.w.WStored? ==> s.buf[n % PIPE_SIZE] == s.w.b)
    && (forall i :: t <= i < n ==> s.buf[i % PIPE_SIZE] == s.written[i])
    && (forall i :: 0 <= i < |s.read| ==> s.read[i] == s.written[i])
  }

  /** Distinct bytes of the window lie in distinct cells. */
  lemma Cells(i: nat, j: nat)
    requires i < j < i + PIPE_SIZE
    ensures i % PIPE_SIZE != j % PIPE_SIZE
  {
    assert i == i / 32 * 32 + i % 32 && j == j / 32 * 32 + j % 32;
  }

  /** A wrapped position selects the same cell as the full count. */
  lemma WrapKeepsCell(n: nat)
    ensures n % WORD % PIPE_SIZE == n % PIPE_SIZE
  {
    WholeTurns(n / WORD * 0x800_0000, n % WORD);
    assert n == n / WORD * 0x800_0000 * PIPE_SIZE + n % WORD;
  }

  lemma WholeTurns(k: nat, r: nat)
    ensures (k * PIPE_SIZE + r) % PIPE_SIZE == r % PIPE_SIZE
  {
    assert k * PIPE_SIZE + r == (k + r / PIPE_SIZE) * PIPE_SIZE + r % PIPE_SIZE;
  }

  /** The wrapped difference is the true fill level, whether or not a position has wrapped. */
  lemma FillLevel(n: nat, t: nat)
    requires t <= n <= t + PIPE_SIZE
    ensures Minus(n % WORD, t % WORD) == n - t
  {
    var a, b := n / WORD, t / WORD;
    assert n == a * WORD + n % WORD && t == b * WORD + t % WORD;
    assert a == b || a == b + 1;
  }

  lemma Successor(n: nat)
    ensures (n % WORD + 1) % WORD == (n + 1) % WORD
  {
    assert n == n / WORD * WORD + n % WORD;
    if n % WORD + 1 == WORD { assert n + 1 == (n / WORD + 1) * WORD; }
  }

  lemma StoreStep(s: State, b: nat)
    requires Inv(s) && s.w == WReady
    ensures Inv(Next(s, WStore(b)))
  {
    var n := |s.written|;
    WrapKeepsCell(n);
    forall i | Taken(s) <= i < n ensures i % PIPE_SIZE != n % PIPE_SIZE { Cells(i, n); }
  }

  lemma LoadStep(s: State)
    requires Inv(s) && s.r == RReady
    ensures Inv(Next(s, RLoad))
  {
    WrapKeepsCell(Taken(s));
  }

  lemma WAdvanceStep(s: State)
    requires Inv(s) && s.w.WStored?
    ensures Inv(Next(s, WAdvance))
  {
    Successor(|s.written|);
    WrapKeepsCell(|s.written|);
  }

  lemma StepKeepsInv(s: State, step: Step)
    requires Inv(s)
    ensures Inv(Next(s, step))
  {
    FillLevel(|s.written|, Taken(s));
    match step
    case WTest =>
    case WStore(b) => if s.w == WReady { StoreStep(s, b); }
    case WAdvance => if s.w.WStored? { WAdvanceStep(s); }
    case RTest =>
    case RLoad => if s.r == RReady { LoadStep(s); }
    case RAdvance => Successor(Taken(s));
  }

  /** The state after any interleaving. */
  ghost function Exec(s: State, steps: seq<Step>): (t: State)
    requires Inv(s)
    ensures Inv(t)
    decreases |steps|
  {
    if steps == [] then s
    else
      StepKeepsInv(s, steps[0]);
      Exec(Next(s, steps[0]), steps[1..])
  }

  /** FIFO: under every interleaving and however many bytes pass, the ring never over- or underflows and the bytes
    * read are a prefix of the bytes written. */
  lemma Fifo(s: State, steps: seq<Step>)
    requires Init(s)
    ensures Inv(s)
    ensures var t := Exec(s, steps);
            0 <= |t.written| - Taken(t) <= PIPE_SIZE && t.read <= t.written
  {
  }

  /** The reader compares raw positions. Its "empty" is the truth, except while the unread bytes straddle a
    * multiple of 2^32: then it sees an empty pipe that is not. */
  lemma EmptyTestExact(s: State)
    requires Inv(s)
    ensures s.rpos >= s.wpos <==> Taken(s) == |s.written| || Taken(s) / WORD < |s.written| / WORD
  {
    var n, t := |s.written|, Taken(s);
    assert n == n / WORD * WORD + n % WORD && t == t / WORD * WORD + t % WORD;
  }

  /** The writer goes on exactly while fewer than 32 bytes are unread, and the reader exactly while one is and the
    * unread bytes do not straddle a multiple of 2^32. */
  lemma TestsExact(s: State)
    requires Inv(s)
    ensures s.w == WTesting ==>
              Next(s, WTest) == s.(w := if |s.written| - Taken(s) < 32 then WReady else WTesting)
    ensures s.r == RTesting ==>
              Next(s, RTest) == s.(r := if Taken(s) < |s.written| && Taken(s) / WORD == |s.written| / WORD then RReady
                                        else RTesting)
  {
    FillLevel(|s.written|, Taken(s));
    EmptyTestExact(s);
  }

  // ----- the reader's test after 2^32 bytes -----

  /** The reader is about to test, its position is the last before the wrap, and a byte is unread. */
  ghost predicate Stuck(s: State) {
    Inv(s) && s.r == RTesting && s.rpos == WORD - 1 && Taken(s) < |s.written|
  }

  /** Nothing can be read any more, whatever both sides do: the reader sees an empty pipe, and the writer fills the ring
    * and waits. */
  lemma {:induction false} StuckForever(s: State, steps: seq<Step>)
    requires Stuck(s)
    ensures Stuck(Exec(s, steps)) && Exec(s, steps).read == s.read && Exec(s, steps).rpos >= Exec(s, steps).wpos
    decreases |steps|
  {
    StuckStep(s, WTest);
    if steps != [] {
      StepKeepsInv(s, steps[0]);
      StuckStep(s, steps[0]);
      StuckForever(Next(s, steps[0]), steps[1..]);
    }
  }

  lemma StuckStep(s: State, step: Step)
    requires Stuck(s)
    ensures s.rpos >= s.wpos && Stuck(Next(s, step)) && Next(s, step).read == s.read
  {
    StepKeepsInv(s, step);
    EmptyTestExact(s);
    var n, t := |s.written|, Taken(s);
    FillLevel(n, t);
    assert s.wpos == (n - t + s.rpos) % WORD;
  }

  lemma {:induction false} ExecAppend(s: State, a: seq<Step>, b: seq<Step>)
    requires Inv(s)
    ensures Exec(s, a + b) == Exec(Exec(s, a), b)
    decreases |a|
  {
    if a == [] {
      assert a + b == b;
    } else {
      StepKeepsInv(s, a[0]);
      assert (a + b)[1..] == a[1..] + b;
      ExecAppend(Next(s, a[0]), a[1..], b);
    }
  }

  lemma ThreeSteps(s: State, a: Step, b: Step, c: Step)
    requires Inv(s)
    ensures Inv(Next(s, a)) && Inv(Next(Next(s, a), b)) && Inv(Next(Next(Next(s, a), b), c))
    ensures Exec(s, [a, b, c]) == Next(Next(Next(s, a), b), c)
  {
    hide Next;
    StepKeepsInv(s, a);
    var s1 := Next(s, a);
    StepKeepsInv(s1, b);
    var s2 := Next(s1, b);
    StepKeepsInv(s2, c);
    var steps := [a, b, c];
    assert steps[1..] == [b, c] && [b, c][1..] == [c] && [c][1..] == [];
    assert Exec(s2, [c]) == Exec(Next(s2, c), []);
    assert Exec(s1, [b, c]) == Exec(s2, [c]);
  }

  function Put(b: nat): seq<Step> { [WTest, WStore(b), WAdvance] }

  const TAKE: seq<Step> := [RTest, RLoad, RAdvance]

  function Rounds(n: nat): seq<Step> { if n == 0 then [] else Rounds(n - 1) + (Put(0) + TAKE) }

  /** A byte can be written while there is room, whatever the reader is at. */
  lemma PutByte(s: State, b: nat)
    requires Inv(s) && s.w == WTesting && |s.written| - Taken(s) < 32
    ensures var t := Exec(s, Put(b));
            t.written == s.written + [b] && t.w == WTesting && t.read == s.read && t.r == s.r
  {
    ThreeSteps(s, WTest, WStore(b), WAdvance);
    FillLevel(|s.written|, Taken(s));
  }

  /** An unread byte can be read unless the write position has wrapped. */
  lemma TakeByte(s: State)
    requires Inv(s) && s.r == RTesting && Taken(s) < |s.written| < WORD
    ensures var t := Exec(s, TAKE);
            t.read == s.read + [s.written[|s.read|]] && t.r == RTesting && t.written == s.written && t.w == s.w
  {
    ThreeSteps(s, RTest, RLoad, RAdvance);
    LoadsNext(s);
  }

  lemma LoadsNext(s: State)
    requires Inv(s) && s.r == RTesting && Taken(s) < |s.written| < WORD && Inv(Next(Next(s, RTest), RLoad))
    ensures var t := Next(Next(Next(s, RTest), RLoad), RAdvance);
            t.read == s.read + [s.written[|s.read|]] && t.r == RTesting && t.written == s.written && t.w == s.w
  {
    var u := Next(Next(s, RTest), RLoad);
    assert s.rpos < s.wpos by { EmptyTestExact(s); }
    assert u.read[|s.read|] == u.written[|s.read|];
  }

  function Puts(bs: seq<nat>): seq<Step> { if bs == [] then [] else Put(bs[0]) + Puts(bs[1..]) }

  function Takes(n: nat): seq<Step> { if n == 0 then [] else TAKE + Takes(n - 1) }

  lemma {:induction false} PutMany(s: State, bs: seq<nat>)
    requires Inv(s) && s.w == WTesting && |s.written| - Taken(s) + |bs| <= 32
    ensures var t := Exec(s, Puts(bs));
            t.written == s.written + bs && t.w == WTesting && t.read == s.read && t.r == s.r
    decreases |bs|
  {
    hide Next;
    if bs != [] {
      PutByte(s, bs[0]);
      ExecAppend(s, Put(bs[0]), Puts(bs[1..]));
      PutMany(Exec(s, Put(bs[0])), bs[1..]);
      assert s.written + [bs[0]] + bs[1..] == s.written + bs;
    }
  }

  lemma {:induction false} TakeMany(s: State, n: nat)
    requires Inv(s) && s.r == RTesting && Taken(s) + n <= |s.written| < WORD
    ensures var t := Exec(s, Takes(n));
            t.read == s.written[..Taken(s) + n] && t.r == RTesting && t.written == s.written
    decreases n
  {
    hide Next;
    if n == 0 {
      assert s.read == s.written[..Taken(s)];
    } else {
      TakeByte(s);
      ExecAppend(s, TAKE, Takes(n - 1));
      TakeMany(Exec(s, TAKE), n - 1);
    }
  }

  /** A fresh pipe takes 32 bytes before any is read, and no more; they come back in order. */
  lemma FillThenDrain(s: State, bs: seq<nat>)
    requires Init(s) && |bs| <= 32
    ensures Inv(s)
    ensures var t := Exec(s, Puts(bs));
            && t.written == bs && t.read == [] && (Next(t, WTest).w == WTesting <==> |bs| == 32)
            && Exec(t, Takes(|bs|)).read == bs
  {
    hide Next, Exec, Puts, Takes;
    PutMany(s, bs);
    var t := Exec(s, Puts(bs));
    assert s.written + bs == bs;
    TestsExact(t);
    TakeMany(t, |bs|);
    assert bs[..|bs|] == bs;
  }

  /** Both sides are at their tests, with this many bytes written and read. */
  ghost predicate Resting(s: State, written: nat, read: nat) {
    Inv(s) && s.w == WTesting && s.r == RTesting && |s.written| == written && |s.read| == read
  }

  lemma {:induction false} ManyRounds(s: State, n: nat)
    requires Init(s) && n < WORD
    ensures Inv(s) && Resting(Exec(s, Rounds(n)), n, n)
  {
    if n > 0 {
      ManyRounds(s, n - 1);
      var t := Exec(s, Rounds(n - 1));
      PutByte(t, 0);
      TakeByte(Exec(t, Put(0)));
      ExecAppend(t, Put(0), TAKE);
      ExecAppend(s, Rounds(n - 1), Put(0) + TAKE);
    }
  }

  /** Every pipe gets there: after 2^32 - 1 bytes written and read, and one more written, the reader is stuck. */
  lemma PipeGetsStuck(s: State)
    requires Init(s)
    ensures Inv(s) && Stuck(Exec(s, Rounds(WORD - 1) + Put(0)))
  {
    ManyRounds(s, WORD - 1);
    PutByte(Exec(s, Rounds(WORD - 1)), 0);
    ExecAppend(s, Rounds(WORD - 1), Put(0));
  }

  /** The reader has not passed the wrap, and is not about to. */
  ghost predicate BeforeWrap(s: State) {
    Inv(s) && Taken(s) < WORD && (s.r != RTesting ==> Taken(s) < WORD - 1)
  }

  lemma BeforeWrapStep(s: State, step: Step)
    requires BeforeWrap(s)
    ensures BeforeWrap(Next(s, step))
  {
    StepKeepsInv(s, step);
    if step == RTest && s.r == RTesting && Taken(s) == WORD - 1 && Taken(s) < |s.written| { StuckStep(s, step); }
  }

  lemma {:induction false} BeforeWrapRun(s: State, steps: seq<Step>)
    requires BeforeWrap(s)
    ensures BeforeWrap(Exec(s, steps))
    decreases |steps|
  {
    if steps != [] {
      StepKeepsInv(s, steps[0]);
      BeforeWrapStep(s, steps[0]);
      BeforeWrapRun(Next(s, steps[0]), steps[1..]);
    }
  }

  /** No run of any pipe ever reads 2^32 bytes. */
  lemma FewerThanWordRead(s: State, steps: seq<Step>)
    requires Init(s)
    ensures Inv(s) && |Exec(s, steps).read| < WORD
  {
    BeforeWrapRun(s, steps);
  }
}
