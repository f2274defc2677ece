/** The intrusive tail queue of include/queue.h, link by link, and when TAILQ_REMOVE means "delete if present". */
module TailQueue {
  import opened Common
  import opened Lists

  /** The address of a pointer cell: the queue's tqh_first, or the tqe_next of an element. Null: the element was never
    * queued, and its zeroed tqe_prev points nowhere. */
  datatype Loc = First | NextOf(e: nat) | Null

  /** The head's two fields, and the two link fields of every element, queued or not. */
  datatype Queue = Queue(first: Option<nat>, last: Loc, next: seq<Option<nat>>, prev: seq<Loc>)

  predicate InRange(q: Queue, p: Option<nat>) { p.Some? ==> p.value < |q.next| }

  predicate LocOk(q: Queue, l: Loc) { l.NextOf? ==> l.e < |q.next| }

  /** Every pointer points at something. */
  predicate Wf(q: Queue) {
    && |q.next| == |q.prev| && InRange(q, q.first) && LocOk(q, q.last)
    && (forall e :: 0 <= e < |q.next| ==> InRange(q, q.next[e]) && LocOk(q, q.prev[e]))
  }

  function Load(q: Queue, l: Loc): Option<nat>
    requires LocOk(q, l)
  {
    match l case First => q.first case NextOf(e) => q.next[e] case Null => None
  }

  function Store(q: Queue, l: Loc, v: Option<nat>): Queue
    requires LocOk(q, l)
  {
    match l case First => q.(first := v) case NextOf(e) => q.(next := q.next[e := v]) case Null => q
  }

  /** TAILQ_INSERT_HEAD */
  function InsertHead(q: Queue, x: nat): (r: Queue)
    requires Wf(q) && x < |q.next|
    ensures Wf(r) && |r.next| == |q.next|
  {
    var q1 := q.(next := q.next[x := q.first]);
    var q2 := if q.first.Some? then q1.(prev := q1.prev[q.first.value := NextOf(x)]) else q1.(last := NextOf(x));
    q2.(first := Some(x), prev := q2.prev[x := First])
  }

  /** TAILQ_INSERT_TAIL */
  function InsertTail(q: Queue, x: nat): (r: Queue)
    requires Wf(q) && x < |q.next|
    ensures Wf(r) && |r.next| == |q.next|
  {
    var q1 := q.(next := q.next[x := None], prev := q.prev[x := q.last]);
    Store(q1, q.last, Some(x)).(last := NextOf(x))
  }

  /** TAILQ_REMOVE of x would write through a null pointer. */
  predicate Wild(q: Queue, x: nat)
    requires x < |q.prev|
  {
    q.prev[x].Null?
  }

  /** TAILQ_REMOVE: it trusts the links of x, whether x is queued or not. */
  function Remove(q: Queue, x: nat): (r: Queue)
    requires Wf(q) && x < |q.next|
    ensures Wf(r) && |r.next| == |q.next|
  {
    var q1 := if q.next[x].Some? then q.(prev := q.prev[q.next[x].value := q.prev[x]]) else q.(last := q.prev[x]);
    Store(q1, q1.prev[x], q1.next[x])
  }

  /** What tqe_next and tqe_prev of the i-th element of l hold. */
  function NextIn(l: seq<nat>, i: nat): Option<nat>
    requires i < |l|
  {
    if i + 1 < |l| then Some(l[i + 1]) else None
  }

  function PrevIn(l: seq<nat>, i: nat): Loc
    requires i < |l|
  {
    if i > 0 then NextOf(l[i - 1]) else First
  }

  /** The links spell out the sequence l. */
  ghost predicate Repr(q: Queue, l: seq<nat>) {
    && Wf(q) && NoDup(l) && (forall i :: 0 <= i < |l| ==> l[i] < |q.next|)
    && q.first == (if l == [] then None else Some(l[0]))
    && q.last == (if l == [] then First else NextOf(l[|l| - 1]))
    && (forall i {:trigger NextIn(l, i)} :: 0 <= i < |l| ==> q.next[l[i]] == NextIn(l, i))
    && (forall i {:trigger PrevIn(l, i)} :: 0 <= i < |l| ==> q.prev[l[i]] == PrevIn(l, i))
  }

  lemma InsertHeadRepr(q: Queue, l: seq<nat>, x: nat)
    requires Repr(q, l) && x < |q.next| && x !in l
    ensures Repr(InsertHead(q, x), [x] + l)
  {
    var m, q' := [x] + l, InsertHead(q, x);
    forall i | 0 <= i < |m| ensures q'.next[m[i]] == NextIn(m, i) && q'.prev[m[i]] == PrevIn(m, i) {
      if i > 0 {
        assert m[i] == l[i - 1] && q.next[l[i - 1]] == NextIn(l, i - 1) && q.prev[l[i - 1]] == PrevIn(l, i - 1);
      }
    }
  }

  lemma InsertTailRepr(q: Queue, l: seq<nat>, x: nat)
    requires Repr(q, l) && x < |q.next| && x !in l
    ensures Repr(InsertTail(q, x), l + [x])
  {
    var m, q' := l + [x], InsertTail(q, x);
    forall i | 0 <= i < |m| ensures q'.next[m[i]] == NextIn(m, i) && q'.prev[m[i]] == PrevIn(m, i) {
      if i < |l| { assert m[i] == l[i] && q.next[l[i]] == NextIn(l, i) && q.prev[l[i]] == PrevIn(l, i); }
    }
  }

  /** Removing a queued element deletes it and nothing else. */
  lemma RemoveRepr(q: Queue, l: seq<nat>, i: nat)
    requires Repr(q, l) && i < |l|
    ensures Repr(Remove(q, l[i]), l[..i] + l[i + 1..])
    ensures Drop(l, l[i]) == l[..i] + l[i + 1..]
  {
    hide Remove, NoDup, Drop;
    RemoveDrop(l, i);
    var m := l[..i] + l[i + 1..];
    var q' := Remove(q, l[i]);
    RemoveWrites(q, l, i);
    forall j | 0 <= j < |m| ensures m[j] < |q'.next| && q'.next[m[j]] == NextIn(m, j) && q'.prev[m[j]] == PrevIn(m, j) {
      RemovedLinks(q, l, i, m, j);
    }
    RemovedNoDup(l, i, m);
  }

  lemma RemoveDrop(l: seq<nat>, i: nat)
    requires NoDup(l) && i < |l|
    ensures Drop(l, l[i]) == l[..i] + l[i + 1..]
  {
    DropSplice(l, i);
  }

  lemma RemovedNoDup(l: seq<nat>, i: nat, m: seq<nat>)
    requires NoDup(l) && i < |l| && m == l[..i] + l[i + 1..]
    ensures NoDup(m)
  {
    forall j, k | 0 <= j < k < |m| ensures m[j] != m[k] {
      assert m[j] == l[if j < i then j else j + 1] && m[k] == l[if k < i then k else k + 1];
    }
  }

  /** The three cells a removal touches. */
  lemma RemoveWrites(q: Queue, l: seq<nat>, i: nat)
    requires Repr(q, l) && i < |l|
    ensures var q' := Remove(q, l[i]);
            && Wf(q')
            && q'.prev == (if i + 1 < |l| then q.prev[l[i + 1] := PrevIn(l, i)] else q.prev)
            && q'.next == (if i > 0 then q.next[l[i - 1] := NextIn(l, i)] else q.next)
            && q'.first == (if i > 0 then q.first else NextIn(l, 0))
            && q'.last == (if i + 1 < |l| then q.last else PrevIn(l, i))
  {
    assert q.next[l[i]] == NextIn(l, i) && q.prev[l[i]] == PrevIn(l, i);
  }

  /** Position j of the shortened sequence is position k of l. */
  lemma RemovedLinks(q: Queue, l: seq<nat>, i: nat, m: seq<nat>, j: nat)
    requires Repr(q, l) && i < |l| && m == l[..i] + l[i + 1..] && j < |m|
    ensures m[j] < |q.next|
    ensures Remove(q, l[i]).next[m[j]] == NextIn(m, j)
    ensures Remove(q, l[i]).prev[m[j]] == PrevIn(m, j)
  {
    hide Remove, NoDup;
    RemoveWrites(q, l, i);
    var k := if j < i then j else j + 1;
    assert m[j] == l[k] && q.next[l[k]] == NextIn(l, k) && q.prev[l[k]] == PrevIn(l, k);
    NeighboursAfter(l, i, m, j, k);
    Distinct(l, k, i - 1);
    Distinct(l, k, i + 1);
  }

  lemma NeighboursAfter(l: seq<nat>, i: nat, m: seq<nat>, j: nat, k: nat)
    requires i < |l| && m == l[..i] + l[i + 1..] && j < |m| && k == (if j < i then j else j + 1)
    ensures NextIn(m, j) == (if k == i - 1 then NextIn(l, i) else NextIn(l, k))
    ensures PrevIn(m, j) == (if k == i + 1 then PrevIn(l, i) else PrevIn(l, k))
  {
    if j + 1 < |m| { assert m[j + 1] == l[if j + 1 < i then j + 1 else j + 2]; }
    if j > 0 { assert m[j - 1] == l[if j - 1 < i then j - 1 else j]; }
  }

  lemma Distinct(l: seq<nat>, j: int, k: int)
    requires NoDup(l)
    ensures 0 <= j < |l| && 0 <= k < |l| && j != k ==> l[j] != l[k]
  {
  }

  /** What a removal writes is already there, or is in the links of elements that are not queued. */
  ghost predicate Harmless(q: Queue, l: seq<nat>, x: nat)
    requires Wf(q) && x < |q.next|
  {
    && !Wild(q, x)
    && (if q.next[x].Some? then q.next[x].value !in l || q.prev[q.next[x].value] == q.prev[x] else q.last == q.prev[x])
    && (q.prev[x] == First || q.prev[x].e in l ==> Load(q, q.prev[x]) == q.next[x])
  }

  lemma HarmlessKeeps(q: Queue, l: seq<nat>, x: nat)
    requires Repr(q, l) && x < |q.next| && x !in l && Harmless(q, l, x)
    ensures Repr(Remove(q, x), l)
  {
    hide NoDup;
    var q' := Remove(q, x);
    forall i | 0 <= i < |l| ensures q'.next[l[i]] == NextIn(l, i) && q'.prev[l[i]] == PrevIn(l, i) {
      assert q.next[l[i]] == NextIn(l, i) && q.prev[l[i]] == PrevIn(l, i);
      assert l[i] in l;
    }
  }

  lemma KeptIsHarmless(q: Queue, l: seq<nat>, x: nat)
    requires Repr(q, l) && x < |q.next| && x !in l && !Wild(q, x) && Repr(Remove(q, x), l)
    ensures Harmless(q, l, x)
  {
    hide NoDup;
    var q' := Remove(q, x);
    if q.next[x].Some? && q.next[x].value in l {
      var i :| 0 <= i < |l| && l[i] == q.next[x].value;
      assert q'.prev[l[i]] == PrevIn(l, i) && q.prev[l[i]] == PrevIn(l, i);
    }
    if q.prev[x].NextOf? && q.prev[x].e in l {
      var i :| 0 <= i < |l| && l[i] == q.prev[x].e;
      assert q'.next[l[i]] == NextIn(l, i) && q.next[l[i]] == NextIn(l, i);
    }
  }

  /** Removing an element that is not queued leaves the queue as it was exactly when its stale links are harmless. */
  lemma StaleRemoveExact(q: Queue, l: seq<nat>, x: nat)
    requires Repr(q, l) && x < |q.next| && x !in l
    ensures !Wild(q, x) && Repr(Remove(q, x), l) <==> Harmless(q, l, x)
  {
    if Harmless(q, l, x) { HarmlessKeeps(q, l, x); }
    if !Wild(q, x) && Repr(Remove(q, x), l) { KeptIsHarmless(q, l, x); }
  }

  /** sys_ipc_recv removes the current environment and schedule removes it again: the second removal writes what the
    * first one wrote, whether the environment was queued or not. */
  lemma RemoveTwice(q: Queue, x: nat)
    requires Wf(q) && x < |q.next|
    ensures Wf(Remove(q, x)) && Remove(Remove(q, x), x) == Remove(q, x)
    ensures Remove(q, x).prev[x] == q.prev[x] && Remove(q, x).next[x] == q.next[x]
  {
    var q1 := Remove(q, x);
    assert q1.prev[x] == q.prev[x] && q1.next[x] == q.next[x];
    var q2 := Remove(q1, x);
    assert q2.next == q1.next && q2.prev == q1.prev;
  }

  /** An element that has just been removed can be removed again without harm. */
  lemma RemovedHarmless(q: Queue, l: seq<nat>, x: nat)
    requires Repr(q, l) && x in l
    ensures Repr(Remove(q, x), Drop(l, x)) && Harmless(Remove(q, x), Drop(l, x), x) && x < |q.next|
  {
    hide Remove, NoDup, Drop;
    var i :| 0 <= i < |l| && l[i] == x;
    RemoveRepr(q, l, i);
    assert q.prev[l[i]] == PrevIn(l, i);
    RemoveTwice(q, x);
    DropMembers(l, x);
    StaleRemoveExact(Remove(q, x), Drop(l, x), x);
  }

  /** A removal of a queued or harmless element deletes it if it is present, and can be repeated. */
  lemma SafeRemove(q: Queue, l: seq<nat>, x: nat)
    requires Repr(q, l) && x < |q.next| && (x in l || Harmless(q, l, x))
    ensures !Wild(q, x) && x !in Drop(l, x)
    ensures Repr(Remove(q, x), Drop(l, x)) && Harmless(Remove(q, x), Drop(l, x), x)
  {
    hide Remove, NoDup, Drop, Harmless;
    DropMembers(l, x);
    RemoveTwice(q, x);
    if x in l {
      RemovedHarmless(q, l, x);
      var i :| 0 <= i < |l| && l[i] == x;
      assert q.prev[l[i]] == PrevIn(l, i);
    } else {
      StaleRemoveExact(q, l, x);
      StaleRemoveExact(Remove(q, x), l, x);
    }
  }

  /** The failure, concretely: 1 blocks while last, 2 joins the tail, then 1 is removed once more
    * (env_free of a blocked environment). The queue forgets 2. */
  lemma StaleRemoveForgets(q: Queue)
    requires Repr(q, [0, 1]) && |q.next| >= 3
    ensures var q1 := InsertTail(Remove(q, 1), 2);
            Repr(q1, [0, 2]) && Repr(Remove(q1, 1), [0])
  {
    var l := [0, 1];
    RemoveRepr(q, l, 1);
    assert l[..1] + l[2..] == [0];
    var q0 := Remove(q, l[1]);
    InsertTailRepr(q0, [0], 2);
    assert [0] + [2] == [0, 2];
    var q1 := InsertTail(q0, 2);
    assert q.prev[l[1]] == PrevIn(l, 1) && q.next[l[1]] == NextIn(l, 1);
    assert q1.prev[1] == NextOf(0) && q1.next[1] == None;
    var q2 := Remove(q1, 1);
    assert q1.prev[[0, 2][0]] == PrevIn([0, 2], 0);
    assert q2.next[0] == None && q2.prev[0] == First && q2.last == NextOf(0) && q2.first == Some(0);
  }

  /** Another one: 0 parks itself, 1 is woken, and the next scheduler call removes 0 once more. The queue forgets 1. */
  lemma ParkThenWakeForgets(q: Queue)
    requires Repr(q, [0]) && |q.next| >= 2
    ensures var q1 := InsertTail(Remove(q, 0), 1);
            Repr(q1, [1]) && !Harmless(q1, [1], 0) && Repr(Remove(q1, 0), [])
  {
    var l := [0];
    assert q.next[l[0]] == NextIn(l, 0) && q.prev[l[0]] == PrevIn(l, 0);
    RemoveRepr(q, l, 0);
    assert l[..0] + l[1..] == [];
    var q0 := Remove(q, 0);
    InsertTailRepr(q0, [], 1);
    assert [] + [1] == [1];
  }

  /** The queue in place, as the macros change it. */
  class TailQ {
    var first: Option<nat>
    var last: Loc
    var next: seq<Option<nat>>
    var prev: seq<Loc>

    function Q(): Queue
      reads this
    {
      Queue(first, last, next, prev)
    }

    method SetCell(l: Loc, v: Option<nat>)
      requires LocOk(Q(), l)
      modifies this`first, this`next
      ensures Q() == Store(old(Q()), l, v)
    {
      match l
      case First => first := v;
      case NextOf(e) => next := next[e := v];
      case Null =>
    }

    method Append(x: nat, ghost l: seq<nat>)
      requires Repr(Q(), l) && x < |next| && x !in l
      modifies this
      ensures Q() == InsertTail(old(Q()), x) && Repr(Q(), l + [x])
    {
      InsertTailRepr(Q(), l, x);
      next := next[x := None];
      prev := prev[x := last];
      SetCell(last, Some(x));
      last := NextOf(x);
    }

    method Unlink(x: nat, ghost l: seq<nat>)
      requires Repr(Q(), l) && x < |next|
      modifies this
      ensures Q() == Remove(old(Q()), x)
      ensures x in l ==> Repr(Q(), Drop(l, x))
      ensures x !in l ==> (!Wild(old(Q()), x) && Repr(Q(), l) <==> Harmless(old(Q()), l, x))
    {
      if x in l {
        ghost var i :| 0 <= i < |l| && l[i] == x;
        RemoveRepr(Q(), l, i);
      } else {
        StaleRemoveExact(Q(), l, x);
      }
      if next[x].Some? {
        prev := prev[next[x].value := prev[x]];
      } else {
        last := prev[x];
      }
      SetCell(prev[x], next[x]);
    }
  }
}
