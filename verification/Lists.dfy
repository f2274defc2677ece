/** Duplicate-free sequences: what env_sched_list and env_free_list are meant to hold. */
module Lists {
  /** Delete x if it is present. */
  function Drop(l: seq<nat>, x: nat): seq<nat> {
    if l == [] then [] else if l[0] == x then l[1..] else [l[0]] + Drop(l[1..], x)
  }

  ghost predicate NoDup(l: seq<nat>) {
    forall i, j :: 0 <= i < j < |l| ==> l[i] != l[j]
  }

  lemma {:induction false} DropMembers(l: seq<nat>, x: nat)
    ensures forall y :: y in Drop(l, x) ==> y in l
    ensures forall y :: y in l && y != x ==> y in Drop(l, x)
    ensures NoDup(l) ==> NoDup(Drop(l, x)) && x !in Drop(l, x)
    ensures x !in l ==> Drop(l, x) == l
  {
    if l != [] && l[0] == x {
      assert l == [x] + l[1..];
    } else if l != [] {
      DropMembers(l[1..], x);
      var t := Drop(l[1..], x);
      assert l == [l[0]] + l[1..] && Drop(l, x) == [l[0]] + t;
      if NoDup(l) {
        assert NoDup(l[1..]);
        assert l[0] !in l[1..];
      }
    }
  }

  lemma AppendNoDup(l: seq<nat>, x: nat)
    requires NoDup(l) && x !in l
    ensures NoDup(l + [x]) && forall y :: y in l + [x] <==> y in l || y == x
  {
  }

  lemma PrependNoDup(l: seq<nat>, x: nat)
    requires NoDup(l) && x !in l
    ensures NoDup([x] + l) && forall y :: y in [x] + l <==> y in l || y == x
  {
  }

  lemma TailNoDup(l: seq<nat>)
    requires NoDup(l) && l != []
    ensures NoDup(l[1..]) && l[0] !in l[1..] && forall y :: y in l <==> y in l[1..] || y == l[0]
  {
    assert l == [l[0]] + l[1..];
  }

  lemma {:induction false} DropSplice(l: seq<nat>, i: nat)
    requires i < |l| && forall j :: 0 <= j < i ==> l[j] != l[i]
    ensures Drop(l, l[i]) == l[..i] + l[i + 1..]
  {
    if i > 0 {
      assert l[1..][i - 1] == l[i];
      forall j | 0 <= j < i - 1 ensures l[1..][j] != l[i] { assert l[1..][j] == l[j + 1]; }
      DropSplice(l[1..], i - 1);
      assert l[..i] == [l[0]] + l[1..][..i - 1];
      assert l[1..][i..] == l[i + 1..];
    }
  }

  /** The numbers below n. */
  function Numbers(n: nat): (s: set<nat>)
    ensures |s| == n && forall x :: x in s <==> 0 <= x < n
  {
    if n == 0 then {} else Numbers(n - 1) + {n - 1}
  }

  /** Those of them that l leaves out. */
  function Missing(l: seq<nat>, n: nat): set<nat> { set x | x in Numbers(n) && x !in l }

  lemma {:induction false} MissingCount(l: seq<nat>, n: nat)
    requires NoDup(l) && forall x :: x in l ==> x < n
    ensures |Missing(l, n)| == n - |l|
    decreases |l|
  {
    if l == [] {
      assert Missing(l, n) == Numbers(n);
    } else {
      TailNoDup(l);
      MissingCount(l[1..], n);
      assert Missing(l[1..], n) == Missing(l, n) + {l[0]};
    }
  }
}
