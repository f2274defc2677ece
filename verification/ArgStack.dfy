/** init_stack of user/lib/spawn.c: the argument page of a new process. */
module ArgStack {
  import opened Common

  const PAGE: nat := PAGE_SIZE
  const BASE: nat := USTACKTOP - PAGE

  /** A C string: no zero byte in it. */
  predicate CString(s: Bytes) { forall i :: 0 <= i < |s| ==> s[i] != 0 }

  predicate Strings(argv: seq<Bytes>) { forall i :: 0 <= i < |argv| ==> CString(argv[i]) }

  /** The string area: every string with its terminator. */
  function Flat(argv: seq<Bytes>): Bytes {
    if argv == [] then [] else argv[0] + [0] + Flat(argv[1..])
  }

  function Round4(n: nat): (r: nat)
    ensures n <= r < n + 4 && r % 4 == 0
  {
    (n + 3) / 4 * 4
  }

  /** What the size check asks. */
  predicate Fits(argv: seq<Bytes>) { Round4(|Flat(argv)|) + 4 * (|argv| + 3) <= PAGE }

  // ----- bytes and words of the page -----

  function Encode(w: nat): (r: Bytes)
    ensures |r| == 4
  {
    [w % 256, w / 256 % 256, w / 256 / 256 % 256, w / 256 / 256 / 256 % 256]
  }

  function WordAt(p: Bytes, off: int): nat
    requires 0 <= off && off + 4 <= |p|
  {
    var a: int, b: int, c: int, d: int := p[off], p[off + 1], p[off + 2], p[off + 3];
    a + 256 * (b + 256 * (c + 256 * d))
  }

  /** The C string that starts here. */
  function StringAt(p: Bytes): Bytes {
    if p == [] || p[0] == 0 then [] else [p[0]] + StringAt(p[1..])
  }

  lemma WordStored(p: Bytes, off: nat, w: nat)
    requires off + 4 <= |p| && p[off..off + 4] == Encode(w) && w < 0x1_0000_0000
    ensures WordAt(p, off) == w
  {
    var r := p[off..off + 4];
    assert r[0] == p[off] && r[1] == p[off + 1] && r[2] == p[off + 2] && r[3] == p[off + 3];
  }

  lemma {:induction false} FlatAppend(a: seq<Bytes>, b: seq<Bytes>)
    ensures Flat(a + b) == Flat(a) + Flat(b)
  {
    if a == [] {
      assert a + b == b;
    } else {
      assert (a + b)[1..] == a[1..] + b;
      FlatAppend(a[1..], b);
    }
  }

  lemma FlatNext(argv: seq<Bytes>, i: nat)
    requires i < |argv|
    ensures Flat(argv[..i + 1]) == Flat(argv[..i]) + argv[i] + [0]
  {
    assert argv[..i + 1] == argv[..i] + [argv[i]];
    FlatAppend(argv[..i], [argv[i]]);
    assert Flat([argv[i]]) == argv[i] + [0] + Flat([]);
  }

  lemma FlatSplit(argv: seq<Bytes>, i: nat)
    requires i <= |argv|
    ensures Flat(argv) == Flat(argv[..i]) + Flat(argv[i..])
  {
    assert argv == argv[..i] + argv[i..];
    FlatAppend(argv[..i], argv[i..]);
  }

  lemma {:induction false} ReadString(s: Bytes, rest: Bytes)
    requires CString(s)
    ensures StringAt(s + [0] + rest) == s
  {
    var p := s + [0] + rest;
    if s != [] {
      assert p[1..] == s[1..] + [0] + rest;
      ReadString(s[1..], rest);
    }
  }

  /** The i'th string is read where the strings before it end. */
  lemma StringFound(argv: seq<Bytes>, i: nat)
    requires Strings(argv) && i < |argv|
    ensures |Flat(argv[..i])| < |Flat(argv)| && StringAt(Flat(argv)[|Flat(argv[..i])|..]) == argv[i]
  {
    FlatSplit(argv, i);
    assert Flat(argv)[|Flat(argv[..i])|..] == Flat(argv[i..]);
    ReadString(argv[i], Flat(argv[i..][1..]));
  }

  // ----- what the child sees -----

  /** The child's memory at addr, in the page that it has at USTACKTOP - PAGE. */
  function ChildWord(p: Bytes, addr: nat): nat
    requires |p| == PAGE && BASE <= addr <= USTACKTOP - 4
  {
    WordAt(p, addr - BASE)
  }

  function ChildString(p: Bytes, addr: nat): Bytes
    requires |p| == PAGE && BASE <= addr <= USTACKTOP
  {
    StringAt(p[addr - BASE..])
  }

  /** _start finds argc and argv at sp, and through argv exactly the strings. */
  ghost predicate Delivers(p: Bytes, sp: nat, argv: seq<Bytes>) {
    && |p| == PAGE && BASE <= sp && sp % 4 == 0 && sp + 8 + 4 * |argv| + 4 <= USTACKTOP
    && ChildWord(p, sp) == |argv|
    && ChildWord(p, sp + 4) == sp + 8
    && forall i :: 0 <= i < |argv| ==>
         BASE <= ChildWord(p, sp + 8 + 4 * i) < USTACKTOP && ChildString(p, ChildWord(p, sp + 8 + 4 * i)) == argv[i]
  }

  /** A page and a stack pointer deliver one argument list only. */
  lemma DeliversOne(p: Bytes, sp: nat, a: seq<Bytes>, b: seq<Bytes>)
    requires Delivers(p, sp, a) && Delivers(p, sp, b)
    ensures a == b
  {
    hide WordAt, StringAt;
    forall i | 0 <= i < |a| ensures a[i] == b[i] { assert ChildString(p, ChildWord(p, sp + 8 + 4 * i)) == b[i]; }
  }

  // ----- the layout, step by step -----

  /** The first k pointers stand below the strings. */
  ghost predicate Pointers(p: Bytes, argv: seq<Bytes>, args: nat, k: nat) {
    && |p| == PAGE && args + 4 * k <= PAGE && k <= |argv|
    && forall i :: 0 <= i < k ==> WordAt(p, args + 4 * i) == USTACKTOP - |Flat(argv)| + |Flat(argv[..i])|
  }

  /** Other words may be written: they do not overlap. */
  lemma WordKept(p: Bytes, q: Bytes, off: nat, at: nat)
    requires |p| == |q| && off + 4 <= |p| && at + 4 <= |p| && (at + 4 <= off || off + 4 <= at)
    requires q[..off] == p[..off] && q[off + 4..] == p[off + 4..]
    ensures WordAt(q, at) == WordAt(p, at)
  {
    forall j | at <= j < at + 4 ensures q[j] == p[j] {
      if j < off {
        assert q[..off][j] == p[..off][j];
      } else {
        assert q[off + 4..][j - off - 4] == p[off + 4..][j - off - 4];
      }
    }
  }

  lemma PointersStep(p: Bytes, q: Bytes, argv: seq<Bytes>, args: nat, k: nat)
    requires |p| == |q| == PAGE && k < |argv| && args + 4 * k + 4 <= PAGE && Pointers(p, argv, args, k)
    requires q[..args + 4 * k] == p[..args + 4 * k] && q[args + 4 * k + 4..] == p[args + 4 * k + 4..]
    requires WordAt(q, args + 4 * k) == USTACKTOP - |Flat(argv)| + |Flat(argv[..k])|
    ensures Pointers(q, argv, args, k + 1)
  {
    forall i | 0 <= i < k ensures WordAt(q, args + 4 * i) == WordAt(p, args + 4 * i) {
      WordKept(p, q, args + 4 * k, args + 4 * i);
    }
  }

  lemma PointersKept(p: Bytes, q: Bytes, argv: seq<Bytes>, args: nat, k: nat, off: nat)
    requires |p| == |q| == PAGE && Pointers(p, argv, args, k) && off + 4 <= PAGE
             && (off + 4 <= args || args + 4 * k <= off)
    requires q[..off] == p[..off] && q[off + 4..] == p[off + 4..]
    ensures Pointers(q, argv, args, k)
  {
    forall i | 0 <= i < k ensures WordAt(q, args + 4 * i) == WordAt(p, args + 4 * i) {
      WordKept(p, q, off, args + 4 * i);
    }
  }

  /** Strings, pointers and the two header words together are what the child needs. */
  lemma LayoutDelivers(p: Bytes, argv: seq<Bytes>, args: nat)
    requires Strings(argv) && Fits(argv) && |p| == PAGE && args == PAGE - Round4(|Flat(argv)|) - 4 * (|argv| + 1)
    requires p[PAGE - |Flat(argv)|..] == Flat(argv) && Pointers(p, argv, args, |argv|)
    requires WordAt(p, args - 8) == |argv| && WordAt(p, args - 4) == BASE + args
    ensures Delivers(p, BASE + args - 8, argv)
  {
    hide WordAt, StringAt, Flat, Pointers;
    var sp := BASE + args - 8;
    assert sp % 4 == 0;
    forall i | 0 <= i < |argv|
      ensures BASE <= ChildWord(p, sp + 8 + 4 * i) < USTACKTOP
              && ChildString(p, ChildWord(p, sp + 8 + 4 * i)) == argv[i]
    {
      PointerDelivers(p, argv, args, i);
    }
  }

  lemma PointerDelivers(p: Bytes, argv: seq<Bytes>, args: nat, i: nat)
    requires Strings(argv) && |p| == PAGE && i < |argv| && |Flat(argv)| <= PAGE
    requires p[PAGE - |Flat(argv)|..] == Flat(argv) && Pointers(p, argv, args, |argv|)
    ensures args + 4 * i + 4 <= PAGE
    ensures var w := WordAt(p, args + 4 * i); BASE <= w < USTACKTOP && StringAt(p[w - BASE..]) == argv[i]
  {
    hide WordAt, StringAt, Flat, Strings;
    var tot, at := |Flat(argv)|, |Flat(argv[..i])|;
    StringFound(argv, i);
    assert p[PAGE - tot + at..] == p[PAGE - tot..][at..];
  }

  // ----- the code -----

  method PutWord(page: array<Byte>, off: nat, w: nat)
    requires off + 4 <= page.Length && w < 0x1_0000_0000
    modifies page
    ensures page[..off] == old(page[..off]) && page[off + 4..] == old(page[off + 4..])
    ensures WordAt(page[..], off) == w
  {
    page[off], page[off + 1], page[off + 2], page[off + 3] := w % 256, w / 256 % 256, w / 256 / 256 % 256,
        w / 256 / 256 / 256 % 256;
    assert page[..][off..off + 4] == Encode(w);
    WordStored(page[..], off, w);
  }

  method PutString(page: array<Byte>, at: nat, s: Bytes) returns (next: nat)
    requires at + |s| < page.Length
    modifies page
    ensures next == at + |s| + 1 && page[at..next] == s + [0] && page[..at] == old(page[..at])
  {
    var j := 0;
    while j < |s|
      invariant 0 <= j <= |s| && page[at..at + j] == s[..j] && page[..at] == old(page[..at])
    {
      page[at + j] := s[j];
      j := j + 1;
    }
    page[at + j] := 0;
    next := at + j + 1;
  }

  /** The strings, one after the other up to the end of the page. */
  method PutStrings(page: array<Byte>, argv: seq<Bytes>)
    requires page.Length == PAGE && |Flat(argv)| <= PAGE
    modifies page
    ensures page[PAGE - |Flat(argv)|..] == Flat(argv)
  {
    var start := PAGE - |Flat(argv)|;
    var ctemp, i := start, 0;
    while i < |argv|
      invariant 0 <= i <= |argv| && ctemp == start + |Flat(argv[..i])| <= PAGE && page[start..ctemp] == Flat(argv[..i])
    {
      FlatNext(argv, i);
      FlatSplit(argv, i + 1);
      ghost var done := page[start..ctemp];
      ghost var at := ctemp;
      assert page[..at][start..] == done;
      ctemp := PutString(page, ctemp, argv[i]);
      assert page[start..ctemp] == page[..at][start..] + page[at..ctemp];
      i := i + 1;
    }
    assert argv[..i] == argv;
    assert page[start..] == page[start..ctemp];
  }

  /** args[0 .. argc]: child addresses of the strings. The result is the child address after the last one. */
  method PutPointers(page: array<Byte>, argv: seq<Bytes>, args: nat) returns (ctemp: nat)
    requires page.Length == PAGE && args + 4 * |argv| + |Flat(argv)| <= PAGE
    modifies page
    ensures Pointers(page[..], argv, args, |argv|) && ctemp == USTACKTOP
    ensures page[args + 4 * |argv|..] == old(page[args + 4 * |argv|..])
  {
    hide Pointers, WordAt;
    ctemp := USTACKTOP - |Flat(argv)|;
    var i := 0;
    ghost var end := args + 4 * |argv|;
    PointersNone(page[..], argv, args);
    while i < |argv|
      invariant 0 <= i <= |argv| && ctemp == USTACKTOP - |Flat(argv)| + |Flat(argv[..i])| <= USTACKTOP
      invariant Pointers(page[..], argv, args, i) && page[end..] == old(page[end..])
    {
      FlatNext(argv, i);
      FlatSplit(argv, i + 1);
      ghost var p := page[..];
      ghost var off := args + 4 * i;
      assert p[..off] == page[..off] && p[off + 4..] == page[off + 4..]
             && page[off + 4..][end - off - 4..] == page[end..];
      PutWord(page, args + 4 * i, ctemp);
      assert page[..][..off] == page[..off] && page[..][off + 4..] == page[off + 4..]
             && page[off + 4..][end - off - 4..] == page[end..];
      PointersStep(p, page[..], argv, args, i);
      ctemp := ctemp + |argv[i]| + 1;
      i := i + 1;
    }
    assert argv[..i] == argv;
  }

  lemma PointersNone(p: Bytes, argv: seq<Bytes>, args: nat)
    requires |p| == PAGE && args <= PAGE
    ensures Pointers(p, argv, args, 0)
  {
  }

  /** One word outside the pointers and below the strings. */
  method PutOther(page: array<Byte>, argv: seq<Bytes>, args: nat, off: nat, w: nat)
    requires page.Length == PAGE && Pointers(page[..], argv, args, |argv|) && w < 0x1_0000_0000
    requires off + 4 <= PAGE - |Flat(argv)| && (off + 4 <= args || args + 4 * |argv| <= off)
    modifies page
    ensures Pointers(page[..], argv, args, |argv|) && WordAt(page[..], off) == w
    ensures page[PAGE - |Flat(argv)|..] == old(page[PAGE - |Flat(argv)|..])
    ensures forall a: nat | a + 4 <= PAGE && (a + 4 <= off || off + 4 <= a) ::
              WordAt(page[..], a) == old(WordAt(page[..], a))
  {
    hide Pointers, WordAt;
    ghost var p, start := page[..], PAGE - |Flat(argv)|;
    assert p[..off] == page[..off] && p[off + 4..] == page[off + 4..]
           && page[off + 4..][start - off - 4..] == page[start..];
    PutWord(page, off, w);
    ghost var q := page[..];
    assert q[..off] == page[..off] && q[off + 4..] == page[off + 4..]
           && page[off + 4..][start - off - 4..] == page[start..];
    PointersKept(p, q, argv, args, |argv|, off);
    forall a: nat | a + 4 <= PAGE && (a + 4 <= off || off + 4 <= a) ensures WordAt(q, a) == WordAt(p, a) {
      WordKept(p, q, off, a);
    }
  }

  /** init_stack up to the mapping of the page: the page and the child's stack pointer. The size check answers
    * -E_NO_MEM exactly when strings, pointers and header do not fit. The word after the pointers is no null pointer. */
  method InitStack(argv: seq<Bytes>) returns (fits: bool, p: Bytes, sp: nat)
    requires Strings(argv)
    ensures fits <==> Fits(argv)
    ensures fits <==> (|Flat(argv)| + 3) / 4 * 4 + 4 * (|argv| + 1) + 8 <= 4096
    ensures fits ==> Delivers(p, sp, argv)
    ensures fits ==> ChildWord(p, sp + 8 + 4 * |argv|) == USTACKTOP - 1
    ensures fits ==>
              p[PAGE - |Flat(argv)|..] == Flat(argv) && sp + 8 + 4 * (|argv| + 1) == USTACKTOP - Round4(|Flat(argv)|)
  {
    hide Pointers, WordAt, Delivers;
    var argc, tot := 0, 0;
    while argc < |argv|
      invariant 0 <= argc <= |argv| && tot == |Flat(argv[..argc])|
    {
      FlatNext(argv, argc);
      tot := tot + |argv[argc]| + 1;
      argc := argc + 1;
    }
    assert argv[..argc] == argv;
    if Round4(tot) + 4 * (argc + 3) > PAGE {
      return false, [], 0;
    }
    var strings, args := PAGE - tot, PAGE - Round4(tot) - 4 * (argc + 1);
    var page := new Byte[PAGE](_ => 0);
    PutStrings(page, argv);
    ghost var low := args + 4 * argc;
    assert page[low..][strings - low..] == page[strings..];
    var ctemp := PutPointers(page, argv, args);
    assert page[low..][strings - low..] == page[strings..];
    PutOther(page, argv, args, args + 4 * argc, ctemp - 1);
    PutOther(page, argv, args, args - 4, BASE + args);
    PutOther(page, argv, args, args - 8, argc);
    assert page[..][strings..] == page[strings..];
    LayoutDelivers(page[..], argv, args);
    return true, page[..], BASE + args - 8;
  }
}
