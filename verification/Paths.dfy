/** Path strings as fs/fs.c reads them: components between slashes. */
module Paths {
  /** The part of p before its first slash. */
  function First(p: string): (c: string)
    ensures |c| <= |p| && c == p[..|c|] && '/' !in c
    ensures |c| < |p| ==> p[|c|] == '/'
  {
    if p == "" || p[0] == '/' then "" else [p[0]] + First(p[1..])
  }

  /** The non-empty components of a path. */
  function Components(p: string): (cs: seq<string>)
    ensures forall i :: 0 <= i < |cs| ==> cs[i] != "" && '/' !in cs[i]
    decreases |p|
  {
    if p == "" then []
    else if p[0] == '/' then Components(p[1..])
    else
      var c := First(p);
      [c] + Components(p[|c|..])
  }

  function Join(cs: seq<string>): string {
    if cs == [] then "" else "/" + cs[0] + Join(cs[1..])
  }

  lemma {:induction false} FirstOf(c: string, rest: string)
    requires '/' !in c && (rest == "" || rest[0] == '/')
    ensures First(c + rest) == c
  {
    if c != "" {
      assert (c + rest)[1..] == c[1..] + rest && (c + rest)[0] == c[0];
      FirstOf(c[1..], rest);
      assert [c[0]] + c[1..] == c;
    }
  }

  lemma ComponentFirst(c: string, rest: string)
    requires c != "" && '/' !in c && (rest == "" || rest[0] == '/')
    ensures Components(c + rest) == [c] + Components(rest)
  {
    FirstOf(c, rest);
    assert (c + rest)[0] == c[0] && (c + rest)[|c|..] == rest;
  }

  /** A slash separates, whatever stands on either side: so leading, trailing and repeated slashes do not matter. */
  lemma {:induction false} SlashSplits(a: string, b: string)
    ensures Components(a + "/" + b) == Components(a) + Components(b)
    decreases |a|
  {
    hide First, Components;
    if a == "" {
      SkipOne(b);
      assert a + "/" + b == "/" + b;
    } else if a[0] == '/' {
      SkipOne(a[1..]);
      SkipOne(a[1..] + "/" + b);
      assert a == "/" + a[1..] && a + "/" + b == "/" + (a[1..] + "/" + b);
      SlashSplits(a[1..], b);
    } else {
      var c := First(a);
      FirstNonEmpty(a);
      var rest := a[|c|..];
      assert a == c + rest && a + "/" + b == c + (rest + "/" + b);
      ComponentFirst(c, rest);
      ComponentFirst(c, rest + "/" + b);
      SlashSplits(rest, b);
    }
  }

  lemma SkipOne(p: string)
    ensures Components("/" + p) == Components(p) && Components("") == []
  {
    assert ("/" + p)[1..] == p;
  }

  lemma FirstNonEmpty(a: string)
    requires a != "" && a[0] != '/'
    ensures First(a) != ""
  {
  }

  lemma Slashes(a: string, b: string)
    ensures Components("/" + a) == Components(a) == Components(a + "/")
    ensures Components(a + "//" + b) == Components(a + "/" + b)
  {
    var none := Components("");
    assert none == [];
    hide Components;
    assert "" + "/" + a == "/" + a && a + "/" + "" == a + "/" && "" + "/" + b == "/" + b;
    SlashSplits("", a);
    SlashSplits(a, "");
    assert a + "//" + b == a + "/" + ("/" + b);
    SlashSplits(a, "/" + b);
    SlashSplits("", b);
    SlashSplits(a, b);
  }

  /** Every list of proper names is the component list of some path. */
  lemma {:induction false} JoinComponents(cs: seq<string>)
    requires forall i :: 0 <= i < |cs| ==> cs[i] != "" && '/' !in cs[i]
    ensures Components(Join(cs)) == cs
  {
    if cs != [] {
      var rest := Join(cs[1..]);
      assert Join(cs)[1..] == cs[0] + rest;
      ComponentFirst(cs[0], rest);
      JoinComponents(cs[1..]);
    }
  }

  /** skip_slash from position i. */
  method SkipSlash(path: string, i: nat) returns (j: nat)
    requires i <= |path|
    ensures i <= j <= |path| && (j < |path| ==> path[j] != '/')
    ensures Components(path[j..]) == Components(path[i..])
    ensures forall k :: i <= k < j ==> path[k] == '/'
  {
    j := i;
    while j < |path| && path[j] == '/'
      invariant i <= j <= |path| && Components(path[j..]) == Components(path[i..])
      invariant forall k :: i <= k < j ==> path[k] == '/'
    {
      assert path[j..][1..] == path[j + 1..];
      j := j + 1;
    }
  }

  /** Cutting one component off, then the slashes after it. */
  lemma CutComponent(path: string, i: nat, e: nat)
    requires i < e <= |path| && '/' !in path[i..e] && (e < |path| ==> path[e] == '/')
    ensures Components(path[i..]) == [path[i..e]] + Components(path[e..])
  {
    assert path[i..] == path[i..e] + path[e..];
    ComponentFirst(path[i..e], path[e..]);
  }
}
