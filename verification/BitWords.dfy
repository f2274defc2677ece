/** Bitmaps kept in arrays of 32-bit words, as in kern/env.c (ASIDs), fs/fs.c and tools/fsformat.c (blocks). */
module BitWords {
  import opened Common

  /** w & (1 << k) is non-zero. */
  predicate BitOf(w: nat, k: nat)
    decreases k
  {
    if k == 0 then w % 2 == 1 else BitOf(w / 2, k - 1)
  }

  /** w | (1 << k) */
  function OrBit(w: nat, k: nat): nat
    decreases k
  {
    if k == 0 then w / 2 * 2 + 1 else 2 * OrBit(w / 2, k - 1) + w % 2
  }

  /** w & ~(1 << k) */
  function AndNotBit(w: nat, k: nat): nat
    decreases k
  {
    if k == 0 then w / 2 * 2 else 2 * AndNotBit(w / 2, k - 1) + w % 2
  }

  lemma {:induction false} OrBitEffect(w: nat, k: nat, j: nat)
    ensures BitOf(OrBit(w, k), j) == (j == k || BitOf(w, j))
    decreases k
  {
    if k == 0 {
      assert (w / 2 * 2 + 1) / 2 == w / 2;
    } else {
      var v := OrBit(w / 2, k - 1);
      assert (2 * v + w % 2) / 2 == v && (2 * v + w % 2) % 2 == w % 2;
      if j > 0 { OrBitEffect(w / 2, k - 1, j - 1); }
    }
  }

  lemma {:induction false} AndNotBitEffect(w: nat, k: nat, j: nat)
    ensures BitOf(AndNotBit(w, k), j) == (j != k && BitOf(w, j))
    decreases k
  {
    if k == 0 {
      assert (w / 2 * 2) / 2 == w / 2;
    } else {
      var v := AndNotBit(w / 2, k - 1);
      assert (2 * v + w % 2) / 2 == v && (2 * v + w % 2) % 2 == w % 2;
      if j > 0 { AndNotBitEffect(w / 2, k - 1, j - 1); }
    }
  }

  /** Setting bit k of an n-bit number gives an n-bit number. */
  lemma {:induction false} OrBitBelow(w: nat, k: nat, n: nat)
    requires k < n && w < Pow2(n)
    ensures OrBit(w, k) < Pow2(n)
    decreases k
  {
    if k > 0 { OrBitBelow(w / 2, k - 1, n - 1); }
  }

  /** What stands above the low n bits does not matter to them. */
  lemma {:induction false} LowBits(high: nat, low: nat, n: nat, k: nat)
    requires k < n
    ensures BitOf(high * Pow2(n) + low, k) == BitOf(low, k)
    decreases k
  {
    var x := high * Pow2(n - 1);
    assert high * Pow2(n) == 2 * x;
    assert (2 * x + low) / 2 == x + low / 2 && (2 * x + low) % 2 == low % 2;
    if k > 0 { LowBits(high, low / 2, n - 1, k - 1); }
  }

  lemma {:induction false} ZeroHasNoBits(k: nat)
    ensures !BitOf(0, k)
    decreases k
  {
    if k > 0 { ZeroHasNoBits(k - 1); }
  }

  /** Bit n of the whole bitmap: b[n / 32] & (1 << (n % 32)). */
  predicate Bit(b: seq<nat>, n: nat)
    requires n / 32 < |b|
  {
    BitOf(b[n / 32], n % 32)
  }

  function SetBit(b: seq<nat>, n: nat): (r: seq<nat>)
    requires n / 32 < |b|
    ensures |r| == |b|
  {
    b[n / 32 := OrBit(b[n / 32], n % 32)]
  }

  function ClearBit(b: seq<nat>, n: nat): (r: seq<nat>)
    requires n / 32 < |b|
    ensures |r| == |b|
  {
    b[n / 32 := AndNotBit(b[n / 32], n % 32)]
  }

  /** Setting a bit turns that bit on and no other. */
  lemma SetBitEffect(b: seq<nat>, n: nat, m: nat)
    requires n / 32 < |b| && m / 32 < |b|
    ensures Bit(SetBit(b, n), m) == (m == n || Bit(b, m))
  {
    if n / 32 == m / 32 { OrBitEffect(b[n / 32], n % 32, m % 32); }
  }

  /** Clearing a bit turns that bit off and no other. */
  lemma ClearBitEffect(b: seq<nat>, n: nat, m: nat)
    requires n / 32 < |b| && m / 32 < |b|
    ensures Bit(ClearBit(b, n), m) == (m != n && Bit(b, m))
  {
    if n / 32 == m / 32 { AndNotBitEffect(b[n / 32], n % 32, m % 32); }
  }
}
