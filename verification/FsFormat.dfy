/** The image writer tools/fsformat.c, seen with the eyes of the file server: its blocks, links and bitmap. */
module FsFormat {
  import opened Common
  import opened BitWords
  import opened FsBlocks

  const NBLOCK: nat := 1024
  const BITS_PER_BLOCK: nat := 32768

  // ----- the bitmap -----

  function Ones(n: nat): nat { if n == 0 then 0 else 2 * Ones(n - 1) + 1 }

  lemma {:induction false} OnesBits(n: nat, k: nat)
    requires k < n
    ensures BitOf(Ones(n), k)
    decreases k
  {
    assert Ones(n) / 2 == Ones(n - 1);
    if k > 0 { OnesBits(n - 1, k - 1); }
  }

  /** The bitmap block after init_disk: ones, then zeros from the byte that NBLOCK ends in. */
  function InitBitmap(): (b: seq<nat>)
    ensures |b| == NINDIRECT
  {
    seq(NINDIRECT, i requires 0 <= i < NINDIRECT => if 4 * i < NBLOCK % BITS_PER_BLOCK / 8 then 0xffff_ffff else 0)
  }

  /** The bitmap after flush_bitmap with nextbno == n. */
  function Flushed(n: nat): (b: seq<nat>)
    requires n <= NBLOCK
    ensures |b| == NINDIRECT
  {
    if n == 0 then InitBitmap() else ClearBit(Flushed(n - 1), n - 1)
  }

  lemma InitBits(b: nat)
    requires b < BITS_PER_BLOCK
    ensures Bit(InitBitmap(), b) <==> b < NBLOCK
  {
    hide BitOf;
    AllOnes(b % 32);
    ZeroHasNoBits(b % 32);
  }

  lemma AllOnes(k: nat)
    requires k < 32
    ensures BitOf(0xffff_ffff, k)
  {
    hide BitOf;
    assert Ones(8) == 0xff;
    assert Ones(16) == 0xffff;
    assert Ones(24) == 0xff_ffff;
    assert Ones(32) == 0xffff_ffff;
    OnesBits(32, k);
  }

  /** Exactly the blocks from n to the end of the disk are free. */
  lemma {:induction false} FlushedBits(n: nat, b: nat)
    requires n <= NBLOCK && b < BITS_PER_BLOCK
    ensures Bit(Flushed(n), b) <==> n <= b < NBLOCK
  {
    if n == 0 {
      InitBits(b);
    } else {
      FlushedBits(n - 1, b);
      ClearBitEffect(Flushed(n - 1), n - 1, b);
    }
  }

  // ----- links -----

  /** The disk as the server would find it if the bitmap were flushed now. */
  ghost function View(next: nat, files: seq<File>, words: seq<seq<nat>>): Disk
    requires next <= NBLOCK
  {
    Disk(NBLOCK, Flushed(next), files, words, {}, 0)
  }

  /** Every block handed out so far is linked from some slot. */
  ghost predicate AllLinked(d: Disk, next: nat)
    requires Wf(d)
  {
    forall b :: 3 <= b < next ==> Holds(d, b)
  }

  ghost predicate Holds(d: Disk, b: int)
    requires Wf(d)
  {
    exists a :: Val(d, a) == b
  }

  ghost predicate Blank(d: Disk, from: nat)
    requires Wf(d)
  {
    forall b, i :: from <= b < d.nblocks && 0 <= i < NINDIRECT ==> d.words[b][i] == 0
  }

  /** Ownership as the server needs it, nothing handed out and lost, and the rest of the disk blank. */
  ghost predicate Image(d: Disk, next: nat) {
    && Own(d) && d.nblocks == NBLOCK && 3 <= next <= NBLOCK && d.bitmap == Flushed(next)
    && AllLinked(d, next) && Blank(d, next)
  }

  lemma FreeFrom(d: Disk, next: nat, b: nat)
    requires d.nblocks == NBLOCK && next <= NBLOCK && d.bitmap == Flushed(next)
    ensures IsFree(d, b) <==> next <= b < NBLOCK
  {
    if b < NBLOCK { FlushedBits(next, b); }
  }

  /** A block that is used but in no slot can be linked from an empty slot. */
  lemma OwnLink(d: Disk, a: Slot, b: nat)
    requires Own(d) && IsSlot(d, a) && !a.Index? && Val(d, a) == 0
    requires 3 <= b < d.nblocks && !IsFree(d, b) && forall x :: Val(d, x) != b
    ensures Own(Put(d, a, b))
    ensures forall x :: Val(Put(d, a, b), x) == if x == a then b else Val(d, x)
  {
    forall x ensures Wf(Put(d, a, b)) && Val(Put(d, a, b), x) == if x == a then b else Val(d, x) {
      PutFrame(d, a, b, x);
    }
  }

  /** The index block of f is block b, which is blank. */
  lemma IndexVals(d: Disk, f: nat, b: nat)
    requires Own(d) && f < |d.files| && d.files[f].indirect == 0 && 3 <= b < d.nblocks && IsFree(d, b)
    requires forall i :: 0 <= i < NINDIRECT ==> d.words[b][i] == 0
    ensures var t := Put(UseBlock(d, b), Index(f), b);
            Own(t) && (forall x :: Val(t, x) == if x == Index(f) then b else Val(d, x)) && t.words == d.words
  {
    OwnNewIndex(d, f, b);
    var t := Put(UseBlock(d, b), Index(f), b);
    forall x ensures Val(t, x) == if x == Index(f) then b else Val(d, x) {
      if x.Indirect? && IsSlot(t, x) && x.f == f { assert t.words[b][x.i] == 0; }
    }
  }

  /** Handing out block next and filling it: no slot changes. */
  function Take(d: Disk, b: nat, content: seq<nat>): Disk
    requires b < d.nblocks <= 32 * |d.bitmap| && b < |d.words|
  {
    UseBlock(d.(words := d.words[b := content]), b)
  }

  lemma TakeKeeps(d: Disk, b: nat, content: seq<nat>)
    requires Own(d) && 3 <= b && IsFree(d, b) && |content| == NINDIRECT
    ensures Own(Take(d, b, content)) && !IsFree(Take(d, b, content), b)
    ensures forall x :: Val(Take(d, b, content), x) == Val(d, x) && Val(d, x) != b
  {
    var e := d.(words := d.words[b := content]);
    forall x ensures Val(e, x) == Val(d, x) {
      if x.Indirect? && IsSlot(d, x) { assert Val(d, Index(x.f)) == d.files[x.f].indirect; }
    }
    OwnUse(e, b);
    var t := UseBlock(e, b);
    forall x ensures Val(t, x) == Val(d, x) { }
    UseBlockEffect(e, b, b);
  }

  /** What linking block b, with this content, as block n of file f does to the image. */
  ghost predicate Linked(d: Disk, t: Disk, f: nat, n: nat, b: nat, content: seq<nat>)
    requires Own(d) && b < d.nblocks
  {
    && Wf(t) && t.nblocks == d.nblocks && |t.files| == |d.files|
    && Val(t, SlotOf(f, n)) == b && t.words[b] == content
    && (forall x :: x != SlotOf(f, n) && x != Index(f) ==> Val(t, x) == Val(d, x))
    && Val(t, Index(f)) == (if n < NDIRECT || Val(d, Index(f)) != 0 then Val(d, Index(f)) else b + 1)
    && (forall g :: 0 <= g < |d.files| ==> t.files[g].size == d.files[g].size)
    && (forall x: Slot :: !x.Index? && Val(d, x) != 0 ==> t.words[Val(d, x)] == d.words[Val(d, x)])
  }

  /** An image in which block b has been handed out and is not linked yet. */
  ghost predicate Pending(d: Disk, b: nat, next: nat) {
    && Own(d) && d.nblocks == NBLOCK && 3 <= b < next <= NBLOCK && d.bitmap == Flushed(next) && Blank(d, next)
    && (forall x :: Val(d, x) != b)
    && (forall c :: 3 <= c < next && c != b ==> Holds(d, c))
  }

  lemma TakeStep(d: Disk, next: nat, content: seq<nat>)
    requires Image(d, next) && next < NBLOCK && |content| == NINDIRECT
    ensures var t := Take(d, next, content);
            && Pending(t, next, next + 1) && t.words == d.words[next := content] && t.files == d.files
            && (forall x :: Val(t, x) == Val(d, x))
  {
    hide Own;
    FreeFrom(d, next, next);
    OwnWf(d);
    TakeKeeps(d, next, content);
    var t := Take(d, next, content);
    OwnWf(t);
    assert Wf(d) && Wf(t);
    forall c | 3 <= c < next ensures Holds(t, c) {
      assert Holds(d, c);
      var a :| Val(d, a) == c;
      assert Val(t, a) == c;
    }
  }

  lemma IndexStep(d: Disk, f: nat, b: nat, next: nat)
    requires Pending(d, b, next) && next < NBLOCK && f < |d.files| && d.files[f].indirect == 0
    ensures Wf(UseBlock(d, next))
    ensures var t := Put(UseBlock(d, next), Index(f), next);
            && Pending(t, b, next + 1) && t.words == d.words && |t.files| == |d.files|
            && (forall x :: Val(t, x) == if x == Index(f) then next else Val(d, x))
            && t.files == d.files[f := d.files[f].(indirect := next)]
  {
    hide Own;
    FreeFrom(d, next, next);
    OwnWf(d);
    IndexVals(d, f, next);
    var t := Put(UseBlock(d, next), Index(f), next);
    OwnWf(t);
    forall c | 3 <= c < next + 1 && c != b ensures Holds(t, c) {
      if c == next {
        assert Val(t, Index(f)) == c;
      } else {
        assert Holds(d, c);
        var a :| Val(d, a) == c;
        assert Val(d, Index(f)) == 0;
        assert Val(t, a) == c;
      }
    }
  }

  lemma LinkStep(d: Disk, f: nat, n: nat, b: nat, next: nat)
    requires Pending(d, b, next) && IsSlot(d, SlotOf(f, n)) && Val(d, SlotOf(f, n)) == 0
    ensures var t := Put(d, SlotOf(f, n), b);
            && Image(t, next) && (forall x :: Val(t, x) == if x == SlotOf(f, n) then b else Val(d, x))
            && (forall x: Slot :: !x.Index? && Val(d, x) != 0 ==> t.words[Val(d, x)] == d.words[Val(d, x)])
            && t.words[b] == d.words[b]
  {
    var a := SlotOf(f, n);
    FreeFrom(d, next, b);
    OwnLink(d, a, b);
    var t := Put(d, a, b);
    assert Val(d, Index(f)) == d.files[f].indirect;
    FreeFrom(d, next, d.files[f].indirect);
    forall c | 3 <= c < next ensures Holds(t, c) {
      if c == b {
        assert Val(t, a) == c;
      } else {
        assert Holds(d, c);
        var x :| Val(d, x) == c;
        assert Val(t, x) == c;
      }
    }
  }

  lemma PendingFacts(d: Disk, f: nat, b: nat, next: nat)
    requires Pending(d, b, next) && f < |d.files|
    ensures Wf(d) && b < NBLOCK && next > 0 && Val(d, Index(f)) == d.files[f].indirect
    ensures forall x :: Val(d, x) < NBLOCK
    ensures next < NBLOCK ==> UseBlock(d, next).bitmap == Flushed(next + 1)
  {
  }

  /** The blocks that a new block n of this file takes: itself, and the index block if that is missing. */
  function Cost(file: File, n: nat): nat {
    if n < NDIRECT || file.indirect != 0 then 1 else 2
  }

  class Writer {
    var next: nat
    var bitmap: seq<nat>
    var files: seq<File>
    var words: seq<seq<nat>>

    /** The disk with the bitmap that flush_bitmap would leave. */
    ghost function D(): Disk
      requires next <= NBLOCK
      reads this
    {
      View(next, files, words)
    }

    ghost predicate Valid()
      reads this
    {
      next <= NBLOCK && Image(D(), next) && bitmap == InitBitmap()
    }

    /** init_disk, with the root as file 0. */
    constructor ()
      ensures Valid() && next == 3 && |files| == 1 && forall x :: Val(D(), x) == 0
    {
      next := 3;
      bitmap := InitBitmap();
      files := [File(0, seq(NDIRECT, _ => 0), 0)];
      words := seq(NBLOCK, _ => ZeroBlock());
      new;
      BlankImage(D());
    }

    /** save_block_link */
    method SaveBlockLink(f: nat, n: nat, b: nat)
      requires f < |files| && n < NINDIRECT && next + Cost(files[f], n) <= NBLOCK + 1
      requires Pending(D(), b, next) && Val(D(), SlotOf(f, n)) == 0
      modifies this`next, this`files, this`words
      ensures next <= NBLOCK && Image(D(), next)
      ensures next == old(next) + Cost(old(files)[f], n) - 1
      ensures |files| == |old(files)| && forall g :: 0 <= g < |files| ==> files[g].size == old(files)[g].size
      ensures forall x :: x != Index(f) ==> Val(D(), x) == if x == SlotOf(f, n) then b else Val(old(D()), x)
      ensures Val(D(), Index(f)) == if Cost(old(files)[f], n) == 1 then Val(old(D()), Index(f)) else old(next)
      ensures words[b] == old(words)[b]
      ensures forall x: Slot :: !x.Index? && Val(old(D()), x) != 0 ==>
                words[Val(old(D()), x)] == old(words)[Val(old(D()), x)]
    {
      hide Own, Val, Image, Pending, Flushed;
      PendingFacts(D(), f, b, next);
      if n < NDIRECT {
        LinkStep(D(), f, n, b, next);
        var direct: seq<nat> := files[f].direct[n := b];
        files := files[f := files[f].(direct := direct)];
      } else {
        if files[f].indirect == 0 {
          IndexStep(D(), f, b, next);
          files := files[f := files[f].(indirect := next)];
          next := next + 1;
          PendingFacts(D(), f, b, next);
        }
        LinkStep(D(), f, n, b, next);
        var page: seq<nat> := words[files[f].indirect][n := b];
        words := words[files[f].indirect := page];
      }
    }

    /** save_block_link(f, n, next_block(…)) for a block with this content. */
    method AddBlock(f: nat, n: nat, content: seq<nat>) returns (b: nat)
      requires Valid() && f < |files| && n < NINDIRECT && next + Cost(files[f], n) <= NBLOCK && |content| == NINDIRECT
      requires Val(D(), SlotOf(f, n)) == 0
      modifies this`next, this`files, this`words
      ensures Valid() && b == old(next) && next == b + Cost(old(files)[f], n)
      ensures Linked(old(D()), D(), f, n, b, content)
    {
      hide Own, Val, Image, Pending, Flushed;
      ghost var d0 := D();
      ImageFacts(d0, next);
      TakeStep(d0, next, content);
      words := words[next := content];
      b := next;
      next := next + 1;
      SaveBlockLink(f, n, b);
      ImageFacts(D(), next);
    }

    /** write_file: the blocks of a file into an unused entry. Reading each file block by the server's rule gives back
      * what was written, and every other file keeps its blocks and their contents. */
    method WriteFile(f: nat, size: nat, contents: seq<seq<nat>>)
      requires Valid() && f < |files| && |contents| <= NINDIRECT && next + Need(|contents|) <= NBLOCK
      requires forall i :: 0 <= i < |contents| ==> |contents[i]| == NINDIRECT
      requires forall x: Slot :: x.f == f ==> Val(D(), x) == 0
      modifies this`next, this`files, this`words
      ensures Valid() && |files| == |old(files)| && files[f].size == size
      ensures forall i :: 0 <= i < |contents| ==> Reads(D(), f, i, contents[i])
      ensures forall x: Slot :: x.f != f ==> Val(D(), x) == Val(old(D()), x)
      ensures forall x: Slot :: x.f != f && !x.Index? && Val(old(D()), x) != 0 ==>
                words[Val(old(D()), x)] == old(words)[Val(old(D()), x)]
    {
      hide Own, Val, Image, Pending, Flushed;
      ghost var d0 := D();
      files := files[f := files[f].(size := size)];
      ResizeImage(d0, f, size, next);
      ghost var next0 := next;
      var k := 0;
      while k < |contents|
        invariant 0 <= k <= |contents| && Valid() && |files| == |old(files)| && files[f].size == size
        invariant Stored(d0, D(), f, contents, k)
        invariant next == next0 + Need(k)
      {
        ghost var d1 := D();
        StoredFacts(d0, d1, f, contents, k);
        var b := AddBlock(f, k, contents[k]);
        ImageFacts(D(), next);
        StoredStep(d0, d1, D(), f, contents, k, b);
        k := k + 1;
      }
      StoredEnds(d0, D(), f, contents);
    }

    /** make_link_block: a directory gets a block of unused entries. */
    method MakeLinkBlock(dir: nat) returns (b: nat)
      requires Valid() && dir < |files| && files[dir].size / BLOCK_SIZE < NINDIRECT
      requires next + Cost(files[dir], files[dir].size / BLOCK_SIZE) <= NBLOCK
      requires Val(D(), SlotOf(dir, files[dir].size / BLOCK_SIZE)) == 0
      modifies this`next, this`files, this`words
      ensures Valid() && |files| == |old(files)| + FILE2BLK && files[dir].size == old(files)[dir].size + BLOCK_SIZE
      ensures b == old(next) == Val(D(), SlotOf(dir, old(files)[dir].size / BLOCK_SIZE))
      ensures b < |words| && words[b] == ZeroBlock()
      ensures forall x: Slot :: x.f >= |old(files)| ==> Val(D(), x) == 0
      ensures forall x :: x != SlotOf(dir, old(files)[dir].size / BLOCK_SIZE) && x != Index(dir) ==>
                Val(D(), x) == Val(old(D()), x)
      ensures forall x: Slot :: !x.Index? && Val(old(D()), x) != 0 ==>
                words[Val(old(D()), x)] == old(words)[Val(old(D()), x)]
    {
      hide Own, Val, Image, Pending, Flushed;
      ImageFacts(D(), next);
      b := AddBlock(dir, files[dir].size / BLOCK_SIZE, ZeroBlock());
      ghost var d1 := D();
      files := files[dir := files[dir].(size := files[dir].size + BLOCK_SIZE)];
      ResizeImage(d1, dir, files[dir].size, next);
      AddEntries(D(), next);
      files := files + NewEntries();
    }

    /** flush_bitmap. The server finds its ownership invariant, every block handed out linked from exactly one slot,
      * and exactly the blocks from next on free. */
    method FlushBitmap()
      requires Valid()
      modifies this`bitmap
      ensures var d := Disk(NBLOCK, bitmap, files, words, {}, 0);
              && Own(d) && (forall b: nat :: IsFree(d, b) <==> next <= b < NBLOCK)
              && (forall b :: 3 <= b < next ==> Holds(d, b))
              && (forall x, y :: x != y && Val(d, x) != 0 ==> Val(d, x) != Val(d, y))
              && d == D()
    {
      hide IsFree, AndNotBit, Val;
      var i := 0;
      while i < next
        invariant 0 <= i <= next && bitmap == Flushed(i)
      {
        bitmap := bitmap[i / 32 := AndNotBit(bitmap[i / 32], i % 32)];
        i := i + 1;
      }
      ghost var d := Disk(NBLOCK, bitmap, files, words, {}, 0);
      assert d == D();
      forall b: nat ensures IsFree(d, b) <==> next <= b < NBLOCK { FreeFrom(d, next, b); }
    }
  }

  function NewEntries(): (s: seq<File>)
    ensures |s| == FILE2BLK
  {
    seq(FILE2BLK, _ => File(0, seq(NDIRECT, _ => 0), 0))
  }

  lemma AddEntries(d: Disk, next: nat)
    requires Image(d, next)
    ensures var t := d.(files := d.files + NewEntries());
            Image(t, next) && forall x: Slot :: Val(t, x) == (if x.f >= |d.files| then 0 else Val(d, x))
  {
    var t := d.(files := d.files + NewEntries());
    forall x: Slot ensures Val(t, x) == if x.f >= |d.files| then 0 else Val(d, x) {
      if |d.files| <= x.f < |t.files| { assert t.files[x.f] == NewEntries()[x.f - |d.files|]; }
    }
    forall x: Slot | x.f >= |d.files| ensures Val(d, x) == 0 { }
    forall c | 3 <= c < next ensures Holds(t, c) {
      assert Holds(d, c);
      var a :| Val(d, a) == c;
      assert Val(t, a) == c;
    }
  }

  /** The blocks that a file of n blocks takes. */
  function Need(n: nat): nat { if n <= NDIRECT then n else n + 1 }

  /** File block i of f, found by the rule of file_block_walk, holds content. */
  ghost predicate Reads(d: Disk, f: nat, i: nat, content: seq<nat>)
    requires Own(d)
  {
    var b := Val(d, SlotOf(f, i));
    b != 0 && b < |d.words| && d.words[b] == content
  }

  /** The first k blocks of f are in place; the rest of f is empty, and the other files of d0 are as they were. */
  ghost predicate Stored(d0: Disk, d: Disk, f: nat, contents: seq<seq<nat>>, k: nat) {
    && Own(d0) && Own(d) && k <= |contents| && |d.files| == |d0.files| && f < |d.files| && d.nblocks == d0.nblocks
    && (forall i :: 0 <= i < k ==> Reads(d, f, i, contents[i]))
    && (forall i :: k <= i < NINDIRECT ==> Val(d, SlotOf(f, i)) == 0)
    && (Val(d, Index(f)) == 0 <==> k <= NDIRECT)
    && (forall x: Slot :: x.f != f ==> Val(d, x) == Val(d0, x))
    && (forall x: Slot :: x.f != f && !x.Index? && Val(d0, x) != 0 ==> d.words[Val(d0, x)] == d0.words[Val(d0, x)])
  }

  lemma StoredStep(d0: Disk, d: Disk, t: Disk, f: nat, contents: seq<seq<nat>>, k: nat, b: nat)
    requires Stored(d0, d, f, contents, k) && k < |contents| <= NINDIRECT && 0 < b < d.nblocks && Own(t)
    requires Linked(d, t, f, k, b, contents[k])
    ensures Stored(d0, t, f, contents, k + 1)
  {
    forall i | 0 <= i < k ensures Reads(t, f, i, contents[i]) {
      assert Reads(d, f, i, contents[i]);
      assert SlotOf(f, i) != SlotOf(f, k);
    }
    forall i | k < i < NINDIRECT ensures Val(t, SlotOf(f, i)) == 0 {
      assert SlotOf(f, i) != SlotOf(f, k);
      assert Val(d, SlotOf(f, i)) == 0;
    }
  }

  lemma StoredFacts(d0: Disk, d: Disk, f: nat, contents: seq<seq<nat>>, k: nat)
    requires Stored(d0, d, f, contents, k) && k < |contents| <= NINDIRECT
    ensures Own(d) && Wf(d) && Val(d, SlotOf(f, k)) == 0 && Cost(d.files[f], k) == Need(k + 1) - Need(k)
  {
    assert Val(d, Index(f)) == d.files[f].indirect;
  }

  lemma StoredEnds(d0: Disk, d: Disk, f: nat, contents: seq<seq<nat>>)
    requires Stored(d0, d, f, contents, |contents|)
    ensures Own(d0) && Own(d)
    ensures forall i :: 0 <= i < |contents| ==> Reads(d, f, i, contents[i])
    ensures forall x: Slot :: x.f != f ==> Val(d, x) == Val(d0, x)
    ensures forall x: Slot :: x.f != f && !x.Index? && Val(d0, x) != 0 ==> d.words[Val(d0, x)] == d0.words[Val(d0, x)]
  {
  }

  /** The size field is not about blocks. */
  lemma ResizeImage(d: Disk, f: nat, size: nat, next: nat)
    requires Image(d, next) && f < |d.files|
    ensures var t := d.(files := d.files[f := d.files[f].(size := size)]);
            && Image(t, next)
            && ((forall x: Slot :: x.f == f ==> Val(d, x) == 0) ==> forall contents :: Stored(d, t, f, contents, 0))
            && forall x :: Val(t, x) == Val(d, x)
  {
    var t := d.(files := d.files[f := d.files[f].(size := size)]);
    forall x ensures Val(t, x) == Val(d, x) { }
    forall c | 3 <= c < next ensures Holds(t, c) {
      assert Holds(d, c);
      var a :| Val(d, a) == c;
      assert Val(t, a) == c;
    }
    assert (forall x: Slot :: x.f == f ==> Val(d, x) == 0) ==> Val(d, Index(f)) == 0 && forall i ::
           Val(d, SlotOf(f, i)) == 0;
  }

  lemma ImageFacts(d: Disk, next: nat)
    requires Image(d, next)
    ensures Own(d) && Wf(d) && d.nblocks == NBLOCK && 3 <= next <= NBLOCK && forall x :: Val(d, x) < next
    ensures forall g :: 0 <= g < |d.files| ==> Val(d, Index(g)) == d.files[g].indirect
    ensures forall x: Slot :: x.f >= |d.files| ==> Val(d, x) == 0
    ensures next < NBLOCK ==> UseBlock(d, next).bitmap == Flushed(next + 1)
  {
    forall x ensures Val(d, x) < next { FreeFrom(d, next, Val(d, x)); }
  }

  lemma BlankImage(d: Disk)
    requires d.nblocks == NBLOCK && d.bitmap == Flushed(3) && |d.words| == NBLOCK && |d.files| == 1
    requires forall b :: 0 <= b < NBLOCK ==> d.words[b] == ZeroBlock()
    requires d.files[0] == File(0, seq(NDIRECT, _ => 0), 0)
    ensures Image(d, 3) && forall x :: Val(d, x) == 0
  {
  }
}
