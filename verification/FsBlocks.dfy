/** Block ownership in fs/fs.c: the bitmap allocator, block slots of files and truncation. */
module FsBlocks {
  import opened Common
  import opened BitWords

  const BLOCK_SIZE: nat := 4096
  const NDIRECT: nat := 10
  const NINDIRECT: nat := 1024

  /** The fields of struct File that hold blocks. */
  datatype File = File(size: nat, direct: seq<nat>, indirect: nat)

  /** bitmap: bit set means free. words: a block read as 1024 words, from the cache if cached, else from the disk.
    * pages: physical pages the server can still get. */
  datatype Disk = Disk(nblocks: nat, bitmap: seq<nat>, files: seq<File>, words: seq<seq<nat>>, cached: set<nat>,
      pages: nat)

  /** A place that can hold a block number. The index block of a file is used from position NDIRECT on. */
  datatype Slot = Direct(f: nat, i: nat) | Index(f: nat) | Indirect(f: nat, i: nat)

  datatype Code = Ok | ENoDisk | ENoMem | ENotFound | EInval

  ghost predicate Wf(d: Disk) {
    && d.nblocks <= 32 * |d.bitmap| && |d.words| == d.nblocks
    && (forall b :: 0 <= b < d.nblocks ==> |d.words[b]| == NINDIRECT)
    && (forall f :: 0 <= f < |d.files| ==> |d.files[f].direct| == NDIRECT && d.files[f].indirect < d.nblocks)
  }

  /** block_is_free */
  predicate IsFree(d: Disk, b: nat)
    requires d.nblocks <= 32 * |d.bitmap|
  {
    b < d.nblocks && Bit(d.bitmap, b)
  }

  predicate IsSlot(d: Disk, a: Slot) {
    a.f < |d.files| &&
    match a
    case Direct(f, i) => i < NDIRECT
    case Index(f) => true
    case Indirect(f, i) => NDIRECT <= i < NINDIRECT && d.files[f].indirect != 0
  }

  /** The block number a slot holds; 0 is "none". */
  ghost function Val(d: Disk, a: Slot): nat
    requires Wf(d)
  {
    if !IsSlot(d, a) then 0
    else match a
      case Direct(f, i) => d.files[f].direct[i]
      case Index(f) => d.files[f].indirect
      case Indirect(f, i) => d.words[d.files[f].indirect][i]
  }

  /** Ownership: every block number in a slot is a used block past the bitmap, and no two slots share one. */
  ghost predicate Own(d: Disk) {
    && Wf(d)
    && (forall a :: Val(d, a) != 0 ==> 3 <= Val(d, a) < d.nblocks && !IsFree(d, Val(d, a)))
    && (forall a, b :: a != b && Val(d, a) != 0 ==> Val(d, a) != Val(d, b))
  }

  // ----- effects -----

  /** free_block */
  function FreeBlock(d: Disk, b: nat): Disk
    requires d.nblocks <= 32 * |d.bitmap|
  {
    if b == 0 || b >= d.nblocks then d else d.(bitmap := SetBit(d.bitmap, b))
  }

  function UseBlock(d: Disk, b: nat): Disk
    requires b < d.nblocks <= 32 * |d.bitmap|
  {
    d.(bitmap := ClearBit(d.bitmap, b))
  }

  /** *ptr = v, for the slot that file_block_walk points at. */
  ghost function Put(d: Disk, a: Slot, v: nat): Disk
    requires Wf(d) && IsSlot(d, a)
  {
    match a
    case Direct(f, i) =>
      var direct: seq<nat> := d.files[f].direct[i := v];
      d.(files := d.files[f := d.files[f].(direct := direct)])
    case Index(f) => d.(files := d.files[f := d.files[f].(indirect := v)])
    case Indirect(f, i) =>
      var page: seq<nat> := d.words[d.files[f].indirect][i := v];
      d.(words := d.words[d.files[f].indirect := page])
  }

  lemma FreeBlockEffect(d: Disk, b: nat, c: nat)
    requires d.nblocks <= 32 * |d.bitmap|
    ensures IsFree(FreeBlock(d, b), c) <==> IsFree(d, c) || (c == b && 0 < b < d.nblocks)
  {
    if 0 < b < d.nblocks && c < d.nblocks { SetBitEffect(d.bitmap, b, c); }
  }

  lemma UseBlockEffect(d: Disk, b: nat, c: nat)
    requires b < d.nblocks <= 32 * |d.bitmap|
    ensures IsFree(UseBlock(d, b), c) <==> IsFree(d, c) && c != b
  {
    if c < d.nblocks { ClearBitEffect(d.bitmap, b, c); }
  }

  /** Writing a direct or indirect slot changes that slot alone: index blocks are not shared. */
  lemma PutFrame(d: Disk, a: Slot, v: nat, x: Slot)
    requires Own(d) && IsSlot(d, a) && !a.Index?
    ensures Wf(Put(d, a, v))
    ensures Val(Put(d, a, v), x) == if x == a then v else Val(d, x)
  {
    if a.Indirect? && x.Indirect? && IsSlot(d, x) && x.f != a.f {
      assert Val(d, Index(a.f)) == d.files[a.f].indirect && Val(d, Index(x.f)) == d.files[x.f].indirect;
    }
  }

  /** An empty slot takes a free block. */
  lemma OwnPut(d: Disk, a: Slot, b: nat)
    requires Own(d) && IsSlot(d, a) && !a.Index? && Val(d, a) == 0
    requires 3 <= b < d.nblocks && IsFree(d, b)
    ensures Own(Put(UseBlock(d, b), a, b))
  {
    var e := UseBlock(d, b);
    forall x ensures Val(e, x) == Val(d, x) { }
    forall x | Val(d, x) != 0 ensures Val(d, x) != b && !IsFree(e, Val(d, x)) { UseBlockEffect(d, b, Val(d, x)); }
    UseBlockEffect(d, b, b);
    forall x ensures Wf(Put(e, a, b)) && Val(Put(e, a, b), x) == if x == a then b else Val(d, x) {
      PutFrame(e, a, b, x);
    }
  }

  /** A file gets an index block. It must read as zero, or its words would be taken for block numbers. */
  lemma OwnNewIndex(d: Disk, f: nat, b: nat)
    requires Own(d) && f < |d.files| && d.files[f].indirect == 0
    requires 3 <= b < d.nblocks && IsFree(d, b)
    requires forall i :: NDIRECT <= i < NINDIRECT ==> d.words[b][i] == 0
    ensures Own(Put(UseBlock(d, b), Index(f), b))
  {
    var e := UseBlock(d, b);
    var t := Put(e, Index(f), b);
    forall x | Val(d, x) != 0 ensures Val(d, x) != b && !IsFree(e, Val(d, x)) { UseBlockEffect(d, b, Val(d, x)); }
    UseBlockEffect(d, b, b);
    forall x ensures Val(t, x) == if x == Index(f) then b else Val(d, x) {
      if x.Indirect? && IsSlot(t, x) { assert x.f == f ==> t.words[b][x.i] == 0; }
    }
  }

  /** A slot gives its block back. */
  lemma OwnClear(d: Disk, a: Slot)
    requires Own(d) && IsSlot(d, a) && !a.Index? && Val(d, a) != 0
    ensures Own(Put(FreeBlock(d, Val(d, a)), a, 0))
  {
    var v := Val(d, a);
    var e := FreeBlock(d, v);
    var t := Put(d, a, 0);
    forall x ensures Wf(t) && Val(t, x) == if x == a then 0 else Val(d, x) { PutFrame(d, a, 0, x); }
    var u := Put(e, a, 0);
    assert u == t.(bitmap := e.bitmap);
    forall x ensures Val(u, x) == Val(t, x) { }
    forall x | Val(u, x) != 0 ensures !IsFree(u, Val(u, x)) { FreeBlockEffect(d, v, Val(u, x)); }
  }

  /** A file gives its index block back; the numbers in it are forgotten. */
  lemma OwnDropIndex(d: Disk, f: nat)
    requires Own(d) && f < |d.files| && d.files[f].indirect != 0
    ensures Own(Put(FreeBlock(d, d.files[f].indirect), Index(f), 0))
    ensures forall x :: Val(Put(FreeBlock(d, d.files[f].indirect), Index(f), 0), x)
                        == if x == Index(f) || (x.Indirect? && x.f == f) then 0 else Val(d, x)
  {
    var v := d.files[f].indirect;
    var u := Put(FreeBlock(d, v), Index(f), 0);
    assert Val(d, Index(f)) == v;
    forall x ensures Val(u, x) == if x == Index(f) || (x.Indirect? && x.f == f) then 0 else Val(d, x) { }
    forall x | Val(u, x) != 0 ensures !IsFree(u, Val(u, x)) { FreeBlockEffect(d, v, Val(u, x)); }
  }

  // ----- allocation and lookup effects -----

  function ZeroBlock(): (z: seq<nat>)
    ensures |z| == NINDIRECT && forall i :: 0 <= i < NINDIRECT ==> z[i] == 0
  {
    seq(NINDIRECT, _ => 0)
  }

  /** map_block of a block that has just been taken: a fresh page reads as zero, a page that is still cached
    * keeps what it held. */
  function MapBlock(d: Disk, b: nat): Disk
    requires b < |d.words|
  {
    if b in d.cached || d.pages == 0 then d
    else d.(words := d.words[b := ZeroBlock()], cached := d.cached + {b}, pages := d.pages - 1)
  }

  /** Mapping a free block touches no slot. */
  lemma MapBlockKeeps(d: Disk, b: nat)
    requires Own(d) && IsFree(d, b)
    ensures Own(MapBlock(d, b)) && IsFree(MapBlock(d, b), b)
    ensures forall x :: Val(MapBlock(d, b), x) == Val(d, x)
    ensures forall c :: IsFree(MapBlock(d, b), c) <==> IsFree(d, c)
  {
    var e := MapBlock(d, b);
    forall x ensures Val(e, x) == Val(d, x) {
      if x.Indirect? && IsSlot(d, x) { assert Val(d, Index(x.f)) == d.files[x.f].indirect; }
    }
  }

  /** The block that alloc_block_num picks. */
  predicate FirstFree(d: Disk, b: nat)
    requires d.nblocks <= 32 * |d.bitmap|
  {
    3 <= b && IsFree(d, b) && forall c :: 3 <= c < b ==> !IsFree(d, c)
  }

  /** Finding this block of the file will give the file an index block. */
  predicate NeedsIndex(d: Disk, f: nat, filebno: nat, alloc: bool)
    requires f < |d.files|
  {
    alloc && NDIRECT <= filebno < NINDIRECT && d.files[f].indirect == 0
  }

  /** The block that would become it is not in the cache, or reads as zero there. */
  predicate IndexReady(d: Disk)
    requires Wf(d)
  {
    forall b, i :: 3 <= b < d.nblocks && NDIRECT <= i < NINDIRECT && FirstFree(d, b) && b in d.cached ==>
        d.words[b][i] == 0
  }

  /** The first free block from this one on. */
  function NextFree(d: Disk, from: nat): (r: Option<nat>)
    requires d.nblocks <= 32 * |d.bitmap|
    ensures r.None? ==> forall c :: from <= c ==> !IsFree(d, c)
    ensures r.Some? ==> from <= r.value < d.nblocks && IsFree(d, r.value) && forall c :: from <= c < r.value ==>
              !IsFree(d, c)
    decreases d.nblocks - from
  {
    if from >= d.nblocks then None else if IsFree(d, from) then Some(from) else NextFree(d, from + 1)
  }

  /** What alloc_block answers when r is the first free block. */
  function AllocCode(r: Option<nat>, cached: set<nat>, pages: nat): Code {
    if r.None? then ENoDisk else if r.value !in cached && pages == 0 then ENoMem else Ok
  }

  /** The pages left after block b has been brought into the cache. */
  function PagesAfter(b: nat, cached: set<nat>, pages: nat): nat
  {
    if b in cached || pages == 0 then pages else pages - 1
  }

  /** What file_block_walk answers. */
  function WalkCode(d: Disk, f: nat, filebno: nat, alloc: bool): Code
    requires d.nblocks <= 32 * |d.bitmap| && f < |d.files|
  {
    var i := d.files[f].indirect;
    if filebno < NDIRECT then Ok
    else if filebno >= NINDIRECT then EInval
    else if i != 0 then (if i !in d.cached && d.pages == 0 then ENoMem else Ok)
    else if !alloc then ENotFound
    else AllocCode(NextFree(d, 3), d.cached, d.pages)
  }

  /** The index block that a successful walk uses, if any. */
  function WalkIndex(d: Disk, f: nat, filebno: nat): Option<nat>
    requires d.nblocks <= 32 * |d.bitmap| && f < |d.files|
  {
    if filebno < NDIRECT then None else if d.files[f].indirect != 0 then Some(d.files[f].indirect) else NextFree(d, 3)
  }

  function WalkCached(d: Disk, f: nat, filebno: nat): set<nat>
    requires d.nblocks <= 32 * |d.bitmap| && f < |d.files|
  {
    var i := WalkIndex(d, f, filebno);
    if i.None? then d.cached else d.cached + {i.value}
  }

  function WalkPages(d: Disk, f: nat, filebno: nat): nat
    requires d.nblocks <= 32 * |d.bitmap| && f < |d.files|
  {
    var i := WalkIndex(d, f, filebno);
    if i.None? then d.pages else PagesAfter(i.value, d.cached, d.pages)
  }

  /** The block that an empty slot gets: the first free one, or the next if the first becomes the index block. */
  function MapPick(d: Disk, f: nat, filebno: nat, alloc: bool): Option<nat>
    requires d.nblocks <= 32 * |d.bitmap| && f < |d.files|
  {
    var b := NextFree(d, 3);
    if NeedsIndex(d, f, filebno, alloc) && b.Some? then NextFree(d, b.value + 1) else b
  }

  /** What file_map_block answers. */
  ghost function MapCode(d: Disk, f: nat, filebno: nat, alloc: bool): Code
    requires Wf(d) && f < |d.files|
  {
    if WalkCode(d, f, filebno, alloc) != Ok then WalkCode(d, f, filebno, alloc)
    else if Val(d, SlotOf(f, filebno)) != 0 then Ok
    else if !alloc then ENotFound
    else AllocCode(MapPick(d, f, filebno, alloc), WalkCached(d, f, filebno), WalkPages(d, f, filebno))
  }

  lemma {:induction false} NextFreeSame(d: Disk, t: Disk, from: nat)
    requires d.nblocks <= 32 * |d.bitmap| && t.nblocks == d.nblocks <= 32 * |t.bitmap|
    requires forall c :: from <= c ==> (IsFree(t, c) <==> IsFree(d, c))
    ensures NextFree(t, from) == NextFree(d, from)
    decreases d.nblocks - from
  {
    if from < d.nblocks { NextFreeSame(d, t, from + 1); }
  }

  /** With the first free block gone, the next one is first. */
  lemma {:induction false} NextFreeSkip(d: Disk, t: Disk, from: nat, b: nat)
    requires d.nblocks <= 32 * |d.bitmap| && t.nblocks == d.nblocks <= 32 * |t.bitmap| && NextFree(d, from) == Some(b)
    requires forall c :: from <= c ==> (IsFree(t, c) <==> IsFree(d, c) && c != b)
    ensures NextFree(t, from) == NextFree(d, b + 1)
    decreases d.nblocks - from
  {
    if from == b { NextFreeSame(d, t, b + 1); } else { NextFreeSkip(d, t, from + 1, b); }
  }

  lemma FirstFreeNext(d: Disk, b: nat)
    requires d.nblocks <= 32 * |d.bitmap|
    ensures FirstFree(d, b) <==> NextFree(d, 3) == Some(b)
  {
  }

  /** read_block of a used block: it may take a page, nothing else changes. */
  function ReadBlock(d: Disk, b: nat): Disk {
    if b in d.cached || d.pages == 0 then d else d.(cached := d.cached + {b}, pages := d.pages - 1)
  }

  lemma ReadBlockKeeps(d: Disk, b: nat)
    requires Own(d)
    ensures Own(ReadBlock(d, b))
    ensures forall x :: Val(ReadBlock(d, b), x) == Val(d, x)
    ensures forall c :: IsFree(ReadBlock(d, b), c) <==> IsFree(d, c)
  {
    var e := ReadBlock(d, b);
    forall x ensures Val(e, x) == Val(d, x) { }
  }

  /** The slot of the filebno'th block of a file. */
  function SlotOf(f: nat, filebno: nat): Slot { if filebno < NDIRECT then Direct(f, filebno) else Indirect(f, filebno) }

  /** ROUND(size, BLOCK_SIZE) / BLOCK_SIZE in 32-bit arithmetic. */
  function Blocks(size: nat): nat { (size + BLOCK_SIZE - 1) % WORD / BLOCK_SIZE }

  /** The blocks that slots lo .. hi of a file hold. */
  ghost function BlocksIn(d: Disk, f: nat, lo: nat, hi: nat): set<nat>
    requires Wf(d)
  {
    set i | lo <= i < hi && Val(d, SlotOf(f, i)) != 0 :: Val(d, SlotOf(f, i))
  }

  lemma BlocksInStep(d: Disk, f: nat, lo: nat, hi: nat)
    requires Wf(d) && lo <= hi
    ensures BlocksIn(d, f, lo, hi + 1) ==
            BlocksIn(d, f, lo, hi) + (if Val(d, SlotOf(f, hi)) != 0 then {Val(d, SlotOf(f, hi))} else {})
  {
    forall v | v in BlocksIn(d, f, lo, hi + 1)
      ensures v in BlocksIn(d, f, lo, hi) || (v == Val(d, SlotOf(f, hi)) && v != 0)
    {
      var i :| lo <= i < hi + 1 && Val(d, SlotOf(f, i)) != 0 && v == Val(d, SlotOf(f, i));
    }
  }

  /** x is one of the slots lo .. hi of file f. */
  predicate InSlots(x: Slot, f: nat, lo: nat, hi: nat) {
    x.f == f && !x.Index? && lo <= x.i < hi && x == SlotOf(f, x.i)
  }

  /** When file_truncate panics: it must clear a slot of the index block and cannot reach it. */
  predicate CannotClear(d: Disk, f: nat, lo: nat, hi: nat)
    requires f < |d.files|
  {
    lo < hi && NDIRECT < hi &&
    (hi > NINDIRECT || d.files[f].indirect == 0 || (d.files[f].indirect !in d.cached && d.pages == 0))
  }

  /** The answers of file_map_block, in terms of the file and the free blocks. A block past the largest file is refused;
    * an index block that cannot be brought into the cache hides what it holds; otherwise a block that exists is found,
    * and one that does not is only missing if it was not to be allocated. */
  lemma MapCodes(d: Disk, f: nat, filebno: nat, alloc: bool)
    requires Own(d) && f < |d.files|
    ensures var code, i := MapCode(d, f, filebno, alloc), d.files[f].indirect;
            var far := 10 <= filebno < 1024;
            var hidden := far && i != 0 && i !in d.cached && d.pages == 0;
            var there := filebno < 1024 && Val(d, SlotOf(f, filebno)) != 0;
            && (code == EInval <==> filebno >= 1024)
            && (hidden ==> code == ENoMem)
            && (there && !hidden ==> code == Ok)
            && (filebno < 1024 && !there && !hidden && !alloc ==> code == ENotFound)
            && (filebno < 1024 && !there && !hidden && alloc ==>
                  var b := NextFree(d, 3);
                  if !far || i != 0 then
                    && (code == ENoDisk <==> forall c :: 3 <= c ==> !IsFree(d, c))
                    && (code == Ok <==>
                        b.Some? && (b.value in WalkCached(d, f, filebno) || WalkPages(d, f, filebno) > 0))
                  else
                    && (code == Ok ==> exists c, e :: 3 <= c < e && IsFree(d, c) && IsFree(d, e))
                    && (d.pages >= 2 ==>
                        (code == Ok <==> exists c, e :: 3 <= c < e && IsFree(d, c) && IsFree(d, e))
                        && (code == Ok || code == ENoDisk)))
  {
    hide IsFree, Own, FirstFree;
    OwnWf(d);
    if filebno < 1024 && alloc && filebno >= 10 && d.files[f].indirect == 0 {
      var b := NextFree(d, 3);
      if b.Some? {
        var c := NextFree(d, b.value + 1);
        assert c.Some? ==> IsFree(d, b.value) && IsFree(d, c.value);
      }
    }
  }

  /** The server's tables, changed in place. */
  class Server {
    var nblocks: nat
    var bitmap: seq<nat>
    var files: seq<File>
    var words: seq<seq<nat>>
    var cached: set<nat>
    var pages: nat

    function D(): Disk
      reads this
    {
      Disk(nblocks, bitmap, files, words, cached, pages)
    }

    /** free_block */
    method Free(b: nat)
      requires nblocks <= 32 * |bitmap|
      modifies this`bitmap
      ensures D() == FreeBlock(old(D()), b)
    {
      if b == 0 || b >= nblocks {
        return;
      }
      bitmap := bitmap[b / 32 := OrBit(bitmap[b / 32], b % 32)];
    }

    /** alloc_block_num: the first free block past the bitmap block. */
    method AllocBlockNum() returns (r: Option<nat>)
      requires nblocks <= 32 * |bitmap|
      modifies this`bitmap
      ensures r.None? ==> D() == old(D()) && forall b :: 3 <= b < nblocks ==> !IsFree(D(), b)
      ensures r.Some? ==> 3 <= r.value < nblocks && IsFree(old(D()), r.value)
                          && (forall b :: 3 <= b < r.value ==> !IsFree(old(D()), b))
                          && D() == UseBlock(old(D()), r.value)
    {
      var b := 3;
      while b < nblocks
        invariant D() == old(D()) && b >= 3 && forall c :: 3 <= c < b && c < nblocks ==> !IsFree(D(), c)
      {
        if BitOf(bitmap[b / 32], b % 32) {
          bitmap := bitmap[b / 32 := AndNotBit(bitmap[b / 32], b % 32)];
          return Some(b);
        }
        b := b + 1;
      }
      return None;
    }

    /** alloc_block */
    method AllocBlock() returns (code: Code, b: nat)
      requires Own(D())
      modifies this`bitmap, this`words, this`cached, this`pages
      ensures code == AllocCode(NextFree(old(D()), 3), old(cached), old(pages))
      ensures code == ENoDisk <==> forall c :: 3 <= c < nblocks ==> !IsFree(old(D()), c)
      ensures code == ENoMem <==> old(pages) == 0 && exists c :: FirstFree(old(D()), c) && c !in old(cached)
      ensures code != Ok ==> Own(D()) && D() == old(D()).(bitmap := bitmap)
                             && (forall x :: Val(D(), x) == Val(old(D()), x))
                             && forall c :: IsFree(D(), c) <==> IsFree(old(D()), c)
      ensures code == Ok ==>
                3 <= b < nblocks && FirstFree(old(D()), b) && NextFree(old(D()), 3) == Some(b) && IsFree(old(D()), b)
                    && (b in old(cached) || old(pages) > 0)
                             && D() == UseBlock(MapBlock(old(D()), b), b)
    {
      ghost var d0 := D();
      var r := AllocBlockNum();
      if r.None? {
        return ENoDisk, 0;
      }
      b := r.value;
      FirstFreeNext(d0, b);
      if b !in cached {
        if pages == 0 {
          Free(b);
          forall c ensures IsFree(D(), c) <==> IsFree(d0, c) {
            UseBlockEffect(d0, b, c);
            FreeBlockEffect(UseBlock(d0, b), b, c);
          }
          forall x ensures Val(D(), x) == Val(d0, x) { }
          return ENoMem, 0;
        }
        words := words[b := ZeroBlock()];
        cached := cached + {b};
        pages := pages - 1;
      }
      return Ok, b;
    }

    /** file_block_walk: the slot of a file block; with alloc it may give the file an index block. */
    method FileBlockWalk(f: nat, filebno: nat, alloc: bool) returns (code: Code)
      requires Own(D()) && f < |files| && (NeedsIndex(D(), f, filebno, alloc) ==> IndexReady(D()))
      modifies this`bitmap, this`words, this`cached, this`pages, this`files
      ensures GainedIndex(old(D()), D(), f)
      ensures code == EInval <==> filebno >= NINDIRECT
      ensures code == ENotFound <==> NDIRECT <= filebno < NINDIRECT && old(files)[f].indirect == 0 && !alloc
      ensures code == Ok ==> IsSlot(D(), SlotOf(f, filebno))
      ensures code == WalkCode(old(D()), f, filebno, alloc)
      ensures code == Ok ==> cached == WalkCached(old(D()), f, filebno) && pages == WalkPages(old(D()), f, filebno)
      ensures NeedsIndex(old(D()), f, filebno, alloc) && code == Ok ==> Some(files[f].indirect) == NextFree(old(D()), 3)
      ensures !NeedsIndex(old(D()), f, filebno, alloc) ==> files == old(files)
      ensures code != Ok || filebno < NDIRECT ==> D() == old(D()).(bitmap := bitmap)
      ensures !alloc ==> WalkOnly(old(D()), D(), f, filebno, code)
    {
      hide Own, Val, IndexReady, FirstFree, IsFree, GainedIndex;
      ghost var d0 := D();
      GainedNothing(d0, d0, f);
      if filebno < NDIRECT {
        return Ok;
      }
      if filebno >= NINDIRECT {
        return EInval;
      }
      OwnBounds(d0, f);
      if files[f].indirect == 0 {
        if !alloc {
          return ENotFound;
        }
        var r, b := AllocBlock();
        if r != Ok {
          GainedNothing(d0, D(), f);
          return r;
        }
        files := files[f := files[f].(indirect := b)];
        NewIndex(d0, f, b);
        return Ok;
      }
      ReadBlockKeeps(d0, files[f].indirect);
      if files[f].indirect !in cached {
        if pages == 0 {
          return ENoMem;
        }
        cached := cached + {files[f].indirect};
        pages := pages - 1;
      }
      GainedNothing(d0, D(), f);
      return Ok;
    }

    /** file_map_block: the block number of a file block, allocated on demand. */
    method FileMapBlock(f: nat, filebno: nat, alloc: bool) returns (code: Code, b: nat)
      requires Own(D()) && f < |files| && (NeedsIndex(D(), f, filebno, alloc) ==> IndexReady(D()))
      modifies this`bitmap, this`words, this`cached, this`pages, this`files
      ensures Own(D()) && |files| == |old(files)| && nblocks == old(nblocks)
      ensures Mapped(old(D()), D(), f, filebno, alloc, code, b)
    {
      hide Own, Val, IsFree, GainedIndex, WalkCode, WalkCached, WalkPages, MapPick, NextFree, Mapped, IndexReady;
      ghost var d0 := D();
      ghost var a := SlotOf(f, filebno);
      OwnBounds(d0, f);
      var r := FileBlockWalk(f, filebno, alloc);
      ghost var d1 := D();
      GainedOwn(d0, d1, f);
      OwnBounds(d1, f);
      if r != Ok {
        MapEnds(d0, d1, d1, f, filebno, alloc, r, 0);
        return r, 0;
      }
      var v := if filebno < NDIRECT then files[f].direct[filebno] else words[files[f].indirect][filebno];
      SlotValue(d1, f, filebno, v);
      if v != 0 {
        MapEnds(d0, d1, d1, f, filebno, alloc, Ok, v);
        return Ok, v;
      }
      if !alloc {
        MapEnds(d0, d1, d1, f, filebno, alloc, ENotFound, 0);
        return ENotFound, 0;
      }
      WalkPick(d0, d1, f, filebno, alloc);
      r, b := AllocBlock();
      if r != Ok {
        MapEnds(d0, d1, D(), f, filebno, alloc, r, 0);
        return r, 0;
      }
      FillSlot(d1, a, b);
      SetSlot(f, filebno, b);
      MapFills(d0, d1, D(), f, filebno, alloc, b);
      return Ok, b;
    }

    /** *ptr = v */
    method SetSlot(f: nat, filebno: nat, v: nat)
      requires Wf(D()) && IsSlot(D(), SlotOf(f, filebno))
      modifies this`files, this`words
      ensures D() == Put(old(D()), SlotOf(f, filebno), v)
    {
      if filebno < NDIRECT {
        var direct: seq<nat> := files[f].direct[filebno := v];
        files := files[f := files[f].(direct := direct)];
      } else {
        var page: seq<nat> := words[files[f].indirect][filebno := v];
        words := words[files[f].indirect := page];
      }
    }

    /** file_clear_block: the slot is emptied and its block freed. */
    method FileClearBlock(f: nat, filebno: nat) returns (code: Code)
      requires Own(D()) && f < |files|
      modifies this`bitmap, this`words, this`cached, this`pages, this`files
      ensures Own(D()) && |files| == |old(files)| && nblocks == old(nblocks)
      ensures code == Ok <==> !CannotClear(old(D()), f, filebno, filebno + 1)
      ensures code != Ok ==> D() == old(D())
      ensures code == Ok ==> Cleared(old(D()), D(), f, filebno, filebno + 1)
      ensures files[f].indirect == old(files)[f].indirect && files[f].size == old(files)[f].size
      ensures code == Ok && filebno >= NDIRECT ==> files[f].indirect in cached
      ensures filebno < NDIRECT ==> cached == old(cached) && pages == old(pages)
      ensures old(cached) <= cached
    {
      hide Own, Val, IsFree, GainedIndex, Cleared;
      ghost var d0 := D();
      ghost var a := SlotOf(f, filebno);
      OwnBounds(d0, f);
      code := FileBlockWalk(f, filebno, false);
      if code != Ok {
        return;
      }
      ghost var d1 := D();
      if filebno >= NDIRECT { ReadBlockKeeps(d0, files[f].indirect); }
      OwnBounds(d1, f);
      var v := if filebno < NDIRECT then files[f].direct[filebno] else words[files[f].indirect][filebno];
      SlotValue(d1, f, filebno, v);
      EmptySlot(d1, f, filebno);
      if v != 0 {
        Free(v);
        SetSlot(f, filebno, 0);
      }
      ReadThenClear(d0, d1, D(), f, filebno);
    }

    /** file_truncate. The result is true when panic_on stops the server. */
    method FileTruncate(f: nat, newsize: nat) returns (panicked: bool)
      requires Own(D()) && f < |files|
      modifies this`bitmap, this`words, this`cached, this`pages, this`files
      ensures Own(D()) && |files| == |old(files)|
      ensures panicked <==> CannotClear(old(D()), f, Blocks(newsize), Blocks(old(files)[f].size))
      ensures !panicked ==>
                Truncated(old(D()), D(), f, Blocks(newsize), Blocks(old(files)[f].size)) && files[f].size == newsize
      ensures !panicked ==> Cut(old(D()), D(), f, newsize, old(files)[f].size)
    {
      hide Own, Val, IsFree, GainedIndex, BlocksIn, Blocks, Cleared, Truncated, FreeBlock, Put, Cut;
      ghost var d0 := D();
      var oldN, newN := Blocks(files[f].size), Blocks(newsize);
      ClearedNone(d0, f, newN);
      var bno := newN;
      while bno < oldN
        invariant newN <= bno && (bno <= oldN || bno == newN)
        invariant Own(D()) && |files| == |old(files)| && Cleared(d0, D(), f, newN, bno)
        invariant files[f].indirect == old(files)[f].indirect && old(cached) <= cached
        invariant newN < bno && bno > NDIRECT ==>
                    files[f].indirect in cached && files[f].indirect != 0 && bno <= NINDIRECT
        invariant bno <= NDIRECT || bno == newN ==> cached == old(cached) && pages == old(pages)
        invariant newN < bno && bno > NDIRECT ==> files[f].indirect in old(cached) || old(pages) > 0
      {
        ghost var d1 := D();
        var code := FileClearBlock(f, bno);
        if code != Ok {
          return true;
        }
        ClearedStep(d0, d1, D(), f, newN, bno);
        bno := bno + 1;
      }
      ghost var d2 := D();
      OwnBounds(d2, f);
      TruncatedAt(d0, d2, f, newN, oldN, bno);
      if newN <= NDIRECT && files[f].indirect != 0 {
        Free(files[f].indirect);
        files := files[f := files[f].(indirect := 0)];
        DropTruncated(d0, d2, D(), f, newN, oldN);
      }
      ghost var d3 := D();
      files := files[f := files[f].(size := newsize)];
      ResizeKeeps(d0, d3, f, newsize, newN, oldN);
      TruncationCuts(d0, D(), f, newsize, d0.files[f].size);
      return false;
    }

    /** file_set_size. Growing a file changes its size alone; shrinking it truncates. */
    method FileSetSize(f: nat, newsize: nat) returns (panicked: bool)
      requires Own(D()) && f < |files|
      modifies this`bitmap, this`words, this`cached, this`pages, this`files
      ensures Own(D()) && |files| == |old(files)|
      ensures panicked <==>
                newsize < old(files)[f].size && CannotClear(old(D()), f, Blocks(newsize), Blocks(old(files)[f].size))
      ensures !panicked ==> files[f].size == newsize
      ensures !panicked && newsize < old(files)[f].size ==>
                Truncated(old(D()), D(), f, Blocks(newsize), Blocks(old(files)[f].size))
                && Cut(old(D()), D(), f, newsize, old(files)[f].size)
      ensures newsize >= old(files)[f].size ==>
                D() == old(D()).(files := old(files)[f := old(files)[f].(size := newsize)])
      ensures newsize >= old(files)[f].size ==> forall x :: Val(D(), x) == Val(old(D()), x)
    {
      hide Own, Val, IsFree, Truncated, CannotClear, Cut;
      ghost var d := D();
      if files[f].size > newsize {
        panicked := FileTruncate(f, newsize);
        if panicked {
          return;
        }
        assert files[f].(size := newsize) == files[f] && files == files[f := files[f]];
      }
      SizeKeeps(D(), f, newsize);
      files := files[f := files[f].(size := newsize)];
      return false;
    }

    /** A client writes to a page of a file block: file_get_block gives it the cached block itself. */
    method WriteData(f: nat, filebno: nat, content: seq<nat>)
      requires Own(D()) && f < |files| && |content| == NINDIRECT
      modifies this`words
      ensures Own(D()) && (forall x :: Val(D(), x) == Val(old(D()), x))
      ensures words == if filebno < NINDIRECT && 0 < Val(D(), SlotOf(f, filebno)) < |old(words)|
                       then old(words)[Val(D(), SlotOf(f, filebno)) := content] else old(words)
    {
      ghost var d := D();
      if filebno < NDIRECT || (filebno < NINDIRECT && files[f].indirect != 0) {
        OwnBounds(D(), f);
        var b := if filebno < NDIRECT then files[f].direct[filebno] else words[files[f].indirect][filebno];
        if b != 0 {
          SlotValue(d, f, filebno, b);
          DataKeeps(d, SlotOf(f, filebno), content);
          words := words[b := content];
        }
      }
    }

    /** Any mix of allocations, resizings and writes, in any order, keeps ownership until truncation panics or a new
      * index block would be a cached block with old contents. The trace has the disk before each operation. */
    method Run(ops: seq<Op>) returns (done: nat, ghost trace: seq<Disk>)
      requires Own(D())
      modifies this`bitmap, this`words, this`cached, this`pages, this`files
      ensures Own(D()) && |files| == |old(files)| && done <= |ops|
      ensures |trace| == done + 1 && trace[0] == old(D()) && (done == |ops| ==> D() == trace[done])
      ensures forall i :: 0 <= i < done ==> Did(trace[i], trace[i + 1], ops[i])
      ensures done < |ops| ==> Stopped(trace[done], ops[done])
    {
      hide Own, Val, IsFree, Truncated, CannotClear, IndexReady, Did, Mapped, Cut;
      done, trace := 0, [D()];
      while done < |ops|
        invariant done <= |ops| && Own(D()) && |files| == |old(files)|
        invariant |trace| == done + 1 && trace[0] == old(D()) && trace[done] == D()
        invariant forall i :: 0 <= i < done ==> Did(trace[i], trace[i + 1], ops[i])
      {
        ghost var d := D();
        OwnWf(d);
        var op := ops[done];
        if op.f < |files| {
          match op
          case Map(f, filebno, alloc) =>
            if !MapReady(D(), op) {
              return;
            }
            var code, b := FileMapBlock(f, filebno, alloc);
            DidMap(d, D(), op, code, b);
          case Resize(f, size) =>
            var panicked := FileSetSize(f, size);
            if panicked {
              return;
            }
            DidResize(d, D(), op);
          case Write(f, filebno, content) =>
            if |content| == NINDIRECT {
              WriteData(f, filebno, content);
            }
            DidWrite(d, D(), op);
        } else {
          DidNothing(d, op);
        }
        trace := trace + [D()];
        done := done + 1;
      }
    }
  }

  datatype Op =
    | Map(f: nat, filebno: nat, alloc: bool)
    | Resize(f: nat, size: nat)
    | Write(f: nat, filebno: nat, content: seq<nat>)

  predicate MapReady(d: Disk, op: Op)
    requires Wf(d) && op.Map? && op.f < |d.files|
  {
    NeedsIndex(d, op.f, op.filebno, op.alloc) ==> IndexReady(d)
  }

  /** One operation of a run, d before and t after. */
  ghost predicate Did(d: Disk, t: Disk, op: Op) {
    && Wf(d) && Wf(t)
    && if op.f >= |d.files| then t == d
       else match op
         case Map(f, filebno, alloc) => exists code, b :: Mapped(d, t, f, filebno, alloc, code, b)
         case Resize(f, size) =>
           if size < d.files[f].size
           then Cut(d, t, f, size, d.files[f].size) && |t.files| == |d.files| && t.files[f].size == size
                && Truncated(d, t, f, Blocks(size), Blocks(d.files[f].size))
           else t == d.(files := d.files[f := d.files[f].(size := size)])
         case Write(f, filebno, content) =>
           t == if |content| == NINDIRECT && filebno < NINDIRECT && 0 < Val(d, SlotOf(f, filebno)) < |d.words|
                then d.(words := d.words[Val(d, SlotOf(f, filebno)) := content]) else d
  }

  /** The operation that ends a run: a truncation that panics, or an index block that is not ready. */
  ghost predicate Stopped(d: Disk, op: Op) {
    && Wf(d) && op.f < |d.files|
    && match op
       case Map(_, _, _) => !MapReady(d, op)
       case Resize(f, size) =>
         size < d.files[f].size && CannotClear(d, f, Blocks(size), Blocks(d.files[f].size))
       case Write(_, _, _) => false
  }

  lemma DidMap(d: Disk, t: Disk, op: Op, code: Code, b: nat)
    requires Own(d) && Own(t) && op.Map? && op.f < |d.files| && Mapped(d, t, op.f, op.filebno, op.alloc, code, b)
    ensures Did(d, t, op)
  {
  }

  lemma DidResize(d: Disk, t: Disk, op: Op)
    requires Own(d) && Own(t) && op.Resize? && op.f < |d.files| == |t.files|
    requires op.size < d.files[op.f].size ==>
               Cut(d, t, op.f, op.size, d.files[op.f].size) && t.files[op.f].size == op.size
               && Truncated(d, t, op.f, Blocks(op.size), Blocks(d.files[op.f].size))
    requires op.size >= d.files[op.f].size ==> t == d.(files := d.files[op.f := d.files[op.f].(size := op.size)])
    ensures Did(d, t, op)
  {
  }

  lemma DidWrite(d: Disk, t: Disk, op: Op)
    requires Own(d) && Own(t) && op.Write? && op.f < |d.files| && t == d.(words := t.words)
    requires |op.content| == NINDIRECT ==> forall x :: Val(t, x) == Val(d, x)
    requires t.words == if |op.content| == NINDIRECT && op.filebno < NINDIRECT
                           && 0 < Val(t, SlotOf(op.f, op.filebno)) < |d.words|
                        then d.words[Val(t, SlotOf(op.f, op.filebno)) := op.content] else d.words
    ensures Did(d, t, op)
  {
  }

  lemma DidNothing(d: Disk, op: Op)
    requires Wf(d) && op.f >= |d.files|
    ensures Did(d, d, op)
  {
  }

  lemma OwnWf(d: Disk)
    requires Own(d)
    ensures Wf(d)
  {
  }

  lemma SizeKeeps(d: Disk, f: nat, size: nat)
    requires Own(d) && f < |d.files|
    ensures var t := d.(files := d.files[f := d.files[f].(size := size)]); Own(t) && forall x :: Val(t, x) == Val(d, x)
  {
    var t := d.(files := d.files[f := d.files[f].(size := size)]);
    forall x ensures Val(t, x) == Val(d, x) { }
  }

  /** The contents of a data block are nobody's slots. */
  lemma DataKeeps(d: Disk, a: Slot, content: seq<nat>)
    requires Own(d) && !a.Index? && Val(d, a) != 0 && |content| == NINDIRECT
    ensures var t := d.(words := d.words[Val(d, a) := content]); Own(t) && forall x :: Val(t, x) == Val(d, x)
  {
    var t := d.(words := d.words[Val(d, a) := content]);
    forall x ensures Val(t, x) == Val(d, x) {
      if x.Indirect? && IsSlot(d, x) { assert Val(d, Index(x.f)) == d.files[x.f].indirect; }
    }
  }

  /** t is d after slots lo .. hi of file f were emptied: those slots hold 0, every other slot is as it was,
    * and exactly their blocks have become free. */
  ghost predicate Cleared(d: Disk, t: Disk, f: nat, lo: nat, hi: nat)
    requires Wf(d)
  {
    && Wf(t) && t.nblocks == d.nblocks
    && (forall x :: Val(t, x) == if InSlots(x, f, lo, hi) then 0 else Val(d, x))
    && (forall c :: IsFree(t, c) <==> IsFree(d, c) || c in BlocksIn(d, f, lo, hi))
  }

  /** Truncation from hi to lo blocks: slots lo .. hi are emptied, with at most NDIRECT blocks left the index block
    * goes too, and the free blocks grow by exactly what those slots held. */
  ghost predicate Truncated(d: Disk, t: Disk, f: nat, lo: nat, hi: nat)
    requires Wf(d)
  {
    && Wf(t) && t.nblocks == d.nblocks
    && (forall x ::
        Val(t, x) == if InSlots(x, f, lo, hi) || (lo <= NDIRECT && (x == Index(f) || (x.Indirect? && x.f == f)))
                                 then 0 else Val(d, x))
    && (forall c :: IsFree(t, c) <==> IsFree(d, c) || c in BlocksIn(d, f, lo, hi)
                                      || (lo <= NDIRECT && c != 0 && c == Val(d, Index(f))))
  }

  /** Truncation in terms of bytes, of which block i of a file holds those from 4096 * i on. Every block with a byte
    * below the new size stays; every block between the new and the old size is gone and free; the index block stays
    * exactly if more than ten blocks do. An old size whose rounding wraps around 32 bits is an exception: no direct
    * block goes. */
  ghost predicate Cut(d: Disk, t: Disk, f: nat, newsize: nat, oldsize: nat)
    requires Wf(d)
  {
    newsize <= WORD - BLOCK_SIZE && oldsize < WORD ==>
      && Wf(t) && t.nblocks == d.nblocks
      && (forall i: nat :: BLOCK_SIZE * i < newsize ==> Val(t, SlotOf(f, i)) == Val(d, SlotOf(f, i)))
      && (oldsize <= WORD - BLOCK_SIZE ==> forall i: nat :: newsize <= BLOCK_SIZE * i < oldsize ==>
            Val(t, SlotOf(f, i)) == 0 && (Val(d, SlotOf(f, i)) != 0 ==> IsFree(t, Val(d, SlotOf(f, i)))))
      && (oldsize > WORD - BLOCK_SIZE ==> forall i: nat :: i < 10 ==> Val(t, SlotOf(f, i)) == Val(d, SlotOf(f, i)))
      && (newsize > 40960 ==> Val(t, Index(f)) == Val(d, Index(f)))
      && (newsize <= 40960 ==> Val(t, Index(f)) == 0 && (Val(d, Index(f)) != 0 ==> IsFree(t, Val(d, Index(f)))))
  }

  /** A size counts the blocks that have a byte below it. */
  lemma BlocksExact(size: nat, i: nat)
    requires size < WORD
    ensures size <= WORD - BLOCK_SIZE ==> (i < Blocks(size) <==> BLOCK_SIZE * i < size)
    ensures size > WORD - BLOCK_SIZE ==> Blocks(size) == 0
  {
  }

  lemma TruncationCuts(d: Disk, t: Disk, f: nat, newsize: nat, oldsize: nat)
    requires Own(d) && f < |d.files| && Truncated(d, t, f, Blocks(newsize), Blocks(oldsize))
    ensures Cut(d, t, f, newsize, oldsize)
  {
    hide Own, Blocks, IsFree;
    OwnWf(d);
    if newsize <= WORD - BLOCK_SIZE && oldsize < WORD {
      var lo, hi := Blocks(newsize), Blocks(oldsize);
      BlocksExact(newsize, 10);
      BlocksExact(oldsize, 0);
      forall i: nat | BLOCK_SIZE * i < newsize ensures Val(t, SlotOf(f, i)) == Val(d, SlotOf(f, i)) {
        BlocksExact(newsize, i);
      }
      forall i: nat | oldsize <= WORD - BLOCK_SIZE && newsize <= BLOCK_SIZE * i < oldsize
        ensures Val(t, SlotOf(f, i)) == 0 && (Val(d, SlotOf(f, i)) != 0 ==> IsFree(t, Val(d, SlotOf(f, i))))
      {
        BlocksExact(newsize, i);
        BlocksExact(oldsize, i);
        assert InSlots(SlotOf(f, i), f, lo, hi);
        if Val(d, SlotOf(f, i)) != 0 { assert Val(d, SlotOf(f, i)) in BlocksIn(d, f, lo, hi); }
      }
    }
  }

  /** Byte o of a file, below the new size, is in the block it was in. */
  lemma ByteStays(d: Disk, t: Disk, f: nat, newsize: nat, oldsize: nat, o: nat)
    requires Wf(d) && Cut(d, t, f, newsize, oldsize) && o < newsize <= WORD - BLOCK_SIZE && oldsize < WORD
    ensures Wf(t) && Val(t, SlotOf(f, o / BLOCK_SIZE)) == Val(d, SlotOf(f, o / BLOCK_SIZE))
  {
    assert BLOCK_SIZE * (o / BLOCK_SIZE) <= o;
  }

  /** When truncation panics, in terms of bytes: some block goes, the old size reaches past the direct blocks, and it
    * reaches past the largest file too, or the index block is missing or cannot be read. */
  lemma PanicBytes(d: Disk, f: nat, newsize: nat, oldsize: nat)
    requires f < |d.files| && newsize <= WORD - BLOCK_SIZE && oldsize <= WORD - BLOCK_SIZE
    ensures CannotClear(d, f, Blocks(newsize), Blocks(oldsize)) <==>
              && 40960 < oldsize && (exists i: nat :: newsize <= BLOCK_SIZE * i < oldsize)
              && (oldsize > 0x40_0000 || d.files[f].indirect == 0
                  || (d.files[f].indirect !in d.cached && d.pages == 0))
  {
    hide Blocks;
    BlocksExact(oldsize, NDIRECT);
    BlocksExact(oldsize, NINDIRECT);
    BlocksExact(newsize, Blocks(newsize));
    BlocksExact(oldsize, Blocks(newsize));
    forall i: nat | newsize <= BLOCK_SIZE * i < oldsize ensures Blocks(newsize) < Blocks(oldsize) {
      BlocksExact(newsize, i);
      BlocksExact(oldsize, i);
    }
    assert Blocks(newsize) < Blocks(oldsize) ==> newsize <= BLOCK_SIZE * Blocks(newsize) < oldsize;
  }

  lemma SlotValue(d: Disk, f: nat, filebno: nat, v: nat)
    requires Own(d) && f < |d.files| && filebno < NINDIRECT && IsSlot(d, SlotOf(f, filebno))
    requires v == if filebno < NDIRECT then d.files[f].direct[filebno] else d.words[d.files[f].indirect][filebno]
    ensures Val(d, SlotOf(f, filebno)) == v
  {
  }

  /** Emptying one slot. */
  lemma EmptySlot(d: Disk, f: nat, i: nat)
    requires Own(d) && IsSlot(d, SlotOf(f, i))
    ensures var v := Val(d, SlotOf(f, i));
            var e := FreeBlock(d, v);
            && (v != 0 ==>
                Wf(e) && IsSlot(e, SlotOf(f, i)) && Own(Put(e, SlotOf(f, i), 0))
                    && Cleared(d, Put(e, SlotOf(f, i), 0), f, i, i + 1))
            && (v == 0 ==> Cleared(d, d, f, i, i + 1))
  {
    var a := SlotOf(f, i);
    var v := Val(d, a);
    BlocksInStep(d, f, i, i);
    assert BlocksIn(d, f, i, i) == {};
    forall x ensures Val(d, x) == Val(d, x) && (InSlots(x, f, i, i + 1) <==> x == a) { }
    if v != 0 {
      OwnClear(d, a);
      var e := FreeBlock(d, v);
      var t := Put(e, a, 0);
      forall x ensures Val(t, x) == if x == a then 0 else Val(d, x) {
        PutFrame(d, a, 0, x);
        assert t == Put(d, a, 0).(bitmap := e.bitmap);
        assert Val(t, x) == Val(Put(d, a, 0), x);
      }
      forall c ensures IsFree(t, c) <==> IsFree(d, c) || c == v { FreeBlockEffect(d, v, c); }
    }
  }

  lemma ReadThenClear(d: Disk, e: Disk, t: Disk, f: nat, i: nat)
    requires Own(d) && Own(e) && e.nblocks == d.nblocks && Cleared(e, t, f, i, i + 1)
    requires forall x :: Val(e, x) == Val(d, x)
    requires forall c :: IsFree(e, c) <==> IsFree(d, c)
    ensures Cleared(d, t, f, i, i + 1)
  {
    assert BlocksIn(e, f, i, i + 1) == BlocksIn(d, f, i, i + 1);
  }

  lemma ClearedNone(d: Disk, f: nat, lo: nat)
    requires Own(d)
    ensures Cleared(d, d, f, lo, lo)
  {
    assert BlocksIn(d, f, lo, lo) == {};
  }

  lemma ClearedStep(d: Disk, e: Disk, t: Disk, f: nat, lo: nat, i: nat)
    requires Wf(d) && lo <= i && Cleared(d, e, f, lo, i) && Cleared(e, t, f, i, i + 1)
    ensures Cleared(d, t, f, lo, i + 1)
  {
    BlocksInStep(d, f, lo, i);
    BlocksInStep(e, f, i, i);
    assert BlocksIn(e, f, i, i) == {};
    assert !InSlots(SlotOf(f, i), f, lo, i);
  }

  /** Nothing more to do when the index block stays or is absent. */
  lemma TruncatedAt(d: Disk, t: Disk, f: nat, lo: nat, hi: nat, at: nat)
    requires Own(d) && Own(t) && Cleared(d, t, f, lo, at) && f < |t.files| && f < |d.files|
    requires at == if lo < hi then hi else lo
    requires t.files[f].indirect == d.files[f].indirect
    ensures Cleared(d, t, f, lo, hi)
    ensures !(lo <= NDIRECT && t.files[f].indirect != 0) ==> Truncated(d, t, f, lo, hi)
  {
    if hi <= lo {
      assert BlocksIn(d, f, lo, at) == {} && BlocksIn(d, f, lo, hi) == {};
    }
    assert Val(t, Index(f)) == t.files[f].indirect;
  }

  lemma DropTruncated(d: Disk, e: Disk, t: Disk, f: nat, lo: nat, hi: nat)
    requires Own(d) && Own(e) && Cleared(d, e, f, lo, hi) && f < |e.files| && f < |d.files| && lo <= NDIRECT
    requires e.files[f].indirect == d.files[f].indirect != 0
    requires t == FreeBlock(e, e.files[f].indirect).(files := e.files[f := e.files[f].(indirect := 0)])
    ensures Own(t) && Truncated(d, t, f, lo, hi)
  {
    OwnDropIndex(e, f);
    assert Val(d, Index(f)) == d.files[f].indirect && Val(e, Index(f)) == e.files[f].indirect;
    forall c ensures IsFree(t, c) <==> IsFree(e, c) || (c == e.files[f].indirect && c != 0) {
      FreeBlockEffect(e, e.files[f].indirect, c);
    }
  }

  lemma ResizeKeeps(d: Disk, e: Disk, f: nat, size: nat, lo: nat, hi: nat)
    requires Own(d) && Own(e) && f < |e.files| && Truncated(d, e, f, lo, hi)
    ensures var t := e.(files := e.files[f := e.files[f].(size := size)]); Own(t) && Truncated(d, t, f, lo, hi)
  {
    var t := e.(files := e.files[f := e.files[f].(size := size)]);
    forall x ensures Val(t, x) == Val(e, x) { }
  }

  /** t is d after file f gained an index block, or d unchanged as far as slots and the bitmap go. */
  ghost predicate GainedIndex(d: Disk, t: Disk, f: nat)
    requires Wf(d)
  {
    && Own(t) && |t.files| == |d.files| && t.nblocks == d.nblocks
    && (forall g :: 0 <= g < |t.files| ==> t.files[g].size == d.files[g].size)
    && (forall x :: x != Index(f) ==> Val(t, x) == Val(d, x))
    && (Val(t, Index(f)) == Val(d, Index(f)) || (Val(d, Index(f)) == 0 && IsFree(d, Val(t, Index(f)))))
    && (forall c :: IsFree(t, c) <==> IsFree(d, c) && (c == Val(d, Index(f)) || c != Val(t, Index(f))))
  }

  /** Without alloc the walk at most brings the index block into the cache. */
  ghost predicate WalkOnly(d: Disk, t: Disk, f: nat, filebno: nat, code: Code)
    requires f < |d.files|
  {
    && t == (if code == Ok && filebno >= NDIRECT then ReadBlock(d, d.files[f].indirect) else d)
    && (code == ENoMem <==> NDIRECT <= filebno < NINDIRECT && d.files[f].indirect != 0
                            && d.files[f].indirect !in d.cached && d.pages == 0)
    && code != ENoDisk
  }

  lemma OwnBounds(d: Disk, f: nat)
    requires Own(d) && f < |d.files|
    ensures Wf(d) && d.files[f].indirect < d.nblocks && |d.files[f].direct| == NDIRECT
  {
  }

  lemma GainedNothing(d: Disk, t: Disk, f: nat)
    requires Own(d) && Own(t) && |t.files| == |d.files| && t.nblocks == d.nblocks
    requires forall g :: 0 <= g < |t.files| ==> t.files[g].size == d.files[g].size
    requires forall x :: Val(t, x) == Val(d, x)
    requires forall c :: IsFree(t, c) <==> IsFree(d, c)
    ensures GainedIndex(d, t, f)
  {
  }

  lemma FillSlot(d: Disk, a: Slot, b: nat)
    requires Own(d) && IsSlot(d, a) && !a.Index? && Val(d, a) == 0
    requires 3 <= b < d.nblocks && IsFree(d, b) && (b in d.cached || d.pages > 0)
    ensures var e := UseBlock(MapBlock(d, b), b);
            && Wf(e) && IsSlot(e, a) && Own(Put(e, a, b))
            && (forall x :: Val(Put(e, a, b), x) == if x == a then b else Val(d, x))
            && (forall c :: IsFree(Put(e, a, b), c) <==> IsFree(d, c) && c != b)
  {
    MapBlockKeeps(d, b);
    var e := MapBlock(d, b);
    OwnPut(e, a, b);
    var u := UseBlock(e, b);
    forall x ensures Val(u, x) == Val(d, x) { }
    OwnUse(e, b);
    forall x ensures Val(Put(u, a, b), x) == if x == a then b else Val(d, x) { PutFrame(u, a, b, x); }
    forall c ensures IsFree(Put(u, a, b), c) <==> IsFree(d, c) && c != b { UseBlockEffect(e, b, c); }
  }

  /** The index block of f after file_map_block. */
  ghost function IndexAfter(d: Disk, f: nat, filebno: nat, alloc: bool): nat
    requires Wf(d) && f < |d.files|
  {
    if NeedsIndex(d, f, filebno, alloc) && WalkCode(d, f, filebno, alloc) == Ok && NextFree(d, 3).Some?
    then NextFree(d, 3).value else Val(d, Index(f))
  }

  /** What file_map_block does, d before and t after: its answer; the block, which is the one that was there or the
    * one that MapPick names; every slot of every file; and the free blocks, of which exactly the new index block and
    * the new block are gone. */
  ghost predicate Mapped(d: Disk, t: Disk, f: nat, filebno: nat, alloc: bool, code: Code, b: nat)
    requires Wf(d) && f < |d.files|
  {
    var a := SlotOf(f, filebno);
    && Own(t) && t.nblocks == d.nblocks && |t.files| == |d.files|
    && code == MapCode(d, f, filebno, alloc)
    && (code == Ok ==> b != 0 && if Val(d, a) != 0 then b == Val(d, a) else MapPick(d, f, filebno, alloc) == Some(b))
    && (forall x :: Val(t, x) == if x == a && code == Ok then b
                                 else if x == Index(f) then IndexAfter(d, f, filebno, alloc) else Val(d, x))
    && (forall c :: IsFree(t, c) <==> IsFree(d, c) && !(Val(d, Index(f)) == 0 && c != 0 && c == Val(t, Index(f)))
                                      && !(Val(d, a) == 0 && c != 0 && c == Val(t, a)))
  }

  lemma GainedOwn(d: Disk, t: Disk, f: nat)
    requires Wf(d) && GainedIndex(d, t, f)
    ensures Own(t) && Wf(t) && |t.files| == |d.files| && t.nblocks == d.nblocks
    ensures forall x :: x != Index(f) ==> Val(t, x) == Val(d, x)
  {
  }

  /** What the walk leaves: t is the disk after it. */
  ghost predicate Walked(d: Disk, t: Disk, f: nat, filebno: nat, alloc: bool)
    requires Wf(d) && f < |d.files|
  {
    && GainedIndex(d, t, f) && Wf(t) && |t.files| == |d.files|
    && (NeedsIndex(d, f, filebno, alloc) && WalkCode(d, f, filebno, alloc) == Ok ==>
        Some(t.files[f].indirect) == NextFree(d, 3))
    && (!NeedsIndex(d, f, filebno, alloc) || WalkCode(d, f, filebno, alloc) != Ok ==> t.files == d.files)
  }

  lemma WalkPick(d: Disk, t: Disk, f: nat, filebno: nat, alloc: bool)
    requires Own(d) && f < |d.files| && Walked(d, t, f, filebno, alloc) && WalkCode(d, f, filebno, alloc) == Ok && alloc
    ensures NextFree(t, 3) == MapPick(d, f, filebno, alloc)
  {
    assert Val(t, Index(f)) == t.files[f].indirect && Val(d, Index(f)) == d.files[f].indirect;
    if NeedsIndex(d, f, filebno, alloc) {
      NextFreeSkip(d, t, 3, t.files[f].indirect);
    } else {
      NextFreeSame(d, t, 3);
    }
  }

  /** The ways out on which no block is put into the slot. */
  lemma MapEnds(d: Disk, d1: Disk, t: Disk, f: nat, filebno: nat, alloc: bool, code: Code, b: nat)
    requires Own(d) && f < |d.files| && Walked(d, d1, f, filebno, alloc) && Own(t) && t.nblocks == d1.nblocks
    requires t.files == d1.files && (forall x :: Val(t, x) == Val(d1, x))
             && (forall c :: IsFree(t, c) <==> IsFree(d1, c))
    requires code == MapCode(d, f, filebno, alloc) && (code == Ok ==> b == Val(d1, SlotOf(f, filebno)) != 0)
    ensures Mapped(d, t, f, filebno, alloc, code, b)
  {
    hide MapCode, WalkCode, NextFree, Own, MapPick;
    OwnWf(d);
    OwnWf(t);
    assert Val(d1, Index(f)) == d1.files[f].indirect && Val(d, Index(f)) == d.files[f].indirect;
  }

  lemma MapFills(d: Disk, d1: Disk, t: Disk, f: nat, filebno: nat, alloc: bool, b: nat)
    requires Own(d) && f < |d.files| && Walked(d, d1, f, filebno, alloc) && Own(t) && t.nblocks == d1.nblocks
    requires |t.files| == |d1.files| && 3 <= b && IsFree(d1, b) && Val(d, SlotOf(f, filebno)) == 0
    requires forall x :: Val(t, x) == if x == SlotOf(f, filebno) then b else Val(d1, x)
    requires forall c :: IsFree(t, c) <==> IsFree(d1, c) && c != b
    requires MapCode(d, f, filebno, alloc) == Ok && MapPick(d, f, filebno, alloc) == Some(b)
    ensures Mapped(d, t, f, filebno, alloc, Ok, b)
  {
    hide MapCode, WalkCode, NextFree, Own, MapPick;
    OwnWf(d);
    OwnWf(t);
    assert Val(d1, Index(f)) == d1.files[f].indirect && Val(d, Index(f)) == d.files[f].indirect;
  }

  lemma OwnUse(d: Disk, b: nat)
    requires Own(d) && b < d.nblocks
    ensures Own(UseBlock(d, b))
  {
    var e := UseBlock(d, b);
    forall x ensures Val(e, x) == Val(d, x) { }
    forall x | Val(d, x) != 0 ensures !IsFree(e, Val(d, x)) { UseBlockEffect(d, b, Val(d, x)); }
  }

  lemma NewIndex(d: Disk, f: nat, b: nat)
    requires Own(d) && IndexReady(d) && FirstFree(d, b) && f < |d.files| && d.files[f].indirect == 0
    requires 3 <= b < d.nblocks && IsFree(d, b) && (b in d.cached || d.pages > 0)
    ensures var t := Put(UseBlock(MapBlock(d, b), b), Index(f), b);
            && Own(t)
            && (forall x :: Val(t, x) == if x == Index(f) then b else Val(d, x))
            && (forall c :: IsFree(t, c) <==> IsFree(d, c) && c != b)
            && GainedIndex(d, t, f)
  {
    MapBlockKeeps(d, b);
    var e := MapBlock(d, b);
    OwnNewIndex(e, f, b);
    var t := Put(UseBlock(e, b), Index(f), b);
    forall x ensures Val(t, x) == if x == Index(f) then b else Val(d, x) {
      if x.Indirect? && IsSlot(t, x) && x.f == f { assert t.words[b][x.i] == 0; }
    }
    forall c ensures IsFree(t, c) <==> IsFree(d, c) && c != b { UseBlockEffect(e, b, c); }
  }

  // ----- what truncation and reuse can lose -----

  /** A block that is marked used and that no slot holds. */
  ghost predicate Lost(d: Disk, b: nat)
    requires Wf(d)
  {
    !IsFree(d, b) && forall x :: Val(d, x) != b
  }

  /** Truncation conserves blocks: a block that some slot held is still held by that slot or is free, except exactly
    * the blocks of indirect slots past the old size when the index block goes. */
  lemma TruncationConserves(d: Disk, t: Disk, f: nat, lo: nat, hi: nat, x: Slot)
    requires Own(d) && Truncated(d, t, f, lo, hi) && Val(d, x) != 0
    ensures Lost(t, Val(d, x)) <==> lo <= NDIRECT && x.Indirect? && x.f == f && !InSlots(x, f, lo, hi)
  {
    var v := Val(d, x);
    if InSlots(x, f, lo, hi) {
      assert x == SlotOf(f, x.i);
      assert v in BlocksIn(d, f, lo, hi);
    }
    forall i | lo <= i < hi && Val(d, SlotOf(f, i)) == v ensures SlotOf(f, i) == x { }
    if !(lo <= NDIRECT && (x == Index(f) || (x.Indirect? && x.f == f))) && !InSlots(x, f, lo, hi) {
      assert Val(t, x) == v;
    }
  }

  /** When nothing is allocated past the old size, truncation empties every slot from the new size on. */
  lemma TruncationEmpties(d: Disk, t: Disk, f: nat, lo: nat, hi: nat, i: nat)
    requires Own(d) && Truncated(d, t, f, lo, hi) && f < |d.files|
    requires lo <= i < NINDIRECT && (i >= hi ==> Val(d, SlotOf(f, i)) == 0)
    ensures Val(t, SlotOf(f, i)) == 0
    ensures forall j :: 0 <= j < lo ==> Val(t, SlotOf(f, j)) == Val(d, SlotOf(f, j))
  {
    assert i < hi ==> InSlots(SlotOf(f, i), f, lo, hi);
    forall j | 0 <= j < lo ensures !InSlots(SlotOf(f, j), f, lo, hi) { }
  }

  /** Why a new index block must read as zero: any word of it that names a block in use makes two slots share it. */
  lemma DirtyIndexShares(d: Disk, f: nat, b: nat, i: nat, a: Slot)
    requires Own(d) && f < |d.files| && d.files[f].indirect == 0 && 3 <= b < d.nblocks && IsFree(d, b)
    requires NDIRECT <= i < NINDIRECT && d.words[b][i] == Val(d, a) != 0
    ensures var t := Put(UseBlock(d, b), Index(f), b);
            !Own(t) && a != Indirect(f, i) && Val(t, a) == Val(t, Indirect(f, i)) == Val(d, a)
  {
    var t := Put(UseBlock(d, b), Index(f), b);
    assert Wf(t);
    assert Val(t, Indirect(f, i)) == d.words[b][i];
    assert a != Indirect(f, i) && a != Index(f);
    if a.Indirect? { assert a.f != f; }
    assert Val(t, a) == Val(d, a);
  }

  /** Every word of block b that would become an indirect slot is zero, or names a used block that no slot holds,
    * each a different one. */
  ghost predicate FitsAsIndex(d: Disk, b: nat)
    requires Wf(d) && b < d.nblocks
  {
    var w := d.words[b];
    && (forall i :: NDIRECT <= i < NINDIRECT && w[i] != 0 ==> 3 <= w[i] < d.nblocks && w[i] != b && Lost(d, w[i]))
    && (forall i, j :: NDIRECT <= i < j < NINDIRECT && w[i] != 0 ==> w[i] != w[j])
  }

  /** A free block, zeroed or not, becomes an index block without harm exactly when its words fit. */
  lemma NewIndexExact(d: Disk, f: nat, b: nat)
    requires Own(d) && f < |d.files| && d.files[f].indirect == 0 && 3 <= b < d.nblocks && IsFree(d, b)
    ensures Own(Put(UseBlock(d, b), Index(f), b)) <==> FitsAsIndex(d, b)
  {
    var t := Put(UseBlock(d, b), Index(f), b);
    assert Wf(t);
    forall x ensures Val(t, x) == if x == Index(f) then b
                                  else if x.Indirect? && x.f == f
                                  then (if NDIRECT <= x.i < NINDIRECT then d.words[b][x.i] else 0)
                                  else Val(d, x) { }
    forall c: nat ensures IsFree(t, c) <==> IsFree(d, c) && c != b { UseBlockEffect(d, b, c); }
    if Own(t) { FitsIfOwned(d, f, b, t); }
    if FitsAsIndex(d, b) { OwnedIfFits(d, f, b, t); }
  }

  /** t is d with b as the index block of f. */
  ghost predicate IndexAdded(d: Disk, f: nat, b: nat, t: Disk)
    requires Wf(d) && b < d.nblocks
  {
    && Wf(t) && t.nblocks == d.nblocks && (forall c: nat :: IsFree(t, c) <==> IsFree(d, c) && c != b)
    && (forall x :: Val(t, x) == if x == Index(f) then b
                                 else if x.Indirect? && x.f == f
                                 then (if NDIRECT <= x.i < NINDIRECT then d.words[b][x.i] else 0)
                                 else Val(d, x))
  }

  lemma FitsIfOwned(d: Disk, f: nat, b: nat, t: Disk)
    requires Own(d) && f < |d.files| && d.files[f].indirect == 0 && 3 <= b < d.nblocks && IsFree(d, b)
    requires IndexAdded(d, f, b, t) && Own(t)
    ensures FitsAsIndex(d, b)
  {
    hide Own;
    OwnFacts(d);
    OwnFacts(t);
    forall i | NDIRECT <= i < NINDIRECT && d.words[b][i] != 0
      ensures 3 <= d.words[b][i] < d.nblocks && d.words[b][i] != b && Lost(d, d.words[b][i])
    {
      var w := d.words[b][i];
      assert Val(t, Indirect(f, i)) == w && Val(t, Index(f)) == b;
      forall x ensures Val(d, x) != w {
        if Val(d, x) == w { NoIndexNoIndirect(d, f, x); }
      }
    }
    forall i, j | NDIRECT <= i < j < NINDIRECT && d.words[b][i] != 0 ensures d.words[b][i] != d.words[b][j] {
      assert Val(t, Indirect(f, i)) == d.words[b][i] && Val(t, Indirect(f, j)) == d.words[b][j];
    }
  }

  lemma NoIndexNoIndirect(d: Disk, f: nat, x: Slot)
    requires Wf(d) && f < |d.files| && d.files[f].indirect == 0 && Val(d, x) != 0
    ensures x != Index(f) && !(x.Indirect? && x.f == f)
  {
  }

  lemma OwnFacts(d: Disk)
    requires Own(d)
    ensures Wf(d) && (forall a :: Val(d, a) != 0 ==> 3 <= Val(d, a) < d.nblocks && !IsFree(d, Val(d, a)))
    ensures forall a, b :: a != b && Val(d, a) != 0 ==> Val(d, a) != Val(d, b)
  {
  }

  lemma OwnedIfFits(d: Disk, f: nat, b: nat, t: Disk)
    requires Own(d) && f < |d.files| && d.files[f].indirect == 0 && 3 <= b < d.nblocks && IsFree(d, b)
    requires IndexAdded(d, f, b, t) && FitsAsIndex(d, b)
    ensures Own(t)
  {
    hide Val, IsFree;
  }

  // ----- disks on which these things happen -----

  function NoBlocks(): (s: seq<nat>)
    ensures |s| == NDIRECT && forall i :: 0 <= i < NDIRECT ==> s[i] == 0
  {
    seq(NDIRECT, _ => 0)
  }

  function BlankWords(n: nat): (s: seq<seq<nat>>)
    ensures |s| == n && forall b :: 0 <= b < n ==> s[b] == ZeroBlock()
  {
    seq(n, _ => ZeroBlock())
  }

  /** An empty file whose size was set to eleven blocks. */
  function Stretched(): Disk { Disk(8, [0xf8], [File(11 * BLOCK_SIZE, NoBlocks(), 0)], BlankWords(8), {}, 4) }

  /** Truncating it panics: there is no index block to clear slot 10 of. */
  lemma StretchedPanics()
    ensures Own(Stretched()) && CannotClear(Stretched(), 0, Blocks(0), Blocks(Stretched().files[0].size))
  {
    forall a ensures Val(Stretched(), a) == 0 { }
  }

  /** A file with one block, whose size was set to the largest number that fits its field. */
  function Huge(): Disk { Disk(8, [0xe8], [File(WORD - 1, NoBlocks()[0 := 4], 0)], BlankWords(8), {}, 4) }

  /** Truncating it to nothing frees nothing: the rounded size is zero. */
  lemma HugeKeepsBlock(t: Disk)
    requires Own(Huge()) && Cut(Huge(), t, 0, 0, WORD - 1)
    ensures !CannotClear(Huge(), 0, Blocks(0), Blocks(WORD - 1)) && Wf(t) && Val(t, Direct(0, 0)) == 4
  {
    assert SlotOf(0, 0) == Direct(0, 0);
  }

  lemma HugeOwned()
    ensures Own(Huge())
  {
    var d := Huge();
    forall a ensures Val(d, a) == if a == Direct(0, 0) then 4 else 0 { }
    UsedBits();
  }

  /** A file of size 0 that has block 5 as its block 10, behind index block 4. */
  function Overhang(): Disk {
    Disk(8, [0xc8], [File(0, NoBlocks(), 4)], BlankWords(8)[4 := ZeroBlock()[10 := 5]], {4}, 4)
  }

  lemma OverhangOwned()
    ensures Own(Overhang()) && Val(Overhang(), Indirect(0, 10)) == 5
  {
    var d := Overhang();
    forall a ensures Val(d, a) == if a == Index(0) then 4 else if a == Indirect(0, 10) then 5 else 0 { }
    UsedBits();
  }

  lemma UsedBits()
    ensures !Bit([0xc8], 4) && !Bit([0xc8], 5) && Bit([0xe8], 3) && !Bit([0xe8], 4)
  {
    assert BitOf(0xc8, 4) == BitOf(0x64, 3) == BitOf(0x32, 2) == BitOf(0x19, 1) == BitOf(0xc, 0);
    assert BitOf(0xc8, 5) == BitOf(0x64, 4) == BitOf(0x32, 3) == BitOf(0x19, 2) == BitOf(0xc, 1) == BitOf(0x6, 0);
    assert BitOf(0xe8, 3) == BitOf(0x74, 2) == BitOf(0x3a, 1) == BitOf(0x1d, 0);
    assert BitOf(0xe8, 4) == BitOf(0x74, 3) == BitOf(0x3a, 2) == BitOf(0x1d, 1) == BitOf(0xe, 0);
  }

  /** Truncating it loses block 5: nobody holds it and it is not free. */
  lemma OverhangLoses(t: Disk)
    requires Own(Overhang()) && Truncated(Overhang(), t, 0, Blocks(0), Blocks(Overhang().files[0].size))
    ensures Lost(t, 5)
  {
    OverhangOwned();
    TruncationConserves(Overhang(), t, 0, 0, 0, Indirect(0, 10));
  }

  /** File 0 holds block 4; the first free block, 3, is still cached, and its old contents name block 4. */
  function Stale(): Disk {
    Disk(8, [0xe8], [File(BLOCK_SIZE, NoBlocks()[0 := 4], 0), File(0, NoBlocks(), 0)],
         BlankWords(8)[3 := ZeroBlock()[10 := 4]], {3}, 4)
  }

  /** Giving file 1 an index block now makes it share block 4 with file 0. */
  lemma StaleShares()
    ensures Own(Stale()) && FirstFree(Stale(), 3) && !IndexReady(Stale())
    ensures !Own(Put(UseBlock(Stale(), 3), Index(1), 3))
  {
    var d := Stale();
    forall a ensures Val(d, a) == if a == Direct(0, 0) then 4 else 0 { }
    UsedBits();
    DirtyIndexShares(d, 1, 3, 10, Direct(0, 0));
  }
}
