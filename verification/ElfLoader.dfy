/** elf_load_seg of lib/elfloader.c with the page mapper of kern/env.c, and the segment loop of load_icode. */
module ElfLoader {
  import opened Common
  import opened BitWords

  const PAGE: nat := PAGE_SIZE

  /** A mapped page: its contents and its permission bits. */
  datatype Frame = Frame(bytes: Bytes, perm: nat)

  /** Page number to page. */
  type Memory = map<nat, Frame>

  /** A loadable segment; file holds the bytes of the binary from p_offset on. */
  datatype Segment = Segment(va: nat, file: Bytes, filesz: nat, memsz: nat, writable: bool)

  /** PTE_V, with PTE_D for a writable segment. */
  function Perm(s: Segment): nat { if s.writable then 0x180 else 0x80 }

  /** Permissions of a page that is valid, and writable if asked for: bit 7 is set, bit 8 if writable, and no other. */
  ghost predicate Permits(perm: nat, writable: bool) {
    forall k: nat :: BitOf(perm, k) <==> k == 7 || (k == 8 && writable)
  }

  lemma PermBits(s: Segment)
    ensures Permits(Perm(s), s.writable)
  {
    hide BitOf, OrBit;
    PermWords();
    forall k: nat ensures BitOf(Perm(s), k) <==> k == 7 || (k == 8 && s.writable) {
      ZeroHasNoBits(k);
      OrBitEffect(0, 7, k);
      OrBitEffect(0x80, 8, k);
    }
  }

  lemma PermWords()
    ensures OrBit(0, 7) == 0x80 && OrBit(0x80, 8) == 0x180
  {
    assert OrBit(0, 3) == 8;
    assert OrBit(0, 7) == 16 * OrBit(0, 3);
    assert OrBit(8, 4) == 24;
    assert OrBit(0x80, 8) == 16 * OrBit(8, 4);
  }

  /** The file part lies inside the binary, and no address of the segment wraps around 32 bits. */
  predicate Unwrapped(s: Segment) {
    s.filesz <= |s.file| && s.va + Size(s) + PAGE <= 0x1_0000_0000
  }

  function Min(a: nat, b: nat): nat { if a < b then a else b }

  function Size(s: Segment): nat { if s.filesz < s.memsz then s.memsz else s.filesz }

  function Offset(s: Segment): nat { s.va % PAGE }

  function First(s: Segment): nat { s.va / PAGE }

  /** How many pages the segment takes. */
  function PageCount(s: Segment): nat {
    if Size(s) == 0 && Offset(s) == 0 then 0 else if Size(s) == 0 then 1 else (Offset(s) + Size(s) - 1) / PAGE + 1
  }

  /** The condition under which the loader works: the segment starts on a page, or the file part reaches the end of the
    * first page, or nothing follows the file part. */
  predicate Good(s: Segment) {
    Offset(s) == 0 || s.filesz >= PAGE - Offset(s) || s.memsz <= s.filesz
  }

  /** The program's view of an address. */
  datatype Cell = Unmapped | Holds(b: Byte)

  function At(m: Memory, a: nat): Cell {
    if a / PAGE in m && a % PAGE < |m[a / PAGE].bytes| then Holds(m[a / PAGE].bytes[a % PAGE]) else Unmapped
  }

  /** The segment image of the System V gABI: file bytes, then zeros. */
  function ImageByte(s: Segment, a: nat): Byte
    requires s.va <= a && s.filesz <= |s.file|
  {
    if a < s.va + s.filesz then s.file[a - s.va] else 0
  }

  ghost predicate Loaded(m: Memory, s: Segment)
    requires s.filesz <= |s.file|
  {
    forall a :: s.va <= a < s.va + Size(s) ==> At(m, a) == Holds(ImageByte(s, a))
  }

  // ----- pages -----

  function Zeros(n: nat): (z: Bytes)
    ensures |z| == n && forall i :: 0 <= i < n ==> z[i] == 0
  {
    seq(n, _ => 0)
  }

  /** A zero page into which src was copied at offset. */
  function PageWith(offset: nat, src: Bytes): (p: Bytes)
    requires offset + |src| <= PAGE
    ensures |p| == PAGE
  {
    Zeros(offset) + src + Zeros(PAGE - offset - |src|)
  }

  /** What page p of the segment must hold. */
  ghost function Want(s: Segment, p: nat): (r: Bytes)
    requires s.filesz <= |s.file|
    ensures |r| == PAGE
  {
    seq(PAGE, x requires 0 <= x < PAGE =>
      if s.va <= p * PAGE + x < s.va + s.filesz then s.file[p * PAGE + x - s.va] else 0)
  }

  /** m with the first k pages of the segment in place. */
  ghost predicate Filled(m0: Memory, m: Memory, s: Segment, k: nat)
    requires s.filesz <= |s.file|
  {
    forall p: nat :: if First(s) <= p < First(s) + k then p in m && m[p] == Frame(Want(s, p), Perm(s))
                     else (p in m <==> p in m0) && (p in m0 ==> m[p] == m0[p])
  }

  /** The pages f, f + 1, … in order. */
  function Upto(f: nat, k: nat): (r: seq<nat>)
    ensures |r| == k
  {
    seq(k, i requires 0 <= i < k => f + i)
  }

  lemma UptoNext(f: nat, k: nat)
    ensures Upto(f, k + 1) == Upto(f, k) + [f + k]
  {
  }

  predicate Once(log: seq<nat>) {
    forall i, j :: 0 <= i < j < |log| ==> log[i] != log[j]
  }

  lemma FilledNext(m0: Memory, m: Memory, s: Segment, k: nat, p: nat, page: Bytes)
    requires s.filesz <= |s.file| && Filled(m0, m, s, k) && p == First(s) + k && page == Want(s, p)
    ensures Filled(m0, m[p := Frame(page, Perm(s))], s, k + 1)
  {
  }

  lemma FirstPage(s: Segment)
    requires s.filesz <= |s.file|
    ensures PageWith(Offset(s), s.file[..Min(s.filesz, PAGE - Offset(s))]) == Want(s, First(s))
  {
    var n := Min(s.filesz, PAGE - Offset(s));
    var p := PageWith(Offset(s), s.file[..n]);
    assert s.va == First(s) * PAGE + Offset(s);
    forall x | 0 <= x < PAGE ensures p[x] == Want(s, First(s))[x] { }
  }

  /** A later page, which starts i bytes into the segment. */
  lemma FilePage(s: Segment, i: nat, p: nat)
    requires i < s.filesz <= |s.file| && s.va + i == p * PAGE
    ensures PageWith(0, s.file[i..i + Min(s.filesz - i, PAGE)]) == Want(s, p)
  {
  }

  lemma ZeroPage(s: Segment, i: nat, p: nat)
    requires s.filesz <= |s.file| && s.filesz <= i && s.va + i == p * PAGE
    ensures PageWith(0, []) == Want(s, p)
  {
  }

  lemma FilledLoads(m0: Memory, m: Memory, s: Segment)
    requires s.filesz <= |s.file| && Filled(m0, m, s, PageCount(s))
    ensures Loaded(m, s)
  {
    forall a | s.va <= a < s.va + Size(s) ensures At(m, a) == Holds(ImageByte(s, a)) {
      var p, x := a / PAGE, a % PAGE;
      assert First(s) <= p < First(s) + PageCount(s);
      assert p * PAGE + x == a;
    }
  }

  /** How far a good segment is: k pages are in place and, unless all is done, page k starts at byte i. */
  ghost predicate Progress(s: Segment, m0: Memory, m: Memory, before: seq<nat>, log: seq<nat>, i: nat, k: nat)
    requires s.filesz <= |s.file|
  {
    && Filled(m0, m, s, k) && log == before + Upto(First(s), k)
    && (k > 0 ==> PAGE * (k - 1) < Offset(s) + Size(s))
    && (PAGE * k == Offset(s) + i || (k == 1 && i == Size(s) && Offset(s) + i < PAGE && Offset(s) > 0))
  }

  lemma ProgressNext(s: Segment, m0: Memory, m: Memory, before: seq<nat>, log: seq<nat>, i: nat, k: nat)
    requires s.filesz <= |s.file| && Progress(s, m0, m, before, log, i, k) && i < Size(s)
    ensures (s.va + i) / PAGE == First(s) + k
    ensures var page := PageWith(0, if i < s.filesz then s.file[i..i + Min(s.filesz - i, PAGE)] else []);
            Progress(s, m0, m[First(s) + k := Frame(page, Perm(s))], before, log + [First(s) + k], i + PAGE, k + 1)
  {
    hide Filled, PageWith, Upto;
    assert s.va + i == (First(s) + k) * PAGE;
    if i < s.filesz { FilePage(s, i, First(s) + k); } else { ZeroPage(s, i, First(s) + k); }
    FilledNext(m0, m, s, k, First(s) + k, Want(s, First(s) + k));
    UptoNext(First(s), k);
  }

  lemma ProgressDone(s: Segment, m0: Memory, m: Memory, before: seq<nat>, log: seq<nat>, i: nat, k: nat)
    requires s.filesz <= |s.file| && Progress(s, m0, m, before, log, i, k) && i >= Size(s)
    ensures k == PageCount(s)
  {
    hide Filled, Upto;
  }

  lemma ProgressStart(s: Segment, m0: Memory, before: seq<nat>)
    requires s.filesz <= |s.file|
    ensures Offset(s) == 0 ==> Progress(s, m0, m0, before, before, 0, 0)
    ensures Offset(s) > 0 && Good(s) ==>
              var n := Min(s.filesz, PAGE - Offset(s));
              Progress(s, m0, m0[First(s) := Frame(PageWith(Offset(s), s.file[..n]), Perm(s))], before,
                  before + [First(s)], n, 1)
  {
    FirstPage(s);
    assert before + Upto(First(s), 0) == before && Upto(First(s), 1) == [First(s)];
  }

  /** m0 with the first n pages of the segment replaced by zero pages. */
  ghost predicate Wiped(m0: Memory, m: Memory, s: Segment, n: nat) {
    forall p: nat :: if First(s) <= p < First(s) + n then p in m && m[p] == Frame(PageWith(0, []), Perm(s))
                     else (p in m <==> p in m0) && (p in m0 ==> m[p] == m0[p])
  }

  /** A segment that is not good: after its first page, n more calls map zero pages from the first page on again. */
  ghost predicate Astray(s: Segment, m0: Memory, m: Memory, before: seq<nat>, log: seq<nat>, i: nat, n: nat) {
    && i == s.filesz + PAGE * n && log == before + [First(s)] + Upto(First(s), n)
    && (n == 0 ==> forall p: nat :: p != First(s) ==> (p in m <==> p in m0) && (p in m0 ==> m[p] == m0[p]))
    && (n > 0 ==> Wiped(m0, m, s, n) && PAGE * (n - 1) < s.memsz - s.filesz)
  }

  lemma AstrayNext(s: Segment, m0: Memory, m: Memory, before: seq<nat>, log: seq<nat>, i: nat, n: nat)
    requires !Good(s) && Astray(s, m0, m, before, log, i, n) && i < s.memsz
    ensures (s.va + i) / PAGE == First(s) + n
    ensures Astray(s, m0, m[First(s) + n := Frame(PageWith(0, []), Perm(s))], before, log + [First(s) + n], i + PAGE,
            n + 1)
  {
    hide PageWith, Upto;
    UptoNext(First(s), n);
  }

  /** How many zero pages follow the first page of a segment that is not good. */
  function ZeroCount(s: Segment): nat
    requires s.memsz > s.filesz
  {
    (s.memsz - s.filesz - 1) / PAGE + 1
  }

  lemma AstrayEnds(s: Segment, m0: Memory, m: Memory, before: seq<nat>, log: seq<nat>, i: nat, n: nat)
    requires !Good(s) && s.filesz <= |s.file| && Astray(s, m0, m, before, log, i, n) && i >= s.memsz
    ensures n == ZeroCount(s) && Wiped(m0, m, s, n)
    ensures Clobbered(m, s) && !Once(log[|before|..])
  {
    assert n > 0;
    var l := log[|before|..];
    assert l[0] == l[1] == First(s);
    forall a | s.va <= a < s.va + s.filesz ensures At(m, a) == Holds(0) {
      assert a / PAGE == First(s);
    }
  }

  /** The memory past the zero pages, up to the end of the segment, reads as zero already: there is none, or another
    * segment has zeros there. */
  ghost predicate TailReady(m0: Memory, s: Segment)
    requires s.memsz > s.filesz
  {
    forall a :: (First(s) + ZeroCount(s)) * PAGE <= a < s.va + s.memsz ==> At(m0, a) == Holds(0)
  }

  /** A segment that is not good is loaded all the same exactly if it has no data to lose and its tail reads as zero. */
  lemma WipedLoads(m0: Memory, m: Memory, s: Segment)
    requires !Good(s) && s.filesz <= |s.file| && Wiped(m0, m, s, ZeroCount(s))
    ensures Loaded(m, s) <==> !HasData(s) && TailReady(m0, s)
  {
    var z := (First(s) + ZeroCount(s)) * PAGE;
    forall a | s.va <= a < s.va + Size(s)
      ensures At(m, a) == if a < z then Holds(0) else At(m0, a)
    {
      assert First(s) <= a / PAGE;
      assert a < z <==> a / PAGE < First(s) + ZeroCount(s);
    }
    if HasData(s) {
      var a :| s.va <= a < s.va + s.filesz && ImageByte(s, a) != 0;
      assert a < z;
      assert At(m, a) == Holds(0);
    } else {
      forall a | s.va <= a < s.va + Size(s) ensures ImageByte(s, a) == 0 { }
    }
    if Loaded(m, s) {
      forall a | z <= a < s.va + s.memsz ensures At(m0, a) == Holds(0) { assert At(m, a) == Holds(ImageByte(s, a)); }
    }
  }

  /** The file part reads as zero. */
  ghost predicate Clobbered(m: Memory, s: Segment) {
    forall a :: s.va <= a < s.va + s.filesz ==> At(m, a) == Holds(0)
  }

  lemma UptoOnce(before: seq<nat>, f: nat, k: nat)
    ensures Once((before + Upto(f, k))[|before|..])
  {
    assert (before + Upto(f, k))[|before|..] == Upto(f, k);
  }

  // ----- the code -----

  class Loader {
    /** What the n'th call of the mapper answers; nonzero is an error. */
    const answer: nat -> int
    var memory: Memory
    var log: seq<nat>

    constructor (answer: nat -> int)
      ensures memory == map[] && log == [] && this.answer == answer
    {
      this.answer := answer;
      memory, log := map[], [];
    }

    /** load_icode_mapper: a fresh zero page, the bytes copied into it, and the page put in place of what was there.
      * src is cut to its length already; empty when the source pointer is null. */
    method MapPage(va: nat, offset: nat, perm: nat, src: Bytes) returns (r: int)
      requires offset + |src| <= PAGE
      modifies this
      ensures r == answer(|old(log)|)
      ensures r != 0 ==> memory == old(memory) && log == old(log)
      ensures r == 0 ==>
                memory == old(memory)[va / PAGE := Frame(PageWith(offset, src), perm)] && log == old(log) + [va / PAGE]
    {
      r := answer(|log|);
      if r != 0 {
        return;
      }
      var page := new Byte[PAGE](_ => 0);
      forall i | 0 <= i < |src| {
        page[offset + i] := src[i];
      }
      assert page[..] == PageWith(offset, src);
      memory := memory[va / PAGE := Frame(page[..], perm)];
      log := log + [va / PAGE];
    }
  
    /** elf_load_seg. When the mapper never fails, a good segment is loaded page by page and nothing else changes;
      * each page is mapped once exactly for a good segment, and otherwise the file part is wiped out. */
    method LoadSegment(s: Segment) returns (r: int)
      requires Unwrapped(s)
      modifies this
      ensures old(log) <= log && AllZero(answer, |old(log)|, |log|)
      ensures r != 0 ==> r == answer(|log|)
      ensures r == 0 && Good(s) ==> Filled(old(memory), memory, s, PageCount(s))
      ensures r == 0 && !Good(s) ==> Wiped(old(memory), memory, s, ZeroCount(s))
      ensures r == 0 ==> (Loaded(memory, s) <==> Good(s) || (!HasData(s) && TailReady(old(memory), s)))
      ensures r == 0 && !Good(s) ==> Clobbered(memory, s)
      ensures r == 0 ==> (Once(log[|old(log)|..]) <==> Good(s))
      ensures r == 0 ==> forall p :: p in log[|old(log)|..] ==> p in memory && Permits(memory[p].perm, s.writable)
    {
      hide Permits, Going, Filled, PageWith, Once, Clobbered, PageCount, Good, Loaded, HasData, Size, Wiped, TailReady,
          ZeroCount, AllZero;
      var i := 0;
      ghost var k: nat, m0, before := 0, memory, log;
      SegmentFacts(s);
      var offset := s.va % PAGE;
      var perm := 0x80;
      if s.writable {
        perm := 0x180;
      }
      GoingStarts(s, m0, before);
      NoCalls(answer, |log|);
      if offset != 0 {
        r := MapPage(s.va, offset, perm, s.file[..Min(s.filesz, PAGE - offset)]);
        if r != 0 {
          return;
        }
        i, k := Min(s.filesz, PAGE - offset), if Good(s) then 1 else 0;
        OneMoreCall(answer, |before|, |log| - 1);
      }
      while i < s.filesz
        invariant old(log) <= log && AllZero(answer, |before|, |log|) && Going(s, m0, memory, before, log, i, k)
      {
        GoesOn(s, m0, memory, before, log, i, k);
        r := MapPage(s.va + i, 0, perm, s.file[i..i + Min(s.filesz - i, PAGE)]);
        if r != 0 {
          return;
        }
        OneMoreCall(answer, |before|, |log| - 1);
        i, k := i + PAGE, k + 1;
      }
      while i < s.memsz
        invariant i >= s.filesz
        invariant old(log) <= log && AllZero(answer, |before|, |log|) && Going(s, m0, memory, before, log, i, k)
      {
        GoesOn(s, m0, memory, before, log, i, k);
        r := MapPage(s.va + i, 0, perm, []);
        if r != 0 {
          return;
        }
        OneMoreCall(answer, |before|, |log| - 1);
        i, k := i + PAGE, k + 1;
      }
      r := 0;
      LoadEnds(s, m0, memory, before, log, i, k);
    }

    /** The segment loop of load_icode. Nonzero: the kernel panics. */
    method LoadProgram(segs: seq<Segment>) returns (r: int, ghost trace: seq<Memory>)
      requires forall i :: 0 <= i < |segs| ==> Unwrapped(segs[i])
      modifies this
      ensures r == 0 && Loadable(segs) ==> forall i :: 0 <= i < |segs| ==>
                segs[i].filesz <= |segs[i].file| && Loaded(memory, segs[i])
      ensures r != 0 ==> r == answer(|log|)
      ensures r == 0 ==> |trace| == |segs| + 1 && trace[0] == old(memory) && trace[|segs|] == memory
                         && forall i :: 0 <= i < |segs| ==> Stepped(trace[i], trace[i + 1], segs[i])
    {
      hide Loaded, Good, Apart, Filled, PageCount, Stepped;
      var n := 0;
      trace := [memory];
      while n < |segs|
        invariant 0 <= n <= |segs|
        invariant |trace| == n + 1 && trace[0] == old(memory) && trace[n] == memory
        invariant forall i :: 0 <= i < n ==> Stepped(trace[i], trace[i + 1], segs[i])
        invariant Loadable(segs) ==> forall i :: 0 <= i < n ==> Loaded(memory, segs[i])
      {
        ghost var m0 := memory;
        r := LoadSegment(segs[n]);
        if r != 0 {
          return;
        }
        if Loadable(segs) {
          forall i | 0 <= i < n ensures Loaded(memory, segs[i]) { LoadedStays(m0, memory, segs[n], segs[i]); }
        }
        SteppedOn(m0, memory, segs[n]);
        trace := trace + [memory];
        n := n + 1;
      }
      r := 0;
    }
  }

  /** One segment of a program, good or not, has been loaded. */
  ghost predicate Stepped(m0: Memory, m: Memory, s: Segment) {
    s.filesz <= |s.file| && if Good(s) then Filled(m0, m, s, PageCount(s)) else Wiped(m0, m, s, ZeroCount(s))
  }

  lemma SteppedOn(m0: Memory, m: Memory, s: Segment)
    requires s.filesz <= |s.file|
    requires Good(s) ==> Filled(m0, m, s, PageCount(s))
    requires !Good(s) ==> Wiped(m0, m, s, ZeroCount(s))
    ensures Stepped(m0, m, s)
  {
  }

  lemma SegmentFacts(s: Segment)
    ensures s.filesz <= Size(s) && s.memsz <= Size(s) && (Size(s) == s.filesz || Size(s) == s.memsz)
    ensures !Good(s) ==> Offset(s) != 0 && Min(s.filesz, PAGE - Offset(s)) == s.filesz
  {
  }

  /** Some byte of the file part is not zero. */
  ghost predicate HasData(s: Segment)
    requires s.filesz <= |s.file|
  {
    exists a :: s.va <= a < s.va + s.filesz && ImageByte(s, a) != 0
  }

  lemma ClobberedLoses(m: Memory, s: Segment)
    requires s.filesz <= |s.file| && Clobbered(m, s)
    ensures HasData(s) ==> !Loaded(m, s)
  {
    if HasData(s) {
      var a :| s.va <= a < s.va + s.filesz && ImageByte(s, a) != 0;
      assert At(m, a) == Holds(0);
    }
  }

  /** The segments touch no page in common. */
  predicate Apart(s: Segment, t: Segment) {
    First(s) + PageCount(s) <= First(t) || First(t) + PageCount(t) <= First(s)
  }

  predicate Loadable(segs: seq<Segment>) {
    && (forall i :: 0 <= i < |segs| ==> Good(segs[i]))
    && (forall i, j :: 0 <= i < j < |segs| ==> Apart(segs[i], segs[j]))
  }

  /** Loading one segment leaves the image of another alone. */
  lemma LoadedStays(m0: Memory, m: Memory, s: Segment, t: Segment)
    requires s.filesz <= |s.file| && t.filesz <= |t.file|
    requires Filled(m0, m, s, PageCount(s)) && Apart(t, s) && Loaded(m0, t)
    ensures Loaded(m, t)
  {
    forall a | t.va <= a < t.va + Size(t) ensures At(m, a) == At(m0, a) {
      assert First(t) <= a / PAGE < First(t) + PageCount(t);
    }
  }

  /** How far the loader is, for either kind of segment. */
  ghost predicate Going(s: Segment, m0: Memory, m: Memory, before: seq<nat>, log: seq<nat>, i: nat, k: nat)
    requires s.filesz <= |s.file|
  {
    if Good(s) then Progress(s, m0, m, before, log, i, k) else Astray(s, m0, m, before, log, i, k)
  }

  lemma GoingStarts(s: Segment, m0: Memory, before: seq<nat>)
    requires s.filesz <= |s.file|
    ensures Offset(s) == 0 ==> Going(s, m0, m0, before, before, 0, 0)
    ensures Offset(s) != 0 ==>
              var n := Min(s.filesz, PAGE - Offset(s));
              Going(s, m0, m0[First(s) := Frame(PageWith(Offset(s), s.file[..n]), Perm(s))], before,
                  before + [First(s)], n,
                    if Good(s) then 1 else 0)
  {
    hide Progress, Astray, PageWith;
    ProgressStart(s, m0, before);
    SegmentFacts(s);
    if Offset(s) != 0 {
      var n := Min(s.filesz, PAGE - Offset(s));
      AstrayStart(s, m0, m0[First(s) := Frame(PageWith(Offset(s), s.file[..n]), Perm(s))], before, before + [First(s)]);
    }
  }

  lemma GoesOn(s: Segment, m0: Memory, m: Memory, before: seq<nat>, log: seq<nat>, i: nat, k: nat)
    requires s.filesz <= |s.file| && Going(s, m0, m, before, log, i, k) && (i < s.filesz || i < s.memsz)
    ensures (s.va + i) / PAGE == First(s) + k
    ensures var page := PageWith(0, if i < s.filesz then s.file[i..i + Min(s.filesz - i, PAGE)] else []);
            Going(s, m0, m[First(s) + k := Frame(page, Perm(s))], before, log + [First(s) + k], i + PAGE, k + 1)
  {
    hide Progress, Filled, Wiped, PageWith, Upto;
    if Good(s) {
      ProgressNext(s, m0, m, before, log, i, k);
    } else {
      AstrayNext(s, m0, m, before, log, i, k);
    }
  }

  lemma NoCalls(answer: nat -> int, a: nat)
    ensures AllZero(answer, a, a)
  {
  }

  lemma OneMoreCall(answer: nat -> int, a: nat, b: nat)
    requires AllZero(answer, a, b) && answer(b) == 0
    ensures AllZero(answer, a, b + 1)
  {
  }

  lemma LoadEnds(s: Segment, m0: Memory, m: Memory, before: seq<nat>, log: seq<nat>, i: nat, k: nat)
    requires s.filesz <= |s.file| && i >= s.filesz && i >= s.memsz && before <= log
    requires Going(s, m0, m, before, log, i, k)
    ensures Good(s) ==> Filled(m0, m, s, PageCount(s))
    ensures !Good(s) ==> Wiped(m0, m, s, ZeroCount(s))
    ensures Loaded(m, s) <==> Good(s) || (!HasData(s) && TailReady(m0, s))
    ensures !Good(s) ==> Clobbered(m, s)
    ensures Once(log[|before|..]) <==> Good(s)
    ensures forall p :: p in log[|before|..] ==> p in m && Permits(m[p].perm, s.writable)
  {
    hide Progress, Astray, Filled, Once, Clobbered, PageCount, Good, Loaded, HasData, Permits;
    SegmentPages(s, m0, m, before, log, i, k);
    if Good(s) {
      ProgressDone(s, m0, m, before, log, i, k);
      ProgressFacts(s, m0, m, before, log, i, k);
      FilledLoads(m0, m, s);
    } else {
      AstrayEnds(s, m0, m, before, log, i, k);
      WipedLoads(m0, m, s);
    }
  }

  /** Every page that was mapped has the permissions of the segment. */
  lemma SegmentPages(s: Segment, m0: Memory, m: Memory, before: seq<nat>, log: seq<nat>, i: nat, k: nat)
    requires s.filesz <= |s.file| && i >= s.filesz && i >= s.memsz && before <= log
    requires Going(s, m0, m, before, log, i, k)
    ensures forall p :: p in log[|before|..] ==> p in m && Permits(m[p].perm, s.writable)
  {
    hide Permits, PageWith, Want;
    PermBits(s);
    var pages := log[|before|..];
    assert pages == if Good(s) then Upto(First(s), k) else [First(s)] + Upto(First(s), k);
    forall p | p in pages ensures First(s) <= p < First(s) + k && p in m && m[p].perm == Perm(s) { }
  }

  /** The mapper calls from a to b succeed. */
  ghost predicate AllZero(answer: nat -> int, a: nat, b: nat) {
    forall n: nat :: a <= n < b ==> answer(n) == 0
  }

  lemma AstrayStart(s: Segment, m0: Memory, m: Memory, before: seq<nat>, log: seq<nat>)
    requires log == before + [First(s)] && First(s) in m && m == m0[First(s) := m[First(s)]]
    ensures Astray(s, m0, m, before, log, s.filesz, 0)
  {
    assert before + [First(s)] + Upto(First(s), 0) == before + [First(s)];
  }

  lemma ProgressFacts(s: Segment, m0: Memory, m: Memory, before: seq<nat>, log: seq<nat>, i: nat, k: nat)
    requires s.filesz <= |s.file| && Progress(s, m0, m, before, log, i, k)
    ensures Filled(m0, m, s, k) && Once(log[|before|..])
  {
    hide Filled;
    UptoOnce(before, First(s), k);
  }

  /** A segment that is not good: one byte of data and one of bss in the middle of a page. */
  function Unaligned(): Segment { Segment(0x40_0010, [1], 1, 2, true) }

  /** Loading it leaves zero where the data byte should be. */
  lemma UnalignedLost(m: Memory)
    requires Clobbered(m, Unaligned())
    ensures Unwrapped(Unaligned()) && !Good(Unaligned()) && HasData(Unaligned()) && At(m, 0x40_0010) == Holds(0)
            && !Loaded(m, Unaligned())
  {
    var s := Unaligned();
    assert ImageByte(s, 0x40_0010) == 1;
    ClobberedLoses(m, s);
  }

  /** One without data, across the end of a page: its second page is never mapped. */
  function Crossing(): Segment { Segment(0x40_0ff0, [], 0, 32, true) }

  lemma CrossingUnmapped(m: Memory)
    requires Wiped(map[], m, Crossing(), ZeroCount(Crossing()))
    ensures Unwrapped(Crossing()) && !Good(Crossing()) && !HasData(Crossing())
    ensures At(m, 0x40_1000) == Unmapped && !Loaded(m, Crossing())
  {
    var s := Crossing();
    assert s.va <= 0x40_1000 < s.va + Size(s);
    assert At(m, 0x40_1000) == Unmapped;
  }
}
