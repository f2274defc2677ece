/** Directory entries are structs inside file blocks: that no entry sits in two directories follows from block
  * ownership, through every create and remove. */
module DirectoryBlocks {
  import opened Common
  import FB = FsBlocks
  import opened Directories

  /** The places of the entries in block b: struct File number j of the block is at FILE2BLK * b + j. */
  function PlacesIn(b: nat): (s: seq<nat>)
    ensures |s| == FILE2BLK && forall j :: 0 <= j < FILE2BLK ==> s[j] == FILE2BLK * b + j
  {
    seq(FILE2BLK, j => FILE2BLK * b + j)
  }

  /** Slot i of directory f is the entry that lies in its block on the disk. */
  ghost predicate SlotOnDisk(t: Tree, d: FB.Disk, place: seq<nat>, f: int, i: int)
    requires At(t, f, i) && FB.Wf(d)
  {
    var b := FB.Val(d, FB.SlotOf(f, i / FILE2BLK));
    b != 0 && ROOT < t[f].slots[i] < |place| && place[t[f].slots[i]] == FILE2BLK * b + i % FILE2BLK
  }

  /** The tree is what the disk holds: entries are the files of the disk, place says where each of them lies, and the
    * slots of a directory are the entries in its blocks. */
  ghost predicate OnDisk(t: Tree, d: FB.Disk, place: seq<nat>) {
    && FB.Wf(d) && 0 < |t| == |d.files| == |place|
    && (forall f :: 0 <= f < |t| ==> |t[f].slots| % FILE2BLK == 0 && |t[f].slots| <= FILE2BLK * FB.NINDIRECT)
    && (forall f, i :: At(t, f, i) ==> SlotOnDisk(t, d, place, f, i))
  }

  /** Ownership of blocks keeps entries apart. */
  lemma OwnedEntries(t: Tree, d: FB.Disk, place: seq<nat>)
    requires OnDisk(t, d, place) && FB.Own(d)
    ensures InRange(t) && NoSharing(t)
  {
    hide FB.Own, FB.Val;
    FB.OwnFacts(d);
    forall f, i | At(t, f, i) ensures ROOT < t[f].slots[i] < |t| { assert SlotOnDisk(t, d, place, f, i); }
    forall f, i, g, j | At(t, f, i) && At(t, g, j) && t[f].slots[i] == t[g].slots[j] ensures f == g && i == j {
      assert SlotOnDisk(t, d, place, f, i) && SlotOnDisk(t, d, place, g, j);
      var a, b := FB.SlotOf(f, i / FILE2BLK), FB.SlotOf(g, j / FILE2BLK);
      assert FB.Val(d, a) == FB.Val(d, b) && i % FILE2BLK == j % FILE2BLK;
      assert a == b;
    }
  }

  /** The block slots of a file other than its index block are the same on both disks. */
  ghost predicate SameBlocks(d: FB.Disk, e: FB.Disk, f: nat)
    requires FB.Wf(d) && FB.Wf(e)
  {
    forall i :: 0 <= i < FB.NINDIRECT ==> FB.Val(e, FB.SlotOf(f, i)) == FB.Val(d, FB.SlotOf(f, i))
  }

  /** A directory gets block b as its next one, with its entries: what file_map_block and a zero block do to the disk,
    * and Grow to the tree. */
  lemma GrowOnDisk(t: Tree, d: FB.Disk, place: seq<nat>, f: nat, e: FB.Disk, b: nat)
    requires OnDisk(t, d, place) && f < |t| && FB.Wf(e) && |e.files| == |t| + FILE2BLK && b != 0
    requires |t[f].slots| < FILE2BLK * FB.NINDIRECT
    requires FB.Val(e, FB.SlotOf(f, |t[f].slots| / FILE2BLK)) == b
    requires forall g :: 0 <= g < |t| && g != f ==> SameBlocks(d, e, g)
    requires forall i :: 0 <= i < |t[f].slots| / FILE2BLK ==> FB.Val(e, FB.SlotOf(f, i)) == FB.Val(d, FB.SlotOf(f, i))
    ensures OnDisk(Grow(t, f), e, place + PlacesIn(b))
  {
    hide FB.Val, FB.Wf;
    var u, p := Grow(t, f), place + PlacesIn(b);
    forall g, i | At(u, g, i) ensures SlotOnDisk(u, e, p, g, i) {
      if At(t, g, i) {
        assert SlotOnDisk(t, d, place, g, i);
        assert u[g].slots[i] == t[g].slots[i];
        if g != f { assert SameBlocks(d, e, g); }
      } else {
        assert g == f && u[g].slots[i] == |t| + (i - |t[f].slots|);
      }
    }
  }

  /** An entry loses its blocks and its name: what file_remove does. */
  lemma RemoveOnDisk(t: Tree, d: FB.Disk, place: seq<nat>, x: nat, e: FB.Disk)
    requires OnDisk(t, d, place) && x < |t| && FB.Wf(e) && |e.files| == |t|
    requires forall g :: 0 <= g < |t| && g != x ==> SameBlocks(d, e, g)
    ensures OnDisk(t[x := Dropped(t[x])], e, place)
  {
    hide FB.Val, FB.Wf;
    var u := t[x := Dropped(t[x])];
    forall g, i | At(u, g, i) ensures SlotOnDisk(u, e, place, g, i) {
      assert g != x && At(t, g, i);
      assert SlotOnDisk(t, d, place, g, i) && SameBlocks(d, e, g);
    }
  }

  /** file_truncate gives exactly such a disk. */
  lemma TruncatedBlocks(d: FB.Disk, e: FB.Disk, x: nat, lo: nat, hi: nat, g: nat)
    requires FB.Own(d) && FB.Truncated(d, e, x, lo, hi) && g != x
    ensures SameBlocks(d, e, g)
  {
  }

  /** So does file_map_block, for the files that it does not extend. */
  lemma MappedBlocks(d: FB.Disk, e: FB.Disk, f: nat, filebno: nat, code: FB.Code, b: nat, g: nat)
    requires FB.Own(d) && f < |d.files| && FB.Mapped(d, e, f, filebno, true, code, b) && g != f
    ensures SameBlocks(d, e, g)
  {
  }

  /** Names, types and the count of blocks are not about places. */
  lemma RenameOnDisk(t: Tree, d: FB.Disk, place: seq<nat>, x: nat, v: Entry)
    requires OnDisk(t, d, place) && x < |t| && v.slots == t[x].slots
    ensures OnDisk(t[x := v], d, place)
  {
    hide FB.Val, FB.Wf;
    var u := t[x := v];
    forall g, i | At(u, g, i) ensures SlotOnDisk(u, d, place, g, i) {
      assert At(t, g, i) && SlotOnDisk(t, d, place, g, i);
    }
  }
}
