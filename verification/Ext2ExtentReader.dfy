/** Collecting the extents of a file and marking its blocks (fs/ext2.c). */
module Ext2ExtentReader {
  import opened Base
  import opened Bitmask
  import opened Ext2Extents
  import opened Ext2Trail

  /** The extents collected so far. */
  class ExtentIterator {
    var parent: seq<Extent>
    var totalEntries: nat

    ghost predicate Valid()
      reads this
    {
      totalEntries == |parent|
    }

    constructor ()
      ensures Valid() && parent == []
    {
      parent, totalEntries := [], 0;
    }
  }

  /** The recursion over the tree; the depth of each block is checked against that of its parent. */
  method Appending(disk: Disk, eh: seq<byte>, it: ExtentIterator, marks: Bitmask?) returns (ret: int)
    requires it.Valid() && (marks != null ==> marks.Valid())
    modifies it, if marks == null then {} else {marks.buffer}
    ensures var t := Collect(disk, eh);
      && it.Valid() && ret == (if t.ok then 0 else -1)
      && it.parent == old(it.parent) + t.items
      && (marks != null ==> marks.Bits() == Marked(old(marks.Bits()), t.marks))
    decreases Depth(eh), 1
  {
    hide BitsOf, BitAt, Marked, Depth, Entries, ExtentAt, IndexAt, CollectFrom, Then, LeafExtents;
    ghost var list, bits := it.parent, if marks == null then [] else marks.Bits();
    NoSteps(list, bits);
    if !Fits(eh) {
      return -1;
    }
    if Depth(eh) > 0 {
      ret := AppendChildren(disk, eh, it, marks);
    } else {
      AppendLeaf(eh, it, marks);
      ret := 0;
    }
  }

  /** The extents of a leaf are copied behind those collected so far, and their blocks marked. */
  method AppendLeaf(eh: seq<byte>, it: ExtentIterator, marks: Bitmask?)
    requires it.Valid() && Fits(eh) && (marks != null ==> marks.Valid())
    modifies it, if marks == null then {} else {marks.buffer}
    ensures it.Valid() && it.parent == old(it.parent) + LeafExtents(eh, 0)
    ensures marks != null ==> marks.Bits() == Marked(old(marks.Bits()), Ranges(LeafExtents(eh, 0)))
  {
    hide BitsOf, BitAt, Marked, Entries, ExtentAt, LeafExtents;
    var loaded := it.totalEntries;
    var entries := LeafExtents(eh, 0);
    it.totalEntries := it.totalEntries + Entries(eh);
    it.parent := it.parent + entries;
    if marks != null {
      ghost var bits := marks.Bits();
      NoSteps<Extent>([], bits);
      assert Ranges(entries)[..0] == [];
      for i := 0 to Entries(eh)
        invariant it.parent == old(it.parent) + entries && loaded == |old(it.parent)| && it.totalEntries == |it.parent|
        invariant marks.Bits() == Marked(bits, Ranges(entries)[..i])
      {
        var ee := it.parent[loaded + i];
        MarkedTwice(bits, Ranges(entries)[..i], [Range(ee.start, ee.len)]);
        assert Ranges(entries)[..i] + [Ranges(entries)[i]] == Ranges(entries)[..i + 1];
        Mark(marks, Range(ee.start, ee.len));
      }
      assert Ranges(entries)[..Entries(eh)] == Ranges(entries);
    }
  }

  /** The loop over the entries of an index node. */
  method AppendChildren(disk: Disk, eh: seq<byte>, it: ExtentIterator, marks: Bitmask?) returns (ret: int)
    requires it.Valid() && Fits(eh) && Depth(eh) > 0 && (marks != null ==> marks.Valid())
    modifies it, if marks == null then {} else {marks.buffer}
    ensures var t := CollectFrom(disk, eh, 0);
      && it.Valid() && ret == (if t.ok then 0 else -1)
      && it.parent == old(it.parent) + t.items
      && (marks != null ==> marks.Bits() == Marked(old(marks.Bits()), t.marks))
    decreases Depth(eh), 0
  {
    hide BitsOf, BitAt, Marked, Magic, Depth, Entries, IndexAt, Collect, CollectFrom, Then;
    ghost var list, bits := it.parent, if marks == null then [] else marks.Bits();
    ghost var t: Trail<Extent> := Nothing();
    NoSteps(list, bits);
    ThenNothing(CollectFrom(disk, eh, 0));
    ret := 0;
    for i := 0 to Entries(eh)
      invariant it.Valid() && t.ok && ret == 0
      invariant it.parent == list + t.items && (marks != null ==> marks.Bits() == Marked(bits, t.marks))
      invariant CollectFrom(disk, eh, 0) == Then(t, CollectFrom(disk, eh, i))
    {
      var blkno := IndexAt(eh, 12 + 12 * i);
      CollectStep(disk, eh, i, t);
      var blk := disk(blkno);
      if blk.None? || |blk.value| < 12 || Magic(blk.value) != MAGIC || Depth(blk.value) != Depth(eh) - 1 {
        return -1;
      }
      ghost var one := Marking(Range(blkno, 1));
      ThenStep(list, bits, t, one);
      ThenStep(list, bits, Then(t, one), Collect(disk, blk.value));
      NoSteps(list + t.items, bits);
      Mark(marks, Range(blkno, 1));
      ret := Appending(disk, blk.value, it, marks);
      t := Then(Then(t, one), Collect(disk, blk.value));
      if ret < 0 {
        return;
      }
    }
    CollectEnd(disk, eh, t);
  }

  lemma {:induction false} CollectEnd(disk: Disk, eh: seq<byte>, t: Trail<Extent>)
    requires Fits(eh) && Depth(eh) > 0 && t.ok
    ensures Then(t, CollectFrom(disk, eh, Entries(eh))) == t
  {
    hide Depth, Entries;
    ThenNothing(t);
  }

  lemma {:induction false} CollectStep(disk: Disk, eh: seq<byte>, i: nat, t: Trail<Extent>)
    requires Fits(eh) && Depth(eh) > 0 && i < Entries(eh) && t.ok
    ensures var blk := IndexAt(eh, 12 + 12 * i);
      if !ChildOk(disk, Depth(eh), blk) then Then(t, CollectFrom(disk, eh, i)) == Trail(false, t.items, t.marks)
      else
        var t' := Then(Then(t, Marking(Range(blk, 1))), Collect(disk, disk(blk).value));
        Then(t, CollectFrom(disk, eh, i)) == if t'.ok then Then(t', CollectFrom(disk, eh, i + 1)) else t'
  {
    hide Depth, Entries, IndexAt, Collect, Magic;
    var blk := IndexAt(eh, 12 + 12 * i);
    if ChildOk(disk, Depth(eh), blk) {
      var one, sub := Marking(Range(blk, 1)), Collect(disk, disk(blk).value);
      ThenAssociates(t, Then(one, sub), CollectFrom(disk, eh, i + 1));
      ThenAssociates(t, one, sub);
    } else {
      assert t.items + [] == t.items && t.marks + [] == t.marks;
    }
  }

  /** The inode's flag that says it holds extents, EXT4_EXTENTS_FL. */
  predicate HoldsExtents(flags: uint32) {
    flags / 0x80000 % 2 == 1
  }

  /** The root lies in the inode; the inode's flag, the magic and a depth of at most five are checked first. */
  method Init(disk: Disk, flags: uint32, eh: seq<byte>, marks: Bitmask?) returns (ret: int, it: ExtentIterator)
    requires |eh| >= 12 && (marks != null ==> marks.Valid())
    modifies if marks == null then {} else {marks.buffer}
    ensures ret == 0 <==>
      HoldsExtents(flags) && Magic(eh) == MAGIC && Depth(eh) <= 5 && exists t :: Stored(disk, eh, t)
    ensures ret == 0 ==> forall t :: Stored(disk, eh, t) ==> it.parent == InOrder(t)
    ensures ret == 0 && marks != null ==>
      forall t :: Stored(disk, eh, t) ==> marks.Bits() == Marked(old(marks.Bits()), Used(t))
  {
    hide BitsOf, BitAt, Marked, Collect, Stored, InOrder, Used, Magic, Depth, HoldsExtents;
    it := new ExtentIterator();
    AcceptsTrees(disk, eh);
    if !HoldsExtents(flags) || Magic(eh) != MAGIC || Depth(eh) > 5 {
      return -1, it;
    }
    forall t | Stored(disk, eh, t)
      ensures Collect(disk, eh) == Trail(true, InOrder(t), Used(t))
    {
      CollectStored(disk, eh, t);
    }
    assert it.parent + Collect(disk, eh).items == Collect(disk, eh).items;
    ret := Appending(disk, eh, it, marks);
  }
}
