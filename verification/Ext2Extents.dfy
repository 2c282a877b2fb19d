/** Extent trees and the walk that collects their leaves (fs/ext2.c). */
module Ext2Extents {
  import opened Base
  import opened Ext2Trail

  const MAGIC: uint16 := 0xf30a

  /** A run of `len` physical blocks for the logical blocks from `block` on. */
  datatype Extent = Extent(block: uint32, len: uint16, start: nat)

  /** Reading a block of the volume; it can fail. */
  type Disk = nat -> Option<seq<byte>>

  function Magic(eh: seq<byte>): nat
    requires |eh| >= 12
  {
    Field(eh, 0, 2)
  }

  function Entries(eh: seq<byte>): nat
    requires |eh| >= 12
  {
    Field(eh, 2, 2)
  }

  function Depth(eh: seq<byte>): nat {
    if |eh| < 12 then 0 else Field(eh, 6, 2)
  }

  /** The header and its entries lie inside the buffer. */
  predicate Fits(eh: seq<byte>) {
    |eh| >= 12 && 12 + 12 * Entries(eh) <= |eh|
  }

  function ExtentAt(b: seq<byte>, off: nat): Extent
    requires off + 12 <= |b|
  {
    FieldBound(b, off, 4);
    FieldBound(b, off + 4, 2);
    Extent(Field(b, off, 4), Field(b, off + 4, 2), Field(b, off + 6, 2) * 0x1_0000_0000 + Field(b, off + 8, 4))
  }

  /** The block that an index entry points at. */
  function IndexAt(b: seq<byte>, off: nat): nat
    requires off + 12 <= |b|
  {
    Field(b, off + 8, 2) * 0x1_0000_0000 + Field(b, off + 4, 4)
  }

  function ExtentBytes(e: Extent): (r: seq<byte>)
    ensures |r| == 12
  {
    LeBytes(e.block, 4) + LeBytes(e.len, 2) + LeBytes(e.start / 0x1_0000_0000, 2) + LeBytes(e.start % 0x1_0000_0000, 4)
  }

  function IndexBytes(logical: uint32, block: nat): (r: seq<byte>)
    ensures |r| == 12
  {
    LeBytes(logical, 4) + LeBytes(block % 0x1_0000_0000, 4) + LeBytes(block / 0x1_0000_0000, 2) + LeBytes(0, 2)
  }

  /** The 48-bit block number of an extent is split over two fields, high half first. */
  lemma {:induction false} ExtentRoundTrip(b: seq<byte>, off: nat, e: Extent)
    requires off + 12 <= |b| && b[off..off + 12] == ExtentBytes(e) && e.start < 0x1_0000_0000_0000
    ensures ExtentAt(b, off) == e
  {
    hide LeBytes, LeValue, Field;
    var x := b[off..off + 12];
    SubSlice(b, off, 12, 0, 4);
    SubSlice(b, off, 12, 4, 6);
    SubSlice(b, off, 12, 6, 8);
    SubSlice(b, off, 12, 8, 12);
    assert x[0..4] == LeBytes(e.block, 4) && x[4..6] == LeBytes(e.len, 2);
    assert x[6..8] == LeBytes(e.start / 0x1_0000_0000, 2) && x[8..12] == LeBytes(e.start % 0x1_0000_0000, 4);
    FieldOfBytes(b, off, e.block, 4);
    FieldOfBytes(b, off + 4, e.len, 2);
    FieldOfBytes(b, off + 6, e.start / 0x1_0000_0000, 2);
    FieldOfBytes(b, off + 8, e.start % 0x1_0000_0000, 4);
  }

  /** In an index entry the low half comes first. */
  lemma {:induction false} IndexRoundTrip(b: seq<byte>, off: nat, logical: uint32, block: nat)
    requires off + 12 <= |b| && b[off..off + 12] == IndexBytes(logical, block) && block < 0x1_0000_0000_0000
    ensures IndexAt(b, off) == block
  {
    hide LeBytes, LeValue, Field;
    var x := b[off..off + 12];
    SubSlice(b, off, 12, 4, 8);
    SubSlice(b, off, 12, 8, 10);
    assert x[4..8] == LeBytes(block % 0x1_0000_0000, 4) && x[8..10] == LeBytes(block / 0x1_0000_0000, 2);
    FieldOfBytes(b, off + 4, block % 0x1_0000_0000, 4);
    FieldOfBytes(b, off + 8, block / 0x1_0000_0000, 2);
  }

  /** The extents of a leaf, from the `i`th on. */
  function LeafExtents(eh: seq<byte>, i: nat): (r: seq<Extent>)
    requires Fits(eh) && i <= Entries(eh)
    ensures |r| == Entries(eh) - i
    ensures forall k :: 0 <= k < |r| ==> r[k] == ExtentAt(eh, 12 + 12 * (i + k))
    decreases Entries(eh) - i
  {
    if i == Entries(eh) then [] else [ExtentAt(eh, 12 + 12 * i)] + LeafExtents(eh, i + 1)
  }

  function Ranges(es: seq<Extent>): (r: seq<Range>)
    ensures |r| == |es| && forall k :: 0 <= k < |es| ==> r[k] == Range(es[k].start, es[k].len)
  {
    seq(|es|, k requires 0 <= k < |es| => Range(es[k].start, es[k].len))
  }

  /** A block that an index entry of a node of that depth can point at. */
  predicate ChildOk(disk: Disk, depth: nat, blk: nat) {
    && disk(blk).Some? && |disk(blk).value| >= 12
    && Magic(disk(blk).value) == MAGIC && Depth(disk(blk).value) == depth - 1
  }

  function Collect(disk: Disk, eh: seq<byte>): Trail<Extent>
    decreases Depth(eh), 1, 0
  {
    if !Fits(eh) then Trail(false, [], [])
    else if Depth(eh) > 0 then CollectFrom(disk, eh, 0)
    else Trail(true, LeafExtents(eh, 0), Ranges(LeafExtents(eh, 0)))
  }

  function CollectFrom(disk: Disk, eh: seq<byte>, i: nat): Trail<Extent>
    requires Fits(eh) && i <= Entries(eh) && Depth(eh) > 0
    decreases Depth(eh), 0, Entries(eh) - i
  {
    if i == Entries(eh) then Nothing()
    else
      var blk := IndexAt(eh, 12 + 12 * i);
      if !ChildOk(disk, Depth(eh), blk) then Trail(false, [], [])
      else Then(Then(Marking(Range(blk, 1)), Collect(disk, disk(blk).value)), CollectFrom(disk, eh, i + 1))
  }

  // The tree that a volume holds, and what it means.

  /** A node, with the block it is stored in; that of the root, which lies in the inode, has no meaning. */
  datatype Tree = Leaf(block: nat, extents: seq<Extent>) | Index(block: nat, children: seq<Tree>)

  function InOrder(t: Tree): seq<Extent>
    decreases t
  {
    match t
    case Leaf(_, extents) => extents
    case Index(_, children) => InOrderEach(children)
  }

  function InOrderEach(cs: seq<Tree>): seq<Extent>
    decreases cs
  {
    if cs == [] then [] else InOrder(cs[0]) + InOrderEach(cs[1..])
  }

  /** The blocks of the index and of the data. */
  function Used(t: Tree): seq<Range>
    decreases t
  {
    match t
    case Leaf(_, extents) => Ranges(extents)
    case Index(_, children) => UsedEach(children)
  }

  function UsedEach(cs: seq<Tree>): seq<Range>
    decreases cs
  {
    if cs == [] then [] else [Range(cs[0].block, 1)] + Used(cs[0]) + UsedEach(cs[1..])
  }

  /** A node holds the tree, with depths that step down by one on every way to a leaf. */
  ghost predicate Stored(disk: Disk, eh: seq<byte>, t: Tree)
    decreases t
  {
    && Fits(eh)
    && match t
       case Leaf(_, extents) =>
         Depth(eh) == 0 && Entries(eh) == |extents|
         && forall k :: 0 <= k < |extents| ==> extents[k] == ExtentAt(eh, 12 + 12 * k)
       case Index(_, children) => Depth(eh) > 0 && Entries(eh) == |children| && StoredFrom(disk, eh, 0, children)
  }

  ghost predicate StoredFrom(disk: Disk, eh: seq<byte>, i: nat, cs: seq<Tree>)
    requires Fits(eh) && i + |cs| == Entries(eh)
    decreases cs
  {
    cs == [] || (
      && cs[0].block == IndexAt(eh, 12 + 12 * i)
      && ChildOk(disk, Depth(eh), cs[0].block)
      && Stored(disk, disk(cs[0].block).value, cs[0])
      && StoredFrom(disk, eh, i + 1, cs[1..]))
  }

  /** The walk lists the leaf extents in order and marks exactly the index and data blocks. */
  lemma {:induction false} CollectStored(disk: Disk, eh: seq<byte>, t: Tree)
    requires Stored(disk, eh, t)
    ensures Collect(disk, eh) == Trail(true, InOrder(t), Used(t))
    decreases t
  {
    hide Field, Depth, Magic, Entries, ExtentAt, IndexAt, ChildOk;
    match t
    case Leaf(_, extents) =>
      assert LeafExtents(eh, 0) == extents;
    case Index(_, children) =>
      CollectStoredFrom(disk, eh, 0, children);
  }

  lemma {:induction false} CollectStoredFrom(disk: Disk, eh: seq<byte>, i: nat, cs: seq<Tree>)
    requires Fits(eh) && i + |cs| == Entries(eh) && Depth(eh) > 0 && StoredFrom(disk, eh, i, cs)
    ensures CollectFrom(disk, eh, i) == Trail(true, InOrderEach(cs), UsedEach(cs))
    decreases cs
  {
    hide Field, Depth, Magic, Entries, ExtentAt, IndexAt, Collect, Stored;
    if cs != [] {
      CollectStored(disk, disk(cs[0].block).value, cs[0]);
      CollectStoredFrom(disk, eh, i + 1, cs[1..]);
      assert [] + InOrder(cs[0]) == InOrder(cs[0]);
    }
  }

  /** The tree below a node from which the walk succeeds. */
  ghost function TreeOf(disk: Disk, eh: seq<byte>, block: nat): (t: Tree)
    ensures t.block == block
    decreases Depth(eh), 1, 0
  {
    if !Fits(eh) then Leaf(block, [])
    else if Depth(eh) > 0 then Index(block, ChildrenFrom(disk, eh, 0))
    else Leaf(block, LeafExtents(eh, 0))
  }

  ghost function ChildrenFrom(disk: Disk, eh: seq<byte>, i: nat): (r: seq<Tree>)
    requires Fits(eh) && i <= Entries(eh) && Depth(eh) > 0
    ensures |r| == Entries(eh) - i
    decreases Depth(eh), 0, Entries(eh) - i
  {
    if i == Entries(eh) then []
    else
      var blk := IndexAt(eh, 12 + 12 * i);
      [if ChildOk(disk, Depth(eh), blk) then TreeOf(disk, disk(blk).value, blk) else Leaf(blk, [])]
      + ChildrenFrom(disk, eh, i + 1)
  }

  /** The walk succeeds only on a stored tree. */
  lemma {:induction false} CollectedIsStored(disk: Disk, eh: seq<byte>, block: nat)
    requires Collect(disk, eh).ok
    ensures Stored(disk, eh, TreeOf(disk, eh, block))
    decreases Depth(eh), 1, 0
  {
    hide Field, Magic, Entries, ExtentAt, IndexAt, ChildOk, Depth;
    if Depth(eh) > 0 {
      CollectedFromIsStored(disk, eh, 0);
    }
  }

  lemma {:induction false} CollectedFromIsStored(disk: Disk, eh: seq<byte>, i: nat)
    requires Fits(eh) && i <= Entries(eh) && Depth(eh) > 0 && CollectFrom(disk, eh, i).ok
    ensures StoredFrom(disk, eh, i, ChildrenFrom(disk, eh, i))
    decreases Depth(eh), 0, Entries(eh) - i
  {
    hide Field, Magic, Entries, ExtentAt, IndexAt, Collect, Stored, TreeOf, Depth;
    if i < Entries(eh) {
      var blk := IndexAt(eh, 12 + 12 * i);
      CollectedIsStored(disk, disk(blk).value, blk);
      CollectedFromIsStored(disk, eh, i + 1);
      var cs := ChildrenFrom(disk, eh, i);
      assert cs[1..] == ChildrenFrom(disk, eh, i + 1);
    }
  }

  /** The walk accepts exactly the stored trees. */
  lemma {:induction false} AcceptsTrees(disk: Disk, eh: seq<byte>)
    ensures Collect(disk, eh).ok <==> exists t :: Stored(disk, eh, t)
  {
    hide Collect, Stored;
    if Collect(disk, eh).ok {
      CollectedIsStored(disk, eh, 0);
    }
    if t :| Stored(disk, eh, t) {
      CollectStored(disk, eh, t);
    }
  }

  // The tree as bytes.

  /** The header of a node: magic, number of entries, room for entries, depth and generation. */
  function HeaderBytes(entries: uint16, max: uint16, depth: uint16, generation: uint32): (r: seq<byte>)
    ensures |r| == 12
  {
    LeBytes(0xf30a, 2) + LeBytes(entries, 2) + LeBytes(max, 2) + LeBytes(depth, 2) + LeBytes(generation, 4)
  }

  lemma {:induction false} HeaderRoundTrip(b: seq<byte>, entries: uint16, max: uint16, depth: uint16,
                                           generation: uint32)
    requires |b| >= 12 && b[..12] == HeaderBytes(entries, max, depth, generation)
    ensures Magic(b) == MAGIC && Entries(b) == entries && Depth(b) == depth
  {
    hide LeBytes, LeValue, Field;
    var x := b[..12];
    assert x[0..2] == LeBytes(0xf30a, 2) && x[2..4] == LeBytes(entries, 2) && x[6..8] == LeBytes(depth, 2);
    assert b[0..2] == x[0..2] && b[2..4] == x[2..4] && b[6..8] == x[6..8];
    FieldOfBytes(b, 0, 0xf30a, 2);
    FieldOfBytes(b, 2, entries, 2);
    FieldOfBytes(b, 6, depth, 2);
  }

  /** The bytes at `off`. */
  predicate HasBytes(b: seq<byte>, off: nat, x: seq<byte>) {
    off + |x| <= |b| && b[off..off + |x|] == x
  }

  /** A node of that depth, with the nodes below it in the blocks that its entries name. */
  ghost predicate Written(disk: Disk, b: seq<byte>, depth: uint16, t: Tree)
    decreases t
  {
    && (exists entries: uint16, max: uint16, generation: uint32 ::
          HasBytes(b, 0, HeaderBytes(entries, max, depth, generation))
          && entries == if t.Leaf? then |t.extents| else |t.children|)
    && match t
       case Leaf(_, extents) =>
         depth == 0 && forall k :: 0 <= k < |extents| ==>
           extents[k].start < 0x1_0000_0000_0000 && HasBytes(b, 12 + 12 * k, ExtentBytes(extents[k]))
       case Index(_, children) => depth > 0 && WrittenFrom(disk, b, depth, 0, children)
  }

  ghost predicate WrittenFrom(disk: Disk, b: seq<byte>, depth: uint16, i: nat, cs: seq<Tree>)
    requires depth > 0
    decreases cs
  {
    cs == [] || (
      && cs[0].block < 0x1_0000_0000_0000
      && (exists logical: uint32 :: HasBytes(b, 12 + 12 * i, IndexBytes(logical, cs[0].block)))
      && disk(cs[0].block).Some? && Written(disk, disk(cs[0].block).value, depth - 1, cs[0])
      && WrittenFrom(disk, b, depth, i + 1, cs[1..]))
  }

  lemma {:induction false} WrittenHeader(disk: Disk, b: seq<byte>, depth: uint16, t: Tree)
    requires Written(disk, b, depth, t)
    ensures |b| >= 12 && Magic(b) == MAGIC && Depth(b) == depth
    ensures Entries(b) == if t.Leaf? then |t.extents| else |t.children|
  {
    hide Magic, Entries, Depth, HeaderBytes;
    var entries: uint16, max: uint16, generation: uint32 :|
      HasBytes(b, 0, HeaderBytes(entries, max, depth, generation))
      && entries == if t.Leaf? then |t.extents| else |t.children|;
    assert b[..12] == b[0..12];
    HeaderRoundTrip(b, entries, max, depth, generation);
  }

  /** A tree in bytes is one that the reader finds. */
  lemma {:induction false} WrittenIsStored(disk: Disk, b: seq<byte>, depth: uint16, t: Tree)
    requires Written(disk, b, depth, t)
    ensures Stored(disk, b, t)
    decreases t
  {
    hide Magic, Entries, Depth, ExtentAt, ExtentBytes, IndexAt, HeaderBytes, Fits;
    WrittenHeader(disk, b, depth, t);
    match t
    case Leaf(_, extents) =>
      LeafFits(b, extents);
      forall k | 0 <= k < |extents|
        ensures 12 + 12 * k + 12 <= |b| && extents[k] == ExtentAt(b, 12 + 12 * k)
      {
        ExtentRoundTrip(b, 12 + 12 * k, extents[k]);
      }
    case Index(_, children) =>
      WrittenFits(disk, b, depth, 0, children);
      FitsAll(b, |children|);
      WrittenFromIsStored(disk, b, depth, 0, children);
  }

  lemma {:induction false} LeafFits(b: seq<byte>, extents: seq<Extent>)
    requires |b| >= 12 && Entries(b) == |extents|
    requires forall k :: 0 <= k < |extents| ==> HasBytes(b, 12 + 12 * k, ExtentBytes(extents[k]))
    ensures Fits(b)
  {
    hide Entries, ExtentBytes;
    if |extents| > 0 {
      assert HasBytes(b, 12 + 12 * (|extents| - 1), ExtentBytes(extents[|extents| - 1]));
    }
  }

  lemma {:induction false} FitsAll(b: seq<byte>, n: nat)
    requires |b| >= 12 && Entries(b) == n && 12 + 12 * n <= |b|
    ensures Fits(b)
  {
  }

  lemma {:induction false} WrittenFits(disk: Disk, b: seq<byte>, depth: uint16, i: nat, cs: seq<Tree>)
    requires |b| >= 12 && depth > 0 && WrittenFrom(disk, b, depth, i, cs) && 12 + 12 * i <= |b|
    ensures 12 + 12 * (i + |cs|) <= |b|
    decreases cs
  {
    hide IndexBytes, Written;
    if cs != [] {
      var logical: uint32 :| HasBytes(b, 12 + 12 * i, IndexBytes(logical, cs[0].block));
      WrittenFits(disk, b, depth, i + 1, cs[1..]);
    }
  }

  lemma {:induction false} WrittenFromIsStored(disk: Disk, b: seq<byte>, depth: uint16, i: nat, cs: seq<Tree>)
    requires Fits(b) && Depth(b) == depth > 0 && i + |cs| == Entries(b) && WrittenFrom(disk, b, depth, i, cs)
    ensures StoredFrom(disk, b, i, cs)
    decreases cs
  {
    hide Magic, Entries, Depth, IndexAt, IndexBytes, Written, Stored;
    if cs != [] {
      var logical: uint32 :| HasBytes(b, 12 + 12 * i, IndexBytes(logical, cs[0].block));
      IndexRoundTrip(b, 12 + 12 * i, logical, cs[0].block);
      WrittenHeader(disk, disk(cs[0].block).value, depth - 1, cs[0]);
      WrittenIsStored(disk, disk(cs[0].block).value, depth - 1, cs[0]);
      WrittenFromIsStored(disk, b, depth, i + 1, cs[1..]);
    }
  }

  /** A tree in bytes is collected in order, and exactly its index and data blocks are marked. */
  lemma {:induction false} CollectWritten(disk: Disk, b: seq<byte>, depth: uint16, t: Tree)
    requires Written(disk, b, depth, t)
    ensures Collect(disk, b) == Trail(true, InOrder(t), Used(t))
  {
    hide Written, Stored, Collect;
    WrittenIsStored(disk, b, depth, t);
    CollectStored(disk, b, t);
  }
}
