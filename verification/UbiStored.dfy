/** A regular file as it lies on a volume, and what unpacking makes of it (fs/ubi.c). */
module UbiStored {
  import opened Base
  import opened UbiIndex
  import opened UbiFiles
  import opened UbiUnpack

  /** A leaf for block `b` of the file. */
  ghost predicate BlockOf(e: Entry, ino: uint32, b: nat) {
    b < 0x2000_0000 && e.key0 == ino && e.key1 == 0x2000_0000 + b
  }

  /** Its data node holds at most 4096 bytes of the contents, from there on. */
  ghost predicate HoldsBlock(v: Volume, e: Entry, contents: seq<byte>, b: nat) {
    && v.read(e).Some? && v.read(e).value.DataNode? && v.read(e).value.plain.Some?
    && var p := v.read(e).value.plain.value;
    && v.read(e).value.stored == |p| <= 4096
    && b * 4096 + |p| <= |contents| && p == contents[b * 4096..b * 4096 + |p|]
  }

  ghost predicate CoveredBy(v: Volume, e: Entry, ino: uint32, b: nat, pos: nat) {
    && BlockOf(e, ino, b) && v.read(e).Some? && v.read(e).value.DataNode? && v.read(e).value.plain.Some?
    && b * 4096 <= pos < b * 4096 + |v.read(e).value.plain.value|
  }

  /** The inode gives the size of the contents. */
  ghost predicate HasSize(v: Volume, ino: uint32, size: nat) {
    exists i :: 0 <= i < |Leaves(v.root)| && InodeLeaf(v, ino, i, size)
  }

  ghost predicate InodeLeaf(v: Volume, ino: uint32, i: nat, size: nat) {
    var es := Leaves(v.root);
    && i < |es| && size < 0x1_0000_0000_0000_0000
    && es[i].key0 == ino && es[i].key1 == 0 && v.read(es[i]) == Some(InodeNode(size))
    && forall j :: 0 <= j < i ==> es[j].key0 != ino || es[j].key1 != 0
  }

  /** No two leaves are for the same block of the file. */
  ghost predicate OneLeafEach(es: seq<Entry>, ino: uint32) {
    forall i, j, b :: 0 <= i < j < |es| && BlockOf(es[i], ino, b) ==> !BlockOf(es[j], ino, b)
  }

  /** What is not zero lies in some block. */
  ghost predicate ZeroElsewhere(v: Volume, ino: uint32, contents: seq<byte>) {
    forall pos :: 0 <= pos < |contents| && contents[pos] != 0 ==>
      exists e, b :: e in Leaves(v.root) && CoveredBy(v, e, ino, b, pos)
  }

  /** The volume holds a file of at most 4 GiB, with holes where no block is stored. */
  ghost predicate HoldsFile(v: Volume, ino: uint32, contents: seq<byte>) {
    && |contents| <= 0x1_0000_0000 && HasSize(v, ino, |contents|) && OneLeafEach(Leaves(v.root), ino)
    && (forall e, b :: e in Leaves(v.root) && BlockOf(e, ino, b) ==> HoldsBlock(v, e, contents, b))
    && ZeroElsewhere(v, ino, contents)
  }

  lemma {:induction false} BlockLeaf(e: Entry, ino: uint32)
    ensures OfInode(e, DATA_KEY, ino) <==> BlockOf(e, ino, Hash(e))
    ensures forall b :: BlockOf(e, ino, b) ==> b == Hash(e)
  {
  }

  /** The leaves of an inode and type are distinct where those of the whole index are. */
  lemma {:induction false} LeavesDistinct(es: seq<Entry>, ino: uint32)
    requires OneLeafEach(es, ino)
    ensures HashDistinct(InodeLeaves(es, DATA_KEY, ino))
    decreases |es|
  {
    hide Hash, BlockOf, OfInode;
    if es != [] {
      var rest := InodeLeaves(es[1..], DATA_KEY, ino);
      assert OneLeafEach(es[1..], ino) by {
        assert forall i :: 0 <= i < |es[1..]| ==> es[1..][i] == es[i + 1];
      }
      LeavesDistinct(es[1..], ino);
      if OfInode(es[0], DATA_KEY, ino) {
        BlockLeaf(es[0], ino);
        InodeLeavesMembers(es[1..], DATA_KEY, ino);
        forall e | e in rest
          ensures Hash(e) != Hash(es[0])
        {
          var k :| 0 <= k < |es[1..]| && es[1..][k] == e;
          BlockLeaf(e, ino);
          assert es[k + 1] == e;
        }
      }
    }
  }

  lemma {:induction false} InodeIsRead(v: Volume, ino: uint32, size: nat)
    requires HasSize(v, ino, size)
    ensures size < 0x1_0000_0000_0000_0000 && InodeOf(v, ino) == Some(InodeNode(size))
  {
    hide Leaves, InodeOf;
    var i :| 0 <= i < |Leaves(v.root)| && InodeLeaf(v, ino, i, size);
    InodeMeans(v, ino, i);
  }

  /** The blocks are good, fit the file, and do not keep the loop from ending. */
  lemma {:induction false} BlocksAreIntact(v: Volume, ino: uint32, contents: seq<byte>)
    requires WellFormed(v.root) && HoldsFile(v, ino, contents)
    ensures var ds := DataLeaves(v, ino);
      && Sweep(ds, 0) == ds && Strict(ds) && Fits(v, ds, |contents|)
      && (forall e :: e in ds ==> Good(v, e) && BlockOf(e, ino, Hash(e)) && HoldsBlock(v, e, contents, Hash(e)))
      && !Endless(v, ds, |contents|)
  {
    hide Leaves, Hash, BlockOf, WellFormed, HasSize, Sweep, Endless;
    var ds := DataLeaves(v, ino);
    DataLeavesOrdered(v, ino);
    LeavesDistinct(Leaves(v.root), ino);
    SweepComplete(ds);
    SweepStrict(ds);
    InodeLeavesMembers(Leaves(v.root), DATA_KEY, ino);
    forall e | e in ds
      ensures BlockOf(e, ino, Hash(e)) && HoldsBlock(v, e, contents, Hash(e))
    {
      BlockLeaf(e, ino);
    }
    NotEndless(v, ds, contents);
  }

  lemma {:induction false} NotEndless(v: Volume, ds: seq<Entry>, contents: seq<byte>)
    requires |contents| <= 0x1_0000_0000 && forall e :: e in ds ==> HoldsBlock(v, e, contents, Hash(e))
    ensures !Endless(v, ds, |contents|)
  {
    hide Hash;
    if ds != [] {
      assert ds[|ds| - 1] in ds;
    }
  }

  lemma {:induction false} InsideBlock(v: Volume, ds: seq<Entry>, e: Entry, contents: seq<byte>, pos: nat)
    requires Strict(ds) && (forall d :: d in ds ==> |Plain(v, d)| <= 4096) && e in ds && Within(v, e, pos)
    requires Good(v, e) && HoldsBlock(v, e, contents, Hash(e))
    ensures pos < |contents| && Content(v, ds, pos) == contents[pos]
  {
    hide Hash, Content, Strict;
    ContentOf(v, ds, e, pos - Hash(e) * 4096);
  }

  lemma {:induction false} CoveredIsReached(v: Volume, ino: uint32, contents: seq<byte>, pos: nat)
    requires ZeroElsewhere(v, ino, contents) && pos < |contents| && contents[pos] != 0
    requires forall e :: e in DataLeaves(v, ino) ==> Good(v, e)
    ensures Reached(v, DataLeaves(v, ino), pos)
  {
    hide Leaves, Hash, BlockOf;
    var e, b :| e in Leaves(v.root) && CoveredBy(v, e, ino, b, pos);
    BlockLeaf(e, ino);
    InodeLeavesMembers(Leaves(v.root), DATA_KEY, ino);
    assert Within(v, e, pos);
  }

  lemma {:induction false} ContentIsContents(v: Volume, ino: uint32, contents: seq<byte>, pos: nat)
    requires ZeroElsewhere(v, ino, contents) && pos < |contents| && Strict(DataLeaves(v, ino))
    requires Fits(v, DataLeaves(v, ino), |contents|)
    requires forall e :: e in DataLeaves(v, ino) ==> Good(v, e) && HoldsBlock(v, e, contents, Hash(e))
    ensures Content(v, DataLeaves(v, ino), pos) == contents[pos]
  {
    hide DataLeaves, Hash, Plain, Content, Strict, ZeroElsewhere, Within, Good, HoldsBlock;
    var ds := DataLeaves(v, ino);
    if Reached(v, ds, pos) {
      var e :| e in ds && Within(v, e, pos);
      InsideBlock(v, ds, e, contents, pos);
    } else {
      ContentHole(v, ds, pos);
      if contents[pos] != 0 {
        CoveredIsReached(v, ino, contents, pos);
      }
    }
  }

  /** A file that the volume holds is unpacked as it is. */
  method UnpackStored(v: Volume, ino: uint32, ghost contents: seq<byte>) returns (ok: bool, file: seq<byte>)
    requires WellFormed(v.root) && HoldsFile(v, ino, contents)
    ensures ok && file == contents
  {
    hide WellFormed, HoldsFile, DataLeaves, Sweep, Endless, Fits, Strict, Good, BlockOf, HoldsBlock, Content, Harmless,
      ZeroElsewhere;
    BlocksAreIntact(v, ino, contents);
    SizeIsRead(v, ino, contents);
    assert ZeroElsewhere(v, ino, contents) by { ZerosOf(v, ino, contents); }
    ok, file := UnpackIntactFile(v, ino);
    forall pos | 0 <= pos < |contents|
      ensures file[pos] == contents[pos]
    {
      ContentIsContents(v, ino, contents, pos);
    }
  }

  lemma {:induction false} SizeIsRead(v: Volume, ino: uint32, contents: seq<byte>)
    requires HoldsFile(v, ino, contents)
    ensures |contents| <= 0x1_0000_0000 && InodeOf(v, ino) == Some(InodeNode(|contents|))
  {
    InodeIsRead(v, ino, |contents|);
  }

  lemma {:induction false} ZerosOf(v: Volume, ino: uint32, contents: seq<byte>)
    requires HoldsFile(v, ino, contents)
    ensures ZeroElsewhere(v, ino, contents)
  {
  }

  // Damaged files.

  /** A node that is written: its payload has the size that it records. */
  ghost predicate Whole(v: Volume, e: Entry) {
    exists p :: |p| < 0x1_0000_0000 && v.read(e) == Some(DataNode(|p|, Some(p)))
  }

  /** Where the write of a node ends: its offset is computed in 32 bits. */
  ghost function EndOf(v: Volume, e: Entry): nat {
    (Hash(e) * 4096) % 0x1_0000_0000
    + if v.read(e).Some? && v.read(e).value.DataNode? then v.read(e).value.stored else 0
  }

  /** The loop writes the front of the nodes, up to the end of the file or to a node that is not whole. */
  lemma {:induction false} LoopStopsAt(v: Volume, ds: seq<Entry>, size: nat, n: nat, k: nat)
    requires k <= |ds| && forall i :: 0 <= i < k ==> Whole(v, ds[i])
    requires k > 0 ==> n < size
    requires forall i :: 0 <= i < k - 1 ==> EndOf(v, ds[i]) < size
    ensures var end := if k == 0 then n else EndOf(v, ds[k - 1]);
      && (k == |ds| || end >= size ==> Written(v, ds, size, n) == ds[..k] && !Spoiled(v, ds, size, n))
      && (k < |ds| && end < size && !Whole(v, ds[k]) ==>
            Written(v, ds, size, n) == ds[..k]
            && (Spoiled(v, ds, size, n) <==> v.read(ds[k]).Some? && v.read(ds[k]).value.DataNode?))
    decreases k
  {
    hide Whole, Good, Readable, End, EndOf, Hash;
    if k == 0 {
      if ds != [] {
        WholeIsGood(v, ds[0]);
      }
    } else {
      WholeIsGood(v, ds[0]);
      assert ds[1..][..k - 1] == ds[..k][1..] && ds[..k][0] == ds[0];
      assert forall i :: 0 <= i < |ds| - 1 ==> ds[1..][i] == ds[i + 1];
      LoopStopsAt(v, ds[1..], size, End(v, ds[0]), k - 1);
    }
  }

  lemma {:induction false} WholeIsGood(v: Volume, e: Entry)
    ensures Whole(v, e) <==> Good(v, e)
    ensures Whole(v, e) ==> End(v, e) == EndOf(v, e)
    ensures Readable(v, e) <==> v.read(e).Some? && v.read(e).value.DataNode?
  {
    hide Hash;
    if Good(v, e) {
      var p := v.read(e).value.plain.value;
      assert v.read(e) == Some(DataNode(|p|, Some(p)));
    }
  }
}
