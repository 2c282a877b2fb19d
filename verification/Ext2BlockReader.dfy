/** Reading a block list into a growing array, marking the blocks on the way (fs/ext2.c). */
module Ext2BlockReader {
  import opened Base
  import opened Bitmask
  import opened Ext2Blocks
  import opened Ext2Marks
  import opened Ext2Trail

  /** The list and the bitmap do not share memory. */
  ghost predicate Apart(b: InodeBlocks, marks: Bitmask?)
    reads b
  {
    marks != null && b.blocks != null ==> (b.blocks as object) != (marks.buffer as object)
  }

  /** A list that grows in place: its capacity starts at 12 and doubles when it is full. */
  class InodeBlocks {
    var blocks: array?<uint32>
    var total: nat
    var maxsize: nat

    ghost predicate Valid()
      reads this
    {
      && (maxsize == 0 <==> blocks == null) && (maxsize == 0 ==> total == 0)
      && (blocks != null ==> blocks.Length == maxsize && total <= maxsize)
    }

    ghost function List(): seq<uint32>
      requires Valid()
      reads this, blocks
    {
      if blocks == null then [] else blocks[..total]
    }

    constructor ()
      ensures Valid() && List() == [] && blocks == null
    {
      blocks, total, maxsize := null, 0, 0;
    }

    method Grow()
      requires Valid()
      modifies this
      ensures Valid() && blocks != null && total == old(total) < maxsize
      ensures old(maxsize) == 0 ==> maxsize == 12
      ensures old(maxsize) != 0 ==> maxsize == if old(total) == old(maxsize) then 2 * old(maxsize) else old(maxsize)
      ensures List() == old(List())
      ensures blocks == old(blocks) || fresh(blocks)
    {
      if maxsize == 0 {
        total := 0;
        maxsize := 12;
        blocks := new uint32[12](_ => 0);
      } else if total + 1 > maxsize {
        ghost var before := blocks[..total];
        maxsize := maxsize * 2;
        var more := new uint32[maxsize](_ => 0);
        for i := 0 to total
          invariant blocks == old(blocks) && total == old(total) && more.Length == maxsize && fresh(more)
          invariant blocks[..total] == before && more[..i] == before[..i]
        {
          more[i] := blocks[i];
        }
        blocks := more;
      }
    }

    method Push(b: uint32, marks: Bitmask?)
      requires Valid() && Apart(this, marks) && (marks != null ==> marks.Valid())
      modifies this, if blocks == null then {} else {blocks}, if marks == null then {} else {marks.buffer}
      ensures Valid() && List() == old(List()) + [b]
      ensures Apart(this, marks) && (blocks == old(blocks) || fresh(blocks))
      ensures marks != null ==> marks.Bits() == Marked(old(marks.Bits()), [One(b)])
    {
      Grow();
      MarkBlock(marks, b);
      blocks[total] := b;
      total := total + 1;
    }
  }

  /** What a step of the walk leaves behind, relative to the state before it. */
  twostate predicate Appended(b: InodeBlocks, marks: Bitmask?, ret: int, t: Trail<uint32>)
    requires old(b.Valid()) && (marks != null ==> marks.Valid())
    reads b, b.blocks, if marks == null then {} else {marks.buffer}
  {
    && b.Valid() && Apart(b, marks) && ret == (if t.ok then 0 else -1)
    && b.List() == old(b.List()) + t.items
    && (b.blocks == old(b.blocks) || fresh(b.blocks))
    && (marks != null ==> marks.Bits() == Marked(old(marks.Bits()), t.marks))
  }

  /** The three indirect readers are this one at levels 1, 2 and 3; at level 0 a block is pushed. */
  method PushIndirect(disk: Disk, level: nat, b: InodeBlocks, blkno: uint32, marks: Bitmask?) returns (ret: int)
    requires ValidDisk(disk) && b.Valid() && Apart(b, marks) && (marks != null ==> marks.Valid())
    modifies b, if b.blocks == null then {} else {b.blocks}, if marks == null then {} else {marks.buffer}
    ensures Appended(b, marks, ret, Walk(disk, level, blkno))
    decreases level, 0
  {
    hide BitsOf, BitAt, Marked, Then, WalkEach;
    ghost var list, bits := b.List(), if marks == null then [] else marks.Bits();
    if level == 0 {
      b.Push(blkno, marks);
      return 0;
    }
    NoSteps(list, bits);
    var read := disk.read(blkno);
    if read.None? {
      return -1;
    }
    MarkBlock(marks, blkno);
    ThenStep(list, bits, Marking(One(blkno)), WalkEach(disk, level - 1, read.value));
    ret := PushListed(disk, level - 1, b, read.value, marks);
  }

  /** The loop over a block of pointers, up to the first zero. */
  method PushListed(disk: Disk, level: nat, b: InodeBlocks, bs: seq<uint32>, marks: Bitmask?) returns (ret: int)
    requires ValidDisk(disk) && b.Valid() && Apart(b, marks) && (marks != null ==> marks.Valid())
    modifies b, if b.blocks == null then {} else {b.blocks}, if marks == null then {} else {marks.buffer}
    ensures Appended(b, marks, ret, WalkEach(disk, level, bs))
    decreases level, 2
  {
    hide BitsOf, BitAt, Marked, Then, Walk, WalkEach;
    ghost var list, bits := b.List(), if marks == null then [] else marks.Bits();
    ghost var t: Trail<uint32> := Nothing();
    NoSteps(list, bits);
    ret := 0;
    var i := 0;
    WalkStart(disk, level, bs);
    while i < |bs| && bs[i] != 0
      invariant b.Valid() && Apart(b, marks) && 0 <= i <= |bs| && ret == 0 && t.ok
      invariant b.List() == list + t.items && (b.blocks == old(b.blocks) || fresh(b.blocks))
      invariant marks != null ==> marks.Bits() == Marked(bits, t.marks)
      invariant WalkEach(disk, level, bs) == Then(t, WalkEach(disk, level, bs[i..]))
      decreases |bs| - i
    {
      WalkStep(disk, level, bs, i, t);
      ret, t := PushListedOne(disk, level, b, bs[i], marks, list, bits, t);
      if ret < 0 {
        return;
      }
      i := i + 1;
    }
    WalkEnd(disk, level, bs, i, t);
  }

  method PushListedOne(disk: Disk, level: nat, b: InodeBlocks, n: uint32, marks: Bitmask?,
                       ghost list: seq<uint32>, ghost bits: seq<bool>, ghost t: Trail<uint32>)
    returns (ret: int, ghost t': Trail<uint32>)
    requires ValidDisk(disk) && b.Valid() && Apart(b, marks) && (marks != null ==> marks.Valid())
    requires t.ok && b.List() == list + t.items && (marks != null ==> marks.Bits() == Marked(bits, t.marks))
    modifies b, if b.blocks == null then {} else {b.blocks}, if marks == null then {} else {marks.buffer}
    ensures t' == Then(Then(t, Marking(One(n))), Walk(disk, level, n))
    ensures t'.ok == Walk(disk, level, n).ok && ret == if t'.ok then 0 else -1
    ensures b.Valid() && Apart(b, marks) && (b.blocks == old(b.blocks) || fresh(b.blocks))
    ensures b.List() == list + t'.items && (marks != null ==> marks.Bits() == Marked(bits, t'.marks))
    decreases level, 1
  {
    hide BitsOf, BitAt, Marked, Then, Walk;
    ghost var one := Marking(One(n));
    MarkBlock(marks, n);
    ThenStep(list, bits, t, one);
    NoSteps(list + t.items, bits);
    ThenStep(list, bits, Then(t, one), Walk(disk, level, n));
    ret := PushIndirect(disk, level, b, n, marks);
    t' := Then(Then(t, one), Walk(disk, level, n));
  }

  lemma {:induction false} WalkStart(disk: Disk, level: nat, bs: seq<uint32>)
    ensures WalkEach(disk, level, bs) == Then(Nothing(), WalkEach(disk, level, bs[0..]))
  {
    hide WalkEach;
    assert bs[0..] == bs;
    ThenNothing(WalkEach(disk, level, bs));
  }

  lemma {:induction false} WalkEnd(disk: Disk, level: nat, bs: seq<uint32>, i: nat, t: Trail<uint32>)
    requires i <= |bs| && (i == |bs| || bs[i] == 0) && t.ok
    ensures Then(t, WalkEach(disk, level, bs[i..])) == t
  {
    ThenNothing(t);
  }

  lemma {:induction false} WalkStep(disk: Disk, level: nat, bs: seq<uint32>, i: nat, t: Trail<uint32>)
    requires i < |bs| && bs[i] != 0 && t.ok
    ensures var t' := Then(Then(t, Marking(One(bs[i]))), Walk(disk, level, bs[i]));
      Then(t, WalkEach(disk, level, bs[i..])) == if t'.ok then Then(t', WalkEach(disk, level, bs[i + 1..])) else t'
  {
    hide Walk;
    assert bs[i..][1..] == bs[i + 1..];
    var one, sub, rest := Marking(One(bs[i])), Walk(disk, level, bs[i]), WalkEach(disk, level, bs[i + 1..]);
    assert WalkEach(disk, level, bs[i..]) == Then(Then(one, sub), rest);
    ThenAssociates(t, Then(one, sub), rest);
    ThenAssociates(t, one, sub);
  }

  /** The direct blocks, up to the first zero. */
  method PushDirect(b: InodeBlocks, direct: seq<uint32>, marks: Bitmask?) returns (all: bool)
    requires b.Valid() && Apart(b, marks) && (marks != null ==> marks.Valid())
    modifies b, if b.blocks == null then {} else {b.blocks}, if marks == null then {} else {marks.buffer}
    ensures var run := BeforeZero(direct);
      all == (|run| == |direct|) && Appended(b, marks, 0, Trail(true, run, Ones(run)))
  {
    hide BitsOf, BitAt, Marked, BeforeZero;
    ghost var list, bits, run := b.List(), if marks == null then [] else marks.Bits(), BeforeZero(direct);
    NoSteps(list, bits);
    assert Ones(run)[..0] == [];
    for i := 0 to |direct|
      invariant b.Valid() && Apart(b, marks) && i <= |run|
      invariant b.List() == list + run[..i] && (b.blocks == old(b.blocks) || fresh(b.blocks))
      invariant marks != null ==> marks.Bits() == Marked(bits, Ones(run)[..i])
    {
      if direct[i] == 0 {
        InRun(direct, i);
        return false;
      }
      RunGoesOn(direct, i);
      MarkedTwice(bits, Ones(run)[..i], [One(run[i])]);
      assert Ones(run)[..i] + [One(run[i])] == Ones(run)[..i + 1];
      assert run[..i] + [run[i]] == run[..i + 1];
      b.Push(direct[i], marks);
    }
    assert run[..|direct|] == run && Ones(run)[..|direct|] == Ones(run);
    all := true;
  }

  lemma {:induction false} InRun(direct: seq<uint32>, i: nat)
    requires i < |direct| && direct[i] == 0 && i <= |BeforeZero(direct)|
    ensures |BeforeZero(direct)| == i && BeforeZero(direct)[..i] == BeforeZero(direct)
    ensures Ones(BeforeZero(direct))[..i] == Ones(BeforeZero(direct))
  {
    var run := BeforeZero(direct);
    forall k | 0 <= k < |run|
      ensures direct[k] != 0
    {
      assert run[k] in run;
    }
  }

  lemma {:induction false} RunGoesOn(direct: seq<uint32>, i: nat)
    requires i < |direct| && direct[i] != 0 && i <= |BeforeZero(direct)|
    ensures i < |BeforeZero(direct)| && BeforeZero(direct)[i] == direct[i]
  {
  }

  /** One of the three indirect roots; a zero root is skipped. */
  method PushRoot(disk: Disk, level: nat, b: InodeBlocks, blkno: uint32, marks: Bitmask?,
                  ghost list: seq<uint32>, ghost bits: seq<bool>, ghost t: Trail<uint32>)
    returns (ret: int)
    requires ValidDisk(disk) && b.Valid() && Apart(b, marks) && (marks != null ==> marks.Valid())
    requires t.ok && b.List() == list + t.items && (marks != null ==> marks.Bits() == Marked(bits, t.marks))
    modifies b, if b.blocks == null then {} else {b.blocks}, if marks == null then {} else {marks.buffer}
    ensures var t' := Then(t, WalkRoot(disk, level, blkno));
      && t'.ok == WalkRoot(disk, level, blkno).ok && ret == (if t'.ok then 0 else -1)
      && b.Valid() && Apart(b, marks) && (b.blocks == old(b.blocks) || fresh(b.blocks))
      && b.List() == list + t'.items && (marks != null ==> marks.Bits() == Marked(bits, t'.marks))
  {
    hide BitsOf, BitAt, Marked, Then, Walk;
    NoSteps(list + t.items, Marked(bits, t.marks));
    ThenNothing(t);
    ThenStep(list, bits, t, WalkRoot(disk, level, blkno));
    ret := 0;
    if blkno != 0 {
      ret := PushIndirect(disk, level, b, blkno, marks);
    }
  }

  /** The whole list of a file: direct blocks, then the three trees. */
  method ReadInodeBlocks(disk: Disk, inode: Inode, b: InodeBlocks, marks: Bitmask?) returns (ret: int)
    requires ValidDisk(disk) && b.Valid() && Apart(b, marks) && (marks != null ==> marks.Valid())
    modifies b, if b.blocks == null then {} else {b.blocks}, if marks == null then {} else {marks.buffer}
    ensures Appended(b, marks, ret, ReadBlocks(disk, inode))
    ensures ret == 0 && marks != null ==> forall i :: 0 <= i < |marks.Bits()| ==>
              (marks.Bits()[i] <==> old(marks.Bits())[i] || Reached(disk, inode, i))
    ensures ret == 0 && marks != null && NoGapInFile(disk, inode) ==> forall i :: 0 <= i < |marks.Bits()| ==>
              (marks.Bits()[i] <==>
                old(marks.Bits())[i] || (i != 0 && (i in Logical(disk, inode) || IsPointer(disk, inode, i))))
  {
    hide BitsOf, BitAt, Marked, Then, BeforeZero, WalkRoot, Covered, Reached, NoGapInFile, Logical, IsPointer;
    MarksOfFile(disk, inode);
    ghost var list, bits := b.List(), if marks == null then [] else marks.Bits();
    ghost var run := BeforeZero(inode.direct);
    ghost var t := Trail(true, run, Ones(run));
    var all := PushDirect(b, inode.direct, marks);
    if !all {
      return 0;
    }
    FailsEarly(Then(t, WalkRoot(disk, 1, inode.single)), WalkRoot(disk, 2, inode.double),
               WalkRoot(disk, 3, inode.triple));
    ret := PushRoot(disk, 1, b, inode.single, marks, list, bits, t);
    if ret < 0 {
      return;
    }
    t := Then(t, WalkRoot(disk, 1, inode.single));
    ret := PushRoot(disk, 2, b, inode.double, marks, list, bits, t);
    if ret < 0 {
      return;
    }
    t := Then(t, WalkRoot(disk, 2, inode.double));
    ret := PushRoot(disk, 3, b, inode.triple, marks, list, bits, t);
  }
}
