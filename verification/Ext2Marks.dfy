/** Which blocks the walk over a file marks: data and pointer blocks (fs/ext2.c). */
module Ext2Marks {
  import opened Base
  import opened Ext2Blocks
  import opened Ext2Trail

  /** Entry `q` of a pointer block, with no zero up to it. */
  ghost predicate Live(disk: Disk, b: uint32, q: nat)
    requires ValidDisk(disk)
  {
    q < disk.perBlock && forall k :: 0 <= k <= q ==> Entry(disk, b, k) != 0
  }

  /** The blocks met below `b`, and `b` itself. */
  ghost predicate Met(disk: Disk, level: nat, b: uint32, i: nat)
    requires ValidDisk(disk)
  {
    i == b || (level > 0 && exists q :: Live(disk, b, q) && Met(disk, level - 1, Entry(disk, b, q), i))
  }

  /** The direct blocks up to the first zero and, if there is none, the three trees. */
  ghost predicate Reached(disk: Disk, inode: Inode, i: nat)
    requires ValidDisk(disk)
  {
    || (exists r :: 0 <= r < |inode.direct| && inode.direct[r] == i && 0 !in inode.direct[..r + 1])
    || (0 !in inode.direct
        && (|| (inode.single != 0 && Met(disk, 1, inode.single, i))
            || (inode.double != 0 && Met(disk, 2, inode.double, i))
            || (inode.triple != 0 && Met(disk, 3, inode.triple, i))))
  }

  lemma {:induction false} MarksOfWalk(disk: Disk, level: nat, b: uint32, i: nat)
    requires ValidDisk(disk) && b != 0 && Walk(disk, level, b).ok
    ensures Covered(Walk(disk, level, b).marks, i) <==> Met(disk, level, b, i)
    decreases level, 0, 0
  {
    hide Entry, Live, Covered;
    CoveredOne(b, i);
    if level > 0 {
      var bs := disk.read(b).value;
      CoveredConcat([One(b)], WalkEach(disk, level - 1, bs).marks, i);
      MarksOfEach(disk, level - 1, b, 0, i);
      assert bs[0..] == bs;
    }
  }

  lemma {:induction false} CoveredOne(b: uint32, i: nat)
    ensures Covered([One(b)], i) <==> i == b
  {
    if i == b {
      assert [One(b)][0].start == i;
    }
  }

  /** From entry `k` on, with no zero before it. */
  lemma {:induction false} MarksOfEach(disk: Disk, level: nat, b: uint32, k: nat, i: nat)
    requires ValidDisk(disk) && b != 0 && disk.read(b).Some? && k <= disk.perBlock
    requires forall j :: 0 <= j < k ==> Entry(disk, b, j) != 0
    requires WalkEach(disk, level, disk.read(b).value[k..]).ok
    ensures Covered(WalkEach(disk, level, disk.read(b).value[k..]).marks, i)
       <==> exists q :: k <= q && Live(disk, b, q) && Met(disk, level, Entry(disk, b, q), i)
    decreases level, 1, disk.perBlock - k
  {
    hide Walk, Met, Covered;
    var bs := disk.read(b).value[k..];
    if k == disk.perBlock || bs[0] == 0 {
      NothingCovered();
      assert k < disk.perBlock ==> Entry(disk, b, k) == 0;
    } else {
      var n := bs[0];
      assert n == Entry(disk, b, k) && bs[1..] == disk.read(b).value[k + 1..];
      var one, sub, rest := [One(n)], Walk(disk, level, n), WalkEach(disk, level, bs[1..]);
      assert WalkEach(disk, level, bs).marks == one + sub.marks + rest.marks;
      CoveredConcat(one + sub.marks, rest.marks, i);
      CoveredConcat(one, sub.marks, i);
      CoveredOne(n, i);
      MarksOfWalk(disk, level, n, i);
      MetItself(disk, level, n);
      MarksOfEach(disk, level, b, k + 1, i);
      assert Live(disk, b, k);
    }
  }

  lemma {:induction false} MetItself(disk: Disk, level: nat, b: uint32)
    requires ValidDisk(disk)
    ensures Met(disk, level, b, b)
  {
  }

  lemma {:induction false} MarksOfRoot(disk: Disk, level: nat, b: uint32, i: nat)
    requires ValidDisk(disk) && WalkRoot(disk, level, b).ok
    ensures Covered(WalkRoot(disk, level, b).marks, i) <==> b != 0 && Met(disk, level, b, i)
  {
    hide Walk, Met, Covered;
    if b == 0 {
      NothingCovered();
    } else {
      MarksOfWalk(disk, level, b, i);
    }
  }

  lemma {:induction false} MarksOfRun(direct: seq<uint32>, i: nat)
    ensures Covered(Ones(BeforeZero(direct)), i)
       <==> exists r :: 0 <= r < |direct| && direct[r] == i && 0 !in direct[..r + 1]
    ensures |BeforeZero(direct)| == |direct| <==> 0 !in direct
  {
    hide BeforeZero;
    var run := BeforeZero(direct);
    if Covered(Ones(run), i) {
      var k :| 0 <= k < |run| && Ones(run)[k].start <= i < Ones(run)[k].start + Ones(run)[k].count;
      assert direct[k] == run[k] == i && direct[..k + 1] == run[..k + 1];
    }
    if r :| 0 <= r < |direct| && direct[r] == i && 0 !in direct[..r + 1] {
      assert |run| < |direct| ==> direct[|run|] == 0;
      assert Ones(run)[r] == One(i);
    }
    if |run| < |direct| {
      assert direct[|run|] == 0;
    }
  }

  /** Exactly the blocks that are reached are marked. */
  lemma {:induction false} MarksMean(disk: Disk, inode: Inode, i: nat)
    requires ValidDisk(disk) && ReadBlocks(disk, inode).ok
    ensures Covered(ReadBlocks(disk, inode).marks, i) <==> Reached(disk, inode, i)
  {
    hide Walk, WalkRoot, Met, Covered, BeforeZero;
    var run := BeforeZero(inode.direct);
    MarksOfRun(inode.direct, i);
    if |run| == |inode.direct| {
      var a, b := WalkRoot(disk, 1, inode.single), WalkRoot(disk, 2, inode.double);
      var c := WalkRoot(disk, 3, inode.triple);
      MarksOfRoot(disk, 1, inode.single, i);
      MarksOfRoot(disk, 2, inode.double, i);
      MarksOfRoot(disk, 3, inode.triple, i);
      CoveredConcat(Ones(run) + a.marks + b.marks, c.marks, i);
      CoveredConcat(Ones(run) + a.marks, b.marks, i);
      CoveredConcat(Ones(run), a.marks, i);
    }
  }

  // Files whose lists have no zero before a pointer.

  /** Nothing behind the first zero, in any list of pointers below `b`. */
  ghost predicate NoGap(disk: Disk, level: nat, b: uint32)
    requires ValidDisk(disk)
  {
    level > 0 ==>
      && (forall q, r :: 0 <= q < r < disk.perBlock && Entry(disk, b, q) == 0 ==> Entry(disk, b, r) == 0)
      && (forall q :: 0 <= q < disk.perBlock ==> NoGap(disk, level - 1, Entry(disk, b, q)))
  }

  ghost predicate NoGapInFile(disk: Disk, inode: Inode)
    requires ValidDisk(disk)
  {
    && (forall q, r :: 0 <= q < r < |inode.direct| && inode.direct[q] == 0 ==> inode.direct[r] == 0)
    && (0 in inode.direct ==> inode.single == inode.double == inode.triple == 0)
    && NoGap(disk, 1, inode.single) && NoGap(disk, 2, inode.double) && NoGap(disk, 3, inode.triple)
  }

  /** A block that holds pointers: a root, or a block named by a block above it. */
  ghost predicate IsPointer(disk: Disk, inode: Inode, i: nat)
    requires ValidDisk(disk)
  {
    var n := disk.perBlock;
    || i == inode.single || i == inode.double || i == inode.triple
    || (exists q :: 0 <= q < n && i == Entry(disk, inode.double, q))
    || (exists p :: 0 <= p < n && i == Entry(disk, inode.triple, p))
    || (exists p, q :: 0 <= p < n && 0 <= q < n && i == Entry(disk, Entry(disk, inode.triple, p), q))
  }

  /** Block `i` holds pointers, below `b`. */
  ghost predicate PointerBelow(disk: Disk, level: nat, b: uint32, i: nat)
    requires ValidDisk(disk)
  {
    && level > 0
    && (i == b || exists q :: 0 <= q < disk.perBlock && PointerBelow(disk, level - 1, Entry(disk, b, q), i))
  }

  lemma {:induction false} FullHas(disk: Disk, level: nat, b: uint32, i: nat)
    requires ValidDisk(disk)
    ensures i in Full(disk, level + 1, b)
       <==> exists q :: 0 <= q < disk.perBlock && i in Full(disk, level, Entry(disk, b, q))
  {
    hide Full, Entry;
    if q :| 0 <= q < disk.perBlock && i in Full(disk, level, Entry(disk, b, q)) {
      FullHasBelow(disk, level, b, q, i);
    }
    if i in Full(disk, level + 1, b) {
      var q := FullFrom(disk, level, b, i);
    }
  }

  lemma {:induction false} FullHasBelow(disk: Disk, level: nat, b: uint32, q: nat, i: nat)
    requires ValidDisk(disk) && q < disk.perBlock && i in Full(disk, level, Entry(disk, b, q))
    ensures i in Full(disk, level + 1, b)
  {
    hide Pow, Full, Entry;
    var r :| 0 <= r < Pow(disk.perBlock, level) && Full(disk, level, Entry(disk, b, q))[r] == i;
    FullAt(disk, level, b, q, r);
    assert Full(disk, level + 1, b)[q * Pow(disk.perBlock, level) + r] == i;
  }

  lemma {:induction false} FullFrom(disk: Disk, level: nat, b: uint32, i: nat) returns (q: nat)
    requires ValidDisk(disk) && i in Full(disk, level + 1, b)
    ensures q < disk.perBlock && i in Full(disk, level, Entry(disk, b, q))
  {
    hide Pow, Full, Entry;
    var n, size := disk.perBlock, Pow(disk.perBlock, level);
    PowStep(n, level);
    PowPositive(n, level);
    var k :| 0 <= k < |Full(disk, level + 1, b)| && Full(disk, level + 1, b)[k] == i;
    assert size * n == n * size;
    Digits(k, n, size);
    q := k / size;
    FullAt(disk, level, b, q, k % size);
    assert Full(disk, level, Entry(disk, b, q))[k % size] == i;
  }

  lemma {:induction false} Digits(k: nat, n: nat, size: nat)
    requires size > 0 && k < n * size
    ensures 0 <= k / size < n && k == (k / size) * size + k % size
  {
    QuotientNat(k, size);
    if k / size >= n {
      MulMonotone(n, k / size, size);
    }
  }

  /** Without gaps everything below `b` that is not zero is met. */
  lemma {:induction false} MetWithoutGap(disk: Disk, level: nat, b: uint32, i: nat)
    requires ValidDisk(disk) && i != 0 && b != 0 && NoGap(disk, level, b)
    ensures Met(disk, level, b, i) <==> i in Full(disk, level, b) || PointerBelow(disk, level, b, i)
    decreases level
  {
    hide Entry, Full;
    if level == 0 {
      FullOfLeaf(disk, b);
    } else {
      FullHas(disk, level - 1, b, i);
      forall q | 0 <= q < disk.perBlock
        ensures Live(disk, b, q) && Met(disk, level - 1, Entry(disk, b, q), i)
           <==> i in Full(disk, level - 1, Entry(disk, b, q)) || PointerBelow(disk, level - 1, Entry(disk, b, q), i)
      {
        BelowEntry(disk, level, b, q, i);
      }
    }
  }

  lemma {:induction false} BelowEntry(disk: Disk, level: nat, b: uint32, q: nat, i: nat)
    requires ValidDisk(disk) && i != 0 && b != 0 && NoGap(disk, level, b) && level > 0 && q < disk.perBlock
    ensures Live(disk, b, q) && Met(disk, level - 1, Entry(disk, b, q), i)
       <==> i in Full(disk, level - 1, Entry(disk, b, q)) || PointerBelow(disk, level - 1, Entry(disk, b, q), i)
    decreases level, 0
  {
    hide Entry, Full, Met, PointerBelow;
    if Entry(disk, b, q) == 0 {
      FullOfHole(disk, level - 1);
      NothingBelowHole(disk, level - 1, i);
    } else {
      MetWithoutGap(disk, level - 1, Entry(disk, b, q), i);
    }
  }

  lemma {:induction false} NothingBelowHole(disk: Disk, level: nat, i: nat)
    requires ValidDisk(disk) && i != 0
    ensures !PointerBelow(disk, level, 0, i)
    decreases level
  {
    if level > 0 {
      NothingBelowHole(disk, level - 1, i);
    }
  }

  lemma {:induction false} FullOfLeaf(disk: Disk, b: uint32)
    requires ValidDisk(disk)
    ensures Full(disk, 0, b) == [b]
  {
  }

  lemma {:induction false} RootWithoutGap(disk: Disk, level: nat, b: uint32, i: nat)
    requires ValidDisk(disk) && i != 0 && NoGap(disk, level, b)
    ensures b != 0 && Met(disk, level, b, i) <==> i in Full(disk, level, b) || PointerBelow(disk, level, b, i)
  {
    hide Full, Met, PointerBelow, NoGap;
    if b == 0 {
      FullOfHole(disk, level);
      NothingBelowHole(disk, level, i);
    } else {
      MetWithoutGap(disk, level, b, i);
    }
  }

  lemma {:induction false} PointersByRoot(disk: Disk, inode: Inode, i: nat)
    requires ValidDisk(disk)
    ensures IsPointer(disk, inode, i)
       <==> (|| PointerBelow(disk, 1, inode.single, i)
             || PointerBelow(disk, 2, inode.double, i)
             || PointerBelow(disk, 3, inode.triple, i))
  {
    hide Entry;
    PointersAtTwo(disk, inode.double, i);
    forall p | 0 <= p < disk.perBlock
      ensures PointerBelow(disk, 2, Entry(disk, inode.triple, p), i)
         <==> i == Entry(disk, inode.triple, p)
              || exists q :: 0 <= q < disk.perBlock && i == Entry(disk, Entry(disk, inode.triple, p), q)
    {
      PointersAtTwo(disk, Entry(disk, inode.triple, p), i);
    }
  }

  lemma {:induction false} PointersAtTwo(disk: Disk, b: uint32, i: nat)
    requires ValidDisk(disk)
    ensures PointerBelow(disk, 2, b, i) <==> i == b || exists q :: 0 <= q < disk.perBlock && i == Entry(disk, b, q)
  {
    forall q | 0 <= q < disk.perBlock
      ensures PointerBelow(disk, 1, Entry(disk, b, q), i) <==> i == Entry(disk, b, q)
    {
    }
  }

  lemma {:induction false} ZeroNotMet(disk: Disk, level: nat, b: uint32)
    requires ValidDisk(disk) && b != 0
    ensures !Met(disk, level, b, 0)
    decreases level
  {
    hide Entry;
    if level > 0 {
      forall q | Live(disk, b, q)
        ensures !Met(disk, level - 1, Entry(disk, b, q), 0)
      {
        ZeroNotMet(disk, level - 1, Entry(disk, b, q));
      }
    }
  }

  lemma {:induction false} ZeroNotReached(disk: Disk, inode: Inode)
    requires ValidDisk(disk)
    ensures !Reached(disk, inode, 0)
  {
    hide Met;
    if inode.single != 0 {
      ZeroNotMet(disk, 1, inode.single);
    }
    if inode.double != 0 {
      ZeroNotMet(disk, 2, inode.double);
    }
    if inode.triple != 0 {
      ZeroNotMet(disk, 3, inode.triple);
    }
    forall r | 0 <= r < |inode.direct| && inode.direct[r] == 0
      ensures 0 in inode.direct[..r + 1]
    {
      assert inode.direct[..r + 1][r] == 0;
    }
  }

  /** In a file without gaps the data and pointer blocks are marked, and no other. */
  lemma {:induction false} MarksWithoutGap(disk: Disk, inode: Inode, i: nat)
    requires ValidDisk(disk) && ReadBlocks(disk, inode).ok && NoGapInFile(disk, inode)
    ensures Covered(ReadBlocks(disk, inode).marks, i)
       <==> i != 0 && (i in Logical(disk, inode) || IsPointer(disk, inode, i))
  {
    hide Full, Met, PointerBelow, NoGap, IsPointer, Covered, ReadBlocks;
    MarksMean(disk, inode, i);
    if i == 0 {
      ZeroNotReached(disk, inode);
    } else {
      PointersByRoot(disk, inode, i);
      RootWithoutGap(disk, 1, inode.single, i);
      RootWithoutGap(disk, 2, inode.double, i);
      RootWithoutGap(disk, 3, inode.triple, i);
      DirectWithoutGap(inode.direct, i);
    }
  }

  lemma {:induction false} DirectWithoutGap(direct: seq<uint32>, i: nat)
    requires forall q, r :: 0 <= q < r < |direct| && direct[q] == 0 ==> direct[r] == 0
    requires i != 0
    ensures i in direct <==> exists r :: 0 <= r < |direct| && direct[r] == i && 0 !in direct[..r + 1]
  {
    if i in direct {
      var r :| 0 <= r < |direct| && direct[r] == i;
      assert 0 !in direct[..r + 1];
    }
  }

  /** All of it, as the readers need it. */
  lemma {:induction false} MarksOfFile(disk: Disk, inode: Inode)
    requires ValidDisk(disk)
    ensures ReadBlocks(disk, inode).ok ==>
              forall i: nat :: Covered(ReadBlocks(disk, inode).marks, i) <==> Reached(disk, inode, i)
    ensures NoGapInFile(disk, inode) && ReadBlocks(disk, inode).ok ==>
              forall i: nat :: Covered(ReadBlocks(disk, inode).marks, i)
                <==> i != 0 && (i in Logical(disk, inode) || IsPointer(disk, inode, i))
  {
    hide Logical, IsPointer, Covered, ReadBlocks, Reached, NoGapInFile;
    if ReadBlocks(disk, inode).ok {
      forall i: nat
        ensures Covered(ReadBlocks(disk, inode).marks, i) <==> Reached(disk, inode, i)
      {
        MarksMean(disk, inode, i);
      }
      if NoGapInFile(disk, inode) {
        forall i: nat
          ensures Covered(ReadBlocks(disk, inode).marks, i)
             <==> i != 0 && (i in Logical(disk, inode) || IsPointer(disk, inode, i))
        {
          MarksWithoutGap(disk, inode, i);
        }
      }
    }
  }

  // A file without holes whose pointer blocks all map something has no gaps.

  /** Every pointer block at or below `b` maps its first block. */
  ghost predicate Filled(disk: Disk, level: nat, b: uint32)
    requires ValidDisk(disk)
  {
    level > 0 && b != 0 ==>
      && |Full(disk, level, b)| > 0 && Full(disk, level, b)[0] != 0
      && forall q :: 0 <= q < disk.perBlock ==> Filled(disk, level - 1, Entry(disk, b, q))
  }

  lemma {:induction false} FilledMapsFirst(disk: Disk, level: nat, b: uint32)
    requires ValidDisk(disk) && Filled(disk, level, b)
    ensures |Full(disk, level, b)| > 0 && (b != 0 ==> Full(disk, level, b)[0] != 0)
  {
    PowPositive(disk.perBlock, level);
  }

  /** The part of a solid sequence that belongs to one entry is solid. */
  lemma {:induction false} SolidEntry(disk: Disk, level: nat, b: uint32, n: nat, q: nat) returns (m: nat)
    requires ValidDisk(disk) && Solid(Full(disk, level + 1, b), n) && q < disk.perBlock
    ensures Solid(Full(disk, level, Entry(disk, b, q)), m)
    ensures var size := Pow(disk.perBlock, level); m == AtMost(if n > q * size then n - q * size else 0, size)
  {
    hide Full, Entry, Pow;
    var size := Pow(disk.perBlock, level);
    m := AtMost(if n > q * size then n - q * size else 0, size);
    forall r | 0 <= r < size
      ensures Full(disk, level, Entry(disk, b, q))[r] != 0 <==> r < m
    {
      FullAt(disk, level, b, q, r);
    }
  }

  lemma {:induction false} SolidHasNoGap(disk: Disk, level: nat, b: uint32, n: nat)
    requires ValidDisk(disk) && Solid(Full(disk, level, b), n) && Filled(disk, level, b)
    ensures NoGap(disk, level, b)
    decreases level
  {
    hide Full, Entry, Pow, Solid, AtMost;
    if b == 0 {
      HoleHasNoGap(disk, level);
    } else if level > 0 {
      forall q | 0 <= q < disk.perBlock
        ensures NoGap(disk, level - 1, Entry(disk, b, q))
      {
        var m := SolidEntry(disk, level - 1, b, n, q);
        SolidHasNoGap(disk, level - 1, Entry(disk, b, q), m);
      }
      forall q, r | 0 <= q < r < disk.perBlock && Entry(disk, b, q) == 0
        ensures Entry(disk, b, r) == 0
      {
        ZeroThenZero(disk, level - 1, b, n, q, r);
      }
    }
  }

  lemma {:induction false} ZeroThenZero(disk: Disk, level: nat, b: uint32, n: nat, q: nat, r: nat)
    requires ValidDisk(disk) && Solid(Full(disk, level + 1, b), n)
    requires q < r < disk.perBlock && Entry(disk, b, q) == 0 && Filled(disk, level, Entry(disk, b, r))
    ensures Entry(disk, b, r) == 0
  {
    hide Full, Entry, Pow, Filled;
    var size := Pow(disk.perBlock, level);
    PowPositive(disk.perBlock, level);
    FullOfHole(disk, level);
    var m := SolidEntry(disk, level, b, n, q);
    var m' := SolidEntry(disk, level, b, n, r);
    assert Full(disk, level, 0)[0] == 0;
    assert m == 0;
    MulMonotone(q, r, size);
    assert m' == 0;
    FilledMapsFirst(disk, level, Entry(disk, b, r));
  }

  lemma {:induction false} HoleHasNoGap(disk: Disk, level: nat)
    requires ValidDisk(disk)
    ensures NoGap(disk, level, 0)
    decreases level
  {
    if level > 0 {
      HoleHasNoGap(disk, level - 1);
    }
  }

  lemma {:induction false} SolidFileHasNoGap(disk: Disk, inode: Inode, n: nat)
    requires ValidDisk(disk) && Solid(Logical(disk, inode), n)
    requires Filled(disk, 1, inode.single) && Filled(disk, 2, inode.double) && Filled(disk, 3, inode.triple)
    ensures NoGapInFile(disk, inode)
  {
    hide Full, NoGap, Solid, Filled, AtMost;
    var d, s := inode.direct, Full(disk, 1, inode.single);
    var m, t := Full(disk, 2, inode.double), Full(disk, 3, inode.triple);
    var n2 := AtMost(n, |d + s + m|);
    var n1 := AtMost(n2, |d + s|);
    var n0 := AtMost(n1, |d|);
    FourSolid(d, s, m, t, n);
    SolidHasNoGap(disk, 1, inode.single, n1 - n0);
    SolidHasNoGap(disk, 2, inode.double, n2 - n1);
    SolidHasNoGap(disk, 3, inode.triple, n - n2);
    FilledMapsFirst(disk, 1, inode.single);
    FilledMapsFirst(disk, 2, inode.double);
    FilledMapsFirst(disk, 3, inode.triple);
    SolidOrdered(d, n0);
    if 0 in d {
      SolidRest(d, n0);
      NothingSolid(s, n1 - n0);
      NothingSolid(m, n2 - n1);
      NothingSolid(t, n - n2);
    }
  }

  lemma {:induction false} SolidOrdered(d: seq<uint32>, n: nat)
    requires Solid(d, n)
    ensures forall q, r :: 0 <= q < r < |d| && d[q] == 0 ==> d[r] == 0
  {
  }

  lemma {:induction false} SolidRest(d: seq<uint32>, n: nat)
    requires Solid(d, n) && 0 in d
    ensures n < |d|
  {
  }

  lemma {:induction false} NothingSolid(s: seq<uint32>, n: nat)
    requires Solid(s, n)
    ensures n == 0 && |s| > 0 ==> s[0] == 0
  {
  }

  /** An empty pointer block need not be met: here all the blocks of the file are holes. */
  lemma {:induction false} UnmarkedPointer(disk: Disk, inode: Inode)
    requires disk == Disk(1, _ => Some([0])) && inode == Inode(Zeros32(12), 7, 0, 0)
    ensures ValidDisk(disk) && ReadBlocks(disk, inode) == Trail(true, [], [])
    ensures Solid(Logical(disk, inode), 0) && IsPointer(disk, inode, 7)
  {
    assert disk.read(7) == Some([0]);
    assert Full(disk, 1, 7) == [0];
    FullOfHole(disk, 2);
    FullOfHole(disk, 3);
  }
}
