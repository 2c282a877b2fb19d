/** The block list of a file with direct and indirect blocks (fs/ext2.c). */
module Ext2Blocks {
  import opened Base
  import opened Ext2Trail

  /** A volume whose blocks hold `perBlock` block numbers; reading a block can fail. */
  datatype Disk = Disk(perBlock: nat, read: uint32 -> Option<seq<uint32>>)

  ghost predicate ValidDisk(disk: Disk) {
    disk.perBlock >= 1 && forall b: uint32 :: disk.read(b).Some? ==> |disk.read(b).value| == disk.perBlock
  }

  /** Twelve direct blocks and the roots of the single, double and triple indirect trees. */
  datatype Inode = Inode(direct: seq<uint32>, single: uint32, double: uint32, triple: uint32)

  // The file as the format defines it: what each logical block is mapped to, zero being a hole.

  /** The blocks below pointer `b` of an indirect tree of that height. */
  function Full(disk: Disk, level: nat, b: uint32): (r: seq<uint32>)
    requires ValidDisk(disk)
    ensures |r| == Pow(disk.perBlock, level)
    decreases level, 0, 0
  {
    if level == 0 then [b]
    else if b == 0 || disk.read(b).None? then Zeros32(Pow(disk.perBlock, level))
    else FullEach(disk, level - 1, disk.read(b).value)
  }

  function FullEach(disk: Disk, level: nat, bs: seq<uint32>): (r: seq<uint32>)
    requires ValidDisk(disk)
    ensures |r| == |bs| * Pow(disk.perBlock, level)
    decreases level, 1, |bs|
  {
    if bs == [] then []
    else
      Distribute(1, |bs| - 1, Pow(disk.perBlock, level));
      Full(disk, level, bs[0]) + FullEach(disk, level, bs[1..])
  }

  function Zeros32(n: nat): (z: seq<uint32>)
    ensures |z| == n && forall i :: 0 <= i < n ==> z[i] == 0
  {
    seq(n, _ => 0)
  }

  function Logical(disk: Disk, inode: Inode): seq<uint32>
    requires ValidDisk(disk)
  {
    inode.direct + Full(disk, 1, inode.single) + Full(disk, 2, inode.double) + Full(disk, 3, inode.triple)
  }

  /** Entry `q` of the block that a pointer names. */
  function Entry(disk: Disk, b: uint32, q: nat): uint32
    requires ValidDisk(disk) && q < disk.perBlock
  {
    if b == 0 || disk.read(b).None? then 0 else disk.read(b).value[q]
  }

  lemma {:induction false} FullEachAt(disk: Disk, level: nat, bs: seq<uint32>, q: nat, r: nat)
    requires ValidDisk(disk) && q < |bs| && r < Pow(disk.perBlock, level)
    ensures 0 <= q * Pow(disk.perBlock, level) + r < |FullEach(disk, level, bs)|
    ensures FullEach(disk, level, bs)[q * Pow(disk.perBlock, level) + r] == Full(disk, level, bs[q])[r]
    decreases q
  {
    hide Full, Pow;
    var size := Pow(disk.perBlock, level);
    MulMonotone(0, q, size);
    MulMonotone(q + 1, |bs|, size);
    Distribute(q, 1, size);
    Distribute(1, |bs| - 1, size);
    if q > 0 {
      Distribute(q - 1, 1, size);
      FullEachAt(disk, level, bs[1..], q - 1, r);
    }
  }

  /** The digits of an index, in base `perBlock`, select the entries on the way down. */
  lemma {:induction false} FullAt(disk: Disk, level: nat, b: uint32, q: nat, r: nat)
    requires ValidDisk(disk) && q < disk.perBlock && r < Pow(disk.perBlock, level)
    ensures 0 <= q * Pow(disk.perBlock, level) + r < Pow(disk.perBlock, level + 1)
    ensures Full(disk, level + 1, b)[q * Pow(disk.perBlock, level) + r] == Full(disk, level, Entry(disk, b, q))[r]
  {
    hide Pow;
    var size := Pow(disk.perBlock, level);
    MulMonotone(0, q, size);
    MulMonotone(q + 1, disk.perBlock, size);
    Distribute(q, 1, size);
    PowStep(disk.perBlock, level);
    if b != 0 && disk.read(b).Some? {
      FullEachAt(disk, level, disk.read(b).value, q, r);
    } else {
      assert Full(disk, level, 0)[r] == 0 by { FullOfHole(disk, level); }
    }
  }

  lemma {:induction false} FullOfHole(disk: Disk, level: nat)
    requires ValidDisk(disk)
    ensures forall i :: 0 <= i < Pow(disk.perBlock, level) ==> Full(disk, level, 0)[i] == 0
  {
  }

  ghost predicate Maps(l: seq<uint32>, k: int, b: uint32) {
    0 <= k < |l| && l[k] == b
  }

  /** Where each logical block is found. */
  lemma {:induction false} LogicalIndex(disk: Disk, inode: Inode, p: nat, q: nat, r: nat)
    requires ValidDisk(disk) && |inode.direct| == 12 && p < disk.perBlock && q < disk.perBlock && r < disk.perBlock
    ensures var n := disk.perBlock; var l := Logical(disk, inode);
      && |l| == 12 + n + n * n + n * n * n
      && (r < 12 ==> Maps(l, r, inode.direct[r]))
      && Maps(l, 12 + r, Entry(disk, inode.single, r))
      && Maps(l, 12 + n + (q * n + r), Entry(disk, Entry(disk, inode.double, q), r))
      && Maps(l, 12 + n + n * n + (p * (n * n) + (q * n + r)),
              Entry(disk, Entry(disk, Entry(disk, inode.triple, p), q), r))
  {
    hide Full, Entry, Pow, Logical;
    var n := disk.perBlock;
    var i, j: nat := q * n + r, p * (n * n) + (q * n + r);
    Powers(n);
    SingleAt(disk, inode.single, r);
    DoubleAt(disk, inode.double, q, r);
    TripleAt(disk, inode.triple, p, q, r);
    FourParts(disk, inode, r, i, j);
  }

  lemma {:induction false} FourParts(disk: Disk, inode: Inode, r: nat, i: nat, j: nat)
    requires ValidDisk(disk) && |inode.direct| == 12
    requires r < Pow(disk.perBlock, 1) && i < Pow(disk.perBlock, 2) && j < Pow(disk.perBlock, 3)
    ensures var l := Logical(disk, inode);
      var a, b, c := Pow(disk.perBlock, 1), Pow(disk.perBlock, 2), Pow(disk.perBlock, 3);
      && |l| == 12 + a + b + c
      && (r < 12 ==> l[r] == inode.direct[r])
      && l[12 + r] == Full(disk, 1, inode.single)[r]
      && l[12 + a + i] == Full(disk, 2, inode.double)[i]
      && l[12 + a + b + j] == Full(disk, 3, inode.triple)[j]
  {
    hide Full, Pow;
  }

  lemma {:induction false} TripleAt(disk: Disk, b: uint32, p: nat, q: nat, r: nat)
    requires ValidDisk(disk) && p < disk.perBlock && q < disk.perBlock && r < disk.perBlock
    ensures var n := disk.perBlock;
      && Pow(n, 3) == n * n * n && 0 <= q * n + r < n * n && 0 <= p * (n * n) + (q * n + r) < n * n * n
      && Full(disk, 3, b)[p * (n * n) + (q * n + r)] == Entry(disk, Entry(disk, Entry(disk, b, p), q), r)
  {
    hide Entry, Pow, Full;
    var n := disk.perBlock;
    Powers(n);
    DoubleAt(disk, Entry(disk, b, p), q, r);
    FullAt(disk, 2, b, p, q * n + r);
  }

  lemma {:induction false} Powers(n: nat)
    ensures Pow(n, 0) == 1 && Pow(n, 1) == n && Pow(n, 2) == n * n && Pow(n, 3) == n * n * n
  {
    PowStep(n, 0);
    PowStep(n, 1);
    PowStep(n, 2);
  }

  lemma {:induction false} SingleAt(disk: Disk, b: uint32, r: nat)
    requires ValidDisk(disk) && r < disk.perBlock
    ensures Pow(disk.perBlock, 1) == disk.perBlock && Full(disk, 1, b)[r] == Entry(disk, b, r)
  {
    hide Entry, Pow;
    Powers(disk.perBlock);
    FullAt(disk, 0, b, r, 0);
  }

  lemma {:induction false} DoubleAt(disk: Disk, b: uint32, q: nat, r: nat)
    requires ValidDisk(disk) && q < disk.perBlock && r < disk.perBlock
    ensures var n := disk.perBlock;
      && Pow(n, 2) == n * n && 0 <= q * n + r < n * n
      && Full(disk, 2, b)[q * n + r] == Entry(disk, Entry(disk, b, q), r)
  {
    hide Entry, Pow, Full;
    Powers(disk.perBlock);
    FullAt(disk, 1, b, q, r);
    SingleAt(disk, Entry(disk, b, q), r);
  }

  // The walk as the code does it: each list of pointers is followed up to its first zero.

  function One(b: uint32): Range {
    Range(b, 1)
  }

  function Walk(disk: Disk, level: nat, b: uint32): Trail<uint32>
    decreases level, 0, 0
  {
    if level == 0 then Trail(true, [b], [One(b)])
    else if disk.read(b).None? then Trail(false, [], [])
    else Then(Marking(One(b)), WalkEach(disk, level - 1, disk.read(b).value))
  }

  function WalkEach(disk: Disk, level: nat, bs: seq<uint32>): Trail<uint32>
    decreases level, 1, |bs|
  {
    if bs == [] || bs[0] == 0 then Nothing()
    else Then(Then(Marking(One(bs[0])), Walk(disk, level, bs[0])), WalkEach(disk, level, bs[1..]))
  }

  function WalkRoot(disk: Disk, level: nat, b: uint32): Trail<uint32> {
    if b == 0 then Nothing() else Walk(disk, level, b)
  }

  function BeforeZero(bs: seq<uint32>): (r: seq<uint32>)
    ensures |r| <= |bs| && r == bs[..|r|] && 0 !in r && (|r| < |bs| ==> bs[|r|] == 0)
  {
    if bs == [] || bs[0] == 0 then [] else [bs[0]] + BeforeZero(bs[1..])
  }

  function Ones(bs: seq<uint32>): (r: seq<Range>)
    ensures |r| == |bs| && forall i :: 0 <= i < |bs| ==> r[i] == One(bs[i])
  {
    seq(|bs|, i requires 0 <= i < |bs| => One(bs[i]))
  }

  function ReadBlocks(disk: Disk, inode: Inode): Trail<uint32> {
    var run := BeforeZero(inode.direct);
    var direct := Trail(true, run, Ones(run));
    if |run| < |inode.direct| then direct
    else
      Then(Then(Then(direct, WalkRoot(disk, 1, inode.single)), WalkRoot(disk, 2, inode.double)),
           WalkRoot(disk, 3, inode.triple))
  }

  /** The first `n` blocks are mapped and no other is. */
  ghost predicate Solid(s: seq<uint32>, n: nat) {
    n <= |s| && (forall i :: 0 <= i < n ==> s[i] != 0) && forall i :: n <= i < |s| ==> s[i] == 0
  }

  function AtMost(n: nat, max: nat): (r: nat)
    ensures r <= n && r <= max
  {
    if n <= max then n else max
  }

  lemma {:induction false} SolidSplit(a: seq<uint32>, b: seq<uint32>, n: nat)
    requires Solid(a + b, n)
    ensures var k := AtMost(n, |a|);
      && n - k <= |b| && Solid(a, k) && Solid(b, n - k)
      && (a + b)[..n] == a[..k] + b[..n - k]
  {
    assert forall i :: 0 <= i < |a| ==> (a + b)[i] == a[i];
    assert forall i :: 0 <= i < |b| ==> (a + b)[|a| + i] == b[i];
  }

  /** A walk over a tree without holes lists exactly what the tree maps. */
  lemma {:induction false} WalkLists(disk: Disk, level: nat, b: uint32, n: nat)
    requires ValidDisk(disk) && b != 0 && Walk(disk, level, b).ok && Solid(Full(disk, level, b), n)
    ensures Walk(disk, level, b).items == Full(disk, level, b)[..n]
    decreases level, 0, 0
  {
    hide Pow;
    if level == 0 {
      assert Full(disk, 0, b)[0] == b;
      assert Full(disk, 0, b)[..1] == [b];
    } else {
      WalkEachLists(disk, level - 1, disk.read(b).value, n);
      assert [] + WalkEach(disk, level - 1, disk.read(b).value).items
          == WalkEach(disk, level - 1, disk.read(b).value).items;
    }
  }

  lemma {:induction false} WalkEachLists(disk: Disk, level: nat, bs: seq<uint32>, n: nat)
    requires ValidDisk(disk) && WalkEach(disk, level, bs).ok && Solid(FullEach(disk, level, bs), n)
    ensures WalkEach(disk, level, bs).items == FullEach(disk, level, bs)[..n]
    decreases level, 1, |bs|
  {
    hide Walk, Full, Pow, Solid;
    if bs != [] {
      var x, y := Full(disk, level, bs[0]), FullEach(disk, level, bs[1..]);
      SolidSplit(x, y, n);
      if bs[0] == 0 {
        HoleFirst(disk, level, y, n);
      } else {
        var k := AtMost(n, |x|);
        WalkLists(disk, level, bs[0], k);
        WalkEachLists(disk, level, bs[1..], n - k);
        assert [] + x[..k] == x[..k];
      }
    } else {
      SolidEmpty(n);
    }
  }

  lemma {:induction false} SolidEmpty(n: nat)
    requires Solid([], n)
    ensures n == 0
  {
  }

  lemma {:induction false} HoleFirst(disk: Disk, level: nat, rest: seq<uint32>, n: nat)
    requires ValidDisk(disk) && Solid(Full(disk, level, 0) + rest, n)
    ensures n == 0
  {
    FullOfHole(disk, level);
    PowPositive(disk.perBlock, level);
    assert (Full(disk, level, 0) + rest)[0] == 0;
  }

  lemma {:induction false} RootLists(disk: Disk, level: nat, b: uint32, n: nat)
    requires ValidDisk(disk) && WalkRoot(disk, level, b).ok && Solid(Full(disk, level, b), n)
    ensures WalkRoot(disk, level, b).items == Full(disk, level, b)[..n]
  {
    if b == 0 {
      assert Full(disk, level, 0) + [] == Full(disk, level, 0);
      HoleFirst(disk, level, [], n);
    } else {
      WalkLists(disk, level, b, n);
    }
  }

  lemma {:induction false} ListNeverZero(disk: Disk, level: nat, b: uint32)
    requires b != 0
    ensures 0 !in Walk(disk, level, b).items
    decreases level, 0, 0
  {
    if level > 0 && disk.read(b).Some? {
      ListEachNeverZero(disk, level - 1, disk.read(b).value);
    }
  }

  lemma {:induction false} ListEachNeverZero(disk: Disk, level: nat, bs: seq<uint32>)
    ensures 0 !in WalkEach(disk, level, bs).items
    decreases level, 1, |bs|
  {
    hide Walk;
    if bs != [] && bs[0] != 0 {
      ListNeverZero(disk, level, bs[0]);
      ListEachNeverZero(disk, level, bs[1..]);
    }
  }

  /** For a file that maps nothing past block `n`, the list is right exactly when the file has no hole. */
  lemma {:induction false} ListIsLogical(disk: Disk, inode: Inode, n: nat)
    requires ValidDisk(disk) && |inode.direct| == 12 && ReadBlocks(disk, inode).ok
    requires n <= |Logical(disk, inode)|
    requires forall i :: n <= i < |Logical(disk, inode)| ==> Logical(disk, inode)[i] == 0
    ensures ReadBlocks(disk, inode).items == Logical(disk, inode)[..n]
       <==> (forall i :: 0 <= i < n ==> Logical(disk, inode)[i] != 0)
  {
    hide Walk, Full;
    var l := Logical(disk, inode);
    if forall i :: 0 <= i < n ==> l[i] != 0 {
      SolidFile(disk, inode, n);
    }
    if ReadBlocks(disk, inode).items == l[..n] {
      NeverZero(disk, inode);
      forall i | 0 <= i < n
        ensures l[i] != 0
      {
        assert l[..n][i] in ReadBlocks(disk, inode).items;
      }
    }
  }

  lemma {:induction false} NeverZero(disk: Disk, inode: Inode)
    ensures 0 !in ReadBlocks(disk, inode).items
  {
    hide Walk;
    if inode.single != 0 {
      ListNeverZero(disk, 1, inode.single);
    }
    if inode.double != 0 {
      ListNeverZero(disk, 2, inode.double);
    }
    if inode.triple != 0 {
      ListNeverZero(disk, 3, inode.triple);
    }
  }

  lemma {:induction false} SolidFile(disk: Disk, inode: Inode, n: nat)
    requires ValidDisk(disk) && |inode.direct| == 12 && ReadBlocks(disk, inode).ok
    requires Solid(Logical(disk, inode), n)
    ensures ReadBlocks(disk, inode).items == Logical(disk, inode)[..n]
  {
    hide Walk, Full, WalkRoot, Solid, Then, AtMost;
    var run := BeforeZero(inode.direct);
    var d, s := inode.direct, Full(disk, 1, inode.single);
    var m, t := Full(disk, 2, inode.double), Full(disk, 3, inode.triple);
    var n2 := AtMost(n, |d + s + m|);
    var n1 := AtMost(n2, |d + s|);
    var n0 := AtMost(n1, |d|);
    FourSolid(d, s, m, t, n);
    DirectRun(d, n0);
    if |run| == |d| {
      ThreeRoots(disk, inode);
      RootLists(disk, 1, inode.single, n1 - n0);
      RootLists(disk, 2, inode.double, n2 - n1);
      RootLists(disk, 3, inode.triple, n - n2);
    }
  }

  lemma {:induction false} FourSolid(d: seq<uint32>, s: seq<uint32>, m: seq<uint32>, t: seq<uint32>, n: nat)
    requires Solid(d + s + m + t, n)
    ensures var n2 := AtMost(n, |d + s + m|); var n1 := AtMost(n2, |d + s|); var n0 := AtMost(n1, |d|);
      && Solid(d, n0) && Solid(s, n1 - n0) && Solid(m, n2 - n1) && Solid(t, n - n2)
      && n1 - n0 <= |s| && n2 - n1 <= |m| && n - n2 <= |t|
      && (d + s + m + t)[..n] == d[..n0] + s[..n1 - n0] + m[..n2 - n1] + t[..n - n2]
      && (n0 < |d| ==> n0 == n)
  {
    hide Solid;
    var n2 := AtMost(n, |d + s + m|);
    var n1 := AtMost(n2, |d + s|);
    SolidSplit(d + s + m, t, n);
    SolidSplit(d + s, m, n2);
    SolidSplit(d, s, n1);
  }

  lemma {:induction false} ThreeRoots(disk: Disk, inode: Inode)
    requires ReadBlocks(disk, inode).ok && |BeforeZero(inode.direct)| == |inode.direct|
    ensures var a, b := WalkRoot(disk, 1, inode.single), WalkRoot(disk, 2, inode.double);
      var c := WalkRoot(disk, 3, inode.triple);
      && a.ok && b.ok && c.ok
      && ReadBlocks(disk, inode).items == BeforeZero(inode.direct) + a.items + b.items + c.items
  {
    hide BeforeZero, WalkRoot;
  }

  lemma {:induction false} DirectRun(d: seq<uint32>, n: nat)
    requires Solid(d, n)
    ensures BeforeZero(d) == d[..n]
  {
    var run := BeforeZero(d);
    if |run| > 0 {
      assert run[|run| - 1] in run;
      assert d[|run| - 1] == run[|run| - 1];
    }
    assert |run| <= n;
    assert |run| < |d| ==> d[|run|] == 0;
  }
}
