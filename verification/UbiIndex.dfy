/** The in-memory UBIFS index tree and its range search (fs/ubi.c). */
module UbiIndex {
  import opened Base

  /** The low 29 bits of a key hold a name hash or a block number, the 3 bits above them the node type. */
  const HASH_MASK: uint32 := 0x1FFF_FFFF

  const INO_KEY: byte := 0
  const DATA_KEY: byte := 1
  const DENT_KEY: byte := 2

  /** An index entry. It is a leaf, pointing at a file node, unless a child branch has been attached to it. */
  datatype Entry = Entry(key0: uint32, key1: uint32, lnum: uint32, offs: uint32, child: Option<Branch>)

  datatype Branch = Branch(level: uint16, entries: seq<Entry>)

  function MakeU64(msb: uint32, lsb: uint32): uint64 {
    msb * 0x1_0000_0000 + lsb
  }

  function Key(e: Entry): uint64 {
    MakeU64(e.key0, e.key1)
  }

  function Hash(e: Entry): uint32 {
    e.key1 % 0x2000_0000
  }

  function MakeKey(keytype: byte, key0: uint32, hash: uint32): uint64 {
    MakeU64(key0, (keytype % 8) * 0x2000_0000 + hash % 0x2000_0000)
  }

  function ClearHash(key: uint64): uint64 {
    key - key % 0x2000_0000
  }

  /** The leaves below a branch, in tree order. */
  function Leaves(b: Branch): seq<Entry>
    decreases b
  {
    LeavesOf(b.entries)
  }

  function LeavesOf(es: seq<Entry>): seq<Entry>
    decreases es
  {
    if es == [] then [] else EntryLeaves(es[0]) + LeavesOf(es[1..])
  }

  function EntryLeaves(e: Entry): seq<Entry>
    decreases e
  {
    if e.child.Some? then Leaves(e.child.value) else [e]
  }

  ghost predicate Sorted(es: seq<Entry>) {
    forall i, j :: 0 <= i < j < |es| ==> Key(es[i]) <= Key(es[j])
  }

  predicate HasBranches(b: Branch) {
    |b.entries| > 0 && b.entries[0].child.Some?
  }

  /**
   * What a loaded index guarantees: a branch has child branches on all of its entries or on none,
   * child branches are not empty, the first key of a child branch bounds its leaves from below,
   * and the leaves are in key order.
   */
  ghost predicate WellFormed(b: Branch)
    decreases b, 0
  {
    && (forall e :: e in b.entries ==> e.child.Some? == HasBranches(b))
    && (forall e :: e in b.entries && e.child.Some? ==> WellFormedChild(e.child.value))
    && Sorted(Leaves(b))
  }

  ghost predicate WellFormedChild(b: Branch)
    decreases b, 1
  {
    && |b.entries| > 0
    && WellFormed(b)
    && forall l :: l in Leaves(b) ==> Key(b.entries[0]) <= Key(l)
  }

  predicate InRange(e: Entry, lo: uint64, hi: uint64) {
    lo <= Key(e) <= hi
  }

  /** The specification of the search: the first entry whose key lies between `lo` and `hi`. */
  function FirstIn(es: seq<Entry>, lo: uint64, hi: uint64): (r: Option<Entry>)
    ensures r.None? <==> forall e :: e in es ==> !InRange(e, lo, hi)
    ensures r.Some? ==> r.value in es && InRange(r.value, lo, hi)
  {
    if es == [] then None
    else if InRange(es[0], lo, hi) then Some(es[0])
    else FirstIn(es[1..], lo, hi)
  }

  /** An entry of that inode and type whose hash or block number lies between two bounds, all cut to their fields. */
  ghost predicate Between(e: Entry, keytype: byte, ino: uint32, lo: uint32, hi: uint32) {
    && e.key0 == ino
    && keytype * 0x2000_0000 + lo % 0x2000_0000 <= e.key1 <= keytype * 0x2000_0000 + hi % 0x2000_0000
  }

  lemma {:induction false} RangeMeans(e: Entry, keytype: byte, ino: uint32, lo: uint32, hi: uint32)
    requires keytype < 8
    ensures InRange(e, MakeKey(keytype, ino, lo), MakeKey(keytype, ino, hi)) <==> Between(e, keytype, ino, lo, hi)
  {
  }

  /** What is found is the first entry that fits, and nothing is found when none does. */
  lemma {:induction false} FirstInMeans(es: seq<Entry>, keytype: byte, ino: uint32, lo: uint32, hi: uint32)
    requires keytype < 8
    ensures var r := FirstIn(es, MakeKey(keytype, ino, lo), MakeKey(keytype, ino, hi));
      if r.None? then forall e :: e in es ==> !Between(e, keytype, ino, lo, hi)
      else exists i :: 0 <= i < |es| && r.value == es[i] && Between(es[i], keytype, ino, lo, hi)
                       && forall j :: 0 <= j < i ==> !Between(es[j], keytype, ino, lo, hi)
  {
    hide MakeKey, InRange, Between;
    if es != [] {
      RangeMeans(es[0], keytype, ino, lo, hi);
      if !Between(es[0], keytype, ino, lo, hi) {
        FirstInMeans(es[1..], keytype, ino, lo, hi);
        var r := FirstIn(es[1..], MakeKey(keytype, ino, lo), MakeKey(keytype, ino, hi));
        if r.Some? {
          var i :| 0 <= i < |es[1..]| && r.value == es[1..][i] && Between(es[1..][i], keytype, ino, lo, hi)
                   && forall j :: 0 <= j < i ==> !Between(es[1..][j], keytype, ino, lo, hi);
          assert es[i + 1] == es[1..][i];
          assert forall j :: 0 < j < i + 1 ==> es[j] == es[1..][j - 1];
        }
      }
    }
  }

  lemma {:induction false} FirstInConcat(a: seq<Entry>, b: seq<Entry>, lo: uint64, hi: uint64)
    ensures FirstIn(a + b, lo, hi) == if FirstIn(a, lo, hi).Some? then FirstIn(a, lo, hi) else FirstIn(b, lo, hi)
  {
    if a == [] {
      assert a + b == b;
    } else {
      assert (a + b)[1..] == a[1..] + b;
      FirstInConcat(a[1..], b, lo, hi);
    }
  }

  lemma {:induction false} LeavesOfConcat(a: seq<Entry>, b: seq<Entry>)
    ensures LeavesOf(a + b) == LeavesOf(a) + LeavesOf(b)
    decreases |a|
  {
    if a == [] {
      assert a + b == b;
    } else {
      assert (a + b)[1..] == a[1..] + b;
      LeavesOfConcat(a[1..], b);
    }
  }

  /** The leaves of a branch, split after its `i`-th child. */
  lemma {:induction false} LeavesAround(es: seq<Entry>, i: nat)
    requires i < |es|
    ensures LeavesOf(es) == LeavesOf(es[..i + 1]) + LeavesOf(es[i + 1..])
    ensures LeavesOf(es[..i + 1]) == LeavesOf(es[..i]) + EntryLeaves(es[i])
  {
    LeavesSplit(es, es[..i + 1], es[i + 1..]);
    LeavesAppend(es[..i + 1], es[..i], es[i]);
  }

  lemma {:induction false} LeavesAppend(es: seq<Entry>, a: seq<Entry>, e: Entry)
    requires es == a + [e]
    ensures LeavesOf(es) == LeavesOf(a) + EntryLeaves(e)
  {
    LeavesSplit(es, a, [e]);
    SingleEntry(e);
  }

  lemma {:induction false} LeavesSplit(es: seq<Entry>, a: seq<Entry>, b: seq<Entry>)
    requires es == a + b
    ensures LeavesOf(es) == LeavesOf(a) + LeavesOf(b)
  {
    LeavesOfConcat(a, b);
  }

  lemma {:induction false} SingleEntry(e: Entry)
    ensures LeavesOf([e]) == EntryLeaves(e)
  {
    assert [e][1..] == [];
  }

  lemma {:induction false} LeavesOfLeafLevel(es: seq<Entry>)
    requires forall e :: e in es ==> e.child.None?
    ensures LeavesOf(es) == es
    decreases |es|
  {
    if es != [] {
      LeavesOfLeafLevel(es[1..]);
    }
  }

  function MaxKey(b: Branch): uint64
    requires WellFormedChild(b)
    decreases b
  {
    var last := b.entries[|b.entries| - 1];
    assert WellFormed(b) && last in b.entries;
    if last.child.Some? then MaxKey(last.child.value) else Key(last)
  }

  /** The rightmost descent reaches the last leaf, which holds the greatest key of the branch. */
  lemma {:induction false} MaxKeyIsLast(b: Branch)
    requires WellFormedChild(b)
    ensures Leaves(b) != []
    ensures MaxKey(b) == Key(Leaves(b)[|Leaves(b)| - 1])
    ensures forall l :: l in Leaves(b) ==> Key(l) <= MaxKey(b)
    decreases b
  {
    var n := |b.entries| - 1;
    LeavesAround(b.entries, n);
    assert b.entries[n + 1..] == [];
    var last := b.entries[n];
    assert last in b.entries;
    if last.child.Some? {
      MaxKeyIsLast(last.child.value);
    }
  }

  /** A key whose hash bits are cleared to above `lo` is above every key of the inode and type of `lo`. */
  lemma {:induction false} ClearedAbove(keytype: byte, key0: uint32, hashMin: uint32, hashMax: uint32, key: uint64)
    requires ClearHash(key) > MakeKey(keytype, key0, hashMin)
    ensures key > MakeKey(keytype, key0, hashMax)
  {
    var inode, cleared := key0 * 8 + keytype % 8, key / 0x2000_0000;
    assert MakeKey(keytype, key0, hashMin) == inode * 0x2000_0000 + hashMin % 0x2000_0000;
    assert ClearHash(key) == cleared * 0x2000_0000;
    assert cleared > inode;
  }

  /** Scan of one branch whose entries are all leaves. */
  method BranchFindLeaf(b: Branch, lo: uint64, hi: uint64) returns (r: Option<Entry>)
    ensures r == FirstIn(b.entries, lo, hi)
  {
    for i := 0 to |b.entries|
      invariant FirstIn(b.entries, lo, hi) == FirstIn(b.entries[i..], lo, hi)
    {
      var key := Key(b.entries[i]);
      if lo == hi && lo == key {
        return Some(b.entries[i]);
      }
      if key >= lo && key <= hi {
        return Some(b.entries[i]);
      }
    }
    return None;
  }

  /** The range search returns the first leaf of the tree in range, and nothing exactly when no leaf is. */
  method Find(root: Branch, keytype: byte, key0: uint32, hashMin: uint32, hashMax: uint32)
    returns (r: Option<Entry>)
    requires WellFormed(root)
    ensures r == FirstIn(Leaves(root), MakeKey(keytype, key0, hashMin), MakeKey(keytype, key0, hashMax))
    decreases root
  {
    var lo := MakeKey(keytype, key0, hashMin);
    var hi := MakeKey(keytype, key0, hashMax);
    if !HasBranches(root) {
      LeavesOfLeafLevel(root.entries);
      r := BranchFindLeaf(root, lo, hi);
      return;
    }
    for i := 0 to |root.entries|
      invariant FirstIn(LeavesOf(root.entries[..i]), lo, hi).None?
    {
      var b := root.entries[i].child.value;
      assert root.entries[i] in root.entries;
      var branchMin := ClearHash(Key(b.entries[0]));
      var branchMax := MaxKey(b);
      SplitSearch(root, i, lo, hi);
      if branchMin > lo {
        ClearedAbove(keytype, key0, hashMin, hashMax, Key(b.entries[0]));
        return None;
      }
      if branchMax < lo {
        continue;
      }
      if HasBranches(b) {
        r := Find(b, keytype, key0, hashMin, hashMax);
        return;
      }
      LeavesOfLeafLevel(b.entries);
      r := BranchFindLeaf(b, lo, hi);
      if r.Some? {
        return;
      }
    }
    assert root.entries[..|root.entries|] == root.entries;
    return None;
  }

  /** The leaves after child `i` are not below any of its own. */
  lemma {:induction false} LaterLeaves(root: Branch, i: nat)
    requires WellFormed(root) && i < |root.entries| && HasBranches(root)
    ensures root.entries[i].child.Some? && WellFormedChild(root.entries[i].child.value)
    ensures var b := root.entries[i].child.value;
      && Leaves(root) == LeavesOf(root.entries[..i]) + Leaves(b) + LeavesOf(root.entries[i + 1..])
      && (forall l :: l in Leaves(b) ==> Key(b.entries[0]) <= Key(l) <= MaxKey(b))
      && (forall l :: l in LeavesOf(root.entries[i + 1..]) ==> MaxKey(b) <= Key(l))
      && (exists l :: l in Leaves(b) && Key(l) == MaxKey(b))
  {
    var es := root.entries;
    assert es[i] in es;
    var b := es[i].child.value;
    LeavesAround(es, i);
    MaxKeyIsLast(b);
    var before, own, after := LeavesOf(es[..i]), Leaves(b), LeavesOf(es[i + 1..]);
    var all := Leaves(root);
    assert all == before + own + after;
    assert own[|own| - 1] in own;
    forall k | 0 <= k < |after|
      ensures MaxKey(b) <= Key(after[k])
    {
      assert all[|before| + |own| - 1] == own[|own| - 1];
      assert all[|before| + |own| + k] == after[k];
    }
  }

  /** How the search splits at child `i`, when nothing before it is in range. */
  lemma {:induction false} SplitSearch(root: Branch, i: nat, lo: uint64, hi: uint64)
    requires WellFormed(root) && i < |root.entries| && HasBranches(root)
    requires FirstIn(LeavesOf(root.entries[..i]), lo, hi).None?
    ensures root.entries[i].child.Some? && WellFormedChild(root.entries[i].child.value)
    ensures var b := root.entries[i].child.value;
      && (MaxKey(b) < lo ==> FirstIn(Leaves(b), lo, hi).None?)
      && FirstIn(LeavesOf(root.entries[..i + 1]), lo, hi) == FirstIn(Leaves(b), lo, hi)
      && (FirstIn(Leaves(b), lo, hi).Some? ==> FirstIn(Leaves(root), lo, hi) == FirstIn(Leaves(b), lo, hi))
      && (Key(b.entries[0]) > hi || (MaxKey(b) >= lo && FirstIn(Leaves(b), lo, hi).None?) ==>
            FirstIn(Leaves(root), lo, hi).None?)
  {
    LaterLeaves(root, i);
    var b := root.entries[i].child.value;
    var before, own, after := LeavesOf(root.entries[..i]), Leaves(b), LeavesOf(root.entries[i + 1..]);
    LeavesAround(root.entries, i);
    FirstInConcat(before, own, lo, hi);
    FirstInConcat(before + own, after, lo, hi);
  }
}
