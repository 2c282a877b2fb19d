/** Inodes, and sweeps over the directory entries or data nodes of one (fs/ubi.c). */
module UbiFiles {
  import opened Base
  import opened UbiIndex

  const BLOCK_SIZE := 4096

  const ITYPE_REG: byte := 0
  const ITYPE_DIR: byte := 1
  const ITYPE_LNK: byte := 2
  const ITYPES_CNT: byte := 7

  /**
   * A node read through an index entry. `plain` is what decompression produced,
   * or nothing when the decompressor reported an error.
   */
  datatype Node =
    | InodeNode(size: uint64)
    | DentNode(inum: uint64, kind: byte, name: string)
    | DataNode(stored: uint32, plain: Option<seq<byte>>)
    | OtherNode

  /** A file system: its index, and what reading the node of an entry yields (nothing if the node is damaged). */
  datatype Volume = Volume(root: Branch, read: Entry -> Option<Node>)

  predicate OfInode(e: Entry, keytype: byte, ino: uint32) {
    e.key0 == ino && e.key1 / 0x2000_0000 == keytype
  }

  /** The leaves of one inode and node type, in tree order. */
  function InodeLeaves(es: seq<Entry>, keytype: byte, ino: uint32): seq<Entry> {
    if es == [] then []
    else (if OfInode(es[0], keytype, ino) then [es[0]] else []) + InodeLeaves(es[1..], keytype, ino)
  }

  lemma {:induction false} InodeLeavesMembers(es: seq<Entry>, keytype: byte, ino: uint32)
    ensures forall e :: e in InodeLeaves(es, keytype, ino) <==> e in es && OfInode(e, keytype, ino)
  {
    if es != [] {
      InodeLeavesMembers(es[1..], keytype, ino);
    }
  }

  function Dents(v: Volume, ino: uint32): seq<Entry> {
    InodeLeaves(Leaves(v.root), DENT_KEY, ino)
  }

  function DataLeaves(v: Volume, ino: uint32): seq<Entry> {
    InodeLeaves(Leaves(v.root), DATA_KEY, ino)
  }

  ghost predicate HashOrdered(es: seq<Entry>) {
    forall i, j :: 0 <= i < j < |es| ==> Hash(es[i]) <= Hash(es[j])
  }

  ghost predicate HashDistinct(es: seq<Entry>) {
    forall i, j :: 0 <= i < j < |es| ==> Hash(es[i]) != Hash(es[j])
  }

  lemma {:induction false} RangeOfInode(e: Entry, keytype: byte, ino: uint32, hash: uint32)
    requires keytype < 8
    ensures InRange(e, MakeKey(keytype, ino, hash), MakeKey(keytype, ino, 0xFFFF_FFFF))
       <==> OfInode(e, keytype, ino) && hash % 0x2000_0000 <= Hash(e)
  {
    var top := e.key0 * 8 + e.key1 / 0x2000_0000;
    var inode := ino * 8 + keytype;
    assert Key(e) == top * 0x2000_0000 + Hash(e);
    assert MakeKey(keytype, ino, hash) == inode * 0x2000_0000 + hash % 0x2000_0000;
    assert MakeKey(keytype, ino, 0xFFFF_FFFF) == inode * 0x2000_0000 + 0x1FFF_FFFF;
    assert top == inode <==> OfInode(e, keytype, ino);
  }

  function FirstFrom(es: seq<Entry>, hash: uint32): Option<Entry> {
    if es == [] then None
    else if hash <= Hash(es[0]) then Some(es[0])
    else FirstFrom(es[1..], hash)
  }

  /** A search up to the greatest hash is a search among the leaves of that inode and type alone. */
  lemma {:induction false} SearchWithinInode(es: seq<Entry>, keytype: byte, ino: uint32, hash: uint32)
    requires keytype < 8 && hash < 0x2000_0000
    ensures FirstIn(es, MakeKey(keytype, ino, hash), MakeKey(keytype, ino, 0xFFFF_FFFF))
         == FirstFrom(InodeLeaves(es, keytype, ino), hash)
  {
    var lo, hi := MakeKey(keytype, ino, hash), MakeKey(keytype, ino, 0xFFFF_FFFF);
    forall e | e in es
      ensures InRange(e, lo, hi) <==> OfInode(e, keytype, ino) && hash <= Hash(e)
    {
      RangeOfInode(e, keytype, ino, hash);
    }
    SearchWithinRange(es, keytype, ino, hash, lo, hi);
  }

  lemma {:induction false} SearchWithinRange(es: seq<Entry>, keytype: byte, ino: uint32, hash: uint32, lo: uint64,
                                             hi: uint64)
    requires forall e :: e in es ==> (InRange(e, lo, hi) <==> OfInode(e, keytype, ino) && hash <= Hash(e))
    ensures FirstIn(es, lo, hi) == FirstFrom(InodeLeaves(es, keytype, ino), hash)
  {
    if es != [] {
      SearchWithinRange(es[1..], keytype, ino, hash, lo, hi);
      assert es[0] in es;
      if OfInode(es[0], keytype, ino) {
        assert InodeLeaves(es, keytype, ino)[1..] == InodeLeaves(es[1..], keytype, ino);
      } else {
        assert InodeLeaves(es, keytype, ino) == InodeLeaves(es[1..], keytype, ino);
      }
    }
  }

  lemma {:induction false} InodeLeavesOrdered(es: seq<Entry>, keytype: byte, ino: uint32)
    requires Sorted(es)
    ensures HashOrdered(InodeLeaves(es, keytype, ino))
  {
    if es != [] {
      var rest := InodeLeaves(es[1..], keytype, ino);
      InodeLeavesOrdered(es[1..], keytype, ino);
      InodeLeavesMembers(es[1..], keytype, ino);
      if OfInode(es[0], keytype, ino) {
        forall e | e in rest
          ensures Hash(es[0]) <= Hash(e)
        {
          assert e in es[1..];
          assert Key(es[0]) <= Key(e);
        }
      }
    }
  }

  /**
   * What a sweep "search from the last hash + 1" visits: the entries from `hash` on,
   * and of several entries with equal hash only the first.
   */
  function Sweep(es: seq<Entry>, hash: nat): seq<Entry> {
    if es == [] then []
    else if Hash(es[0]) < hash then Sweep(es[1..], hash)
    else [es[0]] + Sweep(es[1..], Hash(es[0]) + 1)
  }

  lemma {:induction false} SweepStep(es: seq<Entry>, hash: uint32)
    requires HashOrdered(es)
    ensures Sweep(es, hash) == match FirstFrom(es, hash)
                               case None => []
                               case Some(e) => [e] + Sweep(es, Hash(e) + 1)
    ensures FirstFrom(es, hash).Some? ==> FirstFrom(es, hash).value in es && hash <= Hash(FirstFrom(es, hash).value)
  {
    if es != [] && Hash(es[0]) < hash {
      SweepStep(es[1..], hash);
    }
  }

  lemma {:induction false} SweepIsStrict(es: seq<Entry>, hash: nat)
    requires HashOrdered(es)
    ensures forall e :: e in Sweep(es, hash) ==> e in es && hash <= Hash(e)
    ensures forall i, j :: 0 <= i < j < |Sweep(es, hash)| ==> Hash(Sweep(es, hash)[i]) < Hash(Sweep(es, hash)[j])
  {
    if es != [] {
      SweepIsStrict(es[1..], if Hash(es[0]) < hash then hash else Hash(es[0]) + 1);
    }
  }

  lemma {:induction false} SweepAll(es: seq<Entry>, hash: nat)
    requires HashOrdered(es) && HashDistinct(es)
    requires forall e :: e in es ==> hash <= Hash(e)
    ensures Sweep(es, hash) == es
  {
    if es != [] {
      SweepAll(es[1..], Hash(es[0]) + 1);
    }
  }

  /** Every entry is visited, once and in order, exactly when no two of them share a hash. */
  lemma {:induction false} SweepComplete(es: seq<Entry>)
    requires HashOrdered(es)
    ensures Sweep(es, 0) == es <==> HashDistinct(es)
  {
    if HashDistinct(es) {
      SweepAll(es, 0);
    }
    SweepIsStrict(es, 0);
  }

  /** The next lower bound of the sweep, with its clamp at the greatest hash. */
  function NextHash(e: Entry): uint32 {
    if Hash(e) == HASH_MASK then HASH_MASK else ((e.key1 + 1) % 0x1_0000_0000) % 0x2000_0000
  }

  lemma {:induction false} NextHashValue(e: Entry)
    ensures NextHash(e) == if Hash(e) == HASH_MASK then HASH_MASK else Hash(e) + 1
  {
    assert e.key1 == e.key1 / 0x2000_0000 * 0x2000_0000 + Hash(e);
  }

  /** The sweep moves on unless it has reached the greatest hash; there it finds the same entry for ever. */
  lemma {:induction false} SweepProgress(es: seq<Entry>, hash: uint32, e: Entry)
    requires HashOrdered(es) && hash < 0x2000_0000 && FirstFrom(es, hash) == Some(e)
    ensures NextHash(e) > hash <==> hash < HASH_MASK
    ensures Hash(e) < HASH_MASK ==> NextHash(e) == Hash(e) + 1
    ensures Hash(e) == HASH_MASK ==> NextHash(e) == HASH_MASK && FirstFrom(es, NextHash(e)) == Some(e)
  {
    SweepStep(es, hash);
    NextHashValue(e);
    if Hash(e) == HASH_MASK {
      StuckAtGreatest(es, hash, e);
    }
  }

  lemma {:induction false} StuckAtGreatest(es: seq<Entry>, hash: uint32, e: Entry)
    requires HashOrdered(es) && FirstFrom(es, hash) == Some(e) && Hash(e) == HASH_MASK
    ensures hash <= HASH_MASK && FirstFrom(es, HASH_MASK) == Some(e)
  {
    if Hash(es[0]) < hash {
      StuckAtGreatest(es[1..], hash, e);
    }
  }

  // When the listing loop ends.

  /**
   * A loop that searches on from the last hash ends within a number of rounds: nothing more is found, or the
   * turn of an entry fails.
   */
  ghost predicate LoopEnds(es: seq<Entry>, good: Entry -> bool, hash: uint32, rounds: nat)
    decreases rounds
  {
    rounds > 0
    && var next := FirstFrom(es, hash);
       next.None? || !good(next.value) || LoopEnds(es, good, NextHash(next.value), rounds - 1)
  }

  /** All turns succeed, and the last of them is that of an entry with the greatest hash. */
  ghost predicate Stuck(sweep: seq<Entry>, good: Entry -> bool) {
    && sweep != [] && Hash(sweep[|sweep| - 1]) == HASH_MASK
    && forall e :: e in sweep ==> good(e)
  }

  /** The loop over a directory ends exactly unless it is stuck at the greatest hash. */
  lemma {:induction false} SweepStops(es: seq<Entry>, good: Entry -> bool)
    requires HashOrdered(es)
    ensures (exists rounds :: LoopEnds(es, good, 0, rounds)) <==> !Stuck(Sweep(es, 0), good)
  {
    hide LoopEnds, Sweep, Stuck, HashOrdered;
    if Stuck(Sweep(es, 0), good) {
      forall rounds
        ensures !LoopEnds(es, good, 0, rounds)
      {
        StuckGoesOn(es, good, 0, rounds);
      }
    } else {
      LoopEndsInTime(es, good, 0);
      var rounds: nat := HASH_MASK + 1;
      assert LoopEnds(es, good, 0, rounds);
    }
  }

  lemma {:induction false} FirstFromFinds(es: seq<Entry>, hash: uint32, e: Entry)
    requires e in es && hash <= Hash(e)
    ensures FirstFrom(es, hash).Some?
  {
    if Hash(es[0]) < hash {
      FirstFromFinds(es[1..], hash, e);
    }
  }

  /** A sweep from a hash on that holds the greatest hash stays stuck. */
  lemma {:induction false} StuckStep(es: seq<Entry>, good: Entry -> bool, hash: uint32)
    requires HashOrdered(es) && hash <= HASH_MASK && Stuck(Sweep(es, hash), good)
    ensures FirstFrom(es, hash).Some?
    ensures var e := FirstFrom(es, hash).value;
      good(e) && NextHash(e) <= HASH_MASK && Stuck(Sweep(es, NextHash(e)), good)
  {
    hide Sweep, HashOrdered, Hash, FirstFrom;
    var all := Sweep(es, hash);
    SweepStep(es, hash);
    var e := FirstFrom(es, hash).value;
    var rest := Sweep(es, Hash(e) + 1);
    assert all[0] == e && e in all;
    NextHashValue(e);
    if Hash(e) == HASH_MASK {
      StuckAtGreatest(es, hash, e);
      SweepStep(es, HASH_MASK);
      NothingBehind(es, HASH_MASK + 1);
      assert Sweep(es, HASH_MASK) == all;
    } else {
      assert rest == [] ==> all == [e];
      assert rest[|rest| - 1] == all[|all| - 1];
      assert forall d :: d in rest ==> d in all;
    }
  }

  lemma {:induction false} StuckGoesOn(es: seq<Entry>, good: Entry -> bool, hash: uint32, rounds: nat)
    requires HashOrdered(es) && hash <= HASH_MASK && Stuck(Sweep(es, hash), good)
    ensures !LoopEnds(es, good, hash, rounds)
    decreases rounds
  {
    hide Sweep, Stuck, HashOrdered, FirstFrom;
    if rounds > 0 {
      StuckStep(es, good, hash);
      StuckGoesOn(es, good, NextHash(FirstFrom(es, hash).value), rounds - 1);
    }
  }

  lemma {:induction false} NothingBehind(es: seq<Entry>, hash: nat)
    requires hash > HASH_MASK
    ensures Sweep(es, hash) == []
  {
    if es != [] {
      NothingBehind(es[1..], hash);
    }
  }

  /** A good entry in front of a sweep that is stuck, or with the greatest hash itself, makes a stuck sweep. */
  lemma {:induction false} StuckFront(es: seq<Entry>, good: Entry -> bool, hash: uint32, e: Entry)
    requires HashOrdered(es) && FirstFrom(es, hash) == Some(e) && good(e)
    ensures Hash(e) >= HASH_MASK || Stuck(Sweep(es, Hash(e) + 1), good) ==> Stuck(Sweep(es, hash), good)
  {
    hide Sweep, HashOrdered, Hash, FirstFrom;
    SweepStep(es, hash);
    HashBound(e);
    var all, rest := Sweep(es, hash), Sweep(es, Hash(e) + 1);
    assert all == [e] + rest;
    if Stuck(rest, good) {
      assert all[|all| - 1] == rest[|rest| - 1];
    } else if Hash(e) >= HASH_MASK {
      NothingBehind(es, Hash(e) + 1);
      assert all == [e];
    }
  }

  lemma {:induction false} HashBound(e: Entry)
    ensures Hash(e) <= HASH_MASK
  {
  }

  lemma {:induction false} LoopEndsInTime(es: seq<Entry>, good: Entry -> bool, hash: uint32)
    requires HashOrdered(es) && hash <= HASH_MASK && !Stuck(Sweep(es, hash), good)
    ensures LoopEnds(es, good, hash, HASH_MASK - hash + 1)
    decreases HASH_MASK - hash
  {
    hide Sweep, Stuck, HashOrdered, FirstFrom, LoopEnds;
    SweepStep(es, hash);
    var next := FirstFrom(es, hash);
    if next.Some? && good(next.value) {
      var e := next.value;
      StuckFront(es, good, hash, e);
      NextHashValue(e);
      LoopEndsInTime(es, good, NextHash(e));
      LoopEndsLater(es, good, NextHash(e), HASH_MASK - NextHash(e) + 1, HASH_MASK - hash);
    }
    LoopEndsNow(es, good, hash, HASH_MASK - hash + 1);
  }

  lemma {:induction false} LoopEndsNow(es: seq<Entry>, good: Entry -> bool, hash: uint32, rounds: nat)
    requires rounds > 0
    requires
      var next := FirstFrom(es, hash);
      next.None? || !good(next.value) || LoopEnds(es, good, NextHash(next.value), rounds - 1)
    ensures LoopEnds(es, good, hash, rounds)
  {
    hide FirstFrom, NextHash;
  }

  lemma {:induction false} LoopEndsLater(es: seq<Entry>, good: Entry -> bool, hash: uint32, rounds: nat, more: nat)
    requires LoopEnds(es, good, hash, rounds) && rounds <= more
    ensures LoopEnds(es, good, hash, more)
    decreases rounds
  {
    hide FirstFrom, NextHash;
    var next := FirstFrom(es, hash);
    if next.Some? && good(next.value) {
      LoopEndsLater(es, good, NextHash(next.value), rounds - 1, more - 1);
    }
  }

  /** One search step of a sweep over the leaves of an inode. */
  method NextLeaf(v: Volume, keytype: byte, ino: uint32, hashMin: uint32) returns (r: Option<Entry>)
    requires WellFormed(v.root) && keytype < 8 && hashMin < 0x2000_0000
    ensures r == FirstFrom(InodeLeaves(Leaves(v.root), keytype, ino), hashMin)
  {
    r := Find(v.root, keytype, ino, hashMin, 0xFFFF_FFFF);
    SearchWithinInode(Leaves(v.root), keytype, ino, hashMin);
  }

  method ReadInode(v: Volume, ino: uint32) returns (r: Option<Node>)
    requires WellFormed(v.root)
    ensures r == InodeOf(v, ino)
  {
    var leaf := Find(v.root, INO_KEY, ino, 0, 0);
    if leaf.None? {
      return None;
    }
    var node := v.read(leaf.value);
    if node.None? || !node.value.InodeNode? {
      return None;
    }
    return node;
  }

  function InodeOf(v: Volume, ino: uint32): Option<Node> {
    var leaf := FirstIn(Leaves(v.root), MakeKey(INO_KEY, ino, 0), MakeKey(INO_KEY, ino, 0));
    if leaf.Some? && v.read(leaf.value).Some? && v.read(leaf.value).value.InodeNode?
    then v.read(leaf.value) else None
  }

  /** The inode is read from the first leaf with its number as key and zero for type and hash. */
  lemma {:induction false} InodeMeans(v: Volume, ino: uint32, i: nat)
    requires i < |Leaves(v.root)| && Leaves(v.root)[i].key0 == ino && Leaves(v.root)[i].key1 == 0
    requires forall j :: 0 <= j < i ==> Leaves(v.root)[j].key0 != ino || Leaves(v.root)[j].key1 != 0
    ensures var node := v.read(Leaves(v.root)[i]);
      InodeOf(v, ino) == if node.Some? && node.value.InodeNode? then node else None
  {
    hide Leaves, MakeKey, InRange;
    var es := Leaves(v.root);
    FirstInMeans(es, INO_KEY, ino, 0, 0);
    assert es[i] in es;
    assert Between(es[i], INO_KEY, ino, 0, 0);
    assert forall j :: 0 <= j < i ==> !Between(es[j], INO_KEY, ino, 0, 0);
  }

  lemma {:induction false} NoInodeMeans(v: Volume, ino: uint32)
    requires forall e :: e in Leaves(v.root) ==> e.key0 != ino || e.key1 != 0
    ensures InodeOf(v, ino).None?
  {
    hide Leaves, MakeKey, InRange;
    FirstInMeans(Leaves(v.root), INO_KEY, ino, 0, 0);
  }
}
