/** Reassembly of a regular file from its data nodes (fs/ubi.c). */
module UbiUnpack {
  import opened Base
  import opened UbiIndex
  import opened UbiFiles

  /** The node of an entry is found and is a data node. */
  predicate Readable(v: Volume, e: Entry) {
    v.read(e).Some? && v.read(e).value.DataNode?
  }

  /** Its payload decompresses to the size it records. */
  predicate Good(v: Volume, e: Entry) {
    Readable(v, e) && v.read(e).value.plain.Some? && |v.read(e).value.plain.value| == v.read(e).value.stored
  }

  function Plain(v: Volume, e: Entry): seq<byte> {
    if Good(v, e) then v.read(e).value.plain.value else []
  }

  /** The file offset of a block, computed in 32 bits. */
  function Offset(blk: uint32): uint32 {
    (blk * BLOCK_SIZE) % 0x1_0000_0000
  }

  /** The 32-bit product is the true offset exactly below 4 GiB; block 0x100000 lands on offset 0. */
  lemma {:induction false} OffsetExact(blk: uint32)
    ensures Offset(blk) == blk * 4096 <==> blk < 0x10_0000
    ensures Offset(0x10_0000) == 0
    ensures Offset(blk) + 4096 <= 0x1_0000_0000
  {
  }

  /** The file after the writes of a list of nodes, one after the other. */
  function Laid(v: Volume, ds: seq<Entry>, file: seq<byte>): seq<byte> {
    if ds == [] then file else Laid(v, ds[1..], WriteAt(file, Offset(Hash(ds[0])), Plain(v, ds[0])))
  }

  lemma {:induction false} LaidAppend(v: Volume, ds: seq<Entry>, e: Entry, file: seq<byte>)
    ensures Laid(v, ds + [e], file) == WriteAt(Laid(v, ds, file), Offset(Hash(e)), Plain(v, e))
    decreases |ds|
  {
    if ds == [] {
      assert [e][1..] == [];
    } else {
      assert (ds + [e])[1..] == ds[1..] + [e];
      LaidAppend(v, ds[1..], e, WriteAt(file, Offset(Hash(ds[0])), Plain(v, ds[0])));
    }
  }

  lemma {:induction false} LaidConcat(v: Volume, a: seq<Entry>, b: seq<Entry>, file: seq<byte>)
    ensures Laid(v, a + b, file) == Laid(v, b, Laid(v, a, file))
    decreases |a|
  {
    if a == [] {
      assert a + b == b;
    } else {
      assert (a + b)[1..] == a[1..] + b;
      LaidConcat(v, a[1..], b, WriteAt(file, Offset(Hash(a[0])), Plain(v, a[0])));
    }
  }

  /** A file of zeros, made by writing its last byte. */
  function Blank(size: nat): (r: seq<byte>)
    ensures r == Zeros(size)
  {
    if size == 0 then [] else WriteAt([], size - 1, [0])
  }

  /** Where the write of a node ends. */
  function End(v: Volume, e: Entry): nat {
    Offset(Hash(e)) + |Plain(v, e)|
  }

  /** Where the loop stands after a list of writes: behind the last of them. */
  function Position(v: Volume, written: seq<Entry>): nat {
    if written == [] then 0 else End(v, written[|written| - 1])
  }

  /** The nodes that the loop writes, standing at `n`: up to a node that is not good, or to the end of the file. */
  function Written(v: Volume, sweep: seq<Entry>, size: nat, n: nat): seq<Entry> {
    if size <= n || sweep == [] || !Good(v, sweep[0]) then []
    else [sweep[0]] + Written(v, sweep[1..], size, End(v, sweep[0]))
  }

  /** The loop ends with an error, at a node whose payload is not of its recorded size. */
  predicate Spoiled(v: Volume, sweep: seq<Entry>, size: nat, n: nat) {
    if size <= n || sweep == [] then false
    else if Good(v, sweep[0]) then Spoiled(v, sweep[1..], size, End(v, sweep[0]))
    else Readable(v, sweep[0])
  }

  /** The state of the loop: what is written, and from which block to search on. */
  ghost predicate Underway(v: Volume, leaves: seq<Entry>, written: seq<Entry>, dataBlock: uint32, size: nat) {
    var all, rest := Sweep(leaves, 0), Sweep(leaves, dataBlock);
    && all == written + rest
    && (forall i :: 0 <= i < |written| ==> Good(v, written[i]))
    && Written(v, all, size, 0) == written + Written(v, rest, size, Position(v, written))
    && Spoiled(v, all, size, 0) == Spoiled(v, rest, size, Position(v, written))
  }

  lemma {:induction false} UnderwayStart(v: Volume, leaves: seq<Entry>, size: nat)
    ensures Underway(v, leaves, [], 0, size)
  {
    hide Written, Spoiled;
    assert [] + Sweep(leaves, 0) == Sweep(leaves, 0);
    assert [] + Written(v, Sweep(leaves, 0), size, 0) == Written(v, Sweep(leaves, 0), size, 0);
  }

  lemma {:induction false} WrittenStep(v: Volume, e: Entry, rest: seq<Entry>, size: nat, n: nat)
    requires n < size && Good(v, e)
    ensures Written(v, [e] + rest, size, n) == [e] + Written(v, rest, size, End(v, e))
    ensures Spoiled(v, [e] + rest, size, n) == Spoiled(v, rest, size, End(v, e))
  {
    hide Good, End;
    assert ([e] + rest)[1..] == rest;
  }

  lemma {:induction false} UnderwayStep(
    v: Volume, leaves: seq<Entry>, written: seq<Entry>, dataBlock: uint32, e: Entry, size: nat)
    requires HashOrdered(leaves) && Underway(v, leaves, written, dataBlock, size)
    requires FirstFrom(leaves, dataBlock) == Some(e) && Good(v, e) && Position(v, written) < size
    ensures dataBlock <= Hash(e) && Underway(v, leaves, written + [e], Hash(e) + 1, size)
  {
    hide Sweep, Good, FirstFrom, Hash, HashOrdered, Written, Spoiled, End;
    var rest := Sweep(leaves, Hash(e) + 1);
    SweepStep(leaves, dataBlock);
    WrittenStep(v, e, rest, size, Position(v, written));
    Regroup(written, [e], rest);
    Regroup(written, [e], Written(v, rest, size, End(v, e)));
  }

  lemma {:induction false} UnderwayWithin(
    v: Volume, leaves: seq<Entry>, written: seq<Entry>, dataBlock: uint32, size: nat)
    requires HashOrdered(leaves) && !Endless(v, Sweep(leaves, 0), size)
    requires Underway(v, leaves, written, dataBlock, size)
    requires dataBlock == if written == [] then 0 else Hash(written[|written| - 1]) + 1
    requires forall i :: 0 <= i < |written| ==> End(v, written[i]) < size
    ensures dataBlock <= HASH_MASK
  {
    hide Sweep, Good, End, Endless, Written, Spoiled;
    NotBehindLast(v, leaves, size, dataBlock, written);
  }

  lemma {:induction false} UnderwayStops(
    v: Volume, leaves: seq<Entry>, written: seq<Entry>, dataBlock: uint32, size: nat, ok: bool)
    requires HashOrdered(leaves) && Underway(v, leaves, written, dataBlock, size)
    requires
      var next := FirstFrom(leaves, dataBlock);
      if size <= Position(v, written) || next.None? then ok else !Good(v, next.value) && ok == !Readable(v, next.value)
    ensures Written(v, Sweep(leaves, 0), size, 0) == written && Spoiled(v, Sweep(leaves, 0), size, 0) == !ok
  {
    hide Sweep, Good, Readable, Position;
    SweepStep(leaves, dataBlock);
    assert written + [] == written;
  }

  lemma {:induction false} DataLeavesOrdered(v: Volume, ino: uint32)
    requires WellFormed(v.root)
    ensures HashOrdered(DataLeaves(v, ino))
  {
    InodeLeavesOrdered(Leaves(v.root), DATA_KEY, ino);
  }

  /** The entry of the next data node, or nothing when there is none or its node cannot be read. */
  method NextDataNode(v: Volume, ino: uint32, minBlock: uint32) returns (r: Option<Entry>)
    requires WellFormed(v.root) && minBlock < 0x2000_0000
    ensures r.Some? ==> FirstFrom(DataLeaves(v, ino), minBlock) == r && Readable(v, r.value)
    ensures r.None? ==>
      var leaf := FirstFrom(DataLeaves(v, ino), minBlock);
      leaf.None? || !Readable(v, leaf.value)
  {
    r := NextLeaf(v, DATA_KEY, ino, minBlock);
    if r.Some? && !Readable(v, r.value) {
      r := None;
    }
  }

  // When the loop ends.

  /**
   * The loop ends within a number of rounds. A search from behind the greatest block number starts again
   * from block 0, since block numbers are cut to 29 bits.
   */
  ghost predicate EndsWithin(v: Volume, leaves: seq<Entry>, size: nat, dataBlock: uint32, n: nat, rounds: nat)
    decreases rounds
  {
    rounds > 0
    && (size <= n
        || var next := FirstFrom(leaves, dataBlock % 0x2000_0000);
           next.None? || !Good(v, next.value)
           || EndsWithin(v, leaves, size, Hash(next.value) + 1, End(v, next.value), rounds - 1))
  }

  /** Every node is good, none reaches the end of the file, and the last has the greatest block number. */
  ghost predicate Endless(v: Volume, sweep: seq<Entry>, size: nat) {
    && sweep != [] && Hash(sweep[|sweep| - 1]) == HASH_MASK
    && forall e :: e in sweep ==> Good(v, e) && End(v, e) < size
  }

  /** The unpack loop of a file ends unless its nodes are endless. */
  lemma {:induction false} UnpackStops(v: Volume, leaves: seq<Entry>, size: nat)
    requires HashOrdered(leaves)
    ensures (exists rounds :: EndsWithin(v, leaves, size, 0, 0, rounds)) <==> !Endless(v, Sweep(leaves, 0), size)
  {
    hide Sweep, Endless, EndsWithin;
    assert [] + Sweep(leaves, 0) == Sweep(leaves, 0);
    if Endless(v, Sweep(leaves, 0), size) {
      forall rounds
        ensures !EndsWithin(v, leaves, size, 0, 0, rounds)
      {
        EndlessGoesOn(v, leaves, size, 0, 0, rounds, []);
      }
    } else {
      EndsInTime(v, leaves, size, 0, []);
      var rounds: nat := 0x2000_0001;
      assert EndsWithin(v, leaves, size, 0, 0, rounds);
    }
  }

  lemma {:induction false} EndlessGoesOn(
    v: Volume, leaves: seq<Entry>, size: nat, dataBlock: uint32, n: nat, rounds: nat, done: seq<Entry>)
    requires HashOrdered(leaves) && Endless(v, Sweep(leaves, 0), size)
    requires dataBlock <= 0x2000_0000 && Sweep(leaves, 0) == done + Sweep(leaves, dataBlock)
    requires n == Position(v, done)
    ensures !EndsWithin(v, leaves, size, dataBlock, n, rounds)
    decreases rounds
  {
    hide Sweep, Good, FirstFrom, End, Endless;
    InsideEndless(v, leaves, size, dataBlock, done);
    if rounds > 0 {
      var restart := dataBlock == 0x2000_0000;
      var from, before := if restart then 0 else dataBlock, if restart then [] else done;
      assert [] + Sweep(leaves, 0) == Sweep(leaves, 0);
      EndlessNext(v, leaves, size, from, before);
      var next := FirstFrom(leaves, from).value;
      EndlessGoesOn(v, leaves, size, Hash(next) + 1, End(v, next), rounds - 1, before + [next]);
    }
  }

  lemma {:induction false} InsideEndless(
    v: Volume, leaves: seq<Entry>, size: nat, dataBlock: uint32, done: seq<Entry>)
    requires Endless(v, Sweep(leaves, 0), size) && Sweep(leaves, 0) == done + Sweep(leaves, dataBlock)
    ensures Position(v, done) < size
  {
    hide Sweep, Good, End, Hash;
    var all := Sweep(leaves, 0);
    if done == [] {
      assert all[0] in all;
    } else {
      assert done[|done| - 1] in all;
    }
  }

  lemma {:induction false} EndlessNext(
    v: Volume, leaves: seq<Entry>, size: nat, from: uint32, done: seq<Entry>)
    requires HashOrdered(leaves) && Endless(v, Sweep(leaves, 0), size)
    requires from <= HASH_MASK && Sweep(leaves, 0) == done + Sweep(leaves, from)
    ensures FirstFrom(leaves, from).Some?
    ensures var next := FirstFrom(leaves, from).value;
      Good(v, next) && Sweep(leaves, 0) == (done + [next]) + Sweep(leaves, Hash(next) + 1)
  {
    hide Sweep, Good, FirstFrom, End, Hash, Endless, HashOrdered;
    var all := Sweep(leaves, 0);
    EndlessParts(v, all, size);
    FromLeaves(leaves, all[|all| - 1]);
    FirstFromFinds(leaves, from, all[|all| - 1]);
    SweepStep(leaves, from);
    var next := FirstFrom(leaves, from).value;
    Regroup(done, [next], Sweep(leaves, Hash(next) + 1));
    assert next in done + [next];
    assert next in all;
  }

  lemma {:induction false} FromLeaves(leaves: seq<Entry>, e: Entry)
    requires HashOrdered(leaves) && e in Sweep(leaves, 0)
    ensures e in leaves
  {
    hide Sweep, Hash;
    SweepIsStrict(leaves, 0);
  }

  lemma {:induction false} EndlessParts(v: Volume, sweep: seq<Entry>, size: nat)
    requires Endless(v, sweep, size)
    ensures sweep != [] && sweep[|sweep| - 1] in sweep && Hash(sweep[|sweep| - 1]) == HASH_MASK
    ensures forall e :: e in sweep ==> Good(v, e)
  {
    hide Good, End, Hash;
  }

  /** The nodes that were written are not all of an endless list. */
  lemma {:induction false} NotBehindLast(v: Volume, leaves: seq<Entry>, size: nat, dataBlock: uint32, done: seq<Entry>)
    requires HashOrdered(leaves) && !Endless(v, Sweep(leaves, 0), size)
    requires Sweep(leaves, 0) == done + Sweep(leaves, dataBlock)
    requires dataBlock == if done == [] then 0 else Hash(done[|done| - 1]) + 1
    requires forall e :: e in done ==> Good(v, e) && End(v, e) < size
    ensures dataBlock <= HASH_MASK
  {
    hide Sweep, Good, End;
    if dataBlock > HASH_MASK {
      NothingBehind(leaves, dataBlock);
    }
  }

  lemma {:induction false} EndsInTime(v: Volume, leaves: seq<Entry>, size: nat, dataBlock: uint32, done: seq<Entry>)
    requires HashOrdered(leaves) && !Endless(v, Sweep(leaves, 0), size)
    requires Sweep(leaves, 0) == done + Sweep(leaves, dataBlock)
    requires dataBlock == if done == [] then 0 else Hash(done[|done| - 1]) + 1
    requires forall i :: 0 <= i < |done| ==> Good(v, done[i]) && (i < |done| - 1 ==> End(v, done[i]) < size)
    ensures dataBlock <= 0x2000_0000
    ensures EndsWithin(v, leaves, size, dataBlock, Position(v, done), 0x2000_0001 - dataBlock)
    decreases 0x2000_0000 - dataBlock
  {
    hide Sweep, Good, FirstFrom, End, Endless, HashOrdered, EndsWithin;
    if Position(v, done) < size {
      NotBehindLast(v, leaves, size, dataBlock, done);
      SweepStep(leaves, dataBlock);
      if FirstFrom(leaves, dataBlock).Some? && Good(v, FirstFrom(leaves, dataBlock).value) {
        var next := FirstFrom(leaves, dataBlock).value;
        Regroup(done, [next], Sweep(leaves, Hash(next) + 1));
        EndsInTime(v, leaves, size, Hash(next) + 1, done + [next]);
        EndsLater(v, leaves, size, Hash(next) + 1, End(v, next), 0x2000_0000 - Hash(next), 0x2000_0000 - dataBlock);
      }
    }
    EndsNow(v, leaves, size, dataBlock, Position(v, done), 0x2000_0001 - dataBlock);
  }

  lemma {:induction false} EndsNow(
    v: Volume, leaves: seq<Entry>, size: nat, dataBlock: uint32, n: nat, rounds: nat)
    requires rounds > 0 && dataBlock <= 0x2000_0000
    requires
      size <= n
      || (dataBlock < 0x2000_0000
          && var next := FirstFrom(leaves, dataBlock);
             next.None? || !Good(v, next.value)
             || EndsWithin(v, leaves, size, Hash(next.value) + 1, End(v, next.value), rounds - 1))
    ensures EndsWithin(v, leaves, size, dataBlock, n, rounds)
  {
    hide Good, FirstFrom, End, Hash;
  }

  lemma {:induction false} EndsLater(
    v: Volume, leaves: seq<Entry>, size: nat, dataBlock: uint32, n: nat, rounds: nat, more: nat)
    requires EndsWithin(v, leaves, size, dataBlock, n, rounds) && rounds <= more
    ensures EndsWithin(v, leaves, size, dataBlock, n, more)
    decreases rounds
  {
    hide Good, FirstFrom, End;
    var next := FirstFrom(leaves, dataBlock % 0x2000_0000);
    if n < size && next.Some? && Good(v, next.value) {
      EndsLater(v, leaves, size, Hash(next.value) + 1, End(v, next.value), rounds - 1, more - 1);
    }
  }

  /** The loop of the unpacker, over a file of `size` zeros. */
  method WriteBlocks(v: Volume, ino: uint32, size: nat) returns (ok: bool, file: seq<byte>)
    requires WellFormed(v.root) && !Endless(v, Sweep(DataLeaves(v, ino), 0), size)
    ensures var sweep := Sweep(DataLeaves(v, ino), 0);
      file == Laid(v, Written(v, sweep, size, 0), Zeros(size)) && ok == !Spoiled(v, sweep, size, 0)
  {
    hide Sweep, Laid, DataLeaves, WellFormed, Offset, Underway, Written, Spoiled, Endless;
    ghost var written := [];
    var dataBlock: uint32 := 0;
    var n: nat := 0;
    ghost var leaves := DataLeaves(v, ino);
    DataLeavesOrdered(v, ino);
    UnderwayStart(v, leaves, size);
    LaidNothing(v, Zeros(size));
    file := Blank(size);
    ok := true;
    while n < size
      invariant ok && n == Position(v, written)
      invariant dataBlock == if written == [] then 0 else Hash(written[|written| - 1]) + 1
      invariant file == Laid(v, written, Zeros(size)) && Underway(v, leaves, written, dataBlock, size)
      invariant forall i :: 0 <= i < |written| - 1 ==> End(v, written[i]) < size
      decreases 0x2000_0000 - dataBlock
    {
      UnderwayWithin(v, leaves, written, dataBlock, size);
      var leaf := NextDataNode(v, ino, dataBlock);
      if leaf.None? {
        break;
      }
      var e := leaf.value;
      FirstFromMember(leaves, dataBlock);
      var node := v.read(e).value;
      if node.plain.None? || |node.plain.value| != node.stored {
        ok := false;
        break;
      }
      UnderwayStep(v, leaves, written, dataBlock, e, size);
      LaidAppend(v, written, e, Zeros(size));
      n := Offset(Hash(e));
      file := WriteAt(file, n, node.plain.value);
      written := written + [e];
      dataBlock := Hash(e) + 1;
      n := n + node.stored;
    }
    UnderwayStops(v, leaves, written, dataBlock, size, ok);
  }

  lemma {:induction false} LaidNothing(v: Volume, file: seq<byte>)
    ensures Laid(v, [], file) == file
  {
  }

  lemma {:induction false} FirstFromMember(es: seq<Entry>, hash: uint32)
    ensures FirstFrom(es, hash).Some? ==> FirstFrom(es, hash).value in es
  {
    if es != [] && Hash(es[0]) < hash {
      FirstFromMember(es[1..], hash);
    }
  }

  /**
   * Writes a file from its data nodes, in block order. An unreadable node ends the loop as if the rest of the
   * file were a hole; a node that does not decompress to its recorded size ends it with an error.
   */
  method UnpackFile(v: Volume, ino: uint32) returns (ok: bool, file: seq<byte>)
    requires WellFormed(v.root)
    requires InodeOf(v, ino).Some? ==> !Endless(v, Sweep(DataLeaves(v, ino), 0), InodeOf(v, ino).value.size)
    ensures InodeOf(v, ino).None? ==> !ok
    ensures InodeOf(v, ino).Some? ==>
      var size, sweep := InodeOf(v, ino).value.size, Sweep(DataLeaves(v, ino), 0);
      file == Laid(v, Written(v, sweep, size, 0), Zeros(size)) && ok == !Spoiled(v, sweep, size, 0)
  {
    hide Sweep, Laid, DataLeaves, WellFormed, Endless;
    var inode := ReadInode(v, ino);
    if inode.None? {
      return false, [];
    }
    LaidNothing(v, Zeros(inode.value.size));
    if inode.value.size == 0 {
      WrittenNothing(v, Sweep(DataLeaves(v, ino), 0));
      return true, [];
    }
    ok, file := WriteBlocks(v, ino, inode.value.size);
  }

  // What the file should be, and when it is.

  /** The block of a node reaches this position of the file. */
  predicate Within(v: Volume, e: Entry, pos: nat) {
    Hash(e) * 4096 <= pos < Hash(e) * 4096 + |Plain(v, e)|
  }

  ghost predicate Reached(v: Volume, ds: seq<Entry>, pos: nat) {
    exists e :: e in ds && Within(v, e, pos)
  }

  /** The byte that a set of data nodes gives to a position of the file; positions in no node are holes. */
  function Content(v: Volume, ds: seq<Entry>, pos: nat): byte {
    if ds == [] then 0
    else if Within(v, ds[0], pos) then Plain(v, ds[0])[pos - Hash(ds[0]) * 4096]
    else Content(v, ds[1..], pos)
  }

  ghost predicate Strict(ds: seq<Entry>) {
    forall i, j :: 0 <= i < j < |ds| ==> Hash(ds[i]) < Hash(ds[j])
  }

  /** No data node is longer than a block or runs past the end of the file. */
  ghost predicate Fits(v: Volume, ds: seq<Entry>, size: nat) {
    forall e :: e in ds ==> |Plain(v, e)| <= 4096 && Hash(e) * 4096 + |Plain(v, e)| <= size
  }

  /** The file holds the blocks of the nodes, and zeros elsewhere. */
  ghost predicate Assembled(v: Volume, ds: seq<Entry>, file: seq<byte>, size: nat) {
    |file| == size && forall pos :: 0 <= pos < size ==> file[pos] == Content(v, ds, pos)
  }

  lemma {:induction false} ContentConcat(v: Volume, a: seq<Entry>, b: seq<Entry>, pos: nat)
    requires Strict(a + b) && forall e :: e in a + b ==> |Plain(v, e)| <= 4096
    ensures Content(v, a + b, pos)
         == if Reached(v, b, pos) then Content(v, b, pos) else Content(v, a, pos)
    decreases |a|
  {
    hide Plain, Within, Content, Reached, Hash;
    if a == [] {
      assert a + b == b;
      if !Reached(v, b, pos) {
        ContentHole(v, b, pos);
        ContentNothing(v, pos);
      }
    } else {
      assert (a + b)[1..] == a[1..] + b && (a + b)[0] == a[0];
      StrictRest(a + b);
      assert forall e :: e in a[1..] + b ==> e in a + b;
      ContentConcat(v, a[1..], b, pos);
      ContentStep(v, a + b, pos);
      ContentStep(v, a, pos);
      if Within(v, a[0], pos) {
        NoneAfter(v, a, b, pos);
      }
    }
  }

  lemma {:induction false} ContentNothing(v: Volume, pos: nat)
    ensures Content(v, [], pos) == 0
  {
  }

  lemma {:induction false} ContentStep(v: Volume, ds: seq<Entry>, pos: nat)
    requires ds != []
    ensures !Within(v, ds[0], pos) ==> Content(v, ds, pos) == Content(v, ds[1..], pos)
    ensures Within(v, ds[0], pos) ==> Content(v, ds, pos) == Plain(v, ds[0])[pos - Hash(ds[0]) * 4096]
  {
    hide Plain, Hash;
  }

  lemma {:induction false} NoneAfter(v: Volume, a: seq<Entry>, b: seq<Entry>, pos: nat)
    requires Strict(a + b) && (forall e :: e in a + b ==> |Plain(v, e)| <= 4096) && a != [] && Within(v, a[0], pos)
    ensures !Reached(v, b, pos)
  {
    hide Plain, Within, Hash;
    assert (a + b)[0] == a[0] && a[0] in a + b;
    forall e | e in b
      ensures !Within(v, e, pos)
    {
      var k :| 0 <= k < |b| && b[k] == e;
      assert (a + b)[|a| + k] == e;
      Apart(v, a[0], e, pos);
    }
  }

  lemma {:induction false} Apart(v: Volume, d: Entry, e: Entry, pos: nat)
    requires Hash(d) < Hash(e) && |Plain(v, d)| <= 4096 && Within(v, d, pos)
    ensures !Within(v, e, pos)
  {
    hide Plain;
  }

  lemma {:induction false} StrictRest(ds: seq<Entry>)
    requires Strict(ds) && ds != []
    ensures Strict(ds[1..])
  {
    assert forall i :: 0 <= i < |ds[1..]| ==> ds[1..][i] == ds[i + 1];
  }

  lemma {:induction false} ContentFrom(v: Volume, ds: seq<Entry>, pos: nat)
    requires Content(v, ds, pos) != 0
    ensures Reached(v, ds, pos)
  {
    hide Plain, Within;
    if Within(v, ds[0], pos) {
      assert ds[0] in ds;
    } else {
      ContentFrom(v, ds[1..], pos);
      var e :| e in ds[1..] && Within(v, e, pos);
      assert e in ds;
    }
  }

  lemma {:induction false} ContentHole(v: Volume, ds: seq<Entry>, pos: nat)
    requires !Reached(v, ds, pos)
    ensures Content(v, ds, pos) == 0
  {
    hide Within, Content;
    if Content(v, ds, pos) != 0 {
      ContentFrom(v, ds, pos);
    }
  }

  /** In a list in block order, a position inside a node has that node's byte. */
  lemma {:induction false} ContentOf(v: Volume, ds: seq<Entry>, e: Entry, i: nat)
    requires Strict(ds) && e in ds && i < |Plain(v, e)| && forall d :: d in ds ==> |Plain(v, d)| <= 4096
    ensures Content(v, ds, Hash(e) * 4096 + i) == Plain(v, e)[i]
    decreases |ds|
  {
    hide Plain;
    if ds[0] != e {
      var k :| 0 <= k < |ds| && ds[k] == e;
      assert ds[0] in ds && Hash(ds[0]) < Hash(ds[k]);
      assert e == ds[1..][k - 1];
      StrictRest(ds);
      ContentOf(v, ds[1..], e, i);
    }
  }

  /** One more write, behind the others. */
  lemma {:induction false} AssembledLast(v: Volume, a: seq<Entry>, e: Entry, file: seq<byte>, size: nat)
    requires Strict(a + [e]) && Fits(v, a + [e], size) && Assembled(v, a, file, size) && Hash(e) < 0x10_0000
    ensures Assembled(v, a + [e], WriteAt(file, Offset(Hash(e)), Plain(v, e)), size)
  {
    hide Plain, Offset, Content, Strict;
    OffsetExact(Hash(e));
    assert e in a + [e];
    forall pos | 0 <= pos < size
      ensures Content(v, a + [e], pos) == WriteAt(file, Offset(Hash(e)), Plain(v, e))[pos]
    {
      ContentLast(v, a, e, pos);
    }
  }

  lemma {:induction false} AssembledNothing(v: Volume, size: nat)
    ensures Assembled(v, [], Zeros(size), size)
  {
  }

  /** Below 4 GiB the writes give the contents of the nodes. */
  lemma {:induction false} LowNodes(v: Volume, ds: seq<Entry>, size: nat)
    requires Strict(ds) && Fits(v, ds, size) && forall e :: e in ds ==> Hash(e) < 0x10_0000
    ensures Assembled(v, ds, Laid(v, ds, Zeros(size)), size)
    decreases |ds|
  {
    hide Plain, Offset, Laid, Content, Assembled;
    if ds == [] {
      LaidNothing(v, Zeros(size));
      AssembledNothing(v, size);
    } else {
      var a, e := ds[..|ds| - 1], ds[|ds| - 1];
      assert ds == a + [e];
      assert forall d :: d in a ==> d in ds;
      LowNodes(v, a, size);
      LaidAppend(v, a, e, Zeros(size));
      AssembledLast(v, a, e, Laid(v, a, Zeros(size)), size);
    }
  }

  lemma {:induction false} ContentLast(v: Volume, a: seq<Entry>, e: Entry, pos: nat)
    requires Strict(a + [e]) && forall d :: d in a + [e] ==> |Plain(v, d)| <= 4096
    ensures Content(v, a + [e], pos)
         == if Within(v, e, pos) then Plain(v, e)[pos - Hash(e) * 4096]
            else Content(v, a, pos)
  {
    hide Plain, Content;
    ContentConcat(v, a, [e], pos);
    assert e in [e];
    if Within(v, e, pos) {
      assert e in a + [e];
      ContentOf(v, [e], e, pos - Hash(e) * 4096);
    }
  }

  /** The write of a node from block 0x100000 on reaches this position, below 4 GiB. */
  ghost predicate Wraps(v: Volume, e: Entry, pos: nat) {
    Offset(Hash(e)) <= pos < Offset(Hash(e)) + |Plain(v, e)|
  }

  /** Writes with wrapped offsets stay below 4 GiB. */
  lemma {:induction false} HighNodes(v: Volume, ds: seq<Entry>, file: seq<byte>)
    requires |file| >= 0x1_0000_0000 && forall e :: e in ds ==> |Plain(v, e)| <= 4096
    ensures |Laid(v, ds, file)| == |file|
    ensures forall pos :: 0x1_0000_0000 <= pos < |file| ==> Laid(v, ds, file)[pos] == file[pos]
    ensures forall pos :: 0 <= pos < |file| && (forall e :: e in ds ==> !Wraps(v, e, pos)) ==>
      Laid(v, ds, file)[pos] == file[pos]
    decreases |ds|
  {
    hide Plain, Offset;
    if ds != [] {
      OffsetExact(Hash(ds[0]));
      assert ds[0] in ds;
      HighNodes(v, ds[1..], WriteAt(file, Offset(Hash(ds[0])), Plain(v, ds[0])));
    }
  }

  ghost predicate AllZero(b: seq<byte>) {
    forall i :: 0 <= i < |b| ==> b[i] == 0
  }

  /** If they write zeros, that is what is found where they write. */
  lemma {:induction false} HighZeros(v: Volume, ds: seq<Entry>, file: seq<byte>, pos: nat)
    requires |file| >= 0x1_0000_0000 && forall e :: e in ds ==> |Plain(v, e)| <= 4096 && AllZero(Plain(v, e))
    requires pos < |file| && (file[pos] == 0 || exists e :: e in ds && Wraps(v, e, pos))
    ensures |Laid(v, ds, file)| == |file| && Laid(v, ds, file)[pos] == 0
    decreases |ds|
  {
    hide Plain, Offset;
    if ds != [] {
      OffsetExact(Hash(ds[0]));
      assert ds[0] in ds;
      HighZeros(v, ds[1..], WriteAt(file, Offset(Hash(ds[0])), Plain(v, ds[0])), pos);
    }
  }

  /** What the nodes from block 0x100000 on may hold without harm: zeros, which also land on zeros. */
  ghost predicate Harmless(v: Volume, ds: seq<Entry>) {
    forall e :: e in ds && Hash(e) >= 0x10_0000 ==>
      AllZero(Plain(v, e)) && forall pos :: Wraps(v, e, pos) ==> Content(v, ds, pos) == 0
  }

  /** The nodes below 4 GiB come first. */
  function Low(ds: seq<Entry>): (n: nat)
    requires Strict(ds)
    ensures n <= |ds|
    ensures forall i :: 0 <= i < n ==> Hash(ds[i]) < 0x10_0000
    ensures forall i :: n <= i < |ds| ==> Hash(ds[i]) >= 0x10_0000
  {
    if ds == [] || Hash(ds[0]) >= 0x10_0000 then 0
    else
      StrictRest(ds);
      1 + Low(ds[1..])
  }

  lemma {:induction false} LowParts(ds: seq<Entry>)
    requires Strict(ds)
    ensures var k := Low(ds);
      && ds == ds[..k] + ds[k..] && Strict(ds[..k])
      && (forall e :: e in ds[..k] ==> e in ds && Hash(e) < 0x10_0000)
      && (forall e :: e in ds[k..] ==> e in ds && Hash(e) >= 0x10_0000)
  {
    hide Hash;
  }

  /** For a file above 4 GiB, all nodes written: right exactly when the wrapped writes do no harm. */
  lemma {:induction false} LargeFile(v: Volume, ds: seq<Entry>, size: nat)
    requires Strict(ds) && Fits(v, ds, size) && size > 0x1_0000_0000
    ensures Assembled(v, ds, Laid(v, ds, Zeros(size)), size) <==> Harmless(v, ds)
  {
    hide Plain, Offset, Laid, Content, Wraps, Low, Assembled, Harmless, Hash, Strict;
    var k := Low(ds);
    var low, high := ds[..k], ds[k..];
    LowParts(ds);
    LowNodes(v, low, size);
    LaidConcat(v, low, high, Zeros(size));
    var before, after := Laid(v, low, Zeros(size)), Laid(v, ds, Zeros(size));
    if Assembled(v, ds, after, size) {
      RightIsHarmless(v, low, high, size, before);
    }
    if Harmless(v, ds) {
      HarmlessIsRight(v, low, high, size, before);
    }
  }

  /** The parts of a large file, as the two directions need them. */
  ghost predicate Parts(v: Volume, low: seq<Entry>, high: seq<Entry>, size: nat, before: seq<byte>) {
    && Strict(low + high) && Fits(v, low + high, size) && size > 0x1_0000_0000
    && (forall e :: e in low ==> Hash(e) < 0x10_0000) && (forall e :: e in high ==> Hash(e) >= 0x10_0000)
    && Assembled(v, low, before, size)
  }

  /** Below 4 GiB only low nodes count, above only high ones. */
  lemma {:induction false} ContentParts(v: Volume, low: seq<Entry>, high: seq<Entry>, size: nat, before: seq<byte>,
                                        pos: nat)
    requires Parts(v, low, high, size, before) && pos < size
    ensures pos < 0x1_0000_0000 ==> Content(v, low + high, pos) == before[pos]
    ensures pos >= 0x1_0000_0000 ==> before[pos] == 0
  {
    hide Plain, Content;
    ContentConcat(v, low, high, pos);
    if pos >= 0x1_0000_0000 {
      forall e | e in low
        ensures Hash(e) * 4096 + |Plain(v, e)| <= pos
      {
        assert e in low + high;
      }
      ContentHole(v, low, pos);
    }
  }

  lemma {:induction false} RightIsHarmless(v: Volume, low: seq<Entry>, high: seq<Entry>, size: nat, before: seq<byte>)
    requires Parts(v, low, high, size, before)
    requires Assembled(v, low + high, Laid(v, high, before), size)
    ensures Harmless(v, low + high)
  {
    hide Plain, Offset, Laid, Content, Wraps;
    var ds, after := low + high, Laid(v, high, before);
    HighNodes(v, high, before);
    forall e | e in high
      ensures AllZero(Plain(v, e))
    {
      assert e in ds;
      forall i | 0 <= i < |Plain(v, e)|
        ensures Plain(v, e)[i] == 0
      {
        var pos := Hash(e) * 4096 + i;
        ContentOf(v, ds, e, i);
        ContentParts(v, low, high, size, before, pos);
        assert after[pos] == before[pos];
      }
    }
    forall e, pos | e in ds && Hash(e) >= 0x10_0000 && Wraps(v, e, pos)
      ensures Content(v, ds, pos) == 0
    {
      assert e in high;
      WrapsBelow(v, e, pos);
      HighZeros(v, high, before, pos);
    }
  }

  lemma {:induction false} WrapsBelow(v: Volume, e: Entry, pos: nat)
    requires Wraps(v, e, pos) && |Plain(v, e)| <= 4096
    ensures pos < 0x1_0000_0000
  {
    hide Plain, Offset;
    OffsetExact(Hash(e));
  }

  lemma {:induction false} HarmlessIsRight(v: Volume, low: seq<Entry>, high: seq<Entry>, size: nat, before: seq<byte>)
    requires Parts(v, low, high, size, before) && Harmless(v, low + high)
    ensures Assembled(v, low + high, Laid(v, high, before), size)
  {
    hide Plain, Offset, Laid, Content, Wraps;
    var ds, after := low + high, Laid(v, high, before);
    assert forall e :: e in high ==> e in ds;
    HighNodes(v, high, before);
    forall pos | 0 <= pos < size
      ensures after[pos] == Content(v, ds, pos)
    {
      ContentParts(v, low, high, size, before, pos);
      if pos >= 0x1_0000_0000 {
        HighContent(v, low, high, size, before, pos);
      } else if exists e :: e in high && Wraps(v, e, pos) {
        HighZeros(v, high, before, pos);
      }
    }
  }

  lemma {:induction false} HighContent(v: Volume, low: seq<Entry>, high: seq<Entry>, size: nat, before: seq<byte>,
                                       pos: nat)
    requires Parts(v, low, high, size, before) && Harmless(v, low + high) && 0x1_0000_0000 <= pos < size
    ensures Content(v, low + high, pos) == 0
  {
    hide Plain, Content, Offset, Wraps;
    var ds := low + high;
    if Content(v, ds, pos) != 0 {
      ContentFrom(v, ds, pos);
      var e :| e in ds && Within(v, e, pos);
      assert Hash(e) >= 0x10_0000;
      ContentOf(v, ds, e, pos - Hash(e) * 4096);
    }
  }

  /** Below 4 GiB the loop stops early only where nothing is left to write. */
  lemma {:induction false} RestIsEmpty(v: Volume, ds: seq<Entry>, written: seq<Entry>, size: nat)
    requires Strict(ds) && Fits(v, ds, size) && 0 < size <= 0x1_0000_0000 && written <= ds
    requires |written| < |ds| ==> size <= Position(v, written)
    ensures forall i :: |written| <= i < |ds| ==> size <= Hash(ds[i]) * 4096 && Plain(v, ds[i]) == []
  {
    hide Plain;
    if |written| < |ds| {
      var last := written[|written| - 1];
      assert last == ds[|written| - 1] && last in ds;
      OffsetExact(Hash(last));
      forall i | |written| <= i < |ds|
        ensures size <= Hash(ds[i]) * 4096 && Plain(v, ds[i]) == []
      {
        assert ds[i] in ds && Hash(last) < Hash(ds[i]);
      }
    }
  }

  lemma {:induction false} EmptyRest(v: Volume, a: seq<Entry>, b: seq<Entry>, file: seq<byte>)
    requires forall e :: e in b ==> Plain(v, e) == []
    ensures Laid(v, a + b, file) == Laid(v, a, file)
  {
    LaidConcat(v, a, b, file);
    LaidEmpty(v, b, Laid(v, a, file));
  }

  lemma {:induction false} LaidEmpty(v: Volume, b: seq<Entry>, file: seq<byte>)
    requires forall e :: e in b ==> Plain(v, e) == []
    ensures Laid(v, b, file) == file
    decreases |b|
  {
    if b != [] {
      assert b[0] in b;
      LaidEmpty(v, b[1..], file);
    }
  }

  /** For a file of at most 4 GiB whatever the loop has written is right. */
  lemma {:induction false} SmallFile(v: Volume, ds: seq<Entry>, size: nat)
    requires Strict(ds) && Fits(v, ds, size) && size <= 0x1_0000_0000
    ensures Assembled(v, ds, Laid(v, ds, Zeros(size)), size) && Harmless(v, ds)
  {
    hide Plain, Offset, Laid, Content, Wraps, Low, Assembled, Within, Hash, Harmless, Strict;
    var k := Low(ds);
    var low, high := ds[..k], ds[k..];
    LowParts(ds);
    HighEmpty(v, ds, size);
    LowNodes(v, low, size);
    EmptyRest(v, low, high, Zeros(size));
    AssembledEmpty(v, low, high, Laid(v, low, Zeros(size)), size);
    EmptyHarmless(v, ds);
  }

  lemma {:induction false} EmptyHarmless(v: Volume, ds: seq<Entry>)
    requires forall e :: e in ds && Hash(e) >= 0x10_0000 ==> Plain(v, e) == []
    ensures Harmless(v, ds)
  {
    hide Plain, Hash, Wraps;
    forall e, pos | e in ds && Hash(e) >= 0x10_0000
      ensures AllZero(Plain(v, e)) && !Wraps(v, e, pos)
    {
      WrapsNothing(v, e, pos);
    }
  }

  lemma {:induction false} HighEmpty(v: Volume, ds: seq<Entry>, size: nat)
    requires Fits(v, ds, size) && size <= 0x1_0000_0000
    ensures forall e :: e in ds && Hash(e) >= 0x10_0000 ==> Plain(v, e) == []
  {
    hide Plain, Hash;
  }

  lemma {:induction false} AssembledEmpty(v: Volume, a: seq<Entry>, b: seq<Entry>, file: seq<byte>, size: nat)
    requires Strict(a + b) && Fits(v, a + b, size) && Assembled(v, a, file, size)
    requires forall e :: e in b ==> Plain(v, e) == []
    ensures Assembled(v, a + b, file, size)
  {
    hide Plain, Content, Strict;
    forall pos | 0 <= pos < size
      ensures Content(v, a + b, pos) == Content(v, a, pos)
    {
      ContentConcat(v, a, b, pos);
    }
  }

  lemma {:induction false} WrapsNothing(v: Volume, e: Entry, pos: nat)
    requires Plain(v, e) == []
    ensures !Wraps(v, e, pos)
  {
  }

  lemma {:induction false} SweepStrict(ds: seq<Entry>)
    requires HashOrdered(ds)
    ensures Strict(Sweep(ds, 0))
  {
    hide Sweep;
    SweepIsStrict(ds, 0);
  }

  /** Wrapped offsets keep the loop of a large file from reaching its end. */
  lemma {:induction false} LargeGoesOn(v: Volume, ds: seq<Entry>, written: seq<Entry>, size: nat)
    requires Fits(v, ds, size) && written <= ds && size > 0x1_0000_0000
    ensures Position(v, written) < size
  {
    hide Plain, Offset;
    if written != [] {
      var last := written[|written| - 1];
      assert last == ds[|written| - 1] && last in ds;
      OffsetExact(Hash(last));
    }
  }

  /** When all nodes are good the loop writes a front part of them, up to the end of the file. */
  lemma {:induction false} WrittenFront(v: Volume, ds: seq<Entry>, size: nat, n: nat)
    requires forall e :: e in ds ==> Good(v, e)
    ensures !Spoiled(v, ds, size, n)
    ensures var w := Written(v, ds, size, n);
      w <= ds && (|w| < |ds| ==> size <= if w == [] then n else End(v, w[|w| - 1]))
    decreases |ds|
  {
    hide Good, End;
    if n < size && ds != [] {
      assert ds[0] in ds;
      WrittenFront(v, ds[1..], size, End(v, ds[0]));
      var w, rest := Written(v, ds, size, n), Written(v, ds[1..], size, End(v, ds[0]));
      assert w == [ds[0]] + rest && ds == [ds[0]] + ds[1..];
      assert rest != [] ==> w[|w| - 1] == rest[|rest| - 1];
    }
  }

  /** The nodes that are written before the loop stops at the end of the file are as good as all of them. */
  lemma {:induction false} WrittenIsAll(v: Volume, ds: seq<Entry>, size: nat)
    requires Strict(ds) && Fits(v, ds, size) && size > 0 && forall e :: e in ds ==> Good(v, e)
    ensures Laid(v, Written(v, ds, size, 0), Zeros(size)) == Laid(v, ds, Zeros(size))
  {
    hide Plain, Offset, Laid, Good, End, Fits, Strict, Written, Spoiled;
    WrittenFront(v, ds, size, 0);
    var written := Written(v, ds, size, 0);
    var rest := ds[|written|..];
    assert ds == written + rest;
    if rest != [] {
      if size > 0x1_0000_0000 {
        LargeGoesOn(v, ds, written, size);
        assert false;
      }
      RestIsEmpty(v, ds, written, size);
    }
    EmptyRest(v, written, rest, Zeros(size));
  }

  /**
   * When the first data node of every block is good, the file holds the block contents at their offsets and
   * zeros elsewhere exactly when the nodes from block 0x100000 on, whose offsets wrap around, do no harm. Up
   * to 4 GiB they never do.
   */
  method UnpackIntactFile(v: Volume, ino: uint32) returns (ok: bool, file: seq<byte>)
    requires WellFormed(v.root) && InodeOf(v, ino).Some?
    requires !Endless(v, Sweep(DataLeaves(v, ino), 0), InodeOf(v, ino).value.size)
    requires Fits(v, Sweep(DataLeaves(v, ino), 0), InodeOf(v, ino).value.size)
    requires forall e :: e in Sweep(DataLeaves(v, ino), 0) ==> Good(v, e)
    ensures ok
    ensures var ds, size := Sweep(DataLeaves(v, ino), 0), InodeOf(v, ino).value.size;
      && (Assembled(v, ds, file, size) <==> Harmless(v, ds))
      && (size <= 0x1_0000_0000 ==> Harmless(v, ds))
  {
    hide DataLeaves, Laid, Good, Plain, Harmless, Assembled, Sweep, Fits, WellFormed, Endless, Written, Spoiled;
    ok, file := UnpackFile(v, ino);
    DataLeavesOrdered(v, ino);
    ghost var leaves, size := Sweep(DataLeaves(v, ino), 0), InodeOf(v, ino).value.size;
    SweepStrict(DataLeaves(v, ino));
    WrittenFront(v, leaves, size, 0);
    if size == 0 {
      WrittenNothing(v, leaves);
      NothingFits(v, leaves);
      EmptyRest(v, [], leaves, Zeros(0));
      assert [] + leaves == leaves;
    } else {
      WrittenIsAll(v, leaves, size);
    }
    if size <= 0x1_0000_0000 {
      SmallFile(v, leaves, size);
    } else {
      LargeFile(v, leaves, size);
    }
  }

  lemma {:induction false} WrittenNothing(v: Volume, ds: seq<Entry>)
    ensures Written(v, ds, 0, 0) == [] && !Spoiled(v, ds, 0, 0)
  {
  }

  lemma {:induction false} NothingFits(v: Volume, ds: seq<Entry>)
    requires Fits(v, ds, 0)
    ensures forall e :: e in ds ==> Plain(v, e) == []
  {
  }
}
