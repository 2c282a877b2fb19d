/** Loading the index tree of a UBIFS volume through the eraseblock cache (fs/ubi.c). */
module UbiLoad {
  import opened Base
  import opened UbiIndex
  import opened UbiCache

  const NODE_MAGIC: uint32 := 0x06101831
  const IDX_NODE: byte := 9

  /** An index node as it is stored: its level, and its entries without child branches. */
  datatype IndexNode = IndexNode(level: uint16, entries: seq<Entry>)

  /**
   * The volume: the data of each logical eraseblock that can be read, the check of the first node
   * in it, and the greatest number of entries of a node.
   */
  datatype Volume = Volume(leb: uint32 -> Option<seq<byte>>, good: seq<byte> -> bool, fanout: uint32)

  /** How the reader looks at a flash: where a block's data begins, the check of its first node, the fanout. */
  datatype Layout = Layout(dataOffset: nat, good: seq<byte> -> bool, fanout: uint32)

  /** The volume that a flash holds: the data of the block that a scan from block 2 finds for each number. */
  ghost function OnFlash(flash: Flash, layout: Layout): Volume
    requires flash.Valid() && layout.dataOffset <= flash.pebSize
  {
    Volume((lnum: uint32) => LebData(flash, layout.dataOffset, lnum), layout.good, layout.fanout)
  }

  ghost function LebData(flash: Flash, dataOffset: nat, lnum: uint32): Option<seq<byte>>
    requires flash.Valid() && dataOffset <= flash.pebSize
  {
    if flash.Scan(lnum, 2).None? then None
    else
      var p := flash.Scan(lnum, 2).value;
      flash.ScanComplete(lnum, 2);
      Some(flash.Bytes(p)[dataOffset..])
  }

  /** The data of a logical eraseblock are the bytes of the first block that is mapped to it, behind the headers. */
  lemma {:induction false} LebMeans(flash: Flash, layout: Layout, lnum: uint32, p: nat, at: nat)
    requires flash.Valid() && layout.dataOffset <= flash.pebSize && flash.FirstMapped(lnum, 2, p)
    requires at == p * flash.pebSize
    ensures at + flash.pebSize <= |flash.image|
    ensures OnFlash(flash, layout).leb(lnum) == Some(flash.image[at + layout.dataOffset..at + flash.pebSize])
  {
    hide Flash.Read, Flash.Scan, Flash.Bytes, Flash.Complete, Flash.LnumAt, Flash.FirstMapped;
    flash.ScanMeans(lnum, 2, p);
    flash.ScanComplete(lnum, 2);
    flash.BytesAreImage(p, at);
  }

  /** The reference of 20 bytes at an offset: block, offset, length and the two halves of the key. */
  function RefAt(b: seq<byte>, off: nat): Entry
    requires off + 20 <= |b|
  {
    FieldBound(b, off, 4);
    FieldBound(b, off + 4, 4);
    FieldBound(b, off + 12, 4);
    FieldBound(b, off + 16, 4);
    Entry(Field(b, off + 12, 4), Field(b, off + 16, 4), Field(b, off, 4), Field(b, off + 4, 4), None)
  }

  function RefsAt(b: seq<byte>, off: nat, n: nat): (r: seq<Entry>)
    requires off + 20 * n <= |b|
    ensures |r| == n && forall i :: 0 <= i < n ==> r[i] == RefAt(b, off + 20 * i)
  {
    seq(n, i requires 0 <= i < n => RefAt(b, off + 20 * i))
  }

  predicate IsIndexNode(b: seq<byte>, offs: nat) {
    offs + 28 <= |b| && Field(b, offs, 4) == NODE_MAGIC && b[offs + 20] == IDX_NODE
  }

  /** The index node at a place, or nothing if there is none or it has too many entries. */
  function NodeAt(v: Volume, lnum: uint32, offs: uint32): Option<IndexNode> {
    if v.leb(lnum).None? then None
    else
      var b := v.leb(lnum).value;
      if !v.good(b) || !IsIndexNode(b, offs) then None
      else
        var count := Field(b, offs + 24, 2);
        FieldBound(b, offs + 26, 2);
        if count > v.fanout || offs + 28 + 20 * count > |b| then None
        else Some(IndexNode(Field(b, offs + 26, 2), RefsAt(b, offs + 28, count)))
  }

  /** A block number and an offset in its data. */
  type Place = (uint32, uint32)

  /** The tree below a place: every entry as stored, and child branches on all entries above level 0. */
  ghost predicate Stored(v: Volume, lnum: uint32, offs: uint32, t: Branch)
    decreases t
  {
    var n := NodeAt(v, lnum, offs);
    && n.Some? && t.level == n.value.level && |t.entries| == |n.value.entries|
    && (forall i :: 0 <= i < |t.entries| ==> t.entries[i].(child := None) == n.value.entries[i])
    && (forall e :: e in t.entries ==> e.child.Some? == (t.level > 0))
    && (forall e :: e in t.entries && e.child.Some? ==> Stored(v, e.lnum, e.offs, e.child.value))
  }

  /**
   * What loading from a place comes to: a tree, or a failure, which is `Some(None)`; nothing stands for a load
   * that descends through more than `fuel` nodes. Levels are not checked, so references may lead anywhere.
   */
  function LoadWithin(v: Volume, lnum: uint32, offs: uint32, fuel: nat): Option<Option<Branch>>
    decreases fuel, 0
  {
    if fuel == 0 then None
    else
      var node := NodeAt(v, lnum, offs);
      if node.None? then Some(None)
      else if node.value.level == 0 then Some(Some(Branch(0, node.value.entries)))
      else
        var es := EntriesWithin(v, node.value.entries, fuel - 1);
        if es.None? then None
        else if es.value.None? then Some(None)
        else Some(Some(Branch(node.value.level, es.value.value)))
  }

  /** The entries of a node with their child branches, up to the first that fails. */
  function EntriesWithin(v: Volume, es: seq<Entry>, fuel: nat): Option<Option<seq<Entry>>>
    decreases fuel, |es| + 1
  {
    if es == [] then Some(Some([]))
    else
      var child := LoadWithin(v, es[0].lnum, es[0].offs, fuel);
      if child.None? then None
      else if child.value.None? then Some(None)
      else Behind([es[0].(child := child.value)], EntriesWithin(v, es[1..], fuel))
  }

  function Behind(front: seq<Entry>, rest: Option<Option<seq<Entry>>>): Option<Option<seq<Entry>>> {
    if rest.None? || rest.value.None? then rest else Some(Some(front + rest.value.value))
  }

  /** The places that such a load reads. */
  ghost function Visited(v: Volume, lnum: uint32, offs: uint32, fuel: nat): set<Place>
    decreases fuel, 0
  {
    var node := NodeAt(v, lnum, offs);
    {(lnum, offs)}
    + if fuel > 0 && node.Some? && node.value.level > 0 then VisitedOf(v, node.value.entries, fuel - 1) else {}
  }

  ghost function VisitedOf(v: Volume, es: seq<Entry>, fuel: nat): set<Place>
    decreases fuel, |es| + 1
  {
    if es == [] then {}
    else
      var child := LoadWithin(v, es[0].lnum, es[0].offs, fuel);
      Visited(v, es[0].lnum, es[0].offs, fuel)
      + if child.Some? && child.value.Some? then VisitedOf(v, es[1..], fuel) else {}
  }

  /** What is loaded is the tree that is stored, and a load that fails shows that none is. */
  lemma {:induction false} LoadedIsStored(v: Volume, lnum: uint32, offs: uint32, fuel: nat)
    requires LoadWithin(v, lnum, offs, fuel).Some?
    ensures var r := LoadWithin(v, lnum, offs, fuel).value;
      && (r.Some? ==> Stored(v, lnum, offs, r.value))
      && (r.None? ==> forall t :: !Stored(v, lnum, offs, t))
    decreases fuel, 0
  {
    hide NodeAt, EntriesWithin;
    LeafLevel(v, lnum, offs);
    var node := NodeAt(v, lnum, offs);
    if node.Some? && node.value.level > 0 {
      var es := node.value.entries;
      EntriesAreStored(v, es, fuel - 1);
      if EntriesWithin(v, es, fuel - 1).value.None? {
        var e :| e in es && NothingAt(v, e);
        var i :| 0 <= i < |es| && es[i] == e;
        forall t | Stored(v, lnum, offs, t)
          ensures false
        {
          ChildStored(v, lnum, offs, t, i);
        }
      }
    }
  }

  ghost predicate NothingAt(v: Volume, e: Entry) {
    forall t :: !Stored(v, e.lnum, e.offs, t)
  }

  lemma {:induction false} EntriesAreStored(v: Volume, es: seq<Entry>, fuel: nat)
    requires EntriesWithin(v, es, fuel).Some? && forall e :: e in es ==> e.child.None?
    ensures var r := EntriesWithin(v, es, fuel).value;
      if r.None? then exists e :: e in es && NothingAt(v, e)
      else
        && |r.value| == |es|
        && (forall i :: 0 <= i < |es| ==> r.value[i].(child := None) == es[i])
        && (forall f :: f in r.value ==> f.child.Some? && Stored(v, f.lnum, f.offs, f.child.value))
    decreases fuel, |es| + 1
  {
    hide LoadWithin, Stored;
    if es != [] {
      var e := es[0];
      LoadedIsStored(v, e.lnum, e.offs, fuel);
      assert e in es;
      if LoadWithin(v, e.lnum, e.offs, fuel).value.Some? {
        EntriesAreStored(v, es[1..], fuel);
        var rest := EntriesWithin(v, es[1..], fuel).value;
        if rest.None? {
          var d :| d in es[1..] && NothingAt(v, d);
          assert d in es;
        }
      } else {
        assert NothingAt(v, e);
      }
    }
  }

  /** A stored tree is loaded, reading its own places only; so the load ends whatever the rest of the volume holds. */
  lemma {:induction false} StoredIsLoaded(v: Volume, lnum: uint32, offs: uint32, t: Branch, fuel: nat)
    requires Stored(v, lnum, offs, t) && Height(t) < fuel
    ensures LoadWithin(v, lnum, offs, fuel) == Some(Some(t))
    ensures Visited(v, lnum, offs, fuel) <= Places(lnum, offs, t)
    decreases t
  {
    hide NodeAt, EntriesWithin, VisitedOf, PlacesOf, HeightOf;
    HeightEntries(t);
    LeafLevel(v, lnum, offs);
    var stored := NodeAt(v, lnum, offs).value.entries;
    if t.level == 0 {
      assert t.entries == stored;
    } else {
      EntriesAreLoaded(v, stored, t.entries, fuel - 1);
    }
  }

  lemma {:induction false} EntriesAreLoaded(v: Volume, stored: seq<Entry>, es: seq<Entry>, fuel: nat)
    requires |stored| == |es| && forall i :: 0 <= i < |es| ==> es[i].(child := None) == stored[i]
    requires forall e :: e in es ==> e.child.Some? && Stored(v, e.lnum, e.offs, e.child.value)
    requires HeightOf(es) <= fuel
    ensures EntriesWithin(v, stored, fuel) == Some(Some(es))
    ensures VisitedOf(v, stored, fuel) <= PlacesOf(es)
    decreases es
  {
    hide LoadWithin, Stored, Height, Visited, Places;
    if es != [] {
      var e := es[0];
      assert e in es && e.(child := None) == stored[0];
      OneIsLoaded(v, e, fuel);
      EntriesAreLoaded(v, stored[1..], es[1..], fuel);
      assert stored[0].(child := e.child) == e;
      assert [e] + es[1..] == es;
    }
  }

  lemma {:induction false} OneIsLoaded(v: Volume, e: Entry, fuel: nat)
    requires e.child.Some? && Stored(v, e.lnum, e.offs, e.child.value) && EntryHeight(e) <= fuel
    ensures LoadWithin(v, e.lnum, e.offs, fuel) == Some(e.child)
    ensures Visited(v, e.lnum, e.offs, fuel) <= PlacesOfEntry(e)
    decreases e
  {
    hide LoadWithin, Stored, Height, Visited, Places;
    StoredIsLoaded(v, e.lnum, e.offs, e.child.value, fuel);
  }

  // The tree as bytes on the medium.

  /** A reference in 20 bytes: block, offset, length of the node, and the two halves of the key. */
  ghost predicate RefBytes(b: seq<byte>, e: Entry)
    requires |b| == 20
  {
    && e.lnum == b[0] as int + 0x100 * b[1] as int + 0x1_0000 * b[2] as int + 0x100_0000 * b[3] as int
    && e.offs == b[4] as int + 0x100 * b[5] as int + 0x1_0000 * b[6] as int + 0x100_0000 * b[7] as int
    && e.key0 == b[12] as int + 0x100 * b[13] as int + 0x1_0000 * b[14] as int + 0x100_0000 * b[15] as int
    && e.key1 == b[16] as int + 0x100 * b[17] as int + 0x1_0000 * b[18] as int + 0x100_0000 * b[19] as int
  }

  /** An index node: magic, type, number of references, level, and the references. */
  ghost predicate NodeBytes(b: seq<byte>, level: uint16, es: seq<Entry>) {
    && |b| >= 28 + 20 * |es|
    && b[..4] == [0x31, 0x18, 0x10, 0x06] && b[20] == 9
    && |es| == b[24] as int + 0x100 * b[25] as int && level == b[26] as int + 0x100 * b[27] as int
    && forall i :: 0 <= i < |es| ==> RefBytes(b[28 + 20 * i..28 + 20 * i + 20], es[i])
  }

  /** The bytes of a whole tree are on the volume, in blocks whose first node is good. */
  ghost predicate Written(v: Volume, lnum: uint32, offs: uint32, t: Branch)
    decreases t
  {
    && v.leb(lnum).Some? && v.good(v.leb(lnum).value) && offs <= |v.leb(lnum).value| && |t.entries| <= v.fanout
    && NodeBytes(v.leb(lnum).value[offs..], t.level, t.entries)
    && (forall e :: e in t.entries ==> e.child.Some? == (t.level > 0))
    && (forall e :: e in t.entries && e.child.Some? ==> Written(v, e.lnum, e.offs, e.child.value))
  }

  lemma {:induction false} FieldIsValue(b: seq<byte>, off: nat)
    requires off + 4 <= |b|
    ensures Field(b, off, 4)
         == b[off] as int + 0x100 * b[off + 1] as int + 0x1_0000 * b[off + 2] as int + 0x100_0000 * b[off + 3] as int
  {
    LeValueOfFour(b[off..off + 4]);
  }

  lemma {:induction false} ShortFieldIsValue(b: seq<byte>, off: nat)
    requires off + 2 <= |b|
    ensures Field(b, off, 2) == b[off] as int + 0x100 * b[off + 1] as int
  {
    assert b[off..off + 2][1..] == [b[off + 1]] && [b[off + 1]][1..] == [];
    assert LeValue([b[off + 1]]) == b[off + 1] as int + 0x100 * LeValue([]);
  }

  lemma {:induction false} RefIsRead(b: seq<byte>, off: nat, e: Entry)
    requires off + 20 <= |b|
    ensures RefBytes(b[off..off + 20], e) <==> e.(child := None) == RefAt(b, off)
  {
    hide Field;
    FieldIsValue(b, off);
    FieldIsValue(b, off + 4);
    FieldIsValue(b, off + 12);
    FieldIsValue(b, off + 16);
  }

  /** The decoder and the bytes. */
  lemma {:induction false} NodeIsRead(v: Volume, lnum: uint32, offs: uint32, level: uint16, es: seq<Entry>)
    ensures var n := NodeAt(v, lnum, offs);
      (n.Some? && level == n.value.level && |es| == |n.value.entries|
       && forall i :: 0 <= i < |es| ==> es[i].(child := None) == n.value.entries[i])
      <==> v.leb(lnum).Some? && v.good(v.leb(lnum).value) && offs <= |v.leb(lnum).value| && |es| <= v.fanout
           && NodeBytes(v.leb(lnum).value[offs..], level, es)
  {
    hide Field, RefBytes, RefAt;
    if v.leb(lnum).Some? && offs + 28 <= |v.leb(lnum).value| {
      var b := v.leb(lnum).value;
      var d := b[offs..];
      FieldIsValue(b, offs);
      ShortFieldIsValue(b, offs + 24);
      ShortFieldIsValue(b, offs + 26);
      MagicIsRead(d, b, offs);
      forall i | 0 <= i < |es| && offs + 28 + 20 * i + 20 <= |b|
        ensures RefBytes(d[28 + 20 * i..28 + 20 * i + 20], es[i])
           <==> es[i].(child := None) == RefAt(b, offs + 28 + 20 * i)
      {
        RefIsRead(b, offs + 28 + 20 * i, es[i]);
        assert d[28 + 20 * i..28 + 20 * i + 20] == b[offs + 28 + 20 * i..offs + 28 + 20 * i + 20];
      }
    }
  }

  lemma {:induction false} MagicIsRead(d: seq<byte>, b: seq<byte>, offs: nat)
    requires offs + 28 <= |b| && d == b[offs..]
    ensures Field(b, offs, 4) == NODE_MAGIC <==> d[..4] == [0x31, 0x18, 0x10, 0x06]
  {
    hide Field;
    FieldIsValue(b, offs);
  }

  /** A tree is stored for the loader exactly when its bytes are on the volume. */
  lemma {:induction false} WrittenIsStored(v: Volume, lnum: uint32, offs: uint32, t: Branch)
    ensures Written(v, lnum, offs, t) <==> Stored(v, lnum, offs, t)
    decreases t
  {
    hide NodeAt, NodeBytes;
    NodeIsRead(v, lnum, offs, t.level, t.entries);
    forall e | e in t.entries && e.child.Some?
      ensures Written(v, e.lnum, e.offs, e.child.value) <==> Stored(v, e.lnum, e.offs, e.child.value)
    {
      WrittenIsStored(v, e.lnum, e.offs, e.child.value);
    }
  }

  lemma {:induction false} LoadedIsWritten(v: Volume, lnum: uint32, offs: uint32, fuel: nat)
    requires LoadWithin(v, lnum, offs, fuel).Some?
    ensures var r := LoadWithin(v, lnum, offs, fuel).value;
      && (r.Some? ==> Written(v, lnum, offs, r.value))
      && (r.None? ==> forall t :: !Written(v, lnum, offs, t))
  {
    hide Stored, Written, LoadWithin;
    LoadedIsStored(v, lnum, offs, fuel);
    forall t
      ensures Written(v, lnum, offs, t) <==> Stored(v, lnum, offs, t)
    {
      WrittenIsStored(v, lnum, offs, t);
    }
  }

  // When a load ends.

  lemma {:induction false} MoreToLoad(v: Volume, lnum: uint32, offs: uint32, fuel: nat, more: nat)
    requires LoadWithin(v, lnum, offs, fuel).Some? && fuel <= more
    ensures LoadWithin(v, lnum, offs, more) == LoadWithin(v, lnum, offs, fuel)
    decreases fuel, 0
  {
    hide NodeAt, EntriesWithin;
    var node := NodeAt(v, lnum, offs);
    if node.Some? && node.value.level > 0 {
      MoreToEntries(v, node.value.entries, fuel - 1, more - 1);
    }
  }

  lemma {:induction false} MoreToEntries(v: Volume, es: seq<Entry>, fuel: nat, more: nat)
    requires EntriesWithin(v, es, fuel).Some? && fuel <= more
    ensures EntriesWithin(v, es, more) == EntriesWithin(v, es, fuel)
    decreases fuel, |es| + 1
  {
    hide LoadWithin;
    if es != [] {
      MoreToLoad(v, es[0].lnum, es[0].offs, fuel, more);
      if LoadWithin(v, es[0].lnum, es[0].offs, fuel).value.Some? {
        MoreToEntries(v, es[1..], fuel, more);
      }
    }
  }

  ghost predicate Ends(v: Volume, p: Place) {
    exists fuel: nat :: LoadWithin(v, p.0, p.1, fuel).Some?
  }

  function PlaceOf(e: Entry): Place {
    (e.lnum, e.offs)
  }

  /**
   * A rank that falls along references. A reference counts where a node is above level 0 and all references in
   * front of it lead to stored trees: the loader stops at the first that does not.
   */
  ghost predicate Ranked(v: Volume, rank: map<Place, nat>) {
    forall p :: p in rank && NodeAt(v, p.0, p.1).Some? && NodeAt(v, p.0, p.1).value.level > 0 ==>
      var es := NodeAt(v, p.0, p.1).value.entries;
      forall k :: 0 <= k < |es| && (forall i :: 0 <= i < k ==> !NothingAt(v, es[i])) ==>
        PlaceOf(es[k]) in rank && rank[PlaceOf(es[k])] < rank[p]
  }

  /** A load ends exactly when there is such a rank for its place. */
  lemma {:induction false} LoadEnds(v: Volume, p: Place)
    ensures Ends(v, p) <==> exists rank: map<Place, nat> :: p in rank && Ranked(v, rank)
  {
    hide Ends, Ranked, LoadWithin;
    if Ends(v, p) {
      EndingIsRanked(v);
      assert p in LeastRank(v);
    }
    if exists rank: map<Place, nat> :: p in rank && Ranked(v, rank) {
      var rank: map<Place, nat> :| p in rank && Ranked(v, rank);
      RankedEnds(v, rank, p);
    }
  }

  lemma {:induction false} RankedEnds(v: Volume, rank: map<Place, nat>, p: Place)
    requires Ranked(v, rank) && p in rank
    ensures Ends(v, p)
    decreases rank[p], 1, 0
  {
    hide NodeAt, EntriesWithin;
    var node := NodeAt(v, p.0, p.1);
    if node.Some? && node.value.level > 0 {
      var fuel := RankedEntriesEnd(v, rank, p, node.value.entries, 0);
      assert LoadWithin(v, p.0, p.1, fuel + 1).Some? by {
        assert node.value.entries[0..] == node.value.entries;
      }
    } else {
      assert LoadWithin(v, p.0, p.1, 1).Some?;
    }
  }

  lemma {:induction false} RankedEntriesEnd(v: Volume, rank: map<Place, nat>, p: Place, es: seq<Entry>, k: nat)
    returns (fuel: nat)
    requires Ranked(v, rank) && p in rank && NodeAt(v, p.0, p.1).Some? && NodeAt(v, p.0, p.1).value.level > 0
    requires es == NodeAt(v, p.0, p.1).value.entries && k <= |es| && forall i :: 0 <= i < k ==> !NothingAt(v, es[i])
    ensures EntriesWithin(v, es[k..], fuel).Some?
    decreases rank[p], 0, |es| - k
  {
    hide NodeAt, LoadWithin, NothingAt;
    fuel := 0;
    if k < |es| {
      var e := es[k];
      assert es[k..][0] == e && es[k..][1..] == es[k + 1..];
      RankedEnds(v, rank, PlaceOf(e));
      fuel :| LoadWithin(v, e.lnum, e.offs, fuel).Some?;
      if LoadWithin(v, e.lnum, e.offs, fuel).value.Some? {
        TreeThere(v, e, fuel);
        var later := RankedEntriesEnd(v, rank, p, es, k + 1);
        var most := if fuel <= later then later else fuel;
        MoreToLoad(v, e.lnum, e.offs, fuel, most);
        MoreToEntries(v, es[k + 1..], later, most);
        fuel := most;
      }
    }
  }

  lemma {:induction false} TreeThere(v: Volume, e: Entry, fuel: nat)
    requires LoadWithin(v, e.lnum, e.offs, fuel).Some?
    ensures LoadWithin(v, e.lnum, e.offs, fuel).value.Some? <==> !NothingAt(v, e)
  {
    hide LoadWithin, Stored;
    LoadedIsStored(v, e.lnum, e.offs, fuel);
  }

  /** The least fuel with which the load of a place ends. */
  ghost function Least(v: Volume, p: Place): (fuel: nat)
    requires Ends(v, p)
    ensures LoadWithin(v, p.0, p.1, fuel).Some?
    ensures forall less: nat :: LoadWithin(v, p.0, p.1, less).Some? ==> fuel <= less
  {
    var enough: nat :| LoadWithin(v, p.0, p.1, enough).Some?;
    LeastUpTo(v, p, enough)
  }

  ghost function LeastUpTo(v: Volume, p: Place, enough: nat): (fuel: nat)
    requires LoadWithin(v, p.0, p.1, enough).Some?
    ensures LoadWithin(v, p.0, p.1, fuel).Some?
    ensures forall less: nat :: LoadWithin(v, p.0, p.1, less).Some? ==> fuel <= less
  {
    if enough > 0 && LoadWithin(v, p.0, p.1, enough - 1).Some? then LeastUpTo(v, p, enough - 1)
    else
      NoLess(v, p, enough);
      enough
  }

  lemma {:induction false} NoLess(v: Volume, p: Place, enough: nat)
    requires enough == 0 || LoadWithin(v, p.0, p.1, enough - 1).None?
    ensures forall less: nat :: LoadWithin(v, p.0, p.1, less).Some? ==> enough <= less
  {
    hide LoadWithin;
    forall less: nat | LoadWithin(v, p.0, p.1, less).Some?
      ensures enough <= less
    {
      if less < enough {
        MoreToLoad(v, p.0, p.1, less, enough - 1);
      }
    }
  }

  ghost function LeastRank(v: Volume): map<Place, nat> {
    var places := set l: uint32, o: uint32 | 0 <= l < 0x1_0000_0000 && 0 <= o < 0x1_0000_0000 :: (l, o);
    map p | p in places && Ends(v, p) :: Least(v, p)
  }

  lemma {:induction false} EndingIsRanked(v: Volume)
    ensures forall p :: Ends(v, p) ==> p in LeastRank(v)
    ensures Ranked(v, LeastRank(v))
  {
    hide Ends, NodeAt, NothingAt, LoadWithin, Least;
    var rank := LeastRank(v);
    forall p: Place
      ensures p in rank <==> Ends(v, p)
    {
      assert p == (p.0, p.1);
    }
    forall p, k: nat | p in rank && NodeAt(v, p.0, p.1).Some? && NodeAt(v, p.0, p.1).value.level > 0
                       && k < |NodeAt(v, p.0, p.1).value.entries|
                       && forall i :: 0 <= i < k ==> !NothingAt(v, NodeAt(v, p.0, p.1).value.entries[i])
      ensures var q := PlaceOf(NodeAt(v, p.0, p.1).value.entries[k]); q in rank && rank[q] < rank[p]
    {
      LeastFalls(v, p, k);
    }
  }

  lemma {:induction false} LeastFalls(v: Volume, p: Place, k: nat)
    requires Ends(v, p) && NodeAt(v, p.0, p.1).Some? && NodeAt(v, p.0, p.1).value.level > 0
    requires k < |NodeAt(v, p.0, p.1).value.entries|
    requires forall i :: 0 <= i < k ==> !NothingAt(v, NodeAt(v, p.0, p.1).value.entries[i])
    ensures var q := PlaceOf(NodeAt(v, p.0, p.1).value.entries[k]);
      Ends(v, q) && Least(v, q) < Least(v, p)
  {
    hide NodeAt, NothingAt, EntriesWithin;
    var es, fuel := NodeAt(v, p.0, p.1).value.entries, Least(v, p);
    assert LoadWithin(v, p.0, p.1, fuel).Some?;
    ReachedEnds(v, es, fuel - 1, k);
  }

  /** A reference that the loader comes to is loaded with the same fuel. */
  lemma {:induction false} ReachedEnds(v: Volume, es: seq<Entry>, fuel: nat, k: nat)
    requires EntriesWithin(v, es, fuel).Some? && k < |es| && forall i :: 0 <= i < k ==> !NothingAt(v, es[i])
    ensures LoadWithin(v, es[k].lnum, es[k].offs, fuel).Some?
    decreases |es|
  {
    hide LoadWithin, NothingAt;
    if k > 0 {
      TreeThere(v, es[0], fuel);
      assert forall i :: 0 <= i < |es[1..]| ==> es[1..][i] == es[i + 1];
      ReachedEnds(v, es[1..], fuel, k - 1);
    }
  }

  /** The cache may be used to load from these places: it answers for their blocks as a scan does. */
  ghost predicate Ready(cache: PebCache, layout: Layout, places: set<Place>)
    reads cache.slots
  {
    && cache.Valid() && cache.Scanned() && cache.flash.SharedVidOffset() && layout.dataOffset <= cache.flash.pebSize
    && forall p :: p in places ==> cache.flash.UniqueLnum(p.0)
  }

  method LoadIndexNode(cache: PebCache, layout: Layout, ghost places: set<Place>, lnum: uint32, offs: uint32)
    returns (r: Option<IndexNode>)
    requires Ready(cache, layout, places) && (lnum, offs) in places
    modifies cache.slots
    ensures Ready(cache, layout, places) && r == NodeAt(OnFlash(cache.flash, layout), lnum, offs)
  {
    hide Field, RefAt, Flash.Scan, Flash.SharedVidOffset, Flash.UniqueLnum, Flash.Read, Sound, LiveBlocks;
    ReadyFlash(cache, layout, places);
    var peb, bytes := cache.ReadLeb(lnum, cache.flash.pebSize);
    if peb.None? {
      return None;
    }
    cache.flash.ScanComplete(lnum, 2);
    assert bytes == cache.flash.Bytes(peb.value);
    r := ParseNode(bytes[layout.dataOffset..], layout, offs);
  }

  /** The index node in the data of a block. */
  function NodeIn(b: seq<byte>, layout: Layout, offs: uint32): Option<IndexNode> {
    NodeAt(Volume((lnum: uint32) => Some(b), layout.good, layout.fanout), 0, offs)
  }

  method ParseNode(b: seq<byte>, layout: Layout, offs: uint32) returns (r: Option<IndexNode>)
    ensures r == NodeIn(b, layout, offs)
  {
    hide Field, RefAt;
    if !layout.good(b) || !IsIndexNode(b, offs) {
      return None;
    }
    var count := Field(b, offs + 24, 2);
    FieldBound(b, offs + 26, 2);
    var level: uint16 := Field(b, offs + 26, 2);
    if count > layout.fanout || offs + 28 + 20 * count > |b| {
      return None;
    }
    var entries: seq<Entry> := [];
    for i := 0 to count
      invariant entries == RefsAt(b, offs + 28, count)[..i]
    {
      entries := entries + [RefAt(b, offs + 28 + 20 * i)];
    }
    assert entries == RefsAt(b, offs + 28, count);
    return Some(IndexNode(level, entries));
  }

  lemma {:induction false} ReadyFlash(cache: PebCache, layout: Layout, places: set<Place>)
    requires Ready(cache, layout, places)
    ensures cache.flash.Valid() && layout.dataOffset <= cache.flash.pebSize
  {
  }

  /** Loads the whole tree below a place, wherever that ends. */
  method Load(cache: PebCache, layout: Layout, ghost places: set<Place>, lnum: uint32, offs: uint32,
              ghost fuel: nat)
    returns (r: Option<Branch>)
    requires Ready(cache, layout, places) && Visited(OnFlash(cache.flash, layout), lnum, offs, fuel) <= places
    requires LoadWithin(OnFlash(cache.flash, layout), lnum, offs, fuel).Some?
    modifies cache.slots
    ensures Ready(cache, layout, places)
    ensures LoadWithin(OnFlash(cache.flash, layout), lnum, offs, fuel) == Some(r)
    ensures r.Some? ==> Written(OnFlash(cache.flash, layout), lnum, offs, r.value)
    ensures r.None? ==> forall t :: !Written(OnFlash(cache.flash, layout), lnum, offs, t)
    decreases fuel
  {
    hide NodeAt, OnFlash, Ready, EntriesWithin, VisitedOf, Written;
    ReadyFlash(cache, layout, places);
    ghost var v := OnFlash(cache.flash, layout);
    LoadedIsWritten(v, lnum, offs, fuel);
    var node := LoadIndexNode(cache, layout, places, lnum, offs);
    if node.None? {
      return None;
    }
    var level, entries := node.value.level, node.value.entries;
    if level == 0 {
      return Some(Branch(level, entries));
    }
    ghost var stored := entries;
    EntriesStart(v, stored, fuel - 1);
    for i := 0 to |entries|
      invariant Ready(cache, layout, places) && |entries| == |stored| && entries[i..] == stored[i..]
      invariant EntriesWithin(v, stored, fuel - 1) == Behind(entries[..i], EntriesWithin(v, stored[i..], fuel - 1))
      invariant EntriesWithin(v, stored[i..], fuel - 1).Some? && VisitedOf(v, stored[i..], fuel - 1) <= places
    {
      var e := entries[i];
      assert e == entries[i..][0] == stored[i];
      EntriesStep(v, stored, i, entries[..i], fuel - 1);
      var child := Load(cache, layout, places, e.lnum, e.offs, fuel - 1);
      if child.None? {
        return None;
      }
      ghost var before := entries;
      entries := entries[i := e.(child := child)];
      assert entries[..i + 1] == before[..i] + [e.(child := child)];
      assert entries[i + 1..] == before[i..][1..] == stored[i + 1..];
    }
    EntriesDone(v, stored, entries, fuel - 1);
    return Some(Branch(level, entries));
  }

  lemma {:induction false} EntriesStart(v: Volume, stored: seq<Entry>, fuel: nat)
    ensures stored[0..] == stored
    ensures EntriesWithin(v, stored, fuel) == Behind(stored[..0], EntriesWithin(v, stored, fuel))
  {
    hide EntriesWithin;
    var all := EntriesWithin(v, stored, fuel);
    if all.Some? && all.value.Some? {
      assert stored[..0] + all.value.value == all.value.value;
    }
  }

  /** One more entry of a node: its child fails, or the entry joins those in front. */
  lemma {:induction false} EntriesStep(v: Volume, stored: seq<Entry>, i: nat, front: seq<Entry>, fuel: nat)
    requires i < |stored| && EntriesWithin(v, stored[i..], fuel).Some?
    ensures var e := stored[i]; var child := LoadWithin(v, e.lnum, e.offs, fuel);
      && child.Some? && Visited(v, e.lnum, e.offs, fuel) <= VisitedOf(v, stored[i..], fuel)
      && if child.value.None? then Behind(front, EntriesWithin(v, stored[i..], fuel)) == Some(None)
         else
           && EntriesWithin(v, stored[i + 1..], fuel).Some?
           && VisitedOf(v, stored[i + 1..], fuel) <= VisitedOf(v, stored[i..], fuel)
           && Behind(front, EntriesWithin(v, stored[i..], fuel))
              == Behind(front + [e.(child := child.value)], EntriesWithin(v, stored[i + 1..], fuel))
  {
    hide LoadWithin, Visited;
    assert stored[i..][1..] == stored[i + 1..];
    var rest := EntriesWithin(v, stored[i + 1..], fuel);
    var e := stored[i];
    var child := LoadWithin(v, e.lnum, e.offs, fuel);
    if child.value.Some? && rest.value.Some? {
      Regroup(front, [e.(child := child.value)], rest.value.value);
    }
  }

  lemma {:induction false} EntriesDone(v: Volume, stored: seq<Entry>, entries: seq<Entry>, fuel: nat)
    requires |entries| == |stored|
    ensures Behind(entries[..|entries|], EntriesWithin(v, stored[|stored|..], fuel)) == Some(Some(entries))
  {
    hide LoadWithin;
    assert entries[..|entries|] + [] == entries;
  }

  lemma {:induction false} LeafLevel(v: Volume, lnum: uint32, offs: uint32)
    ensures var n := NodeAt(v, lnum, offs);
      n.Some? ==> forall e :: e in n.value.entries ==> e.child.None?
  {
    hide Field;
    var n := NodeAt(v, lnum, offs);
    if n.Some? {
      forall i | 0 <= i < |n.value.entries|
        ensures n.value.entries[i].child.None?
      {
      }
    }
  }

  lemma {:induction false} ChildStored(v: Volume, lnum: uint32, offs: uint32, t: Branch, i: nat)
    requires Stored(v, lnum, offs, t) && t.level > 0 && i < |t.entries|
    ensures t.entries[i].child.Some?
    ensures var e := NodeAt(v, lnum, offs).value.entries[i];
      Stored(v, e.lnum, e.offs, t.entries[i].child.value)
  {
    hide NodeAt;
    var f := t.entries[i];
    assert f in t.entries;
    assert f.(child := None) == NodeAt(v, lnum, offs).value.entries[i];
  }

  /** At most one tree is stored at a place. */
  lemma {:induction false} StoredOnce(v: Volume, lnum: uint32, offs: uint32, s: Branch, t: Branch)
    requires Stored(v, lnum, offs, s) && Stored(v, lnum, offs, t)
    ensures s == t
    decreases s
  {
    hide NodeAt;
    forall i | 0 <= i < |s.entries|
      ensures s.entries[i] == t.entries[i]
    {
      var a, b := s.entries[i], t.entries[i];
      assert a in s.entries && b in t.entries;
      assert a.(child := None) == b.(child := None);
      if a.child.Some? {
        StoredOnce(v, a.lnum, a.offs, a.child.value, b.child.value);
      }
    }
    assert s.entries == t.entries;
  }

  /** The key of the entry after the `i`th, or the upper bound of the node. */
  function NextKey(b: Branch, i: nat, hi: uint64): uint64
    requires i < |b.entries|
  {
    if i + 1 < |b.entries| then Key(b.entries[i + 1]) else hi
  }

  /**
   * The order of keys as the format has it, node by node: entries in key order between two bounds, and the
   * node that an entry points at is not empty and lies between that entry's key and the next.
   */
  ghost predicate KeyOrder(b: Branch, lo: uint64, hi: uint64)
    decreases b
  {
    && (forall e :: e in b.entries ==> e.child.Some? == HasBranches(b))
    && (forall i :: 0 <= i < |b.entries| ==> lo <= Key(b.entries[i]) <= hi)
    && (forall i, j :: 0 <= i < j < |b.entries| ==> Key(b.entries[i]) <= Key(b.entries[j]))
    && (forall i :: 0 <= i < |b.entries| && b.entries[i].child.Some? ==>
          |b.entries[i].child.value.entries| > 0
          && KeyOrder(b.entries[i].child.value, Key(b.entries[i]), NextKey(b, i, hi)))
  }

  /** The leaves below the first `n` entries are sorted, above `lo`, and not above the next entry. */
  ghost predicate LeavesBelow(b: Branch, n: nat, lo: uint64, hi: uint64)
    requires n <= |b.entries|
  {
    var ls := LeavesOf(b.entries[..n]);
    Sorted(ls) && forall l :: l in ls ==> lo <= Key(l) <= if n < |b.entries| then Key(b.entries[n]) else hi
  }

  /** The order within each node makes the whole index searchable. */
  lemma {:induction false} OrderedIsWellFormed(b: Branch, lo: uint64, hi: uint64)
    requires KeyOrder(b, lo, hi)
    ensures WellFormed(b)
    ensures forall l :: l in Leaves(b) ==> lo <= Key(l) <= hi
    ensures |b.entries| > 0 ==> forall l :: l in Leaves(b) ==> Key(b.entries[0]) <= Key(l)
    decreases b, |b.entries| + 1
  {
    hide LeavesOf, KeyOrder, WellFormedChild, WellFormed, Leaves, Sorted;
    var n := |b.entries|;
    var first := if n > 0 then Key(b.entries[0]) else lo;
    OrderedPrefix(b, lo, hi, first, n);
    FirstInBounds(b, lo, hi);
    assert b.entries[..n] == b.entries;
    AllLeaves(b);
    forall i | 0 <= i < n && b.entries[i].child.Some?
      ensures WellFormedChild(b.entries[i].child.value)
    {
      ChildInOrder(b, lo, hi, i);
      OrderedIsWellFormed(b.entries[i].child.value, Key(b.entries[i]), NextKey(b, i, hi));
      ChildFromBranch(b.entries[i].child.value);
    }
    FromChildren(b);
  }

  lemma {:induction false} AllLeaves(b: Branch)
    ensures Leaves(b) == LeavesOf(b.entries)
  {
  }

  lemma {:induction false} FirstInBounds(b: Branch, lo: uint64, hi: uint64)
    requires KeyOrder(b, lo, hi)
    ensures |b.entries| > 0 ==> lo <= Key(b.entries[0])
    ensures forall e :: e in b.entries ==> e.child.Some? == HasBranches(b)
  {
  }

  lemma {:induction false} ChildInOrder(b: Branch, lo: uint64, hi: uint64, i: nat)
    requires KeyOrder(b, lo, hi) && i < |b.entries| && b.entries[i].child.Some?
    ensures |b.entries[i].child.value.entries| > 0
    ensures KeyOrder(b.entries[i].child.value, Key(b.entries[i]), NextKey(b, i, hi))
  {
  }

  lemma {:induction false} ChildFromBranch(b: Branch)
    requires |b.entries| > 0 && WellFormed(b) && forall l :: l in Leaves(b) ==> Key(b.entries[0]) <= Key(l)
    ensures WellFormedChild(b)
  {
    hide WellFormed, Leaves;
  }

  lemma {:induction false} FromChildren(b: Branch)
    requires forall e :: e in b.entries ==> e.child.Some? == HasBranches(b)
    requires forall i :: 0 <= i < |b.entries| && b.entries[i].child.Some? ==> WellFormedChild(b.entries[i].child.value)
    requires Sorted(Leaves(b))
    ensures WellFormed(b)
  {
    hide WellFormedChild, Leaves, Sorted;
  }

  lemma {:induction false} OrderedPrefix(b: Branch, lo: uint64, hi: uint64, first: uint64, n: nat)
    requires KeyOrder(b, lo, hi) && n <= |b.entries|
    requires first == if |b.entries| > 0 then Key(b.entries[0]) else lo
    ensures LeavesBelow(b, n, first, hi)
    decreases b, n
  {
    hide WellFormed, Sorted, KeyOrder;
    if n == 0 {
      NoLeaves(b, first, hi);
    } else {
      OrderedPrefix(b, lo, hi, first, n - 1);
      var e := b.entries[n - 1];
      InBounds(b, lo, hi, n - 1);
      assert b.entries[..n] == b.entries[..n - 1] + [e];
      LeavesAppend(b.entries[..n], b.entries[..n - 1], e);
      if e.child.Some? {
        ChildInOrder(b, lo, hi, n - 1);
        OrderedIsWellFormed(e.child.value, Key(e), NextKey(b, n - 1, hi));
        SortedLeaves(e.child.value);
      } else {
        OneSorted(e);
      }
      SortedJoin(LeavesOf(b.entries[..n - 1]), EntryLeaves(e), first, Key(e), NextKey(b, n - 1, hi));
    }
  }

  lemma {:induction false} NoLeaves(b: Branch, lo: uint64, hi: uint64)
    ensures LeavesBelow(b, 0, lo, hi)
  {
    assert b.entries[..0] == [];
  }

  lemma {:induction false} InBounds(b: Branch, lo: uint64, hi: uint64, i: nat)
    requires KeyOrder(b, lo, hi) && i < |b.entries|
    ensures Key(b.entries[0]) <= Key(b.entries[i]) <= NextKey(b, i, hi)
  {
  }

  lemma {:induction false} SortedLeaves(b: Branch)
    requires WellFormed(b)
    ensures Sorted(Leaves(b))
  {
  }

  lemma {:induction false} OneSorted(e: Entry)
    ensures Sorted([e])
  {
  }

  lemma {:induction false} SortedJoin(a: seq<Entry>, b: seq<Entry>, lo: uint64, mid: uint64, hi: uint64)
    requires Sorted(a) && Sorted(b) && lo <= mid <= hi
    requires forall l :: l in a ==> lo <= Key(l) <= mid
    requires forall l :: l in b ==> mid <= Key(l) <= hi
    ensures Sorted(a + b) && forall l :: l in a + b ==> lo <= Key(l) <= hi
  {
    forall i, j | 0 <= i < j < |a + b|
      ensures Key((a + b)[i]) <= Key((a + b)[j])
    {
      assert i < |a| ==> (a + b)[i] in a;
      assert j >= |a| ==> (a + b)[j] in b;
    }
  }

  function Height(t: Branch): nat
    decreases t
  {
    HeightOf(t.entries)
  }

  function HeightOf(es: seq<Entry>): nat
    decreases es
  {
    if es == [] then 0 else
    var h, rest := EntryHeight(es[0]), HeightOf(es[1..]);
    if h < rest then rest else h
  }

  function EntryHeight(e: Entry): nat
    decreases e
  {
    if e.child.Some? then 1 + Height(e.child.value) else 0
  }

  /** The places of the nodes of a tree. */
  ghost function Places(lnum: uint32, offs: uint32, t: Branch): set<Place>
    decreases t
  {
    {(lnum, offs)} + PlacesOf(t.entries)
  }

  ghost function PlacesOf(es: seq<Entry>): set<Place>
    decreases es
  {
    if es == [] then {} else PlacesOfEntry(es[0]) + PlacesOf(es[1..])
  }

  ghost function PlacesOfEntry(e: Entry): set<Place>
    decreases e
  {
    if e.child.Some? then Places(e.lnum, e.offs, e.child.value) else {}
  }

  lemma {:induction false} HeightEntries(t: Branch)
    ensures Height(t) == HeightOf(t.entries)
  {
  }

  /**
   * Loading a tree whose bytes are on the flash through the cache gives that tree, and searching it the first
   * leaf in range, when the nodes are in order and the blocks they lie in have unique numbers.
   */
  method LoadAndFind(cache: PebCache, layout: Layout, lnum: uint32, offs: uint32,
                     keytype: byte, key0: uint32, hashMin: uint32, hashMax: uint32, ghost t: Branch)
    returns (r: Option<Entry>)
    requires Ready(cache, layout, Places(lnum, offs, t)) && Written(OnFlash(cache.flash, layout), lnum, offs, t)
    requires KeyOrder(t, 0, 0xFFFF_FFFF_FFFF_FFFF)
    modifies cache.slots
    ensures Ready(cache, layout, Places(lnum, offs, t))
    ensures r == FirstIn(Leaves(t), MakeKey(keytype, key0, hashMin), MakeKey(keytype, key0, hashMax))
  {
    hide Stored, Written, KeyOrder, Leaves, OnFlash, Places, Ready, LoadWithin, Visited, Height;
    ReadyFlash(cache, layout, Places(lnum, offs, t));
    WrittenIsStored(OnFlash(cache.flash, layout), lnum, offs, t);
    StoredIsLoaded(OnFlash(cache.flash, layout), lnum, offs, t, Height(t) + 1);
    var root := Load(cache, layout, Places(lnum, offs, t), lnum, offs, Height(t) + 1);
    OrderedIsWellFormed(t, 0, 0xFFFF_FFFF_FFFF_FFFF);
    r := Find(root.value, keytype, key0, hashMin, hashMax);
  }
}
