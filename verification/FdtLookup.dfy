/** Looking up nodes of a devicetree by name and by phandle (fdt/fdt.c). */
module FdtLookup {
  import opened Base
  import opened FdtTokens
  import opened FdtTree
  import opened Fdt

  /** "phandle" */
  const PHANDLE: seq<byte> := [112, 104, 97, 110, 100, 108, 101]

  predicate IsPhandle(t: Tree, phandle: uint32) {
    t.Property? && t.name == PHANDLE && |t.data| == 4 && Be32(t.data, 0) == phandle
  }

  predicate Matches(t: Tree, phandle: uint32) {
    t.Node? && exists i :: 0 <= i < |t.children| && IsPhandle(t.children[i], phandle)
  }

  /** The subtrees of a list, each before those inside it. */
  function Preorder(ts: seq<Tree>): seq<Tree>
    decreases ts
  {
    if ts == [] then []
    else [ts[0]] + (if ts[0].Node? then Preorder(ts[0].children) else []) + Preorder(ts[1..])
  }

  function FirstMatch(ts: seq<Tree>, phandle: uint32): (r: Option<Tree>)
    ensures r.None? <==> forall t :: t in ts ==> !Matches(t, phandle)
    ensures r.Some? ==> r.value in ts && Matches(r.value, phandle)
  {
    if ts == [] then None
    else if Matches(ts[0], phandle) then Some(ts[0])
    else FirstMatch(ts[1..], phandle)
  }

  /** The characters of a text as bytes. */
  function Ascii(s: string): seq<byte>
    requires forall i :: 0 <= i < |s| ==> s[i] <= '~'
  {
    seq(|s|, i requires 0 <= i < |s| => s[i] as int)
  }

  /** A node has the phandle that a property of that name holds as one big-endian word. */
  lemma {:induction false} MatchesMean(t: Tree, phandle: uint32)
    ensures Matches(t, phandle)
       <==> t.Node? && Property(Ascii("phandle"), [phandle / 0x100_0000, phandle / 0x1_0000 % 0x100,
                                                   phandle / 0x100 % 0x100, phandle % 0x100]) in t.children
  {
    hide IsPhandle, Ascii;
    if t.Node? {
      var p := Property(Ascii("phandle"), [phandle / 0x100_0000, phandle / 0x1_0000 % 0x100,
                                           phandle / 0x100 % 0x100, phandle % 0x100]);
      forall c
        ensures IsPhandle(c, phandle) <==> c == p
      {
        PhandleMeans(c, phandle);
      }
    }
  }

  lemma {:induction false} PhandleMeans(t: Tree, phandle: uint32)
    ensures IsPhandle(t, phandle)
       <==> t == Property(Ascii("phandle"), [phandle / 0x100_0000, phandle / 0x1_0000 % 0x100,
                                             phandle / 0x100 % 0x100, phandle % 0x100])
  {
    hide Be32;
    assert PHANDLE == Ascii("phandle");
    var d := [phandle / 0x100_0000, phandle / 0x1_0000 % 0x100, phandle / 0x100 % 0x100, phandle % 0x100];
    if t.Property? && |t.data| == 4 {
      FourDigits(t.data, phandle);
      assert t.data == [t.data[0], t.data[1], t.data[2], t.data[3]];
    }
  }

  lemma {:induction false} FourDigits(b: seq<byte>, x: uint32)
    requires |b| == 4
    ensures Be32(b, 0) == x
       <==> b[0] == x / 0x100_0000 && b[1] == x / 0x1_0000 % 0x100 && b[2] == x / 0x100 % 0x100 && b[3] == x % 0x100
  {
    var y := b[0] as int * 0x100 + b[1] as int;
    var z := y * 0x100 + b[2] as int;
    assert Be32(b, 0) == z * 0x100 + b[3] as int;
    LastDigit(x, z, b[3]);
    LastDigit(x / 0x100, y, b[2]);
    LastDigit(x / 0x1_0000, b[0], b[1]);
    assert x / 0x100 / 0x100 == x / 0x1_0000 && x / 0x1_0000 / 0x100 == x / 0x100_0000;
  }

  lemma {:induction false} LastDigit(x: nat, y: nat, d: byte)
    ensures x == y * 0x100 + d <==> x / 0x100 == y && x % 0x100 == d
  {
  }

  /** What begins a subtree in a blob. */
  function Opening(t: Tree): Token {
    if t.Node? then Begin(t.name) else Prop(t.name, t.data)
  }

  function Openings(ts: seq<Token>): seq<Token> {
    if ts == [] then []
    else (if ts[0].Begin? || ts[0].Prop? then [ts[0]] else []) + Openings(ts[1..])
  }

  function EachOpening(ts: seq<Tree>): (r: seq<Token>)
    ensures |r| == |ts| && forall i :: 0 <= i < |ts| ==> r[i] == Opening(ts[i])
  {
    seq(|ts|, i requires 0 <= i < |ts| => Opening(ts[i]))
  }

  lemma {:induction false} OpeningsConcat(a: seq<Token>, b: seq<Token>)
    ensures Openings(a + b) == Openings(a) + Openings(b)
    decreases |a|
  {
    hide Openings;
    if a == [] {
      assert a + b == b;
      NoOpening();
    } else {
      OpeningsConcat(a[1..], b);
      OpeningsStep(a[0], a[1..] + b);
      OpeningsStep(a[0], a[1..]);
      assert [a[0]] + (a[1..] + b) == a + b && [a[0]] + a[1..] == a;
    }
  }

  lemma {:induction false} OpeningsStep(x: Token, rest: seq<Token>)
    ensures Openings([x] + rest) == (if x.Begin? || x.Prop? then [x] else []) + Openings(rest)
  {
    assert ([x] + rest)[1..] == rest;
  }

  /** The order of the search is that in which nodes and properties begin in the blob. */
  lemma {:induction false} PreorderIsBlobOrder(ts: seq<Tree>)
    ensures Openings(FlatAll(ts)) == EachOpening(Preorder(ts))
    decreases ts
  {
    hide Openings, EachOpening, Opening;
    if ts == [] {
      NoOpening();
    } else {
      var t := ts[0];
      var inner := if t.Node? then Preorder(t.children) else [];
      assert Openings(Flat(t)) == EachOpening([t] + inner) by {
        if t.Node? {
          PreorderIsBlobOrder(t.children);
          OpeningsConcat([Begin(t.name)] + FlatAll(t.children), [End]);
          OpeningsConcat([Begin(t.name)], FlatAll(t.children));
          Regroup([Begin(t.name)], FlatAll(t.children), [End]);
        }
        OneOpening(t, inner);
      }
      PreorderIsBlobOrder(ts[1..]);
      OpeningsConcat(Flat(t), FlatAll(ts[1..]));
      EachConcat([t] + inner, Preorder(ts[1..]));
    }
  }

  lemma {:induction false} NoOpening()
    ensures Openings([]) == [] && EachOpening([]) == []
  {
  }

  lemma {:induction false} OneOpening(t: Tree, inner: seq<Tree>)
    ensures EachOpening([t] + inner) == [Opening(t)] + EachOpening(inner)
    ensures t.Node? ==> Openings([Begin(t.name)]) == [Opening(t)]
    ensures t.Property? ==> Openings([Prop(t.name, t.data)]) == [Opening(t)]
    ensures Openings([End]) == [] && EachOpening([]) == []
  {
    assert forall x: Token :: [x][1..] == [];
    assert EachOpening([t] + inner)[0] == Opening(t);
  }

  lemma {:induction false} EachConcat(a: seq<Tree>, b: seq<Tree>)
    ensures EachOpening(a + b) == EachOpening(a) + EachOpening(b)
  {
  }

  /** The first child of that name. */
  method FindByname(root: DeviceNode, name: seq<byte>) returns (r: DeviceNode?)
    ensures r == null ==> forall i :: 0 <= i < |root.child| ==> root.child[i].name != name
    ensures r != null ==> exists i :: 0 <= i < |root.child| && root.child[i] == r && r.name == name
                                      && forall j :: 0 <= j < i ==> root.child[j].name != name
  {
    for i := 0 to |root.child|
      invariant forall j :: 0 <= j < i ==> root.child[j].name != name
    {
      if root.child[i].name == name {
        return root.child[i];
      }
    }
    return null;
  }

  method MatchPhandle(node: DeviceNode, phandle: uint32, ghost t: Tree, ghost done: set<DeviceNode>) returns (r: bool)
    requires Holds(node, t, done)
    ensures r == Matches(t, phandle)
  {
    r := false;
    for i := 0 to |node.child|
      invariant forall j :: 0 <= j < i ==> t.Node? && !IsPhandle(t.children[j], phandle)
    {
      var prop := node.child[i];
      assert Holds(prop, t.children[i], done);
      if prop.name == PHANDLE && |prop.data| == 4 && Be32(prop.data, 0) == phandle {
        return true;
      }
    }
  }

  /** Where the first match is; the length if there is none. */
  function FirstIndex(ts: seq<Tree>, phandle: uint32): (r: nat)
    ensures r <= |ts|
    ensures r < |ts| ==> FirstMatch(ts, phandle) == Some(ts[r])
    ensures r == |ts| ==> FirstMatch(ts, phandle) == None
  {
    if ts == [] || Matches(ts[0], phandle) then 0 else 1 + FirstIndex(ts[1..], phandle)
  }

  lemma {:induction false} FirstIndexConcat(a: seq<Tree>, b: seq<Tree>, phandle: uint32)
    ensures FirstIndex(a + b, phandle)
         == if FirstIndex(a, phandle) < |a| then FirstIndex(a, phandle) else |a| + FirstIndex(b, phandle)
    decreases |a|
  {
    hide Matches;
    if a == [] {
      assert a + b == b;
    } else {
      assert (a + b)[1..] == a[1..] + b;
      FirstIndexConcat(a[1..], b, phandle);
    }
  }

  /** The linked nodes below a list of nodes, in the order of the subtrees they hold. */
  ghost function Below(ns: seq<DeviceNode>, ts: seq<Tree>, done: set<DeviceNode>): (r: seq<DeviceNode>)
    requires HoldEach(ns, ts, done)
    reads done
    ensures |r| == |Preorder(ts)|
    decreases ts
  {
    if ts == [] then []
    else
      assert Holds(ns[0], ts[0], done);
      RestHolds(ns, ts, done);
      [ns[0]] + BelowOne(ns[0], ts[0], done) + Below(ns[1..], ts[1..], done)
  }

  ghost function BelowOne(n: DeviceNode, t: Tree, done: set<DeviceNode>): (r: seq<DeviceNode>)
    requires Holds(n, t, done)
    reads done
    ensures |r| == |if t.Node? then Preorder(t.children) else []|
    decreases t
  {
    if t.Node? then Below(n.child, t.children, done) else []
  }

  lemma {:induction false} RestHolds(ns: seq<DeviceNode>, ts: seq<Tree>, done: set<DeviceNode>)
    requires HoldEach(ns, ts, done) && ts != []
    ensures HoldEach(ns[1..], ts[1..], done)
  {
    hide Holds;
  }

  /** The linked node that is the first match below a list of nodes, if there is one. */
  ghost function FirstNode(ns: seq<DeviceNode>, ts: seq<Tree>, done: set<DeviceNode>, phandle: uint32): DeviceNode?
    requires HoldEach(ns, ts, done)
    reads done
  {
    var i := FirstIndex(Preorder(ts), phandle);
    if i == |Preorder(ts)| then null else Below(ns, ts, done)[i]
  }

  /** The index of the first match: the tree itself, one inside it, or one after it. */
  lemma {:induction false} FirstIndexStep(ts: seq<Tree>, phandle: uint32)
    requires ts != []
    ensures var inner := if ts[0].Node? then Preorder(ts[0].children) else [];
      FirstIndex(Preorder(ts), phandle)
        == if Matches(ts[0], phandle) then 0
           else if FirstIndex(inner, phandle) < |inner| then 1 + FirstIndex(inner, phandle)
           else 1 + |inner| + FirstIndex(Preorder(ts[1..]), phandle)
  {
    hide Matches;
    var inner := if ts[0].Node? then Preorder(ts[0].children) else [];
    FirstIndexConcat([ts[0]] + inner, Preorder(ts[1..]), phandle);
    FirstIndexConcat([ts[0]], inner, phandle);
    assert [ts[0]][1..] == [];
  }

  lemma {:induction false} BelowStep(ns: seq<DeviceNode>, ts: seq<Tree>, done: set<DeviceNode>)
    requires HoldEach(ns, ts, done) && ts != []
    ensures Holds(ns[0], ts[0], done) && HoldEach(ns[1..], ts[1..], done)
    ensures Below(ns, ts, done) == [ns[0]] + BelowOne(ns[0], ts[0], done) + Below(ns[1..], ts[1..], done)
    ensures |Preorder(ts)| == 1 + (if ts[0].Node? then |Preorder(ts[0].children)| else 0) + |Preorder(ts[1..])|
  {
    hide BelowOne;
    assert Holds(ns[0], ts[0], done);
    RestHolds(ns, ts, done);
  }

  /** The node itself, else the first below it, else the first among its later siblings. */
  lemma {:induction false} FirstNodeStep(ns: seq<DeviceNode>, ts: seq<Tree>, done: set<DeviceNode>, phandle: uint32)
    requires HoldEach(ns, ts, done) && ts != []
    ensures Holds(ns[0], ts[0], done) && HoldEach(ns[1..], ts[1..], done)
    ensures ts[0].Node? ==> HoldEach(ns[0].child, ts[0].children, done)
    ensures FirstNode(ns, ts, done, phandle)
         == if Matches(ts[0], phandle) then ns[0]
            else if ts[0].Node? && FirstNode(ns[0].child, ts[0].children, done, phandle) != null
            then FirstNode(ns[0].child, ts[0].children, done, phandle)
            else FirstNode(ns[1..], ts[1..], done, phandle)
  {
    hide Matches, Below, Preorder, FirstIndex, Holds, HoldEach;
    SameCount(ns, ts, done);
    BelowStep(ns, ts, done);
    FirstIndexStep(ts, phandle);
    HoldsChildren(ns[0], ts[0], done);
    NoneInNothing(phandle);
  }

  lemma {:induction false} NoneInNothing(phandle: uint32)
    ensures FirstIndex([], phandle) == 0
  {
  }

  lemma {:induction false} FirstNodeNothing(done: set<DeviceNode>, phandle: uint32)
    ensures HoldEach([], [], done) && FirstNode([], [], done, phandle) == null
  {
  }

  /** The recursive search returns the node below `root` that comes first in preorder among those with the phandle. */
  method SearchPhandle(root: DeviceNode, phandle: uint32, ghost t: Tree, ghost done: set<DeviceNode>)
    returns (r: DeviceNode?)
    requires Holds(root, t, done) && t.Node?
    ensures HoldEach(root.child, t.children, done) && r == FirstNode(root.child, t.children, done, phandle)
    decreases t
  {
    hide Matches, Preorder, Holds, HoldEach, FirstNode;
    HoldsChildren(root, t, done);
    ghost var ns, ts := root.child, t.children;
    SameCount(ns, ts, done);
    assert ns[0..] == ns && ts[0..] == ts;
    for i := 0 to |root.child|
      invariant HoldEach(ns[i..], ts[i..], done)
      invariant FirstNode(ns, ts, done, phandle) == FirstNode(ns[i..], ts[i..], done, phandle)
    {
      var node := root.child[i];
      ghost var sub := ts[i];
      assert ns[i..][0] == node && ns[i..][1..] == ns[i + 1..];
      assert ts[i..][0] == sub && ts[i..][1..] == ts[i + 1..];
      FirstNodeStep(ns[i..], ts[i..], done, phandle);
      HoldsChildren(node, sub, done);
      var matched := MatchPhandle(node, phandle, sub, done);
      if matched {
        return node;
      }
      if node.child != [] {
        r := SearchPhandle(node, phandle, sub, done);
        if r != null {
          return;
        }
      } else if sub.Node? {
        SameCount(node.child, sub.children, done);
        FirstNodeNothing(done, phandle);
      }
    }
    assert ns[|ns|..] == [] && ts[|ts|..] == [];
    FirstNodeNothing(done, phandle);
    r := null;
  }

  lemma {:induction false} SameCount(ns: seq<DeviceNode>, ts: seq<Tree>, done: set<DeviceNode>)
    requires HoldEach(ns, ts, done)
    ensures |ns| == |ts|
  {
  }

  lemma {:induction false} HoldsChildren(n: DeviceNode, t: Tree, done: set<DeviceNode>)
    requires Holds(n, t, done)
    ensures n in done && (t.Node? ==> HoldEach(n.child, t.children, done)) && (t.Property? ==> n.child == [])
  {
  }
}
