/** Rebuilding a devicetree from its tokens with an explicit stack (fdt/fdt.c). */
module FdtTree {
  import opened Base
  import opened FdtTokens

  /** Properties and child nodes of a node, in the order in which they appear. */
  datatype Tree = Node(name: seq<byte>, children: seq<Tree>) | Property(name: seq<byte>, data: seq<byte>)

  function Flat(t: Tree): seq<Token>
    decreases t
  {
    match t
    case Node(name, children) => [Begin(name)] + (FlatAll(children) + [End])
    case Property(name, data) => [Prop(name, data)]
  }

  function FlatAll(ts: seq<Tree>): seq<Token>
    decreases ts
  {
    if ts == [] then [] else Flat(ts[0]) + FlatAll(ts[1..])
  }

  /** How many nodes are nested in each other. */
  function Depth(t: Tree): nat
    decreases t
  {
    if t.Node? then 1 + DepthAll(t.children) else 0
  }

  function DepthAll(ts: seq<Tree>): nat
    decreases ts
  {
    if ts == [] then 0 else Max(Depth(ts[0]), DepthAll(ts[1..]))
  }

  function Max(a: nat, b: nat): nat {
    if a < b then b else a
  }

  /** Names are kept in a 64-byte field. */
  function Clip(name: seq<byte>): seq<byte> {
    if |name| > 63 then name[..63] else name
  }

  /** A node without a name, as the root has, is called "/". */
  function NodeName(name: seq<byte>): seq<byte> {
    if name == [] then [47] else Clip(name)
  }

  /** The tree with the names as they are stored. */
  function Stored(t: Tree): Tree
    decreases t
  {
    match t
    case Node(name, children) => Node(NodeName(name), StoredAll(children))
    case Property(name, data) => Property(Clip(name), data)
  }

  function StoredAll(ts: seq<Tree>): seq<Tree>
    decreases ts
  {
    if ts == [] then [] else [Stored(ts[0])] + StoredAll(ts[1..])
  }

  /** The first 63 bytes of a name. */
  ghost predicate CutName(name: seq<byte>, stored: seq<byte>) {
    |stored| == (if |name| < 63 then |name| else 63) && forall i :: 0 <= i < |stored| ==> stored[i] == name[i]
  }

  /** The same tree with its names cut, and with "/" for nodes without a name. */
  ghost predicate CutTree(t: Tree, s: Tree)
    decreases t
  {
    match t
    case Node(name, children) =>
      && s.Node? && (if name == [] then s.name == ['/' as int] else CutName(name, s.name))
      && |s.children| == |children| && forall i :: 0 <= i < |children| ==> CutTree(children[i], s.children[i])
    case Property(name, data) =>
      s.Property? && CutName(name, s.name) && s.data == data
  }

  /** What is stored differs in nothing else. */
  lemma {:induction false} StoredMeans(t: Tree)
    ensures CutTree(t, Stored(t))
    decreases t
  {
    if t.Node? {
      forall i | 0 <= i < |t.children|
        ensures |StoredAll(t.children)| == |t.children| && CutTree(t.children[i], StoredAll(t.children)[i])
      {
        StoredAt(t.children, i);
        StoredMeans(t.children[i]);
      }
      StoredCount(t.children);
    }
  }

  lemma {:induction false} StoredCount(ts: seq<Tree>)
    ensures |StoredAll(ts)| == |ts|
    decreases |ts|
  {
    if ts != [] {
      StoredCount(ts[1..]);
    }
  }

  lemma {:induction false} StoredAt(ts: seq<Tree>, i: nat)
    requires i < |ts|
    ensures |StoredAll(ts)| == |ts| && StoredAll(ts)[i] == Stored(ts[i])
    decreases |ts|
  {
    hide Stored;
    StoredCount(ts);
    if i > 0 {
      StoredAt(ts[1..], i - 1);
      assert StoredAll(ts)[i] == StoredAll(ts[1..])[i - 1];
    }
  }

  /** Names that fit their field, and are not empty on nodes. */
  ghost predicate NamesFit(t: Tree)
    decreases t
  {
    |t.name| <= 63 && (t.Node? ==> t.name != [] && NamesFitAll(t.children))
  }

  ghost predicate NamesFitAll(ts: seq<Tree>)
    decreases ts
  {
    ts == [] || (NamesFit(ts[0]) && NamesFitAll(ts[1..]))
  }

  /**
   * The tree is stored as it is exactly when all names fit; a root without a name, as every real blob has,
   * is stored as "/", and the rest as it is exactly when all names below it fit.
   */
  lemma {:induction false} StoredUnchanged(t: Tree)
    ensures Stored(t) == t <==> NamesFit(t)
    ensures t.Node? && t.name == [] ==> (Stored(t) == Node([47], t.children) <==> NamesFitAll(t.children))
    decreases t
  {
    if t.Node? {
      StoredAllUnchanged(t.children);
    }
  }

  lemma {:induction false} StoredAllUnchanged(ts: seq<Tree>)
    ensures StoredAll(ts) == ts <==> NamesFitAll(ts)
    decreases ts
  {
    if ts != [] {
      StoredUnchanged(ts[0]);
      StoredAllUnchanged(ts[1..]);
      assert StoredAll(ts)[0] == Stored(ts[0]) && StoredAll(ts)[1..] == StoredAll(ts[1..]);
      assert ts == [ts[0]] + ts[1..];
    }
  }

  /** An open node on the stack, with the children read so far. */
  datatype Frame = Frame(name: seq<byte>, children: seq<Tree>)

  /** The open nodes, outermost first, and the last root that was closed. */
  datatype State = State(open: seq<Frame>, closed: Option<Tree>)

  /** A subtree ends: it becomes the last child of the innermost open node, or the root. */
  function Attach(s: State, t: Tree): State {
    if s.open == [] then State([], if t.Node? then Some(t) else s.closed)
    else
      var top := s.open[|s.open| - 1];
      State(s.open[..|s.open| - 1] + [Frame(top.name, top.children + [t])], s.closed)
  }

  /** One token; nothing is returned when the walk fails. */
  function Step(s: State, t: Token): Option<State> {
    match t
    case Begin(name) =>
      if |s.open| + 1 >= 32 then None else Some(State(s.open + [Frame(NodeName(name), [])], s.closed))
    case Prop(name, data) => Some(Attach(s, Property(Clip(name), data)))
    case End =>
      if s.open == [] then None
      else
        var top := s.open[|s.open| - 1];
        Some(Attach(State(s.open[..|s.open| - 1], s.closed), Node(top.name, top.children)))
    case Nop => Some(s)
    case Stop => Some(s)
    case Bad => None
  }

  /** The whole walk: whether it succeeds, and the state it leaves. */
  function Walk(s: State, ts: seq<Token>): (bool, State)
    decreases |ts|
  {
    if ts == [] then (true, s)
    else if Step(s, ts[0]).None? then (false, s)
    else Walk(Step(s, ts[0]).value, ts[1..])
  }

  lemma {:induction false} WalkStep(s: State, t: Token, rest: seq<Token>)
    ensures Walk(s, [t] + rest) == if Step(s, t).None? then (false, s) else Walk(Step(s, t).value, rest)
    ensures Walk(s, []) == (true, s)
  {
    assert ([t] + rest)[1..] == rest;
  }

  /** Reading a whole subtree leaves the stack as it was, with one child more. */
  lemma {:induction false} WalkTree(s: State, t: Tree, rest: seq<Token>)
    requires |s.open| + Depth(t) < 32
    ensures Walk(s, Flat(t) + rest) == Walk(Attach(s, Stored(t)), rest)
    decreases t
  {
    hide Walk, Clip, NodeName;
    match t
    case Node(name, children) =>
      var inner := State(s.open + [Frame(NodeName(name), [])], s.closed);
      var tail := FlatAll(children) + ([End] + rest);
      assert Flat(t) + rest == [Begin(name)] + tail;
      WalkStep(s, Begin(name), tail);
      WalkAll(inner, children, [End] + rest);
      var last := AttachAll(inner, StoredAll(children));
      AttachAllTop(s, Frame(NodeName(name), []), StoredAll(children));
      WalkStep(last, End, rest);
      assert [] + StoredAll(children) == StoredAll(children);
    case Property(name, data) =>
      WalkStep(s, Prop(name, data), rest);
  }

  function AttachAll(s: State, ts: seq<Tree>): State
    decreases |ts|
  {
    if ts == [] then s else AttachAll(Attach(s, ts[0]), ts[1..])
  }

  /** Attaching to an open node only extends its children. */
  lemma {:induction false} AttachAllTop(s: State, top: Frame, ts: seq<Tree>)
    ensures var r := AttachAll(State(s.open + [top], s.closed), ts);
      && r == State(s.open + [Frame(top.name, top.children + ts)], s.closed)
      && r.open[..|s.open|] == s.open
    decreases |ts|
  {
    if ts == [] {
      assert top.children + [] == top.children;
    } else {
      var up := State(s.open + [top], s.closed);
      assert up.open[..|s.open|] == s.open;
      AttachAllTop(s, Frame(top.name, top.children + [ts[0]]), ts[1..]);
      assert (top.children + [ts[0]]) + ts[1..] == top.children + ts;
    }
  }

  lemma {:induction false} WalkAll(s: State, ts: seq<Tree>, rest: seq<Token>)
    requires |s.open| + DepthAll(ts) < 32 && s.open != []
    ensures Walk(s, FlatAll(ts) + rest) == Walk(AttachAll(s, StoredAll(ts)), rest)
    decreases ts
  {
    hide Walk;
    if ts == [] {
      assert FlatAll(ts) + rest == rest;
    } else {
      assert FlatAll(ts) + rest == Flat(ts[0]) + (FlatAll(ts[1..]) + rest);
      WalkTree(s, ts[0], FlatAll(ts[1..]) + rest);
      WalkAll(Attach(s, Stored(ts[0])), ts[1..], rest);
      assert StoredAll(ts)[0] == Stored(ts[0]) && StoredAll(ts)[1..] == StoredAll(ts[1..]);
    }
  }

  /** A tree that is nested too deeply fails, wherever the walk stands. */
  lemma {:induction false} TooDeep(s: State, t: Tree, rest: seq<Token>)
    requires |s.open| < 32 <= |s.open| + Depth(t)
    ensures !Walk(s, Flat(t) + rest).0
    decreases t
  {
    hide Walk, Clip, NodeName;
    var inner := State(s.open + [Frame(NodeName(t.name), [])], s.closed);
    var tail := FlatAll(t.children) + ([End] + rest);
    assert Flat(t) + rest == [Begin(t.name)] + tail;
    WalkStep(s, Begin(t.name), tail);
    if |s.open| + 1 < 32 {
      TooDeepAll(inner, t.children, [End] + rest);
    }
  }

  lemma {:induction false} TooDeepAll(s: State, ts: seq<Tree>, rest: seq<Token>)
    requires 0 < |s.open| < 32 <= |s.open| + DepthAll(ts)
    ensures !Walk(s, FlatAll(ts) + rest).0
    decreases ts
  {
    hide Walk;
    assert FlatAll(ts) + rest == Flat(ts[0]) + (FlatAll(ts[1..]) + rest);
    if |s.open| + Depth(ts[0]) >= 32 {
      TooDeep(s, ts[0], FlatAll(ts[1..]) + rest);
    } else {
      WalkTree(s, ts[0], FlatAll(ts[1..]) + rest);
      TooDeepAll(Attach(s, Stored(ts[0])), ts[1..], rest);
    }
  }

  function WithoutNops(ts: seq<Token>): seq<Token> {
    if ts == [] then [] else (if ts[0].Nop? then [] else [ts[0]]) + WithoutNops(ts[1..])
  }

  lemma {:induction false} NopsDoNothing(s: State, ts: seq<Token>)
    ensures Walk(s, ts) == Walk(s, WithoutNops(ts))
    decreases |ts|
  {
    if ts != [] {
      if !ts[0].Nop? {
        WalkStep(s, ts[0], WithoutNops(ts[1..]));
      }
      if Step(s, ts[0]).Some? {
        NopsDoNothing(Step(s, ts[0]).value, ts[1..]);
      }
      assert [] + WithoutNops(ts[1..]) == WithoutNops(ts[1..]);
    }
  }

  /**
   * Unflattening inverts flattening: a tree whose tokens have been interleaved with NOPs is rebuilt,
   * in order and with nothing left open, exactly when it is nested at most 31 deep.
   */
  lemma {:induction false} WalkInvertsFlat(t: Tree, ts: seq<Token>, closed: Option<Tree>)
    requires t.Node? && WithoutNops(ts) == Flat(t) + [Stop]
    ensures Walk(State([], closed), ts).0 <==> Depth(t) <= 31
    ensures Depth(t) <= 31 ==> Walk(State([], closed), ts).1 == State([], Some(Stored(t)))
  {
    hide Flat, Depth, Stored, Walk;
    var s := State([], closed);
    NopsDoNothing(s, ts);
    if Depth(t) <= 31 {
      WalkTree(s, t, [Stop]);
      var after := Attach(s, Stored(t));
      StoredNode(t);
      WalkStep(after, Stop, []);
      assert [Stop] + [] == [Stop];
    } else {
      TooDeep(s, t, [Stop]);
    }
  }

  lemma {:induction false} StoredNode(t: Tree)
    ensures Stored(t).Node? == t.Node?
  {
  }

  /** The tree that the open nodes form so far. */
  function Collapse(open: seq<Frame>): Tree
    requires open != []
  {
    Node(open[0].name, open[0].children + if |open| == 1 then [] else [Collapse(open[1..])])
  }

  /** The root as it stands, also when the walk stops early. */
  function Root(s: State): Option<Tree> {
    if s.open == [] then s.closed else Some(Collapse(s.open))
  }
}
