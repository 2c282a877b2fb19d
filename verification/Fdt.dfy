/** Unflattening a devicetree into linked nodes, and looking nodes up (fdt/fdt.c). */
module Fdt {
  import opened Base
  import opened FdtTokens
  import opened FdtTree

  class DeviceNode {
    var name: seq<byte>
    var isNode: bool
    var data: seq<byte>
    var child: seq<DeviceNode>

    constructor (name: seq<byte>, data: seq<byte>)
      ensures this.name == Clip(name) && !isNode && this.data == data && child == []
    {
      this.name := Clip(name);
      this.isNode := false;
      this.data := data;
      this.child := [];
    }
  }

  /** The node and everything below it are in `done` and form the tree `t`. */
  ghost predicate Holds(n: DeviceNode, t: Tree, done: set<DeviceNode>)
    reads done
    decreases t
  {
    && n in done && n.name == t.name && n.isNode == t.Node?
    && n.data == (if t.Property? then t.data else [])
    && if t.Node? then HoldEach(n.child, t.children, done) else n.child == []
  }

  ghost predicate HoldEach(ns: seq<DeviceNode>, ts: seq<Tree>, done: set<DeviceNode>)
    reads done
    decreases ts
  {
    |ns| == |ts| && forall i :: 0 <= i < |ts| ==> Holds(ns[i], ts[i], done)
  }

  lemma {:induction false} HoldsInMore(n: DeviceNode, t: Tree, done: set<DeviceNode>, more: set<DeviceNode>)
    requires Holds(n, t, done) && done <= more
    ensures Holds(n, t, more)
    decreases t
  {
    if t.Node? {
      HoldEachInMore(n.child, t.children, done, more);
    }
  }

  lemma {:induction false} HoldEachInMore(ns: seq<DeviceNode>, ts: seq<Tree>, done: set<DeviceNode>,
                                          more: set<DeviceNode>)
    requires HoldEach(ns, ts, done) && done <= more
    ensures HoldEach(ns, ts, more)
    decreases ts
  {
    forall i | 0 <= i < |ts|
      ensures Holds(ns[i], ts[i], more)
    {
      HoldsInMore(ns[i], ts[i], done, more);
    }
  }

  lemma {:induction false} HoldEachAppend(ns: seq<DeviceNode>, ts: seq<Tree>, n: DeviceNode, t: Tree,
                                          done: set<DeviceNode>)
    requires HoldEach(ns, ts, done) && Holds(n, t, done)
    ensures HoldEach(ns + [n], ts + [t], done)
  {
    hide Holds;
  }

  /** Every child of an open node is finished, except that the next open node, if any, is the last one. */
  ghost predicate OpenAt(n: DeviceNode, f: Frame, next: seq<DeviceNode>, done: set<DeviceNode>)
    reads n, done
  {
    && n.name == f.name && n.isNode && n.data == []
    && |n.child| == |f.children| + |next| && n.child[|f.children|..] == next
    && HoldEach(n.child[..|f.children|], f.children, done)
  }

  lemma {:induction false} OpenInMore(n: DeviceNode, f: Frame, next: seq<DeviceNode>, done: set<DeviceNode>,
                                      more: set<DeviceNode>)
    requires OpenAt(n, f, next, done) && done <= more
    ensures OpenAt(n, f, next, more)
  {
    hide HoldEach;
    HoldEachInMore(n.child[..|f.children|], f.children, done, more);
  }

  /** The last child of an open node is finished. */
  lemma {:induction false} OpenGrows(n: DeviceNode, f: Frame, last: DeviceNode, t: Tree, done: set<DeviceNode>,
                                     more: set<DeviceNode>)
    requires OpenAt(n, f, [last], done) && done <= more && Holds(last, t, more)
    ensures OpenAt(n, Frame(f.name, f.children + [t]), [], more)
    ensures HoldEach(n.child, f.children + [t], more)
  {
    hide HoldEach, Holds;
    OpenInMore(n, f, [last], done, more);
    HoldEachAppend(n.child[..|f.children|], f.children, last, t, more);
    assert n.child == n.child[..|f.children|] + [last];
    assert n.child[..|n.child|] == n.child;
  }

  /** The open node after the `k`th, if there is one. */
  ghost function NextOpen(open: seq<DeviceNode>, k: nat): seq<DeviceNode>
    requires k < |open|
  {
    if k + 1 < |open| then [open[k + 1]] else []
  }

  ghost predicate Opened(open: seq<DeviceNode>, frames: seq<Frame>, done: set<DeviceNode>)
    reads open, done
  {
    && |open| == |frames|
    && (forall k :: 0 <= k < |open| ==> open[k] !in done)
    && (forall k, l :: 0 <= k < l < |open| ==> open[k] != open[l])
    && forall k :: 0 <= k < |open| ==> OpenAt(open[k], frames[k], NextOpen(open, k), done)
  }

  lemma {:induction false} EndStep(s: State)
    requires s.open != []
    ensures Step(s, End).Some?
    ensures var n, s' := |s.open| - 1, Step(s, End).value; var t := Node(s.open[n].name, s.open[n].children);
      && (n == 0 ==> s'.open == [] && s'.closed == Some(t))
      && (n > 0 ==> s'.open == s.open[..n - 1] + [Frame(s.open[n - 1].name, s.open[n - 1].children + [t])])
  {
  }

  /** Closing the innermost open node. */
  lemma {:induction false} CloseTop(open: seq<DeviceNode>, s: State, done: set<DeviceNode>)
    requires open != [] && Opened(open, s.open, done)
    ensures var n := |open| - 1;
      var s' := Step(s, End).value;
      && Opened(open[..n], s'.open, done + {open[n]})
      && (n == 0 ==> s'.open == [] && s'.closed.Some? && Holds(open[0], s'.closed.value, done + {open[0]}))
  {
    hide Holds, HoldEach, OpenAt, Step;
    var n := |open| - 1;
    var top := s.open[n];
    var more := done + {open[n]};
    var t := Node(top.name, top.children);
    EndStep(s);
    assert OpenAt(open[n], top, NextOpen(open, n), done);
    Closes(open[n], top, done, more);
    var s' := Step(s, End).value;
    forall k | 0 <= k < n
      ensures OpenAt(open[k], s'.open[k], NextOpen(open[..n], k), more)
    {
      assert OpenAt(open[k], s.open[k], NextOpen(open, k), done);
      if k == n - 1 {
        OpenGrows(open[k], s.open[k], open[n], t, done, more);
        assert s'.open[k] == Frame(s.open[k].name, s.open[k].children + [t]);
      } else {
        OpenInMore(open[k], s.open[k], NextOpen(open, k), done, more);
        assert s'.open[k] == s.open[k];
      }
    }
  }

  lemma {:induction false} Closes(n: DeviceNode, f: Frame, done: set<DeviceNode>, more: set<DeviceNode>)
    requires OpenAt(n, f, [], done) && done <= more && n in more
    ensures Holds(n, Node(f.name, f.children), more)
  {
    hide HoldEach;
    OpenInMore(n, f, [], done, more);
    assert n.child[..|n.child|] == n.child;
  }

  /** The nodes open at the end of a walk, taken with what is finished, hold the tree read so far. */
  lemma {:induction false} CollapseHolds(open: seq<DeviceNode>, frames: seq<Frame>, done: set<DeviceNode>)
    requires open != [] && Opened(open, frames, done)
    ensures Holds(open[0], Collapse(frames), done + SetOf(open))
    decreases |open|
  {
    hide Holds, HoldEach, OpenAt;
    var all := done + SetOf(open);
    assert OpenAt(open[0], frames[0], NextOpen(open, 0), done);
    if |open| == 1 {
      Closes(open[0], frames[0], done, all);
      assert frames[0].children + [] == frames[0].children;
    } else {
      OpenedRest(open, frames, done);
      CollapseHolds(open[1..], frames[1..], done);
      HoldsInMore(open[1], Collapse(frames[1..]), done + SetOf(open[1..]), all);
      OpenGrows(open[0], frames[0], open[1], Collapse(frames[1..]), done, all);
      Closes(open[0], Frame(frames[0].name, frames[0].children + [Collapse(frames[1..])]), all, all);
    }
  }

  lemma {:induction false} OpenedRest(open: seq<DeviceNode>, frames: seq<Frame>, done: set<DeviceNode>)
    requires open != [] && Opened(open, frames, done)
    ensures Opened(open[1..], frames[1..], done)
  {
    hide OpenAt;
    forall k | 0 <= k < |open[1..]|
      ensures OpenAt(open[1..][k], frames[1..][k], NextOpen(open[1..], k), done)
    {
      assert OpenAt(open[k + 1], frames[k + 1], NextOpen(open, k + 1), done);
    }
  }

  ghost function SetOf(ns: seq<DeviceNode>): set<DeviceNode> {
    set n | n in ns
  }

  /** A node is allocated and becomes the last child of its parent. */
  method NewDeviceNode(name: seq<byte>, data: seq<byte>, parent: DeviceNode?) returns (node: DeviceNode)
    modifies if parent == null then {} else {parent}
    ensures fresh(node) && node.name == Clip(name) && !node.isNode && node.data == data && node.child == []
    ensures parent != null ==> parent.child == old(parent.child) + [node]
    ensures parent != null ==> parent.name == old(parent.name) && parent.isNode == old(parent.isNode)
    ensures parent != null ==> parent.data == old(parent.data)
  {
    node := new DeviceNode(name, data);
    if parent != null {
      parent.child := parent.child + [node];
    }
  }

  lemma {:induction false} NothingOpened()
    ensures Opened([], [], {})
  {
  }

  lemma {:induction false} SameHeight(open: seq<DeviceNode>, s: State, done: set<DeviceNode>)
    requires Opened(open, s.open, done)
    ensures |open| == |s.open|
  {
  }

  /** The array holds the parent of each open node; `node` is the innermost one. */
  ghost predicate OnStack(stack: seq<DeviceNode?>, open: seq<DeviceNode>, node: DeviceNode?) {
    && |stack| == 32 && |open| < 32
    && node == (if open == [] then null else open[|open| - 1])
    && forall k :: 0 <= k < |open| ==> stack[k] == if k == 0 then null else open[k - 1]
  }

  lemma {:induction false} EmptyStack(stack: seq<DeviceNode?>)
    requires |stack| == 32
    ensures OnStack(stack, [], null)
  {
  }

  lemma {:induction false} Innermost(stack: seq<DeviceNode?>, open: seq<DeviceNode>, node: DeviceNode?)
    requires OnStack(stack, open, node)
    ensures |stack| == 32 && |open| < 32 && node == if open == [] then null else open[|open| - 1]
  {
  }

  lemma {:induction false} Pushed(stack: seq<DeviceNode?>, open: seq<DeviceNode>, node: DeviceNode?, next: DeviceNode)
    requires OnStack(stack, open, node) && |open| + 1 < 32
    ensures OnStack(stack[|open| := node], open + [next], next)
  {
  }

  lemma {:induction false} Popped(stack: seq<DeviceNode?>, open: seq<DeviceNode>, node: DeviceNode?)
    requires OnStack(stack, open, node) && open != []
    ensures OnStack(stack, open[..|open| - 1], stack[|open| - 1])
  {
  }

  /** A new open node becomes the last child of the innermost one. */
  method OpenNode(name: seq<byte>, parent: DeviceNode?, ghost open: seq<DeviceNode>, ghost s: State,
                  ghost done: set<DeviceNode>)
    returns (node: DeviceNode)
    requires Opened(open, s.open, done) && |open| + 1 < 32
    requires parent == if open == [] then null else open[|open| - 1]
    modifies if parent == null then {} else {parent}
    ensures fresh(node)
    ensures Opened(open + [node], s.open + [Frame(NodeName(name), [])], done)
  {
    hide HoldEach, Clip, Opened, OpenAt;
    StillOpen(open, s, done);
    ghost var before := if open == [] then [] else parent.child;
    if open != [] {
      OpenParts(parent, s.open[|open| - 1], done);
    }
    node := NewDeviceNode(if name == [] then [47] else name, [], parent);
    node.isNode := true;
    Slash();
    NewlyOpen(node, NodeName(name), done);
    forall k | 0 <= k < |open|
      ensures OpenAt(open[k], s.open[k], if k < |open| - 1 then NextOpen(open, k) else [node], done)
    {
      if k < |open| - 1 {
        assert old(OpenAt(open[k], s.open[k], NextOpen(open, k), done));
      } else {
        OpensLast(open[k], s.open[k], before, node, done);
      }
    }
    Deeper(open, s.open, node, Frame(NodeName(name), []), done);
  }

  lemma {:induction false} NewlyOpen(n: DeviceNode, name: seq<byte>, done: set<DeviceNode>)
    requires n.name == name && n.isNode && n.data == [] && n.child == []
    ensures OpenAt(n, Frame(name, []), [], done)
  {
    hide HoldEach;
    HoldNothing(done);
    assert n.child[..0] == [];
  }

  /** An open node without open children, and the same node with one more child. */
  lemma {:induction false} OpenParts(n: DeviceNode, f: Frame, done: set<DeviceNode>)
    requires OpenAt(n, f, [], done)
    ensures n.name == f.name && n.isNode && n.data == []
    ensures |n.child| == |f.children| && HoldEach(n.child, f.children, done)
  {
    hide HoldEach;
    assert n.child[..|f.children|] == n.child;
  }

  lemma {:induction false} OpensLast(
    n: DeviceNode, f: Frame, before: seq<DeviceNode>, last: DeviceNode, done: set<DeviceNode>)
    requires n.name == f.name && n.isNode && n.data == [] && n.child == before + [last]
    requires |before| == |f.children| && HoldEach(before, f.children, done)
    ensures OpenAt(n, f, [last], done)
  {
    hide HoldEach;
    assert n.child[..|f.children|] == before;
  }

  lemma {:induction false} Deeper(open: seq<DeviceNode>, frames: seq<Frame>, node: DeviceNode, f: Frame,
                                  done: set<DeviceNode>)
    requires |open| == |frames| && node !in open && node !in done
    requires forall k :: 0 <= k < |open| ==> open[k] !in done
    requires forall k, l :: 0 <= k < l < |open| ==> open[k] != open[l]
    requires forall k :: 0 <= k < |open| ==>
      OpenAt(open[k], frames[k], if k < |open| - 1 then NextOpen(open, k) else [node], done)
    requires OpenAt(node, f, [], done)
    ensures Opened(open + [node], frames + [f], done)
  {
    hide OpenAt;
    var open', frames' := open + [node], frames + [f];
    forall k | 0 <= k < |open'|
      ensures OpenAt(open'[k], frames'[k], NextOpen(open', k), done)
    {
      if k < |open| - 1 {
        assert NextOpen(open', k) == NextOpen(open, k);
      }
    }
  }

  lemma {:induction false} HoldNothing(done: set<DeviceNode>)
    ensures HoldEach([], [], done)
  {
  }

  lemma {:induction false} Slash()
    ensures Clip([47]) == [47]
  {
  }

  /** A property becomes the last child of the innermost open node; outside all nodes it is lost. */
  method AddProperty(name: seq<byte>, data: seq<byte>, parent: DeviceNode?, ghost open: seq<DeviceNode>, ghost s: State,
                     ghost done: set<DeviceNode>)
    returns (prop: DeviceNode)
    requires Opened(open, s.open, done)
    requires parent == if open == [] then null else open[|open| - 1]
    modifies if parent == null then {} else {parent}
    ensures fresh(prop)
    ensures Opened(open, Step(s, Prop(name, data)).value.open, if open == [] then done else done + {prop})
  {
    hide Holds, HoldEach, Clip, Opened, OpenAt;
    StillOpen(open, s, done);
    ghost var before := if open == [] then [] else parent.child;
    if open != [] {
      OpenParts(parent, s.open[|open| - 1], done);
    }
    prop := NewDeviceNode(name, data, parent);
    if open != [] {
      ghost var p := Property(Clip(name), data);
      PropertyHolds(prop, p, done + {prop});
      OpensLast(parent, s.open[|open| - 1], before, prop, done);
      Grown(open, s, prop, p, done);
    }
  }

  /** What is known of every open node, spelled out so that it can be carried over a change of the innermost one. */
  lemma {:induction false} StillOpen(open: seq<DeviceNode>, s: State, done: set<DeviceNode>)
    requires Opened(open, s.open, done)
    ensures |open| == |s.open|
    ensures forall k :: 0 <= k < |open| ==> open[k] !in done
    ensures forall k, l :: 0 <= k < l < |open| ==> open[k] != open[l]
    ensures forall k :: 0 <= k < |open| ==> OpenAt(open[k], s.open[k], NextOpen(open, k), done)
  {
  }

  lemma {:induction false} Grown(open: seq<DeviceNode>, s: State, prop: DeviceNode, p: Tree, done: set<DeviceNode>)
    requires |open| == |s.open| > 0 && prop !in open && Holds(prop, p, done + {prop})
    requires forall k :: 0 <= k < |open| ==> open[k] !in done
    requires forall k, l :: 0 <= k < l < |open| ==> open[k] != open[l]
    requires forall k :: 0 <= k < |open| - 1 ==> OpenAt(open[k], s.open[k], NextOpen(open, k), done)
    requires OpenAt(open[|open| - 1], s.open[|open| - 1], [prop], done)
    ensures Opened(open, Attach(s, p).open, done + {prop})
  {
    hide Holds, HoldEach, OpenAt;
    var more := done + {prop};
    forall k | 0 <= k < |open|
      ensures OpenAt(open[k], Attach(s, p).open[k], NextOpen(open, k), more)
    {
      if k < |open| - 1 {
        OpenInMore(open[k], s.open[k], NextOpen(open, k), done, more);
      } else {
        OpenGrows(open[k], s.open[k], prop, p, done, more);
      }
    }
  }

  lemma {:induction false} PropertyHolds(n: DeviceNode, t: Tree, done: set<DeviceNode>)
    requires t.Property? && n in done && n.name == t.name && !n.isNode && n.data == t.data && n.child == []
    ensures Holds(n, t, done)
  {
  }

  lemma {:induction false} LexStep(dtb: seq<byte>, off: nat, strings: nat)
    ensures var (t, size) := TokenAt(dtb, off, strings);
      Lex(dtb, off, strings) == if t.Stop? || t.Bad? then [t] else [t] + Lex(dtb, off + size, strings)
  {
    hide TokenAt;
  }

  class FdtEditor {
    var root: DeviceNode?

    /** The root is the outermost open node or, with none open, the last node that was closed. */
    ghost predicate RootIs(open: seq<DeviceNode>, s: State, done: set<DeviceNode>, before: DeviceNode?)
      reads this, done
    {
      if open != [] then root == open[0]
      else if s.closed.Some? then root != null && Holds(root, s.closed.value, done)
      else root == before
    }

    /** What the root holds when the walk ends, early or not. */
    lemma {:induction false} RootHolds(open: seq<DeviceNode>, s: State, done: set<DeviceNode>, before: DeviceNode?)
      requires Opened(open, s.open, done) && RootIs(open, s, done, before)
      ensures Root(s).None? ==> root == before
      ensures Root(s).Some? ==> root != null && Holds(root, Root(s).value, done + SetOf(open))
    {
      hide Holds, Collapse;
      SameHeight(open, s, done);
      if open != [] {
        CollapseHolds(open, s.open, done);
      } else if s.closed.Some? {
        HoldsInMore(root, s.closed.value, done, done + SetOf(open));
      }
    }

    /** One token: a node is opened or closed or a property added, as the walk does; a failure changes no node. */
    method Take(token: Token, stack: array<DeviceNode?>, depth: nat, node: DeviceNode?, ghost open: seq<DeviceNode>,
                ghost s: State, ghost done: set<DeviceNode>, ghost before: DeviceNode?)
      returns (good: bool, height: nat, inner: DeviceNode?, ghost open': seq<DeviceNode>, ghost done': set<DeviceNode>)
      requires !token.Stop? && depth == |open| < 32 && OnStack(stack[..], open, node)
      requires Opened(open, s.open, done) && RootIs(open, s, done, before)
      modifies this, stack, SetOf(open)
      ensures good <==> Step(s, token).Some?
      ensures !good ==> Opened(open, s.open, done) && RootIs(open, s, done, before)
      ensures good ==> height == |open'| < 32 && OnStack(stack[..], open', inner)
      ensures good ==> Opened(open', Step(s, token).value.open, done')
      ensures good ==> RootIs(open', Step(s, token).value, done', before)
      ensures forall n :: n in open' ==> n in open || fresh(n)
      ensures fresh(done' - done - SetOf(open))
    {
      hide Opened, Holds, HoldEach, Clip, NodeName, OnStack;
      good, height, inner, open', done' := true, depth, node, open, done;
      SameHeight(open, s, done);
      Innermost(stack[..], open, node);
      ghost var was := stack[..];
      if token.Begin? {
        stack[height] := node;
        height := height + 1;
        if height >= 32 {
          good := false;
          return;
        }
        inner := OpenNode(token.name, node, open, s, done);
        assert stack[..] == was[|open| := node];
        Pushed(was, open, node, inner);
        open' := open + [inner];
        if height == 1 {
          root := inner;
        }
      } else if token.Prop? {
        var prop := AddProperty(token.name, token.data, node, open, s, done);
        done' := if open == [] then done else done + {prop};
      } else if token.End? {
        if depth == 0 {
          good := false;
          return;
        }
        CloseTop(open, s, done);
        Popped(was, open, node);
        height := depth - 1;
        open', done' := open[..height], done + {open[height]};
        inner := stack[height];
      } else if token.Bad? {
        good := false;
      }
    }

    /**
     * Walks the structure block with an explicit stack. Success, failure and the tree are those of
     * the token walk, also when the block ends early; the nodes are all new.
     */
    method Unflatten(dtb: seq<byte>, offStruct: nat, offStrings: nat) returns (ret: int, ghost repr: set<DeviceNode>)
      modifies this
      ensures var (good, s) := Walk(State([], None), Lex(dtb, offStruct, offStrings));
        && ret == (if good then 0 else -1)
        && (Root(s).None? ==> root == old(root))
        && (Root(s).Some? ==> root != null && Holds(root, Root(s).value, repr))
      ensures fresh(repr)
    {
      hide Walk, Lex, TokenAt, Opened, Holds, HoldEach, Collapse, Clip, NodeName, Root, OnStack;
      var stack: array<DeviceNode?> := new DeviceNode?[32](_ => null);
      var depth: nat, off: nat := 0, offStruct;
      var node: DeviceNode? := null;
      ghost var s, open: seq<DeviceNode>, done: set<DeviceNode> := State([], None), [], {};
      LexStep(dtb, off, offStrings);
      NothingOpened();
      assert OnStack(stack[..], open, node) by { EmptyStack(stack[..]); }
      var (token, size) := TokenAt(dtb, off, offStrings);
      while !token.Stop?
        invariant (token, size) == TokenAt(dtb, off, offStrings)
        invariant Walk(State([], None), Lex(dtb, offStruct, offStrings)) == Walk(s, Lex(dtb, off, offStrings))
        invariant depth == |open| < 32 && OnStack(stack[..], open, node)
        invariant Opened(open, s.open, done) && RootIs(open, s, done, old(root))
        invariant fresh(stack) && fresh(done) && forall n :: n in open ==> fresh(n)
        decreases if token.Stop? then 0 else 1, if off <= |dtb| then |dtb| - off else 0
      {
        LexStep(dtb, off, offStrings);
        WalkStep(s, token, if token.Bad? then [] else Lex(dtb, off + size, offStrings));
        assert [token] + [] == [token];
        var good: bool;
        ghost var open', done';
        good, depth, node, open', done' := Take(token, stack, depth, node, open, s, done, old(root));
        if !good {
          RootHolds(open, s, done, old(root));
          return -1, done + SetOf(open);
        }
        s, open, done := Step(s, token).value, open', done';
        off := off + size;
        var next := TokenAt(dtb, off, offStrings);
        token, size := next.0, next.1;
      }
      LexStep(dtb, off, offStrings);
      WalkStep(s, token, []);
      assert [token] + [] == [token];
      RootHolds(open, s, done, old(root));
      ret, repr := 0, done + SetOf(open);
    }
  }

  /**
   * Unflattening a buffer that holds the encoding of a tree, with NOPs anywhere, links up that tree
   * when it is nested at most 31 deep, and fails when it is not.
   */
  method UnflattenEncoded(editor: FdtEditor, dtb: seq<byte>, offStruct: nat, offStrings: nat,
                          ghost t: Tree, ghost ts: seq<Token>, ghost nameoffs: seq<nat>)
    returns (ret: int, ghost repr: set<DeviceNode>)
    requires t.Node? && WithoutNops(ts) == Flat(t) && |nameoffs| == |ts|
    requires forall k :: 0 <= k < |ts| ==> Encodable(dtb, offStrings, ts[k], nameoffs[k])
    requires offStruct + |Encode(ts, nameoffs)| <= |dtb|
    requires dtb[offStruct..offStruct + |Encode(ts, nameoffs)|] == Encode(ts, nameoffs)
    modifies editor
    ensures ret == if Depth(t) <= 31 then 0 else -1
    ensures Depth(t) <= 31 ==> editor.root != null && Holds(editor.root, Stored(t), repr)
    ensures Depth(t) <= 31 && NamesFit(t) ==> editor.root != null && Holds(editor.root, t, repr)
    ensures Depth(t) <= 31 && t.name == [] && NamesFitAll(t.children) ==>
      editor.root != null && Holds(editor.root, Node([47], t.children), repr)
    ensures fresh(repr)
  {
    hide Walk, Lex, Encode, Encodable, Flat, Depth, Stored, NamesFit, NamesFitAll, Holds, WithoutNops;
    LexOfEncoding(dtb, offStruct, offStrings, ts, nameoffs);
    StopStays(ts);
    WalkInvertsFlat(t, ts + [Stop], None);
    StoredUnchanged(t);
    ret, repr := editor.Unflatten(dtb, offStruct, offStrings);
  }

  lemma {:induction false} StopStays(ts: seq<Token>)
    ensures WithoutNops(ts + [Stop]) == WithoutNops(ts) + [Stop]
    decreases |ts|
  {
    hide WithoutNops;
    if ts == [] {
      DropsNop(Stop, []);
      assert [] + [Stop] == [Stop] == [Stop] + [];
    } else {
      StopStays(ts[1..]);
      DropsNop(ts[0], ts[1..] + [Stop]);
      DropsNop(ts[0], ts[1..]);
      assert [ts[0]] + (ts[1..] + [Stop]) == ts + [Stop] && [ts[0]] + ts[1..] == ts;
    }
  }

  lemma {:induction false} DropsNop(t: Token, rest: seq<Token>)
    ensures WithoutNops([t] + rest) == (if t.Nop? then [] else [t]) + WithoutNops(rest)
    ensures WithoutNops([]) == []
  {
    assert ([t] + rest)[1..] == rest;
  }
}
