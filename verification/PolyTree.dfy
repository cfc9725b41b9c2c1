/**
 The tree of nested output polygons and the walk through it.

 `Tree` is the shape of the tree; `Mirrors` says that the `Childs`, `Parent` and `Index`
 fields of the nodes describe it. The walk by `GetFirst` and `GetNext`, which follows these
 fields, is compared with the recursive order of the shape.
 */
module PolyTrees {
  import opened ClipTypes
  import opened Sequences

  class PolyNode {
    var Contour: seq<IntPoint>
    var Childs: seq<PolyNode>
    var Parent: PolyNode?
    var Index: nat
    var m_IsOpen: bool

    constructor (contour: seq<IntPoint>, isOpen: bool)
      ensures Contour == contour && m_IsOpen == isOpen
      ensures WholeTree(Tree(this, []))
    {
      Contour, Childs, Parent, Index, m_IsOpen := contour, [], null, 0, isOpen;
    }

    /**
     Makes `child`, the root of the whole tree `s`, the last kid of this node, which `path`
     leads to in the whole tree `t`. The two trees become one.
     */
    method AddChild(child: PolyNode, ghost t: Tree, ghost path: seq<nat>, ghost s: Tree)
      requires WholeTree(t) && Leads(t, path) && At(t, path).node == this
      requires WholeTree(s) && s.node == child && Disjoint(t, s)
      modifies this`Childs, child`Parent, child`Index
      ensures Childs == old(Childs) + [child] && child.Parent == this && child.Index == |old(Childs)|
      ensures WholeTree(Graft(t, path, s))
    {
      EachOnce(t);
      EachOnce(s);
      PlaceOf(t, path);
      MirrorsAt(t, path);
      MirrorsBeside(t, path);
      KidsWithin(s);
      KidsWithin(t);
      assert BelowOk(s);
      var cnt := |Childs|;
      Childs := Childs + [child];
      child.Parent := this;
      child.Index := cnt;
      Grafted(t, path, s);
    }
  }

  datatype Tree = Tree(node: PolyNode, kids: seq<Tree>)

  function Nodes(ts: seq<Tree>): (ns: seq<PolyNode>)
    ensures |ns| == |ts|
    ensures forall i :: 0 <= i < |ts| ==> ns[i] == ts[i].node
  {
    seq(|ts|, i requires 0 <= i < |ts| => ts[i].node)
  }

  // ---------------------------------------------------------------- recursive order

  /** The nodes in the order in which the recursion visits them: each before what is below it. */
  ghost function Preorder(t: Tree): seq<PolyNode>
    decreases t, 0
  {
    [t.node] + PreorderAll(t.kids)
  }

  ghost function PreorderAll(ts: seq<Tree>): seq<PolyNode>
    decreases ts, 1
  {
    if ts == [] then [] else Preorder(ts[0]) + PreorderAll(ts[1..])
  }

  /** The nodes of a tree, and those below its root. */
  ghost function NodesIn(t: Tree): set<PolyNode> {
    set x | x in Preorder(t)
  }

  ghost function NodesBelow(t: Tree): set<PolyNode> {
    set x | x in PreorderAll(t.kids)
  }

  /** The nodes of a tree exist: whatever is made later is not among them. */
  lemma Existing(t: Tree) returns (nodes: set<PolyNode>)
    ensures nodes == NodesIn(t)
  {
    nodes := NodesIn(t);
  }

  /** The fields of the nodes below `t.node` describe `t`. */
  ghost predicate Mirrors(t: Tree)
    reads NodesIn(t)
    decreases t
  {
    KidsWithin(t);
    && t.node.Childs == Nodes(t.kids)
    && forall i :: 0 <= i < |t.kids| ==>
         t.kids[i].node.Parent == t.node && t.kids[i].node.Index == i && Mirrors(t.kids[i])
  }

  /** The recursion visits the node itself and all that is below each kid. */
  lemma KidsWithin(t: Tree)
    ensures t.node in NodesIn(t) && NodesBelow(t) <= NodesIn(t)
    ensures forall i :: 0 <= i < |t.kids| ==> t.kids[i].node in NodesBelow(t) && NodesIn(t.kids[i]) <= NodesBelow(t)
    ensures Distinct(Preorder(t)) ==> t.node !in NodesBelow(t)
  {
    assert Preorder(t)[0] == t.node;
    forall i | 0 <= i < |t.kids| ensures t.kids[i].node in NodesBelow(t) && NodesIn(t.kids[i]) <= NodesBelow(t) {
      PartOfAll(t.kids, i);
      assert Preorder(t.kids[i])[0] == t.kids[i].node;
    }
    DistinctConcat([t.node], PreorderAll(t.kids));
    assert t.node in [t.node];
  }

  lemma {:induction false} PartOfAll(ts: seq<Tree>, i: nat)
    requires i < |ts|
    ensures forall x :: x in Preorder(ts[i]) ==> x in PreorderAll(ts)
  {
    if i > 0 {
      PartOfAll(ts[1..], i - 1);
    }
  }

  /** A whole tree: its root has no parent. */
  ghost predicate WholeTree(t: Tree)
    reads NodesIn(t)
  {
    KidsWithin(t);
    Mirrors(t) && t.node.Parent == null
  }

  // ---------------------------------------------------------------- places in the tree

  /** `path` leads down from the root, at each node to the kid of the given number. */
  ghost predicate Leads(t: Tree, path: seq<nat>)
    decreases |path|
  {
    path == [] || (path[0] < |t.kids| && Leads(t.kids[path[0]], path[1..]))
  }

  ghost function At(t: Tree, path: seq<nat>): Tree
    requires Leads(t, path)
    decreases |path|
  {
    if path == [] then t else At(t.kids[path[0]], path[1..])
  }

  /** How many nodes the recursion visits before the kid of number `k`, the parent not counted. */
  ghost function Offset(ts: seq<Tree>, k: nat): nat
    requires k <= |ts|
  {
    if k == 0 then 0 else |Preorder(ts[0])| + Offset(ts[1..], k - 1)
  }

  /** How many nodes the recursion visits before the one that `path` leads to. */
  ghost function Pos(t: Tree, path: seq<nat>): nat
    requires Leads(t, path)
    decreases |path|
  {
    if path == [] then 0 else 1 + Offset(t.kids, path[0]) + Pos(t.kids[path[0]], path[1..])
  }

  lemma {:induction false} OffsetNext(ts: seq<Tree>, k: nat)
    requires k < |ts|
    ensures Offset(ts, k + 1) == Offset(ts, k) + |Preorder(ts[k])|
    ensures Offset(ts, k + 1) <= |PreorderAll(ts)|
    ensures PreorderAll(ts)[Offset(ts, k)..Offset(ts, k + 1)] == Preorder(ts[k])
  {
    if k > 0 {
      OffsetNext(ts[1..], k - 1);
    }
  }

  lemma {:induction false} OffsetAll(ts: seq<Tree>)
    ensures Offset(ts, |ts|) == |PreorderAll(ts)|
  {
    if ts != [] {
      OffsetAll(ts[1..]);
    }
  }

  /** The recursion visits what is below the node at `path` in one stretch, beginning at its place. */
  lemma {:induction false} Stretch(t: Tree, path: seq<nat>)
    requires Leads(t, path)
    ensures Pos(t, path) + |Preorder(At(t, path))| <= |Preorder(t)|
    ensures Preorder(t)[Pos(t, path)..Pos(t, path) + |Preorder(At(t, path))|] == Preorder(At(t, path))
    decreases |path|
  {
    if path != [] {
      var k, kid := path[0], t.kids[path[0]];
      Stretch(kid, path[1..]);
      OffsetNext(t.kids, k);
      var o, p, n := Offset(t.kids, k), Pos(kid, path[1..]), |Preorder(At(t, path))|;
      SliceOfSlice(PreorderAll(t.kids), o, Offset(t.kids, k + 1), p, p + n);
      assert Preorder(t)[1 + (o + p)..1 + (o + p + n)] == PreorderAll(t.kids)[o + p..o + p + n];
    }
  }

  lemma SliceOfSlice<T>(s: seq<T>, a: nat, b: nat, c: nat, d: nat)
    requires a <= b <= |s| && c <= d <= b - a
    ensures s[a..b][c..d] == s[a + c..a + d]
  {
    forall i | 0 <= i < d - c ensures s[a..b][c..d][i] == s[a + c..a + d][i] {
    }
  }

  lemma PlaceOf(t: Tree, path: seq<nat>)
    requires Leads(t, path)
    ensures Pos(t, path) < |Preorder(t)| && Preorder(t)[Pos(t, path)] == At(t, path).node
  {
    Stretch(t, path);
    assert Preorder(t)[Pos(t, path)] == Preorder(t)[Pos(t, path)..Pos(t, path) + |Preorder(At(t, path))|][0];
  }

  /** One step further down. */
  lemma {:induction false} Down(t: Tree, path: seq<nat>, k: nat)
    requires Leads(t, path) && k < |At(t, path).kids|
    ensures Leads(t, path + [k]) && At(t, path + [k]) == At(t, path).kids[k]
    ensures Pos(t, path + [k]) == Pos(t, path) + 1 + Offset(At(t, path).kids, k)
    decreases |path|
  {
    var q := path + [k];
    if path == [] {
      assert q[1..] == [];
    } else {
      assert q[0] == path[0] && q[1..] == path[1..] + [k];
      Down(t.kids[path[0]], path[1..], k);
    }
  }

  lemma {:induction false} Upwards(t: Tree, path: seq<nat>)
    requires Leads(t, path) && path != []
    ensures Leads(t, path[..|path| - 1]) && path[|path| - 1] < |At(t, path[..|path| - 1]).kids|
    decreases |path|
  {
    if |path| > 1 {
      Upwards(t.kids[path[0]], path[1..]);
      assert path[..|path| - 1][1..] == path[1..][..|path| - 2];
    }
  }

  lemma {:induction false} MirrorsAt(t: Tree, path: seq<nat>)
    requires Mirrors(t) && Leads(t, path)
    ensures Mirrors(At(t, path))
    decreases |path|
  {
    if path != [] {
      MirrorsAt(t.kids[path[0]], path[1..]);
    }
  }

  /** The parent and the index of a node, as the path to it says. */
  lemma ParentAt(t: Tree, path: seq<nat>)
    requires WholeTree(t) && Leads(t, path)
    ensures path == [] ==> At(t, path).node.Parent == null
    ensures path != [] ==>
      var p, k := path[..|path| - 1], path[|path| - 1];
      && Leads(t, p) && k < |At(t, p).kids| && At(t, path) == At(t, p).kids[k]
      && At(t, path).node.Parent == At(t, p).node && At(t, path).node.Index == k
      && Pos(t, path) == Pos(t, p) + 1 + Offset(At(t, p).kids, k)
  {
    if path != [] {
      Upwards(t, path);
      var p, k := path[..|path| - 1], path[|path| - 1];
      assert path == p + [k];
      Down(t, p, k);
      MirrorsAt(t, p);
    }
  }

  // ---------------------------------------------------------------- the walk

  /** Behind the node at `path` and everything below it. */
  ghost function Behind(t: Tree, path: seq<nat>): nat
    requires Leads(t, path)
  {
    Pos(t, path) + |Preorder(At(t, path))|
  }

  /** `next` is the node that the recursion visits at place `e`, or null at the end. */
  ghost predicate VisitedAt(t: Tree, e: nat, next: PolyNode?, path: seq<nat>) {
    if e < |Preorder(t)| then Leads(t, path) && Pos(t, path) == e && next == At(t, path).node
    else e == |Preorder(t)| && next == null
  }

  /** The next node that is not below this one. */
  method GetNextSiblingUp(node: PolyNode, ghost t: Tree, ghost path: seq<nat>) returns (next: PolyNode?, ghost npath: seq<nat>)
    requires WholeTree(t) && Leads(t, path) && node == At(t, path).node
    ensures VisitedAt(t, Behind(t, path), next, npath)
    ensures next == if Behind(t, path) < |Preorder(t)| then Preorder(t)[Behind(t, path)] else null
    decreases |path|
  {
    ParentAt(t, path);
    if node.Parent == null {
      return null, [];
    }
    ghost var p, k := path[..|path| - 1], path[|path| - 1];
    MirrorsAt(t, p);
    assert path == p + [k];
    hide Mirrors, Preorder, Pos, At, Offset;
    if node.Index == |node.Parent.Childs| - 1 {
      LastKid(t, p, k);
      next, npath := GetNextSiblingUp(node.Parent, t, p);
    } else {
      NextKid(t, p, k);
      next := KidAfter(node, t, p, k);
      npath := p + [k + 1];
    }
  }

  /** The parent's list holds the next kid behind this one. */
  method KidAfter(node: PolyNode, ghost t: Tree, ghost p: seq<nat>, ghost k: nat) returns (next: PolyNode)
    requires Leads(t, p) && Mirrors(At(t, p)) && k + 1 < |At(t, p).kids|
    requires node == At(t, p).kids[k].node
    ensures next == At(t, p).kids[k + 1].node
  {
    next := node.Parent.Childs[node.Index + 1];
  }

  /** Behind the last kid comes what is behind the parent. */
  lemma LastKid(t: Tree, p: seq<nat>, k: nat)
    requires Leads(t, p) && k + 1 == |At(t, p).kids|
    ensures Leads(t, p + [k]) && Behind(t, p + [k]) == Behind(t, p)
  {
    Down(t, p, k);
    OffsetNext(At(t, p).kids, k);
    OffsetAll(At(t, p).kids);
  }

  /** Behind any other kid comes the next one. */
  lemma NextKid(t: Tree, p: seq<nat>, k: nat)
    requires Leads(t, p) && k + 1 < |At(t, p).kids|
    ensures Leads(t, p + [k]) && Leads(t, p + [k + 1]) && At(t, p + [k + 1]) == At(t, p).kids[k + 1]
    ensures Behind(t, p + [k]) == Pos(t, p + [k + 1]) < |Preorder(t)|
    ensures Preorder(t)[Pos(t, p + [k + 1])] == At(t, p).kids[k + 1].node
  {
    Down(t, p, k);
    Down(t, p, k + 1);
    OffsetNext(At(t, p).kids, k);
    PlaceOf(t, p + [k + 1]);
  }

  method GetNext(node: PolyNode, ghost t: Tree, ghost path: seq<nat>) returns (next: PolyNode?, ghost npath: seq<nat>)
    requires WholeTree(t) && Leads(t, path) && node == At(t, path).node
    ensures VisitedAt(t, Pos(t, path) + 1, next, npath)
    ensures next == if Pos(t, path) + 1 < |Preorder(t)| then Preorder(t)[Pos(t, path) + 1] else null
  {
    MirrorsAt(t, path);
    if node.Childs != [] {
      Down(t, path, 0);
      PlaceOf(t, path + [0]);
      next, npath := node.Childs[0], path + [0];
    } else {
      assert Preorder(At(t, path)) == [node];
      next, npath := GetNextSiblingUp(node, t, path);
    }
  }

  method GetFirst(root: PolyNode, ghost t: Tree) returns (first: PolyNode?, ghost path: seq<nat>)
    requires WholeTree(t) && root == t.node
    ensures VisitedAt(t, 1, first, path)
    ensures first == if |Preorder(t)| > 1 then Preorder(t)[1] else null
  {
    if root.Childs != [] {
      Down(t, [], 0);
      PlaceOf(t, [0]);
      first, path := root.Childs[0], [0];
    } else {
      first, path := null, [];
    }
  }

  /** Walks through the whole tree: this ends, and visits the nodes in the order of the recursion. */
  method Walk(root: PolyNode, ghost t: Tree) returns (visited: seq<PolyNode>)
    requires WholeTree(t) && root == t.node
    ensures [root] + visited == Preorder(t)
  {
    ghost var nodes := Existing(t);
    visited := [];
    var node;
    ghost var path;
    node, path := GetFirst(root, t);
    while node != null
      invariant |visited| + 1 <= |Preorder(t)| && [root] + visited == Preorder(t)[..|visited| + 1]
      invariant VisitedAt(t, |visited| + 1, node, path) && WholeTree(t)
      decreases |Preorder(t)| - |visited|
    {
      PlaceOf(t, path);
      visited := visited + [node];
      node, path := GetNext(node, t, path);
    }
  }

  // ---------------------------------------------------------------- each node once

  /** A node tells by its parents and indices where it is. */
  lemma {:induction false} SamePlace(t: Tree, p: seq<nat>, q: seq<nat>)
    requires WholeTree(t) && Leads(t, p) && Leads(t, q) && At(t, p).node == At(t, q).node
    ensures p == q
    decreases |p|
  {
    ParentAt(t, p);
    ParentAt(t, q);
    if p != [] {
      var m, n := |p| - 1, |q| - 1;
      SamePlace(t, p[..m], q[..n]);
      assert p == p[..m] + [p[m]] && q == q[..n] + [q[n]];
    }
  }

  /** Every place of the recursive order is the place of some path. */
  lemma {:induction false} PathTo(t: Tree, i: nat) returns (path: seq<nat>)
    requires i < |Preorder(t)|
    ensures Leads(t, path) && Pos(t, path) == i
    decreases t, |t.kids| + 1
  {
    if i == 0 {
      path := [];
    } else {
      var k, rest := PathAmong(t, t.kids, 0, i - 1);
      path := [k] + rest;
      assert path[1..] == rest;
    }
  }

  lemma {:induction false} PathAmong(t: Tree, ts: seq<Tree>, k0: nat, i: nat) returns (k: nat, rest: seq<nat>)
    requires k0 <= |t.kids| && ts == t.kids[k0..] && i < |PreorderAll(ts)|
    ensures k0 <= k < |t.kids| && Leads(t.kids[k], rest) && Offset(ts, k - k0) + Pos(t.kids[k], rest) == i
    decreases t, |ts|
  {
    if i < |Preorder(ts[0])| {
      k := k0;
      rest := PathTo(ts[0], i);
    } else {
      k, rest := PathAmong(t, ts[1..], k0 + 1, i - |Preorder(ts[0])|);
    }
  }

  /** No node is visited twice. */
  lemma EachOnce(t: Tree)
    requires WholeTree(t)
    ensures Distinct(Preorder(t))
  {
    var s := Preorder(t);
    forall i, j | 0 <= i < j < |s| ensures s[i] != s[j] {
      var p := PathTo(t, i);
      var q := PathTo(t, j);
      PlaceOf(t, p);
      PlaceOf(t, q);
      if s[i] == s[j] {
        SamePlace(t, p, q);
      }
    }
    DistinctIsPairwise(s);
  }

  // ---------------------------------------------------------------- adding a child

  ghost predicate Disjoint(t: Tree, s: Tree) {
    NodesIn(t) !! NodesIn(s)
  }

  /** `t` with `s` as the last kid of the node that `path` leads to. */
  ghost function Graft(t: Tree, path: seq<nat>, s: Tree): (g: Tree)
    requires Leads(t, path)
    ensures g.node == t.node
    decreases |path|
  {
    if path == [] then Tree(t.node, t.kids + [s])
    else Tree(t.node, t.kids[path[0] := Graft(t.kids[path[0]], path[1..], s)])
  }

  /** In a tree that visits no node twice, neither do the kids, and what is below them is apart. */
  lemma {:induction false} KidsApart(t: Tree)
    requires Distinct(Preorder(t))
    ensures forall i :: 0 <= i < |t.kids| ==> t.node !in Preorder(t.kids[i]) && Distinct(Preorder(t.kids[i]))
    ensures forall i, j :: 0 <= i < |t.kids| && 0 <= j < |t.kids| && i != j ==> Disjoint(t.kids[i], t.kids[j])
  {
    DistinctConcat([t.node], PreorderAll(t.kids));
    AllApart(t.kids);
    forall i | 0 <= i < |t.kids| ensures t.node !in Preorder(t.kids[i]) {
      PartOfAll(t.kids, i);
      assert t.node in [t.node];
    }
  }

  lemma {:induction false} AllApart(ts: seq<Tree>)
    requires Distinct(PreorderAll(ts))
    ensures forall i :: 0 <= i < |ts| ==> Distinct(Preorder(ts[i]))
    ensures forall i, j :: 0 <= i < |ts| && 0 <= j < |ts| && i != j ==> Disjoint(ts[i], ts[j])
  {
    if ts != [] {
      var rest := ts[1..];
      DistinctConcat(Preorder(ts[0]), PreorderAll(rest));
      AllApart(rest);
      forall i | 1 <= i < |ts| ensures Distinct(Preorder(ts[i])) && Disjoint(ts[0], ts[i]) && Disjoint(ts[i], ts[0]) {
        assert ts[i] == rest[i - 1];
        PartOfAll(rest, i - 1);
      }
      forall i, j | 1 <= i < |ts| && 1 <= j < |ts| && i != j ensures Disjoint(ts[i], ts[j]) {
        assert Disjoint(rest[i - 1], rest[j - 1]);
      }
    }
  }

  /** All is well below the root: nothing is said of the fields of the root itself. */
  ghost predicate BelowOk(t: Tree)
    reads NodesBelow(t)
  {
    KidsWithin(t);
    forall i :: 0 <= i < |t.kids| ==>
      t.kids[i].node.Parent == t.node && t.kids[i].node.Index == i && Mirrors(t.kids[i])
  }

  /** All is well but for the list of kids of the node that `path` leads to. */
  ghost predicate BesideOk(t: Tree, path: seq<nat>)
    requires Leads(t, path) && Distinct(Preorder(t))
    reads NodesIn(t) - {At(t, path).node}
    reads At(t, path).node`Parent, At(t, path).node`Index
    decreases |path|
  {
    KidsWithin(t);
    KidsApart(t);
    if path == [] then
      BelowOk(t)
    else
      BelowKid(t, path);
      && t.node.Childs == Nodes(t.kids)
      && (forall i :: 0 <= i < |t.kids| ==> t.kids[i].node.Parent == t.node && t.kids[i].node.Index == i)
      && (forall i :: 0 <= i < |t.kids| && i != path[0] ==> OtherKid(t, path[0], i) && Mirrors(t.kids[i]))
      && BesideOk(t.kids[path[0]], path[1..])
  }

  /** Nothing below the kid `i` is below the kid `k`. */
  ghost predicate OtherKid(t: Tree, k: nat, i: nat)
    requires k < |t.kids| && i < |t.kids| && i != k && Distinct(Preorder(t))
    ensures OtherKid(t, k, i)
  {
    KidsApart(t);
    Disjoint(t.kids[k], t.kids[i])
  }

  lemma {:induction false} MirrorsBeside(t: Tree, path: seq<nat>)
    requires Mirrors(t) && Leads(t, path) && Distinct(Preorder(t))
    ensures BesideOk(t, path)
    decreases |path|
  {
    KidsApart(t);
    if path != [] {
      MirrorsBeside(t.kids[path[0]], path[1..]);
    }
  }

  /** Once the list of kids is extended by a mirrored tree, the grafted tree is mirrored. */
  lemma {:induction false} Grafted(t: Tree, path: seq<nat>, s: Tree)
    requires Leads(t, path) && Distinct(Preorder(t)) && BesideOk(t, path)
    requires At(t, path).node.Childs == Nodes(At(t, path).kids) + [s.node]
    requires Mirrors(s) && s.node.Parent == At(t, path).node && s.node.Index == |At(t, path).kids|
    ensures Mirrors(Graft(t, path, s))
    decreases |path|
  {
    var g := Graft(t, path, s);
    KidsApart(t);
    if path == [] {
      assert Nodes(g.kids) == Nodes(t.kids) + [s.node];
    } else {
      Grafted(t.kids[path[0]], path[1..], s);
      assert Nodes(g.kids) == Nodes(t.kids);
    }
  }

  /** What `path` leads to is below its first kid. */
  lemma BelowKid(t: Tree, path: seq<nat>)
    requires Leads(t, path) && path != []
    ensures At(t, path).node in Preorder(t.kids[path[0]])
  {
    PlaceOf(t.kids[path[0]], path[1..]);
  }

  // ---------------------------------------------------------------- the recursion

  datatype NodeType = NtAny | NtOpen | NtClosed

  /** The contours of the nodes of the given type, without the empty ones; open ones are not looked for here. */
  ghost function Contours(ns: seq<PolyNode>, nodetype: NodeType): seq<seq<IntPoint>>
    reads ns`Contour, ns`m_IsOpen
  {
    if ns == [] || nodetype == NtOpen then []
    else (if ns[0].Contour != [] && (nodetype == NtClosed ==> !ns[0].m_IsOpen) then [ns[0].Contour] else [])
         + Contours(ns[1..], nodetype)
  }

  lemma {:induction false} ContoursConcat(a: seq<PolyNode>, b: seq<PolyNode>, nodetype: NodeType)
    ensures Contours(a + b, nodetype) == Contours(a, nodetype) + Contours(b, nodetype)
  {
    if a == [] {
      assert a + b == b;
    } else {
      assert (a + b)[1..] == a[1..] + b;
      ContoursConcat(a[1..], b, nodetype);
    }
  }

  lemma {:induction false} PreorderConcat(a: seq<Tree>, b: seq<Tree>)
    ensures PreorderAll(a + b) == PreorderAll(a) + PreorderAll(b)
  {
    if a == [] {
      assert a + b == b;
    } else {
      assert (a + b)[1..] == a[1..] + b;
      PreorderConcat(a[1..], b);
    }
  }

  /** One more kid. */
  lemma KidContours(ts: seq<Tree>, i: nat, nodetype: NodeType)
    requires i < |ts|
    ensures Contours(PreorderAll(ts[..i + 1]), nodetype)
         == Contours(PreorderAll(ts[..i]), nodetype) + Contours(Preorder(ts[i]), nodetype)
  {
    assert ts[..i + 1] == ts[..i] + [ts[i]];
    PreorderConcat(ts[..i], [ts[i]]);
    assert [ts[i]][1..] == [];
    assert PreorderAll([ts[i]]) == Preorder(ts[i]);
    ContoursConcat(PreorderAll(ts[..i]), Preorder(ts[i]), nodetype);
  }

  /** What is below the first `i + 1` kids is below the node. */
  lemma PrefixWithin(t: Tree, i: nat)
    requires i < |t.kids|
    ensures var ns := PreorderAll(t.kids[..i]); forall j :: 0 <= j < |ns| ==> ns[j] in NodesIn(t)
    ensures var ns := Preorder(t.kids[i]); forall j :: 0 <= j < |ns| ==> ns[j] in NodesIn(t)
  {
    KidsWithin(t);
    PreorderConcat(t.kids[..i], t.kids[i..]);
    assert t.kids == t.kids[..i] + t.kids[i..];
    forall j | 0 <= j < |Preorder(t.kids[i])| ensures Preorder(t.kids[i])[j] in NodesIn(t) {
      assert Preorder(t.kids[i])[j] in NodesIn(t.kids[i]);
    }
    forall j | 0 <= j < |PreorderAll(t.kids[..i])| ensures PreorderAll(t.kids[..i])[j] in NodesIn(t) {
      assert PreorderAll(t.kids[..i])[j] == PreorderAll(t.kids)[j];
      assert PreorderAll(t.kids)[j] in NodesBelow(t);
    }
  }

  lemma Regroup<T>(a: seq<T>, b: seq<T>, c: seq<T>)
    ensures a + b + c == a + (b + c)
  {
  }

  /** Collects the contours of a node and of everything below it, in the order of the walk. */
  method AddPolyNodeToPaths(polynode: PolyNode, nodetype: NodeType, paths: seq<seq<IntPoint>>, ghost t: Tree)
    returns (paths': seq<seq<IntPoint>>)
    requires Mirrors(t) && polynode == t.node
    ensures paths' == paths + Contours(Preorder(t), nodetype)
    decreases t, 1
  {
    paths' := paths;
    var match' := true;
    if nodetype == NtClosed {
      match' := !polynode.m_IsOpen;
    } else if nodetype == NtOpen {
      return;
    }
    if polynode.Contour != [] && match' {
      paths' := paths' + [polynode.Contour];
    }
    assert Preorder(t)[1..] == PreorderAll(t.kids);
    assert paths' + Contours(PreorderAll(t.kids), nodetype) == paths + Contours(Preorder(t), nodetype);
    paths' := AddKids(polynode, nodetype, paths', t);
  }

  method AddKids(polynode: PolyNode, nodetype: NodeType, paths: seq<seq<IntPoint>>, ghost t: Tree)
    returns (paths': seq<seq<IntPoint>>)
    requires Mirrors(t) && polynode == t.node
    ensures paths' == paths + Contours(PreorderAll(t.kids), nodetype)
    decreases t, 0
  {
    paths' := paths;
    ghost var nodes := Existing(t);
    for i := 0 to |polynode.Childs|
      invariant paths' == paths + Contours(PreorderAll(t.kids[..i]), nodetype) && Mirrors(t)
    {
      PrefixWithin(t, i);
      hide Contours, Preorder, PreorderAll;
      ghost var before := PreorderAll(t.kids[..i]);
      ghost var some := Contours(before, nodetype);
      paths' := AddPolyNodeToPaths(polynode.Childs[i], nodetype, paths', t.kids[i]);
      assert Contours(before, nodetype) == some;
      KidContours(t.kids, i, nodetype);
      Regroup(paths, some, Contours(Preorder(t.kids[i]), nodetype));
    }
    assert t.kids[..|t.kids|] == t.kids;
  }
}
