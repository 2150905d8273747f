/** The two forest builders and the traversals, in the form the source gives them: BuildTree links
    heap nodes (component/util/tree.go), FillTree fills children into the elements of the list it
    was given (component/util/fill_tree.go). */
module Forest {
  import opened ForestModel
  import opened ListingPaths

  // ---------- BuildTree ----------

  class TreeNode {
    var node: Record
    var children: seq<TreeNode?>

    constructor (node: Record)
      ensures this.node == node && children == []
    {
      this.node, children := node, [];
    }
  }

  /** The nodes found for some identifiers: for each, the node of the last item that has it. */
  ghost function NodesFor(list: seq<Record>, nodes: seq<TreeNode>, ids: seq<int>): seq<TreeNode?>
    requires |nodes| == |list| && forall k :: 0 <= k < |ids| ==> HasId(list, ids[k])
  {
    seq(|ids|, k requires 0 <= k < |ids| => nodes[Last(list, ids[k])])
  }

  /** The children of the node of the item at `i`, after `n` items: the last node of an identifier
      has those found for the children listed so far, in list order; the others have none. */
  ghost function LinksOf(list: seq<Record>, rootParent: int, nodes: seq<TreeNode>, i: nat, n: nat): seq<TreeNode?>
    requires |nodes| == |list| && i < |list| && n <= |list|
  {
    if Shown(list, i) == i then NodesFor(list, nodes, KidIds(list, rootParent, list[i].id, n)) else []
  }

  ghost function RootLinks(list: seq<Record>, rootParent: int, nodes: seq<TreeNode>, n: nat): seq<TreeNode?>
    requires |nodes| == |list| && n <= |list|
  {
    NodesFor(list, nodes, RootIds(list, rootParent, n))
  }

  lemma LinksWithRoot(list: seq<Record>, rootParent: int, nodes: seq<TreeNode>, n: nat)
    requires |nodes| == |list| && n < |list| && IsRoot(list, rootParent, n)
    ensures forall i: nat :: i < |list| ==>
      LinksOf(list, rootParent, nodes, i, n + 1) == LinksOf(list, rootParent, nodes, i, n)
    ensures RootLinks(list, rootParent, nodes, n + 1)
         == RootLinks(list, rootParent, nodes, n) + [nodes[Shown(list, n)]]
  {
    forall i: nat | i < |list|
      ensures KidIds(list, rootParent, list[i].id, n + 1) == KidIds(list, rootParent, list[i].id, n)
    {
    }
  }

  lemma {:induction false} LinksWithChild(list: seq<Record>, rootParent: int, nodes: seq<TreeNode>, n: nat)
    requires |nodes| == |list| && n < |list| && !IsRoot(list, rootParent, n)
    ensures forall i: nat :: i < |list| ==>
      LinksOf(list, rootParent, nodes, i, n + 1)
      == LinksOf(list, rootParent, nodes, i, n)
       + (if i == Last(list, list[n].parent) then [nodes[Shown(list, n)]] else [])
    ensures RootLinks(list, rootParent, nodes, n + 1) == RootLinks(list, rootParent, nodes, n)
  {
    forall i: nat | i < |list|
      ensures KidIds(list, rootParent, list[i].id, n + 1)
        == KidIds(list, rootParent, list[i].id, n) + (if list[i].id == list[n].parent then [list[n].id] else [])
    {
    }
  }

  /** Every item's node holds the item and has its children among the first `n` items. */
  ghost predicate LinkedUpTo(list: seq<Record>, rootParent: int, nodes: seq<TreeNode>, n: nat)
    requires n <= |list|
    reads set i | 0 <= i < |nodes| :: nodes[i]
  {
    && |nodes| == |list|
    && forall i :: 0 <= i < |list| ==>
         nodes[i].node == list[i] && nodes[i].children == LinksOf(list, rootParent, nodes, i, n)
  }

  method BuildTree(list: seq<Record>, rootParent: int) returns (roots: seq<TreeNode?>, ghost nodes: seq<TreeNode>)
    ensures |nodes| == |list| && forall i :: 0 <= i < |nodes| ==> fresh(nodes[i])
    ensures LinkedUpTo(list, rootParent, nodes, |list|)
    ensures roots == RootLinks(list, rootParent, nodes, |list|)
  {
    var nodeMap: map<int, TreeNode>;
    nodeMap, nodes := BuildIndex(list);
    roots := [];
    for n := 0 to |list|
      invariant LinkedUpTo(list, rootParent, nodes, n)
      invariant roots == RootLinks(list, rootParent, nodes, n)
      invariant Indexes(list, nodeMap, nodes)
    {
      roots := Attach(list, rootParent, nodeMap, nodes, n, roots);
    }
  }

  /** Hangs the node of the item at `n` below its parent's node, or among the roots. */
  method Attach(list: seq<Record>, rootParent: int, nodeMap: map<int, TreeNode>,
                ghost nodes: seq<TreeNode>, n: nat, roots: seq<TreeNode?>) returns (roots': seq<TreeNode?>)
    requires n < |list|
    requires Indexes(list, nodeMap, nodes) && LinkedUpTo(list, rootParent, nodes, n)
    requires roots == RootLinks(list, rootParent, nodes, n)
    modifies set i | 0 <= i < |nodes| :: nodes[i]
    ensures LinkedUpTo(list, rootParent, nodes, n + 1)
    ensures roots' == RootLinks(list, rootParent, nodes, n + 1)
  {
    var node := nodeMap[list[n].id];
    var parent: TreeNode? := if list[n].parent in nodeMap then nodeMap[list[n].parent] else null;
    assert parent == null <==> !HasId(list, list[n].parent);
    if parent == null || list[n].parent == rootParent {
      LinksWithRoot(list, rootParent, nodes, n);
      roots' := roots + [node];
    } else {
      LinksWithChild(list, rootParent, nodes, n);
      AddChild(list, rootParent, nodes, n, parent, node);
      roots' := roots;
    }
  }

  method AddChild(ghost list: seq<Record>, ghost rootParent: int, ghost nodes: seq<TreeNode>, ghost n: nat,
                  parent: TreeNode, node: TreeNode)
    requires n < |list| && LinkedUpTo(list, rootParent, nodes, n) && !IsRoot(list, rootParent, n)
    requires parent == nodes[Last(list, list[n].parent)] && node == nodes[Shown(list, n)]
    requires forall i :: 0 <= i < |nodes| && nodes[i] == parent ==> i == Last(list, list[n].parent)
    modifies parent
    ensures LinkedUpTo(list, rootParent, nodes, n + 1)
  {
    LinksWithChild(list, rootParent, nodes, n);
    parent.children := parent.children + [node];
    forall i | 0 <= i < |list| ensures nodes[i].children == LinksOf(list, rootParent, nodes, i, n + 1) {
      assert old(nodes[i].children) == LinksOf(list, rootParent, nodes, i, n);
    }
  }

  /** The index finds, for each identifier of the list, the node of the last item that has it. */
  ghost predicate Indexes(list: seq<Record>, nodeMap: map<int, TreeNode>, nodes: seq<TreeNode>) {
    && |nodes| == |list|
    && (forall id :: id in nodeMap <==> HasId(list, id))
    && (forall id :: id in nodeMap ==> nodeMap[id] == nodes[Last(list, id)])
    && (forall i, j :: 0 <= i < j < |nodes| ==> nodes[i] != nodes[j])
  }

  method BuildIndex(list: seq<Record>) returns (nodeMap: map<int, TreeNode>, ghost nodes: seq<TreeNode>)
    ensures Indexes(list, nodeMap, nodes)
    ensures forall i :: 0 <= i < |nodes| ==> fresh(nodes[i]) && nodes[i].node == list[i] && nodes[i].children == []
  {
    nodeMap, nodes := map[], [];
    for n := 0 to |list|
      invariant Indexes(list[..n], nodeMap, nodes)
      invariant forall i :: 0 <= i < n ==> fresh(nodes[i]) && nodes[i].node == list[i] && nodes[i].children == []
    {
      var node := new TreeNode(list[n]);
      LastOneMore(list, n);
      nodeMap := nodeMap[list[n].id := node];
      nodes := nodes + [node];
    }
    assert list[..|list|] == list;
  }

  // ---------- What linked nodes unfold to ----------

  /** The nodes, nil entries aside, unfold to the trees `ts` within `repr`. */
  ghost predicate Unfolds(ns: seq<TreeNode?>, ts: seq<Tree>, repr: set<TreeNode>)
    reads repr
    decreases ts, |ns|
  {
    if ns == [] then ts == []
    else if ns[0] == null then Unfolds(ns[1..], ts, repr)
    else
      && ts != [] && ns[0] in repr
      && ns[0].node == ts[0].node
      && Unfolds(ns[0].children, ts[0].children, repr)
      && Unfolds(ns[1..], ts[1..], repr)
  }

  /** A nil entry anywhere in a list of nodes changes nothing. */
  lemma {:induction false} NilIsPassedOver(a: seq<TreeNode?>, b: seq<TreeNode?>, ts: seq<Tree>, repr: set<TreeNode>)
    ensures Unfolds(a + [null] + b, ts, repr) <==> Unfolds(a + b, ts, repr)
    decreases |a|
  {
    if a == [] {
      assert (a + [null] + b)[1..] == b == a + b;
    } else {
      assert (a + [null] + b)[1..] == a[1..] + [null] + b && (a + b)[1..] == a[1..] + b;
      NilIsPassedOver(a[1..], b, if a[0] == null || ts == [] then ts else ts[1..], repr);
    }
  }

  ghost predicate UnfoldsToTrees(ns: seq<TreeNode?>, repr: set<TreeNode>)
    reads repr
  {
    exists ts :: Unfolds(ns, ts, repr)
  }

  ghost function Repr(nodes: seq<TreeNode>): set<TreeNode> {
    set i | 0 <= i < |nodes| :: nodes[i]
  }

  /** `t` is the tree below an identifier: the last item that has it, and below it the trees of the
      children listed for the identifier. */
  ghost predicate IsBuilt(recs: seq<Record>, rootParent: int, t: Tree, id: int)
    requires HasId(recs, id)
    decreases t
  {
    var kids := KidIds(recs, rootParent, id, |recs|);
    && t.node == recs[Last(recs, id)]
    && |t.children| == |kids|
    && forall k :: 0 <= k < |kids| ==> IsBuilt(recs, rootParent, t.children[k], kids[k])
  }

  ghost predicate AreBuilt(recs: seq<Record>, rootParent: int, ts: seq<Tree>, ids: seq<int>) {
    && |ts| == |ids|
    && forall k :: 0 <= k < |ids| ==> HasId(recs, ids[k]) && IsBuilt(recs, rootParent, ts[k], ids[k])
  }

  /** What BuildTree makes of a list, once its nodes are unfolded. */
  ghost predicate IsBuiltForest(recs: seq<Record>, rootParent: int, ts: seq<Tree>) {
    AreBuilt(recs, rootParent, ts, RootIds(recs, rootParent, |recs|))
  }

  lemma {:induction false} BuiltIsTree(recs: seq<Record>, rootParent: int, t: Tree, i: nat)
    requires UniqueIds(recs) && i < |recs|
    ensures HasId(recs, recs[i].id)
    ensures IsBuilt(recs, rootParent, t, recs[i].id) <==> IsTree(recs, rootParent, t, i)
    decreases t
  {
    assert HasId(recs, recs[i].id);
    KidIdsAre(recs, rootParent, recs[i].id, |recs|);
    var kids := Kids(recs, rootParent, i);
    forall k | 0 <= k < |kids| && k < |t.children|
      ensures IsBuilt(recs, rootParent, t.children[k], recs[kids[k]].id)
         <==> IsTree(recs, rootParent, t.children[k], kids[k])
    {
      BuiltIsTree(recs, rootParent, t.children[k], kids[k]);
    }
  }

  /** With distinct identifiers it is the forest of the list. */
  lemma BuiltForestIsForest(recs: seq<Record>, rootParent: int, ts: seq<Tree>)
    requires UniqueIds(recs)
    ensures IsBuiltForest(recs, rootParent, ts) <==> IsForest(recs, rootParent, ts)
  {
    RootIdsAre(recs, rootParent, |recs|);
    var roots := Roots(recs, rootParent);
    forall k | 0 <= k < |roots| && k < |ts|
      ensures HasId(recs, recs[roots[k]].id)
      ensures IsBuilt(recs, rootParent, ts[k], recs[roots[k]].id) <==> IsTree(recs, rootParent, ts[k], roots[k])
    {
      BuiltIsTree(recs, rootParent, ts[k], roots[k]);
    }
  }

  /** The node found for an identifier holds its last item and, as children, the nodes found for the
      children listed for it. */
  ghost predicate FoundNodeHolds(list: seq<Record>, rootParent: int, nodes: seq<TreeNode>, id: int)
    requires |nodes| == |list| && HasId(list, id)
    reads set i | 0 <= i < |nodes| :: nodes[i]
  {
    var found := nodes[Last(list, id)];
    && found.node == list[Last(list, id)]
    && found.children == NodesFor(list, nodes, KidIds(list, rootParent, id, |list|))
  }

  lemma FoundNode(list: seq<Record>, rootParent: int, nodes: seq<TreeNode>, id: int)
    requires LinkedUpTo(list, rootParent, nodes, |list|) && HasId(list, id)
    ensures FoundNodeHolds(list, rootParent, nodes, id)
  {
    assert Shown(list, Last(list, id)) == Last(list, id);
  }

  /** Below identifiers whose walks end, the linked nodes unfold to the trees of those identifiers. */
  lemma {:induction false} LinkedNodesUnfold(
    list: seq<Record>, rootParent: int, nodes: seq<TreeNode>, ids: seq<int>, depth: nat)
    returns (ts: seq<Tree>)
    requires LinkedUpTo(list, rootParent, nodes, |list|)
    requires forall k :: 0 <= k < |ids| ==> HasId(list, ids[k]) && EndsWithin(list, rootParent, ids[k], depth)
    ensures AreBuilt(list, rootParent, ts, ids)
    ensures Unfolds(NodesFor(list, nodes, ids), ts, Repr(nodes))
    decreases depth, |ids|
  {
    if ids == [] {
      ts := [];
    } else {
      KidsEnd(list, rootParent, ids[0], depth);
      FoundNode(list, rootParent, nodes, ids[0]);
      var below := LinkedNodesUnfold(list, rootParent, nodes, KidIds(list, rootParent, ids[0], |list|), depth - 1);
      var rest := LinkedNodesUnfold(list, rootParent, nodes, ids[1..], depth);
      ts := [Tree(list[Last(list, ids[0])], below)] + rest;
      BuiltOneMore(list, rootParent, ids, below, rest);
      UnfoldOneMore(list, rootParent, nodes, ids, below, rest);
    }
  }

  lemma {:induction false} BuiltOneMore(
    recs: seq<Record>, rootParent: int, ids: seq<int>, below: seq<Tree>, rest: seq<Tree>)
    requires ids != [] && HasId(recs, ids[0])
    requires AreBuilt(recs, rootParent, below, KidIds(recs, rootParent, ids[0], |recs|))
    requires AreBuilt(recs, rootParent, rest, ids[1..])
    ensures AreBuilt(recs, rootParent, [Tree(recs[Last(recs, ids[0])], below)] + rest, ids)
  {
    var first := Tree(recs[Last(recs, ids[0])], below);
    assert IsBuilt(recs, rootParent, first, ids[0]);
    forall k | 1 <= k < |ids| ensures HasId(recs, ids[k]) && IsBuilt(recs, rootParent, rest[k - 1], ids[k]) {
      assert ids[k] == ids[1..][k - 1];
    }
  }

  lemma {:induction false} UnfoldOneMore(
    list: seq<Record>, rootParent: int, nodes: seq<TreeNode>, ids: seq<int>, below: seq<Tree>, rest: seq<Tree>)
    requires |nodes| == |list| && ids != [] && forall k :: 0 <= k < |ids| ==> HasId(list, ids[k])
    requires FoundNodeHolds(list, rootParent, nodes, ids[0])
    requires Unfolds(NodesFor(list, nodes, KidIds(list, rootParent, ids[0], |list|)), below, Repr(nodes))
    requires Unfolds(NodesFor(list, nodes, ids[1..]), rest, Repr(nodes))
    ensures Unfolds(NodesFor(list, nodes, ids), [Tree(list[Last(list, ids[0])], below)] + rest, Repr(nodes))
  {
    var found := NodesFor(list, nodes, ids);
    assert found[1..] == NodesFor(list, nodes, ids[1..]);
    UnfoldsCons(found, Tree(list[Last(list, ids[0])], below), rest, Repr(nodes));
  }

  lemma {:induction false} UnfoldsCons(ns: seq<TreeNode?>, t: Tree, rest: seq<Tree>, repr: set<TreeNode>)
    requires ns != [] && ns[0] != null && ns[0] in repr && ns[0].node == t.node
    requires Unfolds(ns[0].children, t.children, repr) && Unfolds(ns[1..], rest, repr)
    ensures Unfolds(ns, [t] + rest, repr)
  {
    assert ([t] + rest)[1..] == rest;
  }

  lemma {:induction false} UnfoldedWalkEnds(
    list: seq<Record>, rootParent: int, nodes: seq<TreeNode>, ids: seq<int>, ts: seq<Tree>)
    requires LinkedUpTo(list, rootParent, nodes, |list|)
    requires forall k :: 0 <= k < |ids| ==> HasId(list, ids[k])
    requires Unfolds(NodesFor(list, nodes, ids), ts, Repr(nodes))
    ensures forall k :: 0 <= k < |ids| ==> Ends(list, rootParent, ids[k])
    decreases ts, |ids|
  {
    if ids != [] {
      FoundNode(list, rootParent, nodes, ids[0]);
      SplitUnfolded(list, rootParent, nodes, ids, ts);
      UnfoldedWalkEnds(list, rootParent, nodes, KidIds(list, rootParent, ids[0], |list|), ts[0].children);
      EndsWithKids(list, rootParent, ids[0]);
      UnfoldedWalkEnds(list, rootParent, nodes, ids[1..], ts[1..]);
    }
  }

  lemma {:induction false} SplitUnfolded(
    list: seq<Record>, rootParent: int, nodes: seq<TreeNode>, ids: seq<int>, ts: seq<Tree>)
    requires |nodes| == |list| && ids != [] && forall k :: 0 <= k < |ids| ==> HasId(list, ids[k])
    requires FoundNodeHolds(list, rootParent, nodes, ids[0])
    requires Unfolds(NodesFor(list, nodes, ids), ts, Repr(nodes))
    ensures ts != [] && Unfolds(NodesFor(list, nodes, ids[1..]), ts[1..], Repr(nodes))
    ensures Unfolds(NodesFor(list, nodes, KidIds(list, rootParent, ids[0], |list|)), ts[0].children, Repr(nodes))
  {
    assert NodesFor(list, nodes, ids)[1..] == NodesFor(list, nodes, ids[1..]);
  }

  /** Where the walks down from all roots end, the nodes BuildTree returns unfold to the forest of the list. */
  lemma BuiltNodesUnfold(list: seq<Record>, rootParent: int, nodes: seq<TreeNode>, roots: seq<TreeNode?>)
    returns (forest: seq<Tree>)
    requires RootsEnd(list, rootParent) && LinkedUpTo(list, rootParent, nodes, |list|)
    requires roots == RootLinks(list, rootParent, nodes, |list|)
    ensures IsBuiltForest(list, rootParent, forest)
    ensures UniqueIds(list) ==> IsForest(list, rootParent, forest)
    ensures Unfolds(roots, forest, Repr(nodes))
  {
    var ids := RootIds(list, rootParent, |list|);
    RootIdsEnd(list, rootParent);
    forest := LinkedNodesUnfold(list, rootParent, nodes, ids, |list|);
    if UniqueIds(list) { BuiltForestIsForest(list, rootParent, forest); }
  }

  /** The nodes BuildTree returns unfold to trees, so that a traversal of them ends, exactly when the
      walks down from all roots end. */
  lemma BuiltUnfoldsIffRootsEnd(list: seq<Record>, rootParent: int, nodes: seq<TreeNode>, roots: seq<TreeNode?>)
    requires LinkedUpTo(list, rootParent, nodes, |list|)
    requires roots == RootLinks(list, rootParent, nodes, |list|)
    ensures UnfoldsToTrees(roots, Repr(nodes)) <==> RootsEnd(list, rootParent)
  {
    if RootsEnd(list, rootParent) {
      var ts := BuiltNodesUnfold(list, rootParent, nodes, roots);
      assert Unfolds(roots, ts, Repr(nodes));
    }
    if UnfoldsToTrees(roots, Repr(nodes)) {
      var ts :| Unfolds(roots, ts, Repr(nodes));
      UnfoldedRootsEnd(list, rootParent, nodes, ts);
    }
  }

  lemma {:induction false} UnfoldedRootsEnd(list: seq<Record>, rootParent: int, nodes: seq<TreeNode>, ts: seq<Tree>)
    requires LinkedUpTo(list, rootParent, nodes, |list|)
    requires Unfolds(RootLinks(list, rootParent, nodes, |list|), ts, Repr(nodes))
    ensures RootsEnd(list, rootParent)
  {
    UnfoldedWalkEnds(list, rootParent, nodes, RootIds(list, rootParent, |list|), ts);
    RootsEndByIds(list, rootParent);
  }

  // ---------- Traversals ----------

  /** FlattenTree; a nil node is passed over. */
  method FlattenTree(trees: seq<TreeNode?>, ghost ts: seq<Tree>, ghost repr: set<TreeNode>)
    returns (result: seq<Record>)
    requires Unfolds(trees, ts, repr)
    ensures result == Preorder(ts)
    decreases ts, |trees|
  {
    result := [];
    ghost var m := 0;
    for i := 0 to |trees|
      invariant m <= |ts| && Unfolds(trees[i..], ts[m..], repr)
      invariant Preorder(ts) == result + Preorder(ts[m..])
    {
      assert trees[i..][1..] == trees[i + 1..];
      if trees[i] != null {
        assert ts[m..][0] == ts[m] && ts[m..][1..] == ts[m + 1..];
        var below := FlattenTree(trees[i].children, ts[m].children, repr);
        result := result + [trees[i].node] + below;
        m := m + 1;
      }
    }
  }

  /** The visits WalkTree makes: each item with the depth it is reported at. */
  ghost function Visits(ts: seq<Tree>, depth: nat): seq<(Record, nat)> {
    if ts == [] then [] else [(ts[0].node, depth)] + Visits(ts[0].children, depth + 1) + Visits(ts[1..], depth)
  }

  method WalkTree(trees: seq<TreeNode?>, depth: nat, ghost ts: seq<Tree>, ghost repr: set<TreeNode>)
    returns (visits: seq<(Record, nat)>)
    requires Unfolds(trees, ts, repr)
    ensures visits == Visits(ts, depth)
    decreases ts, |trees|
  {
    visits := [];
    ghost var m := 0;
    for i := 0 to |trees|
      invariant m <= |ts| && Unfolds(trees[i..], ts[m..], repr)
      invariant Visits(ts, depth) == visits + Visits(ts[m..], depth)
    {
      assert trees[i..][1..] == trees[i + 1..];
      if trees[i] != null {
        assert ts[m..][0] == ts[m] && ts[m..][1..] == ts[m + 1..];
        var below := WalkTree(trees[i].children, depth + 1, ts[m].children, repr);
        visits := visits + [(trees[i].node, depth)] + below;
        m := m + 1;
      }
    }
  }

  ghost predicate VisitedAtDepth(recs: seq<Record>, rootParent: int, visit: (Record, nat)) {
    exists x: nat :: x < |recs| && recs[x] == visit.0 && Grounded(recs, rootParent, x, visit.1)
  }

  /** The depth reported for an item is the number of parent steps from it to its root. */
  lemma {:induction false} VisitsReportDepth(recs: seq<Record>, rootParent: int, ts: seq<Tree>, ks: seq<nat>, d: nat)
    requires AreTrees(recs, rootParent, ts, ks) && Level(recs, rootParent, ks, d)
    ensures forall v :: v in Visits(ts, d) ==> VisitedAtDepth(recs, rootParent, v)
    decreases ts
  {
    if ts != [] {
      SplitTrees(recs, rootParent, ts, ks);
      SplitLevel(recs, rootParent, ks, d);
      VisitsReportDepth(recs, rootParent, ts[0].children, Kids(recs, rootParent, ks[0]), d + 1);
      VisitsReportDepth(recs, rootParent, ts[1..], ks[1..], d);
      assert VisitedAtDepth(recs, rootParent, (recs[ks[0]], d));
    }
  }

  ghost function ItemsOf(visits: seq<(Record, nat)>): seq<Record> {
    if visits == [] then [] else [visits[0].0] + ItemsOf(visits[1..])
  }

  lemma {:induction false} ItemsOfAppend(a: seq<(Record, nat)>, b: seq<(Record, nat)>)
    ensures ItemsOf(a + b) == ItemsOf(a) + ItemsOf(b)
    decreases |a|
  {
    if a == [] {
      assert a + b == b;
    } else {
      assert (a + b)[1..] == a[1..] + b;
      ItemsOfAppend(a[1..], b);
    }
  }

  /** WalkTree and FlattenTree visit the items in the same order. */
  lemma {:induction false} VisitsFollowPreorder(ts: seq<Tree>, d: nat)
    ensures ItemsOf(Visits(ts, d)) == Preorder(ts)
    decreases ts
  {
    if ts != [] {
      VisitsFollowPreorder(ts[0].children, d + 1);
      VisitsFollowPreorder(ts[1..], d);
      var first, below, rest := [(ts[0].node, d)], Visits(ts[0].children, d + 1), Visits(ts[1..], d);
      ItemsOfAppend(first + below, rest);
      ItemsOfAppend(first, below);
      assert ItemsOf(first) == [ts[0].node] + ItemsOf([]);
    }
  }

  // ---------- FillTree ----------

  ghost function Records(items: seq<Tree>): seq<Record> {
    seq(|items|, i requires 0 <= i < |items| => items[i].node)
  }

  ghost function KidsOf(orig: seq<Tree>, rootParent: int, i: nat): seq<int>
    requires i < |orig|
  {
    KidIds(Records(orig), rootParent, orig[i].node.id, |orig|)
  }

  /** `t` is the item at `i` of the original list with the trees of its children filled in.  An item
      without children keeps whatever children field it came with, and so does one whose identifier
      a later item has too: the index never finds it. */
  ghost predicate IsFilled(orig: seq<Tree>, rootParent: int, t: Tree, i: nat)
    requires i < |orig|
    decreases t
  {
    var recs, kids := Records(orig), KidsOf(orig, rootParent, i);
    && t.node == recs[i]
    && (if kids == [] || Shown(recs, i) != i then t.children == orig[i].children
        else
          && |t.children| == |kids|
          && forall k :: 0 <= k < |kids| ==> IsFilled(orig, rootParent, t.children[k], Last(recs, kids[k])))
  }

  /** Some later item has the identifier of the item at `i`. */
  ghost predicate HasLater(orig: seq<Tree>, i: nat)
    requires i < |orig|
  {
    exists j :: i < j < |orig| && orig[j].node.id == orig[i].node.id
  }

  ghost predicate HasKids(orig: seq<Tree>, rootParent: int, i: nat)
    requires i < |orig|
  {
    exists j: nat :: j < |orig| && IsChild(Records(orig), rootParent, orig[i].node.id, j)
  }

  lemma KidsAndLater(orig: seq<Tree>, rootParent: int, i: nat)
    requires i < |orig|
    ensures HasLater(orig, i) <==> Shown(Records(orig), i) != i
    ensures HasKids(orig, rootParent, i) <==> KidsOf(orig, rootParent, i) != []
  {
    var recs, id := Records(orig), orig[i].node.id;
    assert recs[i].id == id;
    NoneAfterLast(recs, id);
    if j :| i < j < |orig| && orig[j].node.id == id { assert recs[j].id == id; }
    var ids := KidsOf(orig, rootParent, i);
    if ids != [] {
      KidIdsName(recs, rootParent, id, |recs|, ids[0]);
    }
    if j: nat :| j < |orig| && IsChild(recs, rootParent, id, j) {
      KidIdsName(recs, rootParent, id, |recs|, recs[j].id);
    }
  }

  /** Filling leaves an item as it came when no item is listed as its child, or when a later item has its
      identifier; otherwise its children are the listed items, in order. */
  lemma {:induction false} FilledItem(orig: seq<Tree>, rootParent: int, t: Tree, i: nat)
    requires i < |orig| && IsFilled(orig, rootParent, t, i)
    ensures HasLater(orig, i) || !HasKids(orig, rootParent, i) ==> t == orig[i]
    ensures !HasLater(orig, i) && HasKids(orig, rootParent, i) ==>
      t.node == orig[i].node && |t.children| == |KidsOf(orig, rootParent, i)|
      && forall k :: 0 <= k < |t.children| ==> t.children[k].node.id == KidsOf(orig, rootParent, i)[k]
  {
    KidsAndLater(orig, rootParent, i);
  }

  /** The items at the positions `ks`, filled. */
  ghost predicate AreFilled(orig: seq<Tree>, rootParent: int, ts: seq<Tree>, ks: seq<nat>) {
    && |ts| == |ks|
    && forall k :: 0 <= k < |ks| ==> ks[k] < |orig| && IsFilled(orig, rootParent, ts[k], ks[k])
  }

  /** The items found for the identifiers `ids`, filled. */
  ghost predicate FoundFilled(orig: seq<Tree>, rootParent: int, ts: seq<Tree>, ids: seq<int>) {
    && |ts| == |ids|
    && forall k :: 0 <= k < |ids| ==>
         HasId(Records(orig), ids[k]) && IsFilled(orig, rootParent, ts[k], Last(Records(orig), ids[k]))
  }

  /** When the items come without children, filling yields the tree BuildTree makes for an identifier. */
  lemma {:induction false} FilledIsBuilt(orig: seq<Tree>, rootParent: int, t: Tree, id: int)
    requires HasId(Records(orig), id) && IsFilled(orig, rootParent, t, Last(Records(orig), id))
    requires forall j :: 0 <= j < |orig| ==> orig[j].children == []
    ensures IsBuilt(Records(orig), rootParent, t, id)
    decreases t
  {
    var recs := Records(orig);
    var kids := KidIds(recs, rootParent, id, |recs|);
    forall k | 0 <= k < |kids| ensures IsBuilt(recs, rootParent, t.children[k], kids[k]) {
      FilledIsBuilt(orig, rootParent, t.children[k], kids[k]);
    }
  }

  lemma {:induction false} BuiltIsUnique(recs: seq<Record>, rootParent: int, t: Tree, u: Tree, id: int)
    requires HasId(recs, id) && IsBuilt(recs, rootParent, t, id) && IsBuilt(recs, rootParent, u, id)
    ensures t == u
    decreases t
  {
    var kids := KidIds(recs, rootParent, id, |recs|);
    forall k | 0 <= k < |kids| ensures t.children[k] == u.children[k] {
      BuiltIsUnique(recs, rootParent, t.children[k], u.children[k], kids[k]);
    }
    assert t.children == u.children;
  }

  /** A root whose identifier no later item has, or one that the last item with its identifier
      equals and that has no children. */
  ghost predicate SameInBoth(recs: seq<Record>, rootParent: int, r: nat)
    requires r < |recs|
  {
    Shown(recs, r) == r || (recs[Shown(recs, r)] == recs[r] && KidIds(recs, rootParent, recs[r].id, |recs|) == [])
  }

  lemma {:induction false} RootsAgreeIff(orig: seq<Tree>, rootParent: int, filled: Tree, built: Tree, r: nat)
    requires forall j :: 0 <= j < |orig| ==> orig[j].children == []
    requires r < |orig| && IsFilled(orig, rootParent, filled, r)
    requires HasId(Records(orig), orig[r].node.id) && IsBuilt(Records(orig), rootParent, built, orig[r].node.id)
    ensures filled == built <==> SameInBoth(Records(orig), rootParent, r)
  {
    var recs := Records(orig);
    if Shown(recs, r) == r {
      FilledIsBuilt(orig, rootParent, filled, recs[r].id);
      BuiltIsUnique(recs, rootParent, filled, built, recs[r].id);
    }
  }

  /** FillTree and BuildTree make the same ordered forest exactly when every root is the same in both. */
  lemma BuildersAgreeIff(orig: seq<Tree>, rootParent: int, filled: seq<Tree>, built: seq<Tree>)
    requires forall j :: 0 <= j < |orig| ==> orig[j].children == []
    requires AreFilled(orig, rootParent, filled, Roots(Records(orig), rootParent))
    requires IsBuiltForest(Records(orig), rootParent, built)
    ensures filled == built <==>
      forall r: nat :: r < |orig| && IsRoot(Records(orig), rootParent, r) ==> SameInBoth(Records(orig), rootParent, r)
  {
    var recs, roots := Records(orig), Roots(Records(orig), rootParent);
    RootsAre(recs, rootParent, |recs|);
    RootIdsAre(recs, rootParent, |recs|);
    forall k | 0 <= k < |roots| ensures filled[k] == built[k] <==> SameInBoth(recs, rootParent, roots[k]) {
      assert built[k] in built;
      RootsAgreeIff(orig, rootParent, filled[k], built[k], roots[k]);
    }
    if filled == built {
      forall r: nat | r < |orig| && IsRoot(recs, rootParent, r) ensures SameInBoth(recs, rootParent, r) {
        assert r in roots;
        var k :| 0 <= k < |roots| && roots[k] == r;
      }
    }
    if forall r: nat :: r < |orig| && IsRoot(recs, rootParent, r) ==> SameInBoth(recs, rootParent, r) {
      forall k | 0 <= k < |roots| ensures filled[k] == built[k] {
        assert roots[k] in roots;
      }
    }
  }

  /** With distinct identifiers they make the same ordered forest, the one the list has. */
  lemma BuildersAgree(orig: seq<Tree>, rootParent: int, filled: seq<Tree>, built: seq<Tree>)
    requires UniqueIds(Records(orig)) && forall j :: 0 <= j < |orig| ==> orig[j].children == []
    requires AreFilled(orig, rootParent, filled, Roots(Records(orig), rootParent))
    requires IsForest(Records(orig), rootParent, built)
    ensures filled == built
  {
    BuiltForestIsForest(Records(orig), rootParent, built);
    BuildersAgreeIff(orig, rootParent, filled, built);
  }

  function ChildIds(childrenIds: map<int, seq<int>>, id: int): seq<int> {
    if id in childrenIds then childrenIds[id] else []
  }

  ghost predicate ChildrenUpTo(recs: seq<Record>, rootParent: int, childrenIds: map<int, seq<int>>, n: nat)
    requires n <= |recs|
  {
    forall id :: ChildIds(childrenIds, id) == KidIds(recs, rootParent, id, n)
  }

  /** The list's elements hold the records, whatever their children fields hold. */
  ghost predicate HoldsRecords(list: array<Tree>, recs: seq<Record>)
    reads list
  {
    list.Length == |recs| && forall i :: 0 <= i < |recs| ==> list[i].node == recs[i]
  }

  method BuildIdIndex(list: array<Tree>, ghost recs: seq<Record>) returns (index: map<int, nat>)
    requires HoldsRecords(list, recs)
    ensures FindsLast(recs, index)
  {
    index := map[];
    for i := 0 to list.Length
      invariant FindsLast(recs[..i], index)
    {
      LastOneMore(recs, i);
      index := index[list[i].node.id := i];
    }
    assert recs[..|recs|] == recs;
  }

  function WithChild(childrenIds: map<int, seq<int>>, parentId: int, id: int): (r: map<int, seq<int>>)
    ensures forall x :: ChildIds(r, x) == ChildIds(childrenIds, x) + (if x == parentId then [id] else [])
  {
    childrenIds[parentId := ChildIds(childrenIds, parentId) + [id]]
  }

  /** The grouping after the first `n` items: the children identifiers per parent, and the
      positions of the roots, both in list order. */
  ghost predicate Grouped(recs: seq<Record>, rootParent: int, childrenIds: map<int, seq<int>>, rootIndexes: seq<nat>, n: nat)
    requires n <= |recs|
  {
    ChildrenUpTo(recs, rootParent, childrenIds, n) && rootIndexes == RootsUpTo(recs, rootParent, n)
  }

  lemma GroupedAtStart(recs: seq<Record>, rootParent: int)
    ensures Grouped(recs, rootParent, map[], [], 0)
  {
  }

  lemma GroupedWithRoot(recs: seq<Record>, rootParent: int, childrenIds: map<int, seq<int>>, rootIndexes: seq<nat>, n: nat)
    requires n < |recs| && Grouped(recs, rootParent, childrenIds, rootIndexes, n) && IsRoot(recs, rootParent, n)
    ensures Grouped(recs, rootParent, childrenIds, rootIndexes + [n], n + 1)
  {
    forall id ensures KidIds(recs, rootParent, id, n + 1) == KidIds(recs, rootParent, id, n) {
    }
  }

  lemma GroupedWithChild(recs: seq<Record>, rootParent: int, childrenIds: map<int, seq<int>>, rootIndexes: seq<nat>, n: nat)
    requires n < |recs| && Grouped(recs, rootParent, childrenIds, rootIndexes, n) && !IsRoot(recs, rootParent, n)
    ensures Grouped(recs, rootParent, WithChild(childrenIds, recs[n].parent, recs[n].id), rootIndexes, n + 1)
  {
    forall id
      ensures KidIds(recs, rootParent, id, n + 1)
           == KidIds(recs, rootParent, id, n) + (if id == recs[n].parent then [recs[n].id] else [])
    {
    }
  }

  method GroupByParent(list: array<Tree>, index: map<int, nat>, rootParent: int, ghost recs: seq<Record>)
    returns (childrenIds: map<int, seq<int>>, rootIndexes: seq<nat>)
    requires HoldsRecords(list, recs) && FindsLast(recs, index)
    ensures Grouped(recs, rootParent, childrenIds, rootIndexes, |recs|)
  {
    childrenIds, rootIndexes := map[], [];
    GroupedAtStart(recs, rootParent);
    for i := 0 to list.Length
      invariant Grouped(recs, rootParent, childrenIds, rootIndexes, i)
    {
      childrenIds, rootIndexes := Place(list[i].node, i, index, rootParent, childrenIds, rootIndexes, recs);
    }
  }

  /** Puts one item among the children of its parent or among the roots. */
  method Place(item: Record, i: nat, index: map<int, nat>, rootParent: int,
               childrenIds: map<int, seq<int>>, rootIndexes: seq<nat>, ghost recs: seq<Record>)
    returns (childrenIds': map<int, seq<int>>, rootIndexes': seq<nat>)
    requires i < |recs| && item == recs[i] && FindsLast(recs, index)
    requires Grouped(recs, rootParent, childrenIds, rootIndexes, i)
    ensures Grouped(recs, rootParent, childrenIds', rootIndexes', i + 1)
  {
    if item.parent == rootParent || item.parent !in index {
      GroupedWithRoot(recs, rootParent, childrenIds, rootIndexes, i);
      return childrenIds, rootIndexes + [i];
    }
    GroupedWithChild(recs, rootParent, childrenIds, rootIndexes, i);
    return WithChild(childrenIds, item.parent, item.id), rootIndexes;
  }

  /** An element is as it came or completely filled. */
  ghost predicate Settled(orig: seq<Tree>, rootParent: int, t: Tree, i: nat)
    requires i < |orig|
  {
    t == orig[i] || IsFilled(orig, rootParent, t, i)
  }

  ghost predicate AllSettled(list: array<Tree>, orig: seq<Tree>, rootParent: int)
    reads list
  {
    list.Length == |orig| && forall j :: 0 <= j < |orig| ==> Settled(orig, rootParent, list[j], j)
  }

  /** What one call of fill leaves behind: everything settled, and nothing that was filled undone. */
  twostate predicate FillKept(list: array<Tree>, orig: seq<Tree>, rootParent: int)
    reads list
  {
    && AllSettled(list, orig, rootParent)
    && forall j :: 0 <= j < |orig| && IsFilled(orig, rootParent, old(list[j]), j) ==>
         IsFilled(orig, rootParent, list[j], j)
  }

  /** `fill`: fills the children of the item with the given identifier, their children first. */
  method Fill(list: array<Tree>, index: map<int, nat>, childrenIds: map<int, seq<int>>, id: int,
              ghost orig: seq<Tree>, ghost rootParent: int, ghost depth: nat)
    requires FindsLast(Records(orig), index) && HasId(Records(orig), id)
    requires ChildrenUpTo(Records(orig), rootParent, childrenIds, |orig|)
    requires EndsWithin(Records(orig), rootParent, id, depth)
    requires AllSettled(list, orig, rootParent)
    modifies list
    ensures FillKept(list, orig, rootParent)
    ensures FoundFilled(orig, rootParent, [list[Last(Records(orig), id)]], [id])
    decreases depth, 1, 0
  {
    var childIds := ChildIds(childrenIds, id);
    if |childIds| == 0 { return; }
    KidsEnd(Records(orig), rootParent, id, depth);
    var children := FillAll(list, index, childrenIds, childIds, orig, rootParent, depth - 1);
    SetChildren(list, index[id], children, orig, rootParent);
  }

  method SetChildren(list: array<Tree>, i: nat, children: seq<Tree>, ghost orig: seq<Tree>, ghost rootParent: int)
    requires i < |orig| && AllSettled(list, orig, rootParent)
    requires Shown(Records(orig), i) == i
    requires FoundFilled(orig, rootParent, children, KidsOf(orig, rootParent, i)) && children != []
    modifies list
    ensures FillKept(list, orig, rootParent)
    ensures IsFilled(orig, rootParent, list[i], i)
  {
    list[i] := Tree(list[i].node, children);
  }

  lemma FoundOneMore(orig: seq<Tree>, rootParent: int, ts: seq<Tree>, ids: seq<int>, k: nat, t: Tree)
    requires k < |ids| && FoundFilled(orig, rootParent, ts, ids[..k]) && FoundFilled(orig, rootParent, [t], [ids[k]])
    ensures FoundFilled(orig, rootParent, ts + [t], ids[..k + 1])
  {
    assert [t][0] == t && [ids[k]][0] == ids[k];
  }

  /** Fills the items with the given identifiers, in order, and collects them. */
  method FillAll(list: array<Tree>, index: map<int, nat>, childrenIds: map<int, seq<int>>, ids: seq<int>,
                 ghost orig: seq<Tree>, ghost rootParent: int, ghost depth: nat)
    returns (filled: seq<Tree>)
    requires FindsLast(Records(orig), index)
    requires ChildrenUpTo(Records(orig), rootParent, childrenIds, |orig|)
    requires forall k :: 0 <= k < |ids| ==>
      HasId(Records(orig), ids[k]) && EndsWithin(Records(orig), rootParent, ids[k], depth)
    requires AllSettled(list, orig, rootParent)
    modifies list
    ensures FillKept(list, orig, rootParent)
    ensures FoundFilled(orig, rootParent, filled, ids)
    decreases depth, 2, |ids|
  {
    filled := [];
    for k := 0 to |ids|
      invariant FillKept(list, orig, rootParent)
      invariant FoundFilled(orig, rootParent, filled, ids[..k])
    {
      Fill(list, index, childrenIds, ids[k], orig, rootParent, depth);
      FoundOneMore(orig, rootParent, filled, ids, k, list[index[ids[k]]]);
      filled := filled + [list[index[ids[k]]]];
    }
    assert ids[..|ids|] == ids;
  }

  /** Called on a list on which the walks down from the roots end, as the source's recursion needs. */
  method FillTree(list: array<Tree>, rootParent: int) returns (roots: seq<Tree>)
    requires RootsEnd(Records(list[..]), rootParent)
    modifies list
    ensures AllSettled(list, old(list[..]), rootParent)
    ensures AreFilled(old(list[..]), rootParent, roots, Roots(Records(old(list[..])), rootParent))
  {
    ghost var orig := list[..];
    ghost var recs := Records(orig);
    if list.Length == 0 { return []; }
    var index := BuildIdIndex(list, recs);
    var childrenIds, rootIndexes := GroupByParent(list, index, rootParent, recs);
    FillRoots(list, index, childrenIds, rootIndexes, orig, rootParent);
    roots := Collect(list, rootIndexes, orig, rootParent);
  }

  /** After its identifier was filled, a root is filled, or as it came when it is not the last of its identifier. */
  lemma {:induction false} RootFilled(orig: seq<Tree>, rootParent: int, t: Tree, r: nat)
    requires r < |orig| && Settled(orig, rootParent, t, r)
    requires Shown(Records(orig), r) == r ==> FoundFilled(orig, rootParent, [t], [orig[r].node.id])
    ensures IsFilled(orig, rootParent, t, r)
  {
    if Shown(Records(orig), r) == r { assert [t][0] == t; }
  }

  method FillRoots(list: array<Tree>, index: map<int, nat>, childrenIds: map<int, seq<int>>, rootIndexes: seq<nat>,
                   ghost orig: seq<Tree>, ghost rootParent: int)
    requires FindsLast(Records(orig), index) && RootsEnd(Records(orig), rootParent)
    requires Grouped(Records(orig), rootParent, childrenIds, rootIndexes, |orig|)
    requires AllSettled(list, orig, rootParent)
    modifies list
    ensures AllSettled(list, orig, rootParent)
    ensures forall m :: 0 <= m < |rootIndexes| ==>
      rootIndexes[m] < list.Length && IsFilled(orig, rootParent, list[rootIndexes[m]], rootIndexes[m])
  {
    for k := 0 to |rootIndexes|
      invariant AllSettled(list, orig, rootParent)
      invariant forall m :: 0 <= m < k ==>
        rootIndexes[m] < list.Length && IsFilled(orig, rootParent, list[rootIndexes[m]], rootIndexes[m])
    {
      RootEnds(Records(orig), rootParent, rootIndexes, k);
      Fill(list, index, childrenIds, list[rootIndexes[k]].node.id, orig, rootParent, |orig|);
      RootFilled(orig, rootParent, list[rootIndexes[k]], rootIndexes[k]);
    }
  }

  method Collect(list: array<Tree>, rootIndexes: seq<nat>, ghost orig: seq<Tree>, ghost rootParent: int)
    returns (roots: seq<Tree>)
    requires list.Length == |orig| && forall m :: 0 <= m < |rootIndexes| ==>
      rootIndexes[m] < list.Length && IsFilled(orig, rootParent, list[rootIndexes[m]], rootIndexes[m])
    ensures AreFilled(orig, rootParent, roots, rootIndexes)
  {
    roots := [];
    for k := 0 to |rootIndexes|
      invariant |roots| == k && forall m :: 0 <= m < k ==> roots[m] == list[rootIndexes[m]]
    {
      roots := roots + [list[rootIndexes[k]]];
    }
  }
}
