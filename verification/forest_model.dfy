/** The forest that a flat list with parent references stands for (component/util/tree.go and
    component/util/fill_tree.go).

    An item is a root when its parent is the designated root parent or is not in the list.  The
    children of an item are the other items that name it as parent, in list order.  Items whose
    chain of parents runs into a cycle belong to no tree. */
module ForestModel {

  datatype Record = Record(id: int, parent: int, payload: int)

  datatype Tree = Tree(node: Record, children: seq<Tree>)

  ghost predicate UniqueIds(recs: seq<Record>) {
    forall i, j :: 0 <= i < j < |recs| ==> recs[i].id != recs[j].id
  }

  ghost predicate HasId(recs: seq<Record>, id: int) {
    exists i :: 0 <= i < |recs| && recs[i].id == id
  }

  ghost predicate IsRoot(recs: seq<Record>, rootParent: int, i: nat)
    requires i < |recs|
  {
    recs[i].parent == rootParent || !HasId(recs, recs[i].parent)
  }

  /** The item at `j` is a child of the item with identifier `id`. */
  ghost predicate IsChild(recs: seq<Record>, rootParent: int, id: int, j: nat)
    requires j < |recs|
  {
    !IsRoot(recs, rootParent, j) && recs[j].parent == id
  }

  ghost function RootsUpTo(recs: seq<Record>, rootParent: int, n: nat): seq<nat>
    requires n <= |recs|
  {
    if n == 0 then []
    else RootsUpTo(recs, rootParent, n - 1) + (if IsRoot(recs, rootParent, n - 1) then [n - 1] else [])
  }

  ghost function KidsUpTo(recs: seq<Record>, rootParent: int, id: int, n: nat): seq<nat>
    requires n <= |recs|
  {
    if n == 0 then []
    else KidsUpTo(recs, rootParent, id, n - 1) + (if IsChild(recs, rootParent, id, n - 1) then [n - 1] else [])
  }

  ghost function Roots(recs: seq<Record>, rootParent: int): seq<nat> {
    RootsUpTo(recs, rootParent, |recs|)
  }

  ghost predicate Increasing(ks: seq<nat>) {
    forall a, b :: 0 <= a < b < |ks| ==> ks[a] < ks[b]
  }

  lemma {:induction false} RootsAre(recs: seq<Record>, rootParent: int, n: nat)
    requires n <= |recs|
    ensures Increasing(RootsUpTo(recs, rootParent, n))
    ensures forall j: nat :: j in RootsUpTo(recs, rootParent, n) <==> j < n && IsRoot(recs, rootParent, j)
  {
    if n > 0 {
      RootsAre(recs, rootParent, n - 1);
      var before := RootsUpTo(recs, rootParent, n - 1);
      assert forall a :: 0 <= a < |before| ==> before[a] in before;
    }
  }

  lemma {:induction false} KidsAre(recs: seq<Record>, rootParent: int, id: int, n: nat)
    requires n <= |recs|
    ensures Increasing(KidsUpTo(recs, rootParent, id, n))
    ensures forall j: nat :: j in KidsUpTo(recs, rootParent, id, n) <==> j < n && IsChild(recs, rootParent, id, j)
  {
    if n > 0 {
      KidsAre(recs, rootParent, id, n - 1);
      var before := KidsUpTo(recs, rootParent, id, n - 1);
      assert forall a :: 0 <= a < |before| ==> before[a] in before;
    }
  }

  /** An item is among the roots exactly when its parent is the root parent or no item's identifier. */
  lemma {:induction false} RootIffNoParent(recs: seq<Record>, rootParent: int, j: nat)
    requires j < |recs|
    ensures j in RootsUpTo(recs, rootParent, |recs|) <==>
      recs[j].parent == rootParent || forall i :: 0 <= i < |recs| ==> recs[i].id != recs[j].parent
  {
    RootsAre(recs, rootParent, |recs|);
  }

  /** An item is among the children of an identifier exactly when it names it as parent, some item has it, and it is
      not the root parent. */
  lemma {:induction false} KidIffNamesParent(recs: seq<Record>, rootParent: int, id: int, j: nat)
    requires j < |recs|
    ensures j in KidsUpTo(recs, rootParent, id, |recs|) <==>
      recs[j].parent == id != rootParent && exists i :: 0 <= i < |recs| && recs[i].id == id
  {
    KidsAre(recs, rootParent, id, |recs|);
  }

  // ---------- Trees of a list ----------

  ghost function Kids(recs: seq<Record>, rootParent: int, i: nat): (kids: seq<nat>)
    requires i < |recs|
    ensures forall k :: 0 <= k < |kids| ==> kids[k] < |recs|
  {
    KidsAre(recs, rootParent, recs[i].id, |recs|);
    var kids := KidsUpTo(recs, rootParent, recs[i].id, |recs|);
    assert forall k :: 0 <= k < |kids| ==> kids[k] in kids;
    kids
  }

  /** `t` is the tree below the item at `i`: the same children, in the same order, at every node. */
  ghost predicate IsTree(recs: seq<Record>, rootParent: int, t: Tree, i: nat)
    requires i < |recs|
    decreases t
  {
    var kids := Kids(recs, rootParent, i);
    && t.node == recs[i]
    && |t.children| == |kids|
    && forall k :: 0 <= k < |kids| ==> IsTree(recs, rootParent, t.children[k], kids[k])
  }

  ghost predicate AreTrees(recs: seq<Record>, rootParent: int, ts: seq<Tree>, ks: seq<nat>) {
    && |ts| == |ks|
    && forall k :: 0 <= k < |ks| ==> ks[k] < |recs| && IsTree(recs, rootParent, ts[k], ks[k])
  }

  /** The forest of a list: the trees of its roots, in list order. */
  ghost predicate IsForest(recs: seq<Record>, rootParent: int, ts: seq<Tree>) {
    AreTrees(recs, rootParent, ts, Roots(recs, rootParent))
  }

  lemma {:induction false} TreeIsUnique(recs: seq<Record>, rootParent: int, t: Tree, u: Tree, i: nat)
    requires i < |recs|
    requires IsTree(recs, rootParent, t, i) && IsTree(recs, rootParent, u, i)
    ensures t == u
    decreases t
  {
    var kids := Kids(recs, rootParent, i);
    KidsAre(recs, rootParent, recs[i].id, |recs|);
    forall k | 0 <= k < |kids| ensures t.children[k] == u.children[k] {
      assert kids[k] in kids;
      TreeIsUnique(recs, rootParent, t.children[k], u.children[k], kids[k]);
    }
    assert t.children == u.children;
  }

  /** A list has at most one forest. */
  lemma ForestIsUnique(recs: seq<Record>, rootParent: int, f: seq<Tree>, g: seq<Tree>)
    requires IsForest(recs, rootParent, f) && IsForest(recs, rootParent, g)
    ensures f == g
  {
    var roots := Roots(recs, rootParent);
    forall k | 0 <= k < |roots| ensures f[k] == g[k] {
      TreeIsUnique(recs, rootParent, f[k], g[k], roots[k]);
    }
  }

  // ---------- Parent chains ----------

  ghost predicate IsParent(recs: seq<Record>, rootParent: int, p: nat, i: nat)
    requires i < |recs|
  {
    p < |recs| && IsChild(recs, rootParent, recs[p].id, i)
  }

  /** The chain of parents of the item at `i` meets a root after exactly `d` steps. */
  ghost predicate Grounded(recs: seq<Record>, rootParent: int, i: nat, d: nat)
    requires i < |recs|
    decreases d
  {
    if d == 0 then IsRoot(recs, rootParent, i)
    else exists p :: IsParent(recs, rootParent, p, i) && Grounded(recs, rootParent, p, d - 1)
  }

  ghost predicate InForest(recs: seq<Record>, rootParent: int, i: nat)
    requires i < |recs|
  {
    exists d: nat :: Grounded(recs, rootParent, i, d)
  }

  lemma ParentIsUnique(recs: seq<Record>, rootParent: int, p: nat, q: nat, i: nat)
    requires UniqueIds(recs) && i < |recs|
    requires IsParent(recs, rootParent, p, i) && IsParent(recs, rootParent, q, i)
    ensures p == q
  {
  }

  lemma {:induction false} DepthIsUnique(recs: seq<Record>, rootParent: int, i: nat, d: nat, e: nat)
    requires UniqueIds(recs) && i < |recs|
    requires Grounded(recs, rootParent, i, d) && Grounded(recs, rootParent, i, e)
    ensures d == e
    decreases d
  {
    if d > 0 && e > 0 {
      var p :| IsParent(recs, rootParent, p, i) && Grounded(recs, rootParent, p, d - 1);
      var q :| IsParent(recs, rootParent, q, i) && Grounded(recs, rootParent, q, e - 1);
      ParentIsUnique(recs, rootParent, p, q, i);
      DepthIsUnique(recs, rootParent, p, d - 1, e - 1);
    }
  }

  ghost predicate GroundedWithin(recs: seq<Record>, rootParent: int, i: nat, d: nat)
    requires i < |recs|
  {
    exists e: nat :: e <= d && Grounded(recs, rootParent, i, e)
  }

  /** The items on the way from `i` to its root. */
  lemma {:induction false} Chain(recs: seq<Record>, rootParent: int, i: nat, d: nat) returns (chain: set<nat>)
    requires UniqueIds(recs) && i < |recs| && Grounded(recs, rootParent, i, d)
    ensures |chain| == d + 1
    ensures forall x :: x in chain ==> x < |recs| && GroundedWithin(recs, rootParent, x, d)
    decreases d
  {
    if d == 0 {
      chain := {i};
    } else {
      var p :| IsParent(recs, rootParent, p, i) && Grounded(recs, rootParent, p, d - 1);
      var above := Chain(recs, rootParent, p, d - 1);
      if i in above {
        var e: nat :| e <= d - 1 && Grounded(recs, rootParent, i, e);
        DepthIsUnique(recs, rootParent, i, d, e);
      }
      chain := above + {i};
      forall x | x in above ensures GroundedWithin(recs, rootParent, x, d) {
        var e: nat :| e <= d - 1 && Grounded(recs, rootParent, x, e);
      }
    }
  }

  /** Chains that reach a root are shorter than the list, so a walk down from the roots ends. */
  lemma {:induction false} DepthIsBounded(recs: seq<Record>, rootParent: int, i: nat, d: nat)
    requires UniqueIds(recs) && i < |recs| && Grounded(recs, rootParent, i, d)
    ensures d < |recs|
  {
    var chain := Chain(recs, rootParent, i, d);
    BoundedSetSize(chain, |recs|);
  }

  lemma {:induction false} BoundedSetSize(s: set<nat>, n: nat)
    requires forall x :: x in s ==> x < n
    ensures |s| <= n
    decreases n
  {
    if n > 0 {
      BoundedSetSize(s - {n - 1}, n - 1);
    } else {
      assert s == {};
    }
  }

  /** Children of a grounded item are one step deeper. */
  lemma KidsAreGrounded(recs: seq<Record>, rootParent: int, i: nat, d: nat)
    requires i < |recs| && Grounded(recs, rootParent, i, d)
    ensures forall k :: k in Kids(recs, rootParent, i) ==> k < |recs| && Grounded(recs, rootParent, k, d + 1)
  {
    KidsAre(recs, rootParent, recs[i].id, |recs|);
    forall k | k in Kids(recs, rootParent, i) ensures Grounded(recs, rootParent, k, d + 1) {
      assert IsParent(recs, rootParent, i, k);
    }
  }

  // ---------- Preorder ----------

  ghost function Preorder(ts: seq<Tree>): seq<Record> {
    if ts == [] then [] else [ts[0].node] + Preorder(ts[0].children) + Preorder(ts[1..])
  }

  /** The item `x` lies in the tree of one of the items `ks`, which stand at depth `d`. */
  ghost predicate Below(recs: seq<Record>, rootParent: int, x: nat, ks: seq<nat>, d: nat)
    requires x < |recs|
  {
    exists e: nat :: BelowAt(recs, rootParent, x, e, ks, d)
  }

  ghost predicate BelowAt(recs: seq<Record>, rootParent: int, x: nat, e: nat, ks: seq<nat>, d: nat)
    requires x < |recs|
  {
    e >= d && Grounded(recs, rootParent, x, e) && Ancestor(recs, rootParent, x, e, d) in ks
  }

  /** The item at depth `d` on the chain of `x`, which stands at depth `e`. */
  ghost function Ancestor(recs: seq<Record>, rootParent: int, x: nat, e: nat, d: nat): (a: nat)
    requires x < |recs| && d <= e && Grounded(recs, rootParent, x, e)
    ensures a < |recs| && Grounded(recs, rootParent, a, d)
    decreases e
  {
    if e == d then x
    else
      var p :| IsParent(recs, rootParent, p, x) && Grounded(recs, rootParent, p, e - 1);
      Ancestor(recs, rootParent, p, e - 1, d)
  }

  /** The ancestor at depth `d` is the parent of the ancestor one step deeper. */
  lemma {:induction false} AncestorStep(recs: seq<Record>, rootParent: int, x: nat, e: nat, d: nat)
    requires UniqueIds(recs) && x < |recs| && d < e && Grounded(recs, rootParent, x, e)
    ensures IsParent(recs, rootParent, Ancestor(recs, rootParent, x, e, d), Ancestor(recs, rootParent, x, e, d + 1))
    decreases e
  {
    var p :| IsParent(recs, rootParent, p, x) && Grounded(recs, rootParent, p, e - 1)
      && Ancestor(recs, rootParent, x, e, d) == Ancestor(recs, rootParent, p, e - 1, d);
    if d + 1 < e {
      AncestorStep(recs, rootParent, p, e - 1, d);
      var q :| IsParent(recs, rootParent, q, x) && Grounded(recs, rootParent, q, e - 1)
        && Ancestor(recs, rootParent, x, e, d + 1) == Ancestor(recs, rootParent, q, e - 1, d + 1);
      ParentIsUnique(recs, rootParent, p, q, x);
    }
  }

  /** What lies below a single item is the item itself and what lies below its children. */
  lemma {:induction false} BelowOne(recs: seq<Record>, rootParent: int, x: nat, i: nat, d: nat)
    requires UniqueIds(recs) && x < |recs| && i < |recs| && Grounded(recs, rootParent, i, d)
    ensures Below(recs, rootParent, x, [i], d) <==>
      x == i || Below(recs, rootParent, x, Kids(recs, rootParent, i), d + 1)
    ensures !Below(recs, rootParent, i, Kids(recs, rootParent, i), d + 1)
  {
    KidsAre(recs, rootParent, recs[i].id, |recs|);
    var kids := Kids(recs, rootParent, i);
    if Below(recs, rootParent, x, [i], d) {
      var e: nat :| BelowAt(recs, rootParent, x, e, [i], d);
      if e > d {
        AncestorStep(recs, rootParent, x, e, d);
        assert BelowAt(recs, rootParent, x, e, kids, d + 1);
      }
    }
    if x == i {
      assert BelowAt(recs, rootParent, x, d, [i], d);
    }
    if Below(recs, rootParent, x, kids, d + 1) {
      var e: nat :| BelowAt(recs, rootParent, x, e, kids, d + 1);
      AncestorStep(recs, rootParent, x, e, d);
      ParentIsUnique(recs, rootParent, Ancestor(recs, rootParent, x, e, d), i, Ancestor(recs, rootParent, x, e, d + 1));
      assert BelowAt(recs, rootParent, x, e, [i], d);
    }
    if Below(recs, rootParent, i, kids, d + 1) {
      var e: nat :| BelowAt(recs, rootParent, i, e, kids, d + 1);
      DepthIsUnique(recs, rootParent, i, d, e);
    }
  }

  ghost predicate NoDuplicates(rs: seq<Record>) {
    forall a, b :: 0 <= a < b < |rs| ==> rs[a] != rs[b]
  }

  /** The roots of some trees: distinct items of one depth, in list order. */
  ghost predicate Level(recs: seq<Record>, rootParent: int, ks: seq<nat>, d: nat) {
    Increasing(ks) && forall k :: 0 <= k < |ks| ==> ks[k] < |recs| && Grounded(recs, rootParent, ks[k], d)
  }

  lemma {:induction false} KidsAreLevel(recs: seq<Record>, rootParent: int, i: nat, d: nat)
    requires i < |recs| && Grounded(recs, rootParent, i, d)
    ensures Level(recs, rootParent, Kids(recs, rootParent, i), d + 1)
  {
    var kids := Kids(recs, rootParent, i);
    KidsAre(recs, rootParent, recs[i].id, |recs|);
    KidsAreGrounded(recs, rootParent, i, d);
    assert forall k :: 0 <= k < |kids| ==> kids[k] in kids;
  }

  /** The first tree's children and the remaining trees, as trees of their own. */
  lemma {:induction false} SplitTrees(recs: seq<Record>, rootParent: int, ts: seq<Tree>, ks: seq<nat>)
    requires AreTrees(recs, rootParent, ts, ks) && ts != []
    ensures ks[0] < |recs| && ts[0].node == recs[ks[0]] && ts[0] in ts
    ensures AreTrees(recs, rootParent, ts[0].children, Kids(recs, rootParent, ks[0]))
    ensures AreTrees(recs, rootParent, ts[1..], ks[1..])
    ensures Preorder(ts) == [recs[ks[0]]] + Preorder(ts[0].children) + Preorder(ts[1..])
  {
  }

  lemma {:induction false} SplitLevel(recs: seq<Record>, rootParent: int, ks: seq<nat>, d: nat)
    requires Level(recs, rootParent, ks, d) && ks != []
    ensures ks[0] < |recs| && Grounded(recs, rootParent, ks[0], d)
    ensures Level(recs, rootParent, ks[1..], d)
    ensures Level(recs, rootParent, Kids(recs, rootParent, ks[0]), d + 1)
  {
    KidsAreLevel(recs, rootParent, ks[0], d);
  }

  lemma BelowSplit(recs: seq<Record>, rootParent: int, x: nat, ks: seq<nat>, d: nat)
    requires x < |recs| && ks != []
    ensures Below(recs, rootParent, x, ks, d) <==>
      Below(recs, rootParent, x, [ks[0]], d) || Below(recs, rootParent, x, ks[1..], d)
  {
    assert forall a :: a in ks <==> a in [ks[0]] || a in ks[1..];
    if Below(recs, rootParent, x, ks, d) {
      var e: nat :| BelowAt(recs, rootParent, x, e, ks, d);
      assert BelowAt(recs, rootParent, x, e, [ks[0]], d) || BelowAt(recs, rootParent, x, e, ks[1..], d);
    }
    if Below(recs, rootParent, x, [ks[0]], d) {
      var e: nat :| BelowAt(recs, rootParent, x, e, [ks[0]], d);
      assert BelowAt(recs, rootParent, x, e, ks, d);
    }
    if Below(recs, rootParent, x, ks[1..], d) {
      var e: nat :| BelowAt(recs, rootParent, x, e, ks[1..], d);
      assert BelowAt(recs, rootParent, x, e, ks, d);
    }
  }

  /** Trees of different items of one depth share nothing. */
  lemma BelowIsDisjoint(recs: seq<Record>, rootParent: int, x: nat, ks: seq<nat>, d: nat)
    requires UniqueIds(recs) && x < |recs| && ks != [] && Increasing(ks)
    ensures !(Below(recs, rootParent, x, [ks[0]], d) && Below(recs, rootParent, x, ks[1..], d))
  {
    assert ks[0] !in ks[1..];
    if Below(recs, rootParent, x, [ks[0]], d) && Below(recs, rootParent, x, ks[1..], d) {
      var e: nat :| BelowAt(recs, rootParent, x, e, [ks[0]], d);
      var f: nat :| BelowAt(recs, rootParent, x, f, ks[1..], d);
      DepthIsUnique(recs, rootParent, x, e, f);
    }
  }

  ghost predicate Listed(recs: seq<Record>, rs: seq<Record>, x: nat)
    requires x < |recs|
  {
    recs[x] in rs
  }

  lemma {:induction false} ListedHead(recs: seq<Record>, rootParent: int, x: nat, i: nat, d: nat, inner: seq<Record>)
    requires UniqueIds(recs) && x < |recs| && i < |recs| && Grounded(recs, rootParent, i, d)
    requires Listed(recs, inner, x) <==> Below(recs, rootParent, x, Kids(recs, rootParent, i), d + 1)
    ensures Listed(recs, [recs[i]] + inner, x) <==> Below(recs, rootParent, x, [i], d)
    ensures x == i ==> !Listed(recs, inner, i)
  {
    BelowOne(recs, rootParent, x, i, d);
    assert recs[x].id == recs[i].id ==> x == i;
  }

  lemma AppendDistinct(recs: seq<Record>, a: seq<Record>, b: seq<Record>)
    requires NoDuplicates(a) && NoDuplicates(b)
    requires forall r :: r in a ==> r in recs
    requires forall x: nat :: x < |recs| ==> !(Listed(recs, a, x) && Listed(recs, b, x))
    ensures NoDuplicates(a + b)
  {
    forall r | r in a ensures r !in b {
      var x :| 0 <= x < |recs| && recs[x] == r;
      assert Listed(recs, a, x);
    }
    forall i, j | 0 <= i < j < |a + b| ensures (a + b)[i] != (a + b)[j] {
      if i < |a| <= j {
        assert (a + b)[i] in a && (a + b)[j] in b;
      }
    }
  }

  /** The preorder of some trees lists exactly the items below their roots, each once. */
  lemma {:induction false} PreorderLists(recs: seq<Record>, rootParent: int, ts: seq<Tree>, ks: seq<nat>, d: nat)
    requires UniqueIds(recs)
    requires AreTrees(recs, rootParent, ts, ks) && Level(recs, rootParent, ks, d)
    ensures forall x: nat :: x < |recs| ==> (Listed(recs, Preorder(ts), x) <==> Below(recs, rootParent, x, ks, d))
    ensures forall r :: r in Preorder(ts) ==> r in recs
    ensures NoDuplicates(Preorder(ts))
    decreases ts
  {
    if ts != [] {
      var i, kids := ks[0], Kids(recs, rootParent, ks[0]);
      var inner, rest := Preorder(ts[0].children), Preorder(ts[1..]);
      KidsAreLevel(recs, rootParent, i, d);
      assert ts[0] in ts;
      PreorderLists(recs, rootParent, ts[0].children, kids, d + 1);
      PreorderLists(recs, rootParent, ts[1..], ks[1..], d);
      forall x: nat | x < |recs|
        ensures Listed(recs, Preorder(ts), x) <==> Below(recs, rootParent, x, ks, d)
        ensures !(Listed(recs, [recs[i]] + inner, x) && Listed(recs, rest, x))
        ensures !(Listed(recs, [recs[i]], x) && Listed(recs, inner, x))
      {
        ListedHead(recs, rootParent, x, i, d, inner);
        BelowSplit(recs, rootParent, x, ks, d);
        BelowIsDisjoint(recs, rootParent, x, ks, d);
      }
      AppendDistinct(recs, [recs[i]], inner);
      AppendDistinct(recs, [recs[i]] + inner, rest);
    }
  }

  /** Flattening the forest of a list yields each item whose parent chain meets a root exactly
      once, and nothing else. */
  lemma {:induction false} FlattenedExactly(recs: seq<Record>, rootParent: int, f: seq<Tree>)
    requires UniqueIds(recs) && IsForest(recs, rootParent, f)
    ensures NoDuplicates(Preorder(f))
    ensures forall r :: r in Preorder(f) ==> r in recs
    ensures forall x: nat :: x < |recs| ==> (Listed(recs, Preorder(f), x) <==> InForest(recs, rootParent, x))
  {
    var roots := Roots(recs, rootParent);
    RootsAreLevel(recs, rootParent);
    PreorderLists(recs, rootParent, f, roots, 0);
    forall x: nat | x < |recs|
      ensures Below(recs, rootParent, x, roots, 0) <==> InForest(recs, rootParent, x)
    {
      RootsAre(recs, rootParent, |recs|);
      if InForest(recs, rootParent, x) {
        var d: nat :| Grounded(recs, rootParent, x, d);
        assert BelowAt(recs, rootParent, x, d, roots, 0);
      }
      if Below(recs, rootParent, x, roots, 0) {
        var e: nat :| BelowAt(recs, rootParent, x, e, roots, 0);
      }
    }
  }

  lemma RootsAreLevel(recs: seq<Record>, rootParent: int)
    ensures Level(recs, rootParent, Roots(recs, rootParent), 0)
  {
    var roots := Roots(recs, rootParent);
    RootsAre(recs, rootParent, |recs|);
    assert forall k :: 0 <= k < |roots| ==> roots[k] in roots;
  }

  // ---------- Order in the flattened list ----------

  ghost predicate ParentEarlier(rs: seq<Record>, b: nat)
    requires b < |rs|
  {
    exists a: nat :: a < b && rs[a].id == rs[b].parent
  }

  ghost predicate IsTop(recs: seq<Record>, ks: seq<nat>, r: Record) {
    exists k :: k in ks && k < |recs| && recs[k] == r
  }

  lemma ParentEarlierWithin(pre: seq<Record>, mid: seq<Record>, post: seq<Record>, b: nat)
    requires b < |mid| && ParentEarlier(mid, b)
    ensures ParentEarlier(pre + mid + post, |pre| + b)
  {
    var a: nat :| a < b && mid[a].id == mid[b].parent;
    assert (pre + mid + post)[|pre| + a] == mid[a];
  }

  lemma ParentEarlierBehind(pre: seq<Record>, mid: seq<Record>, b: nat)
    requires b < |mid| && ParentEarlier(mid, b)
    ensures ParentEarlier(pre + mid, |pre| + b)
  {
    ParentEarlierWithin(pre, mid, [], b);
    assert pre + mid + [] == pre + mid;
  }

  /** An item whose parent is the first of the list has it earlier. */
  lemma ChildOfFirst(first: Record, rs: seq<Record>, post: seq<Record>, b: nat)
    requires b < |rs| && rs[b].parent == first.id
    ensures ParentEarlier([first] + rs + post, 1 + b)
  {
    assert ([first] + rs + post)[0].id == ([first] + rs + post)[1 + b].parent;
  }

  lemma KidNamesParent(recs: seq<Record>, rootParent: int, i: nat, r: Record)
    requires i < |recs| && IsTop(recs, Kids(recs, rootParent, i), r)
    ensures r.parent == recs[i].id
  {
    KidsAre(recs, rootParent, recs[i].id, |recs|);
  }

  lemma {:induction false} TopComesFirst(recs: seq<Record>, rootParent: int, ts: seq<Tree>, ks: seq<nat>)
    requires AreTrees(recs, rootParent, ts, ks) && Preorder(ts) != []
    ensures ts != [] && IsTop(recs, ks, Preorder(ts)[0])
    ensures |Preorder(ts)| == 1 + |Preorder(ts[0].children)| + |Preorder(ts[1..])|
  {
    SplitTrees(recs, rootParent, ts, ks);
    assert ks[0] in ks;
  }

  lemma {:induction false} ParentsComeFirst(recs: seq<Record>, rootParent: int, ts: seq<Tree>, ks: seq<nat>, b: nat)
    requires AreTrees(recs, rootParent, ts, ks) && b < |Preorder(ts)|
    ensures IsTop(recs, ks, Preorder(ts)[b]) || ParentEarlier(Preorder(ts), b)
    decreases ts, 1
  {
    TopComesFirst(recs, rootParent, ts, ks);
    if b == 0 {
    } else if b <= |Preorder(ts[0].children)| {
      ParentsFirstInside(recs, rootParent, ts, ks, b - 1);
    } else {
      ParentsFirstBehind(recs, rootParent, ts, ks, b - 1 - |Preorder(ts[0].children)|);
    }
  }

  lemma {:induction false} ParentsFirstInside(recs: seq<Record>, rootParent: int, ts: seq<Tree>, ks: seq<nat>, b: nat)
    requires AreTrees(recs, rootParent, ts, ks) && ts != [] && b < |Preorder(ts[0].children)|
    ensures 1 + b < |Preorder(ts)| && ParentEarlier(Preorder(ts), 1 + b)
    decreases ts, 0
  {
    SplitTrees(recs, rootParent, ts, ks);
    var first, inner, rest := recs[ks[0]], Preorder(ts[0].children), Preorder(ts[1..]);
    ParentsComeFirst(recs, rootParent, ts[0].children, Kids(recs, rootParent, ks[0]), b);
    if ParentEarlier(inner, b) {
      ParentEarlierWithin([first], inner, rest, b);
    } else {
      KidNamesParent(recs, rootParent, ks[0], inner[b]);
      ChildOfFirst(first, inner, rest, b);
    }
  }

  lemma {:induction false} ParentsFirstBehind(recs: seq<Record>, rootParent: int, ts: seq<Tree>, ks: seq<nat>, c: nat)
    requires AreTrees(recs, rootParent, ts, ks) && ts != [] && c < |Preorder(ts[1..])|
    ensures var b := 1 + |Preorder(ts[0].children)| + c;
      b < |Preorder(ts)| && (IsTop(recs, ks, Preorder(ts)[b]) || ParentEarlier(Preorder(ts), b))
    decreases ts, 0
  {
    SplitTrees(recs, rootParent, ts, ks);
    var before, rest := [recs[ks[0]]] + Preorder(ts[0].children), Preorder(ts[1..]);
    ParentsComeFirst(recs, rootParent, ts[1..], ks[1..], c);
    if ParentEarlier(rest, c) {
      ParentEarlierBehind(before, rest, c);
    } else {
      assert forall k :: k in ks[1..] ==> k in ks;
    }
  }

  /** Every item of the flattened forest is a root or comes after its parent. */
  lemma {:induction false} FlattenedParentsFirst(recs: seq<Record>, rootParent: int, f: seq<Tree>)
    requires IsForest(recs, rootParent, f)
    ensures forall b: nat :: b < |Preorder(f)| ==>
      IsTop(recs, Roots(recs, rootParent), Preorder(f)[b]) || ParentEarlier(Preorder(f), b)
  {
    forall b: nat | b < |Preorder(f)|
      ensures IsTop(recs, Roots(recs, rootParent), Preorder(f)[b]) || ParentEarlier(Preorder(f), b)
    {
      ParentsComeFirst(recs, rootParent, f, Roots(recs, rootParent), b);
    }
  }

  ghost predicate Before(rs: seq<Record>, r: Record, s: Record) {
    exists a, b :: 0 <= a < b < |rs| && rs[a] == r && rs[b] == s
  }

  lemma BeforeWithin(pre: seq<Record>, mid: seq<Record>, post: seq<Record>, r: Record, s: Record)
    requires Before(mid, r, s)
    ensures Before(pre + mid + post, r, s)
  {
    var a, b :| 0 <= a < b < |mid| && mid[a] == r && mid[b] == s;
    var all := pre + mid + post;
    assert all[a + |pre|] == r && all[b + |pre|] == s;
  }

  lemma BeforeBehind(pre: seq<Record>, mid: seq<Record>, r: Record, s: Record)
    requires Before(mid, r, s)
    ensures Before(pre + mid, r, s)
  {
    BeforeWithin(pre, mid, [], r, s);
    assert pre + mid + [] == pre + mid;
  }

  /** Siblings have the same ancestors above themselves. */
  lemma SiblingBelow(recs: seq<Record>, rootParent: int, i: nat, j: nat, p: nat, ks: seq<nat>, d: nat)
    requires UniqueIds(recs) && i < |recs| && j < |recs|
    requires IsParent(recs, rootParent, p, i) && IsParent(recs, rootParent, p, j)
    requires Below(recs, rootParent, i, ks, d) && i !in ks
    ensures Below(recs, rootParent, j, ks, d)
  {
    var e: nat :| BelowAt(recs, rootParent, i, e, ks, d);
    var q :| IsParent(recs, rootParent, q, i) && Grounded(recs, rootParent, q, e - 1)
      && Ancestor(recs, rootParent, i, e, d) == Ancestor(recs, rootParent, q, e - 1, d);
    ParentIsUnique(recs, rootParent, p, q, i);
    assert Grounded(recs, rootParent, j, e);
    var r :| IsParent(recs, rootParent, r, j) && Grounded(recs, rootParent, r, e - 1)
      && Ancestor(recs, rootParent, j, e, d) == Ancestor(recs, rootParent, r, e - 1, d);
    ParentIsUnique(recs, rootParent, p, r, j);
    assert BelowAt(recs, rootParent, j, e, ks, d);
  }

  /** Both roots, or both children of one parent. */
  ghost predicate Siblings(recs: seq<Record>, rootParent: int, i: nat, j: nat, ks: seq<nat>)
    requires i < |recs| && j < |recs|
  {
    (i in ks && j in ks) || exists p :: IsParent(recs, rootParent, p, i) && IsParent(recs, rootParent, p, j)
  }

  lemma {:induction false} TopIsBelow(recs: seq<Record>, rootParent: int, i: nat, ks: seq<nat>, d: nat)
    requires i < |recs| && i in ks && Grounded(recs, rootParent, i, d)
    ensures Below(recs, rootParent, i, ks, d)
  {
    assert BelowAt(recs, rootParent, i, d, ks, d);
  }

  /** If one sibling stands at depth `d`, so does the other. */
  lemma {:induction false} SiblingTop(recs: seq<Record>, rootParent: int, i: nat, j: nat, p: nat, ks: seq<nat>, d: nat)
    requires UniqueIds(recs) && i < |recs| && j < |recs|
    requires IsParent(recs, rootParent, p, i) && IsParent(recs, rootParent, p, j)
    requires Grounded(recs, rootParent, i, d) && Below(recs, rootParent, j, ks, d)
    ensures j in ks
  {
    assert d > 0;
    var q :| IsParent(recs, rootParent, q, i) && Grounded(recs, rootParent, q, d - 1);
    ParentIsUnique(recs, rootParent, p, q, i);
    assert Grounded(recs, rootParent, j, d);
    var e: nat :| BelowAt(recs, rootParent, j, e, ks, d);
    DepthIsUnique(recs, rootParent, j, d, e);
  }

  lemma NeitherIsTop(recs: seq<Record>, rootParent: int, i: nat, j: nat, p: nat, ks: seq<nat>, d: nat)
    requires UniqueIds(recs) && i < |recs| && j < |recs| && Level(recs, rootParent, ks, d)
    requires IsParent(recs, rootParent, p, i) && IsParent(recs, rootParent, p, j)
    requires Below(recs, rootParent, i, ks, d) && Below(recs, rootParent, j, ks, d)
    requires !(i in ks && j in ks)
    ensures i !in ks && j !in ks
  {
    if i in ks { SiblingTop(recs, rootParent, i, j, p, ks, d); }
    if j in ks { SiblingTop(recs, rootParent, j, i, p, ks, d); }
  }

  lemma {:induction false} SiblingsInOrder(
    recs: seq<Record>, rootParent: int, ts: seq<Tree>, ks: seq<nat>, d: nat, i: nat, j: nat)
    requires UniqueIds(recs) && i < j < |recs|
    requires AreTrees(recs, rootParent, ts, ks) && Level(recs, rootParent, ks, d)
    requires Below(recs, rootParent, i, ks, d) && Below(recs, rootParent, j, ks, d)
    requires Siblings(recs, rootParent, i, j, ks)
    ensures Before(Preorder(ts), recs[i], recs[j])
    decreases ts, 1
  {
    if i in ks && j in ks {
      TopsInOrder(recs, rootParent, ts, ks, d, i, j);
    } else {
      var p :| IsParent(recs, rootParent, p, i) && IsParent(recs, rootParent, p, j);
      NeitherIsTop(recs, rootParent, i, j, p, ks, d);
      BelowSplit(recs, rootParent, i, ks, d);
      if Below(recs, rootParent, i, [ks[0]], d) {
        SiblingsInside(recs, rootParent, ts, ks, d, i, j, p);
      } else {
        SiblingsBehind(recs, rootParent, ts, ks, d, i, j, p);
      }
    }
  }

  lemma {:induction false} SiblingsInside(
    recs: seq<Record>, rootParent: int, ts: seq<Tree>, ks: seq<nat>, d: nat, i: nat, j: nat, p: nat)
    requires UniqueIds(recs) && i < j < |recs|
    requires AreTrees(recs, rootParent, ts, ks) && Level(recs, rootParent, ks, d) && ks != []
    requires Below(recs, rootParent, i, [ks[0]], d) && i !in ks && j !in ks
    requires IsParent(recs, rootParent, p, i) && IsParent(recs, rootParent, p, j)
    ensures Before(Preorder(ts), recs[i], recs[j])
    decreases ts, 0
  {
    SplitTrees(recs, rootParent, ts, ks);
    SiblingsAreInside(recs, rootParent, ks, d, i, j, p);
    SiblingsInOrder(recs, rootParent, ts[0].children, Kids(recs, rootParent, ks[0]), d + 1, i, j);
    BeforeWithin([recs[ks[0]]], Preorder(ts[0].children), Preorder(ts[1..]), recs[i], recs[j]);
  }

  lemma {:induction false} SiblingsAreInside(
    recs: seq<Record>, rootParent: int, ks: seq<nat>, d: nat, i: nat, j: nat, p: nat)
    requires UniqueIds(recs) && i < j < |recs| && Level(recs, rootParent, ks, d) && ks != [] && ks[0] < |recs|
    requires Below(recs, rootParent, i, [ks[0]], d) && i !in ks && j !in ks
    requires IsParent(recs, rootParent, p, i) && IsParent(recs, rootParent, p, j)
    ensures Level(recs, rootParent, Kids(recs, rootParent, ks[0]), d + 1)
    ensures Below(recs, rootParent, i, Kids(recs, rootParent, ks[0]), d + 1)
    ensures Below(recs, rootParent, j, Kids(recs, rootParent, ks[0]), d + 1)
    ensures Siblings(recs, rootParent, i, j, Kids(recs, rootParent, ks[0]))
  {
    SplitLevel(recs, rootParent, ks, d);
    SiblingsBelowOne(recs, rootParent, i, j, p, ks[0], d);
  }

  lemma {:induction false} SiblingsBehind(
    recs: seq<Record>, rootParent: int, ts: seq<Tree>, ks: seq<nat>, d: nat, i: nat, j: nat, p: nat)
    requires UniqueIds(recs) && i < j < |recs|
    requires AreTrees(recs, rootParent, ts, ks) && Level(recs, rootParent, ks, d) && ks != []
    requires Below(recs, rootParent, i, ks[1..], d) && i !in ks
    requires IsParent(recs, rootParent, p, i) && IsParent(recs, rootParent, p, j)
    ensures Before(Preorder(ts), recs[i], recs[j])
    decreases ts, 0
  {
    SplitTrees(recs, rootParent, ts, ks);
    SplitLevel(recs, rootParent, ks, d);
    SiblingBelow(recs, rootParent, i, j, p, ks[1..], d);
    SiblingsInOrder(recs, rootParent, ts[1..], ks[1..], d, i, j);
    BeforeBehind([recs[ks[0]]] + Preorder(ts[0].children), Preorder(ts[1..]), recs[i], recs[j]);
  }

  lemma {:induction false} SiblingsBelowOne(recs: seq<Record>, rootParent: int, i: nat, j: nat, p: nat, k0: nat, d: nat)
    requires UniqueIds(recs) && i < |recs| && j < |recs| && k0 < |recs| && Grounded(recs, rootParent, k0, d)
    requires IsParent(recs, rootParent, p, i) && IsParent(recs, rootParent, p, j)
    requires Below(recs, rootParent, i, [k0], d) && i != k0 && j != k0
    ensures Below(recs, rootParent, i, Kids(recs, rootParent, k0), d + 1)
    ensures Below(recs, rootParent, j, Kids(recs, rootParent, k0), d + 1)
  {
    SiblingBelow(recs, rootParent, i, j, p, [k0], d);
    BelowOne(recs, rootParent, i, k0, d);
    BelowOne(recs, rootParent, j, k0, d);
  }

  lemma {:induction false} TopsInOrder(
    recs: seq<Record>, rootParent: int, ts: seq<Tree>, ks: seq<nat>, d: nat, i: nat, j: nat)
    requires UniqueIds(recs) && i < j < |recs|
    requires AreTrees(recs, rootParent, ts, ks) && Level(recs, rootParent, ks, d)
    requires i in ks && j in ks
    ensures Before(Preorder(ts), recs[i], recs[j])
    decreases ts, 0
  {
    var k0 := ks[0];
    var inner, rest := Preorder(ts[0].children), Preorder(ts[1..]);
    assert j in ks[1..];
    if i == k0 {
      PreorderLists(recs, rootParent, ts[1..], ks[1..], d);
      TopIsBelow(recs, rootParent, j, ks[1..], d);
      assert Listed(recs, rest, j);
      var c :| 0 <= c < |rest| && rest[c] == recs[j];
      assert Preorder(ts)[0] == recs[i] && Preorder(ts)[1 + |inner| + c] == recs[j];
    } else {
      TopsInOrder(recs, rootParent, ts[1..], ks[1..], d, i, j);
      BeforeBehind([recs[k0]] + inner, rest, recs[i], recs[j]);
    }
  }

  /** In the flattened forest, roots keep the list order, and so do the children of each item. */
  lemma {:induction false} FlattenedKeepsSiblingOrder(recs: seq<Record>, rootParent: int, f: seq<Tree>, i: nat, j: nat)
    requires UniqueIds(recs) && IsForest(recs, rootParent, f)
    requires i < j < |recs| && InForest(recs, rootParent, i) && InForest(recs, rootParent, j)
    requires Siblings(recs, rootParent, i, j, Roots(recs, rootParent))
    ensures Before(Preorder(f), recs[i], recs[j])
  {
    var roots := Roots(recs, rootParent);
    RootsAreLevel(recs, rootParent);
    RootsAre(recs, rootParent, |recs|);
    forall x | x == i || x == j ensures Below(recs, rootParent, x, roots, 0) {
      var d: nat :| Grounded(recs, rootParent, x, d);
      assert BelowAt(recs, rootParent, x, d, roots, 0);
    }
    SiblingsInOrder(recs, rootParent, f, roots, 0, i, j);
  }

  // ---------- Items that are left out ----------

  /** `c` is `n` parent steps above `x`. */
  ghost predicate Climbs(recs: seq<Record>, rootParent: int, x: nat, c: nat, n: nat)
    decreases n
  {
    if n == 0 then x == c
    else x < |recs| && exists p :: IsParent(recs, rootParent, p, x) && Climbs(recs, rootParent, p, c, n - 1)
  }

  ghost predicate ChainEndsInCycle(recs: seq<Record>, rootParent: int, x: nat) {
    exists c: nat, n: nat, m: nat ::
      m > 0 && Climbs(recs, rootParent, x, c, n) && Climbs(recs, rootParent, c, c, m)
  }

  lemma {:induction false} ClimbingLosesDepth(recs: seq<Record>, rootParent: int, x: nat, c: nat, n: nat, d: nat)
    requires UniqueIds(recs) && x < |recs| && Grounded(recs, rootParent, x, d) && Climbs(recs, rootParent, x, c, n)
    ensures n <= d && c < |recs| && Grounded(recs, rootParent, c, d - n)
    decreases n
  {
    if n > 0 {
      var p :| IsParent(recs, rootParent, p, x) && Climbs(recs, rootParent, p, c, n - 1);
      if d > 0 {
        var q :| IsParent(recs, rootParent, q, x) && Grounded(recs, rootParent, q, d - 1);
        ParentIsUnique(recs, rootParent, p, q, x);
        ClimbingLosesDepth(recs, rootParent, p, c, n - 1, d - 1);
      }
    }
  }

  /** An item outside the forest has a parent outside the forest. */
  lemma ParentOutside(recs: seq<Record>, rootParent: int, x: nat) returns (p: nat)
    requires x < |recs| && !InForest(recs, rootParent, x)
    ensures IsParent(recs, rootParent, p, x) && !InForest(recs, rootParent, p)
  {
    assert !Grounded(recs, rootParent, x, 0);
    p :| p < |recs| && recs[p].id == recs[x].parent;
    assert IsParent(recs, rootParent, p, x);
    if InForest(recs, rootParent, p) {
      var d: nat :| Grounded(recs, rootParent, p, d);
      assert Grounded(recs, rootParent, x, d + 1);
    }
  }

  lemma {:induction false} ClimbExtends(recs: seq<Record>, rootParent: int, x: nat, c: nat, n: nat, p: nat)
    requires Climbs(recs, rootParent, x, c, n) && c < |recs| && IsParent(recs, rootParent, p, c)
    ensures Climbs(recs, rootParent, x, p, n + 1)
    decreases n
  {
    if n == 0 {
      assert Climbs(recs, rootParent, p, p, 0);
    } else {
      var q :| IsParent(recs, rootParent, q, x) && Climbs(recs, rootParent, q, c, n - 1);
      ClimbExtends(recs, rootParent, q, c, n - 1, p);
    }
  }

  /** Climbing from an item outside the forest meets an item already seen. */
  lemma {:induction false} ClimbUntilRepeat(recs: seq<Record>, rootParent: int, x: nat, c: nat, n: nat, seen: set<nat>)
    requires x < |recs| && c < |recs| && !InForest(recs, rootParent, c)
    requires Climbs(recs, rootParent, x, c, n)
    requires forall s :: s in seen ==> s < |recs| && s != c && Above(recs, rootParent, x, s, c)
    ensures ChainEndsInCycle(recs, rootParent, x)
    decreases |recs| - |seen|
  {
    var p := ParentOutside(recs, rootParent, c);
    ClimbExtends(recs, rootParent, x, c, n, p);
    var more := seen + {c};
    forall s | s in more ensures Above(recs, rootParent, x, s, p) {
      if s == c {
        assert Climbs(recs, rootParent, c, c, 0);
        ClimbExtends(recs, rootParent, c, c, 0, p);
      } else {
        var a: nat, b: nat :| b > 0 && Climbs(recs, rootParent, x, s, a) && Climbs(recs, rootParent, s, c, b);
        ClimbExtends(recs, rootParent, s, c, b, p);
      }
    }
    if p !in more {
      BoundedSetSize(more, |recs|);
      ClimbUntilRepeat(recs, rootParent, x, p, n + 1, more);
    }
  }

  /** `s` was passed on the way from `x` to `c`. */
  ghost predicate Above(recs: seq<Record>, rootParent: int, x: nat, s: nat, c: nat) {
    exists a: nat, b: nat :: b > 0 && Climbs(recs, rootParent, x, s, a) && Climbs(recs, rootParent, s, c, b)
  }

  /** The items that no tree contains are exactly those whose chain of parents runs into a cycle. */
  lemma MissingIffCycle(recs: seq<Record>, rootParent: int, x: nat)
    requires UniqueIds(recs) && x < |recs|
    ensures !InForest(recs, rootParent, x) <==> ChainEndsInCycle(recs, rootParent, x)
  {
    if !InForest(recs, rootParent, x) {
      ClimbUntilRepeat(recs, rootParent, x, x, 0, {});
    }
    if ChainEndsInCycle(recs, rootParent, x) && InForest(recs, rootParent, x) {
      var c: nat, n: nat, m: nat :| m > 0 && Climbs(recs, rootParent, x, c, n) && Climbs(recs, rootParent, c, c, m);
      var d: nat :| Grounded(recs, rootParent, x, d);
      ClimbingLosesDepth(recs, rootParent, x, c, n, d);
      ClimbingLosesDepth(recs, rootParent, c, c, m, d - n);
      DepthIsUnique(recs, rootParent, c, d - n, d - n - m);
    }
  }
}
