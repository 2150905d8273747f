/** Lists whose identifiers may repeat, and where the walks down from an identifier end (`fill` in
    component/util/fill_tree.go and the traversals in component/util/tree.go).

    Both builders index the items by identifier, so that of several items with one identifier the
    last is found.  The children of an identifier are listed by their own identifiers. */
module ListingPaths {
  import opened ForestModel

  /** The position the indexes hold for an identifier: that of the last item that has it. */
  ghost function Last(recs: seq<Record>, id: int): (p: nat)
    requires HasId(recs, id)
    ensures p < |recs| && recs[p].id == id
    decreases |recs|
  {
    var init := recs[..|recs| - 1];
    if recs[|recs| - 1].id == id then |recs| - 1
    else
      assert HasId(init, id) by { var i :| 0 <= i < |recs| && recs[i].id == id; assert init[i].id == id; }
      Last(init, id)
  }

  lemma {:induction false} NoneAfterLast(recs: seq<Record>, id: int)
    requires HasId(recs, id)
    ensures forall q :: Last(recs, id) < q < |recs| ==> recs[q].id != id
    decreases |recs|
  {
    var init := recs[..|recs| - 1];
    if recs[|recs| - 1].id != id {
      assert HasId(init, id) by { var i :| 0 <= i < |recs| && recs[i].id == id; assert init[i].id == id; }
      NoneAfterLast(init, id);
      assert forall q :: 0 <= q < |init| ==> recs[q] == init[q];
    }
  }

  /** The position found for the identifier of the item at `i`. */
  ghost function Shown(recs: seq<Record>, i: nat): (p: nat)
    requires i < |recs|
    ensures i <= p < |recs| && recs[p].id == recs[i].id
  {
    assert HasId(recs, recs[i].id);
    NoneAfterLast(recs, recs[i].id);
    Last(recs, recs[i].id)
  }

  /** The index finds exactly the identifiers of the list, and for each the last item that has it. */
  ghost predicate FindsLast(recs: seq<Record>, index: map<int, nat>) {
    forall id :: (id in index <==> HasId(recs, id)) && (id in index ==> index[id] == Last(recs, id))
  }

  /** The last items among the first `n + 1`. */
  lemma LastOneMore(list: seq<Record>, n: nat)
    requires n < |list|
    ensures forall id :: HasId(list[..n + 1], id) <==> HasId(list[..n], id) || id == list[n].id
    ensures forall id :: HasId(list[..n + 1], id) && id != list[n].id ==> Last(list[..n + 1], id) == Last(list[..n], id)
    ensures HasId(list[..n + 1], list[n].id) && Last(list[..n + 1], list[n].id) == n
  {
    var before, now := list[..n], list[..n + 1];
    assert now[..n] == before && now[n] == list[n];
    forall id ensures HasId(now, id) <==> HasId(before, id) || id == list[n].id {
      if i :| 0 <= i < n && before[i].id == id { assert now[i].id == id; }
      if i :| 0 <= i < n && now[i].id == id { assert before[i].id == id; }
    }
    forall id | HasId(now, id) && id != list[n].id ensures Last(now, id) == Last(before, id) {
      var l := Last(before, id);
      assert now[l].id == id;
    }
  }

  /** The identifiers of the children of `id` among the first `n` items. */
  ghost function KidIds(recs: seq<Record>, rootParent: int, id: int, n: nat): (ids: seq<int>)
    requires n <= |recs|
    ensures forall k :: 0 <= k < |ids| ==> HasId(recs, ids[k])
  {
    if n == 0 then []
    else
      assert HasId(recs, recs[n - 1].id);
      KidIds(recs, rootParent, id, n - 1) + (if IsChild(recs, rootParent, id, n - 1) then [recs[n - 1].id] else [])
  }

  /** The identifiers of the roots among the first `n` items. */
  ghost function RootIds(recs: seq<Record>, rootParent: int, n: nat): (ids: seq<int>)
    requires n <= |recs|
    ensures forall k :: 0 <= k < |ids| ==> HasId(recs, ids[k])
  {
    if n == 0 then []
    else
      assert HasId(recs, recs[n - 1].id);
      RootIds(recs, rootParent, n - 1) + (if IsRoot(recs, rootParent, n - 1) then [recs[n - 1].id] else [])
  }

  lemma {:induction false} KidIdsAre(recs: seq<Record>, rootParent: int, id: int, n: nat)
    requires n <= |recs|
    ensures var ks := KidsUpTo(recs, rootParent, id, n);
      && |ks| == |KidIds(recs, rootParent, id, n)|
      && forall k :: 0 <= k < |ks| ==> ks[k] < n && KidIds(recs, rootParent, id, n)[k] == recs[ks[k]].id
  {
    if n > 0 {
      KidIdsAre(recs, rootParent, id, n - 1);
    }
  }

  lemma {:induction false} RootIdsAre(recs: seq<Record>, rootParent: int, n: nat)
    requires n <= |recs|
    ensures var ks := RootsUpTo(recs, rootParent, n);
      && |ks| == |RootIds(recs, rootParent, n)|
      && forall k :: 0 <= k < |ks| ==> ks[k] < n && RootIds(recs, rootParent, n)[k] == recs[ks[k]].id
  {
    if n > 0 {
      RootIdsAre(recs, rootParent, n - 1);
    }
  }

  /** `child` is listed among the children of `id`. */
  ghost predicate Lists(recs: seq<Record>, rootParent: int, id: int, child: int) {
    child in KidIds(recs, rootParent, id, |recs|)
  }

  lemma {:induction false} KidIdsName(recs: seq<Record>, rootParent: int, id: int, n: nat, child: int)
    requires n <= |recs|
    ensures child in KidIds(recs, rootParent, id, n) <==>
      exists j: nat :: j < n && IsChild(recs, rootParent, id, j) && recs[j].id == child
  {
    if n > 0 {
      KidIdsName(recs, rootParent, id, n - 1, child);
    }
  }

  lemma ListedHaveItems(recs: seq<Record>, rootParent: int, id: int, child: int)
    requires Lists(recs, rootParent, id, child)
    ensures HasId(recs, id) && HasId(recs, child)
  {
    KidIdsName(recs, rootParent, id, |recs|, child);
  }

  // ---------- Where walks end ----------

  /** A walk down from this identifier, to every listed child in turn, is nested no deeper than `depth`. */
  ghost predicate EndsWithin(recs: seq<Record>, rootParent: int, id: int, depth: nat)
    decreases depth
  {
    depth > 0 && forall child :: Lists(recs, rootParent, id, child) ==> EndsWithin(recs, rootParent, child, depth - 1)
  }

  ghost predicate Ends(recs: seq<Record>, rootParent: int, id: int) {
    exists depth: nat :: EndsWithin(recs, rootParent, id, depth)
  }

  /** The walks down from all roots end. */
  ghost predicate RootsEnd(recs: seq<Record>, rootParent: int) {
    forall r: nat :: r < |recs| && IsRoot(recs, rootParent, r) ==> Ends(recs, rootParent, recs[r].id)
  }

  ghost predicate IsPath(recs: seq<Record>, rootParent: int, p: seq<int>) {
    p != [] && forall k :: 0 <= k < |p| - 1 ==> Lists(recs, rootParent, p[k], p[k + 1])
  }

  ghost predicate Repeats(p: seq<int>) {
    exists i, j :: 0 <= i < j < |p| && p[i] == p[j]
  }

  ghost predicate PathFrom(recs: seq<Record>, rootParent: int, id: int, p: seq<int>) {
    IsPath(recs, rootParent, p) && p[0] == id
  }

  /** Some path leads from the identifier back to itself. */
  ghost predicate LeadsBack(recs: seq<Record>, rootParent: int, id: int) {
    exists p :: PathFrom(recs, rootParent, id, p) && |p| > 1 && p[|p| - 1] == id
  }

  /** Some path leads down to the identifier from a root. */
  ghost predicate BelowRoot(recs: seq<Record>, rootParent: int, id: int) {
    exists r: nat, p :: r < |recs| && IsRoot(recs, rootParent, r)
      && PathFrom(recs, rootParent, recs[r].id, p) && p[|p| - 1] == id
  }

  lemma {:induction false} UnendedPath(recs: seq<Record>, rootParent: int, id: int, depth: nat) returns (p: seq<int>)
    requires !EndsWithin(recs, rootParent, id, depth)
    ensures PathFrom(recs, rootParent, id, p) && |p| == depth + 1
    decreases depth
  {
    p := [id];
    if depth > 0 {
      var child :| Lists(recs, rootParent, id, child) && !EndsWithin(recs, rootParent, child, depth - 1);
      var rest := UnendedPath(recs, rootParent, child, depth - 1);
      p := [id] + rest;
      assert forall k :: 0 < k < |p| ==> p[k] == rest[k - 1];
    }
  }

  lemma {:induction false} PositionsOf(recs: seq<Record>, p: seq<int>) returns (positions: set<nat>)
    requires !Repeats(p) && forall k :: 0 <= k < |p| ==> HasId(recs, p[k])
    ensures |positions| == |p|
    ensures forall x :: x in positions ==> x < |recs| && recs[x].id in p
    decreases |p|
  {
    positions := {};
    if p != [] {
      var init, id := p[..|p| - 1], p[|p| - 1];
      assert !Repeats(init);
      positions := PositionsOf(recs, init);
      assert id !in init;
      positions := positions + {Last(recs, id)};
    }
  }

  /** A path longer than the list meets an identifier twice. */
  lemma LongPathRepeats(recs: seq<Record>, rootParent: int, p: seq<int>)
    requires IsPath(recs, rootParent, p) && |p| > 1 && |p| > |recs|
    ensures Repeats(p)
  {
    if !Repeats(p) {
      forall k | 0 <= k < |p| ensures HasId(recs, p[k]) {
        var a := if k == 0 then 0 else k - 1;
        assert Lists(recs, rootParent, p[a], p[a + 1]);
        ListedHaveItems(recs, rootParent, p[a], p[a + 1]);
      }
      var positions := PositionsOf(recs, p);
      BoundedSetSize(positions, |recs|);
    }
  }

  lemma {:induction false} EndsAlong(recs: seq<Record>, rootParent: int, p: seq<int>, k: nat, depth: nat)
    requires IsPath(recs, rootParent, p) && k < |p| && EndsWithin(recs, rootParent, p[0], depth)
    ensures k < depth && EndsWithin(recs, rootParent, p[k], depth - k)
    decreases k
  {
    if k > 0 {
      EndsAlong(recs, rootParent, p, k - 1, depth);
      assert Lists(recs, rootParent, p[k - 1], p[k]);
    }
  }

  lemma {:induction false} RoundNeverEnds(recs: seq<Record>, rootParent: int, p: seq<int>, depth: nat)
    requires IsPath(recs, rootParent, p) && |p| > 1 && p[|p| - 1] == p[0]
    ensures !EndsWithin(recs, rootParent, p[0], depth)
    decreases depth
  {
    if EndsWithin(recs, rootParent, p[0], depth) {
      EndsAlong(recs, rootParent, p, |p| - 1, depth);
      RoundNeverEnds(recs, rootParent, p, depth - (|p| - 1));
    }
  }

  lemma RepeatLeadsBack(recs: seq<Record>, rootParent: int, p: seq<int>) returns (i: nat)
    requires IsPath(recs, rootParent, p) && Repeats(p)
    ensures i < |p| && LeadsBack(recs, rootParent, p[i])
  {
    var a, j :| 0 <= a < j < |p| && p[a] == p[j];
    i := a;
    var round := p[i..j + 1];
    assert forall k :: 0 <= k < |round| ==> round[k] == p[i + k];
    assert PathFrom(recs, rootParent, p[i], round);
  }

  /** A walk that can lead back to an identifier does not end. */
  lemma NeverEnds(recs: seq<Record>, rootParent: int, p: seq<int>)
    requires IsPath(recs, rootParent, p) && LeadsBack(recs, rootParent, p[|p| - 1])
    ensures !Ends(recs, rootParent, p[0])
  {
    var last := p[|p| - 1];
    var round :| PathFrom(recs, rootParent, last, round) && |round| > 1 && round[|round| - 1] == last;
    if depth: nat :| EndsWithin(recs, rootParent, p[0], depth) {
      EndsAlong(recs, rootParent, p, |p| - 1, depth);
      RoundNeverEnds(recs, rootParent, round, depth - (|p| - 1));
    }
  }

  /** The walk down from an identifier ends exactly when no path from it meets an identifier twice. */
  lemma EndsIffNoPathRepeats(recs: seq<Record>, rootParent: int, id: int)
    ensures Ends(recs, rootParent, id) <==> !exists p :: PathFrom(recs, rootParent, id, p) && Repeats(p)
  {
    if !Ends(recs, rootParent, id) {
      var p := UnendedPath(recs, rootParent, id, |recs| + 1);
      LongPathRepeats(recs, rootParent, p);
    }
    if p :| PathFrom(recs, rootParent, id, p) && Repeats(p) {
      var i := RepeatLeadsBack(recs, rootParent, p);
      assert IsPath(recs, rootParent, p[..i + 1]);
      NeverEnds(recs, rootParent, p[..i + 1]);
    }
  }

  /** The walks down from all roots end exactly when nothing below a root leads back to itself. */
  lemma RootsEndIffNothingLeadsBack(recs: seq<Record>, rootParent: int)
    ensures RootsEnd(recs, rootParent) <==>
      !exists id :: BelowRoot(recs, rootParent, id) && LeadsBack(recs, rootParent, id)
  {
    if id :| BelowRoot(recs, rootParent, id) && LeadsBack(recs, rootParent, id) {
      var r: nat, p :| r < |recs| && IsRoot(recs, rootParent, r)
        && PathFrom(recs, rootParent, recs[r].id, p) && p[|p| - 1] == id;
      NeverEnds(recs, rootParent, p);
    }
    if r: nat :| r < |recs| && IsRoot(recs, rootParent, r) && !Ends(recs, rootParent, recs[r].id) {
      EndsIffNoPathRepeats(recs, rootParent, recs[r].id);
      var p :| PathFrom(recs, rootParent, recs[r].id, p) && Repeats(p);
      var i := RepeatLeadsBack(recs, rootParent, p);
      assert PathFrom(recs, rootParent, recs[r].id, p[..i + 1]);
      assert BelowRoot(recs, rootParent, p[i]);
    }
  }

  /** A walk that ends is nested no deeper than there are items. */
  lemma {:induction false} EndedWalkIsShallow(recs: seq<Record>, rootParent: int, id: int)
    requires Ends(recs, rootParent, id) && recs != []
    ensures EndsWithin(recs, rootParent, id, |recs|)
  {
    if !EndsWithin(recs, rootParent, id, |recs|) {
      var p := UnendedPath(recs, rootParent, id, |recs|);
      LongPathRepeats(recs, rootParent, p);
      EndsIffNoPathRepeats(recs, rootParent, id);
      assert false;
    }
  }

  /** With distinct identifiers the walk ends below every root. */
  lemma {:induction false} DistinctIdsEnd(recs: seq<Record>, rootParent: int, i: nat, d: nat)
    requires UniqueIds(recs) && i < |recs| && Grounded(recs, rootParent, i, d)
    ensures d < |recs| && EndsWithin(recs, rootParent, recs[i].id, |recs| - d)
    decreases |recs| - d
  {
    DepthIsBounded(recs, rootParent, i, d);
    KidsAre(recs, rootParent, recs[i].id, |recs|);
    KidsAreGrounded(recs, rootParent, i, d);
    forall child | Lists(recs, rootParent, recs[i].id, child)
      ensures EndsWithin(recs, rootParent, child, |recs| - d - 1)
    {
      KidIdsName(recs, rootParent, recs[i].id, |recs|, child);
      var j: nat :| j < |recs| && IsChild(recs, rootParent, recs[i].id, j) && recs[j].id == child;
      assert j in Kids(recs, rootParent, i);
      DistinctIdsEnd(recs, rootParent, j, d + 1);
    }
  }

  lemma {:induction false} RootIdsEnd(recs: seq<Record>, rootParent: int)
    requires RootsEnd(recs, rootParent)
    ensures forall k :: 0 <= k < |RootIds(recs, rootParent, |recs|)| ==>
      EndsWithin(recs, rootParent, RootIds(recs, rootParent, |recs|)[k], |recs|)
  {
    var ids, roots := RootIds(recs, rootParent, |recs|), Roots(recs, rootParent);
    RootIdsAre(recs, rootParent, |recs|);
    forall k | 0 <= k < |ids| ensures EndsWithin(recs, rootParent, ids[k], |recs|) {
      RootEnds(recs, rootParent, roots, k);
    }
  }

  lemma {:induction false} RootsEndByIds(recs: seq<Record>, rootParent: int)
    requires forall k :: 0 <= k < |RootIds(recs, rootParent, |recs|)| ==>
      Ends(recs, rootParent, RootIds(recs, rootParent, |recs|)[k])
    ensures RootsEnd(recs, rootParent)
  {
    var ids, roots := RootIds(recs, rootParent, |recs|), Roots(recs, rootParent);
    RootsAre(recs, rootParent, |recs|);
    RootIdsAre(recs, rootParent, |recs|);
    forall r: nat | r < |recs| && IsRoot(recs, rootParent, r) ensures Ends(recs, rootParent, recs[r].id) {
      assert r in roots;
      var k :| 0 <= k < |roots| && roots[k] == r;
      assert ids[k] == recs[r].id;
    }
  }

  lemma {:induction false} RootEnds(recs: seq<Record>, rootParent: int, roots: seq<nat>, k: nat)
    requires RootsEnd(recs, rootParent) && roots == Roots(recs, rootParent) && k < |roots|
    ensures roots[k] < |recs| && HasId(recs, recs[roots[k]].id)
    ensures EndsWithin(recs, rootParent, recs[roots[k]].id, |recs|)
  {
    RootsAre(recs, rootParent, |recs|);
    assert roots[k] in roots;
    EndedWalkIsShallow(recs, rootParent, recs[roots[k]].id);
  }

  lemma KidsEnd(recs: seq<Record>, rootParent: int, id: int, depth: nat)
    requires EndsWithin(recs, rootParent, id, depth)
    ensures depth > 0
    ensures forall k :: 0 <= k < |KidIds(recs, rootParent, id, |recs|)| ==>
      EndsWithin(recs, rootParent, KidIds(recs, rootParent, id, |recs|)[k], depth - 1)
  {
    var kids := KidIds(recs, rootParent, id, |recs|);
    forall k | 0 <= k < |kids| ensures EndsWithin(recs, rootParent, kids[k], depth - 1) {
      assert Lists(recs, rootParent, id, kids[k]);
    }
  }

  /** An identifier whose children's walks all end has one that ends. */
  lemma {:induction false} EndsWithKids(recs: seq<Record>, rootParent: int, id: int)
    requires recs != []
    requires forall k :: 0 <= k < |KidIds(recs, rootParent, id, |recs|)| ==>
      Ends(recs, rootParent, KidIds(recs, rootParent, id, |recs|)[k])
    ensures Ends(recs, rootParent, id)
  {
    forall child | Lists(recs, rootParent, id, child) ensures EndsWithin(recs, rootParent, child, |recs|) {
      EndedWalkIsShallow(recs, rootParent, child);
    }
    assert EndsWithin(recs, rootParent, id, |recs| + 1);
  }

  lemma DistinctRootsEnd(recs: seq<Record>, rootParent: int)
    requires UniqueIds(recs)
    ensures RootsEnd(recs, rootParent)
  {
    forall r: nat | r < |recs| && IsRoot(recs, rootParent, r) ensures Ends(recs, rootParent, recs[r].id) {
      assert Grounded(recs, rootParent, r, 0);
      DistinctIdsEnd(recs, rootParent, r, 0);
    }
  }

  /** Where an identifier is repeated, it can be its own child below a root, and the walk down from it does not end. */
  lemma RepeatedIdIsItsOwnChild()
    ensures var recs := [Record(1, 0, 10), Record(1, 1, 20)];
      IsRoot(recs, 0, 0) && Lists(recs, 0, 1, 1) && !RootsEnd(recs, 0)
  {
    var recs := [Record(1, 0, 10), Record(1, 1, 20)];
    assert HasId(recs, 1) by { assert recs[0].id == 1; }
    assert KidIds(recs, 0, 1, 2) == KidIds(recs, 0, 1, 1) + [1];
    assert PathFrom(recs, 0, 1, [1, 1]);
    NeverEnds(recs, 0, [1, 1]);
  }
}
