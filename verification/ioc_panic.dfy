/** Providers that panic (framework/gbxioc/container.go clears a mark after the provider has returned,
    with no deferred call; MustGetBeanFrom in api.go panics on every error).

    A panic passes through all the gets that were waiting for it, and the marks they had set stay. */
module IocPanic {
  import opened Ioc
  import opened Wrappers

  /** Whether the provider of this bean, in this run, panics once it has been given these answers. */
  type Panics = (Key, nat, seq<Outcome>) -> bool

  datatype Ending = Answered(outcome: Outcome) | Panicked

  /** `get`, with the branches of Ioc.Get. */
  ghost function Get(defs: Defs, panics: Panics, s: State, k: Key): (r: (State, Ending))
    ensures s.marks <= r.0.marks && (r.1.Answered? ==> r.0.marks == s.marks)
    decreases Unmarked(defs, s), 1, 0
  {
    if k !in defs then
      (s, Answered(Err(NotFound)))
    else if k in s.marks then
      (s.(refused := s.refused + [k]), Answered(Err(CircularDependency)))
    else if defs[k].scope.Singleton? && k in s.made then
      (s, Answered(Ok(s.made[k])))
    else if defs[k].provider.None? then
      (s, Answered(Err(InvalidProvider)))
    else
      Construct(defs, panics, s, k)
  }

  /** The mark is cleared, and the instance kept, only when the provider returns. */
  ghost function Construct(defs: Defs, panics: Panics, s: State, k: Key): (r: (State, Ending))
    requires k in defs && k !in s.marks && defs[k].provider.Some?
    ensures s.marks <= r.0.marks && (r.1.Answered? ==> r.0.marks == s.marks)
    decreases Unmarked(defs, s), 0, 0
  {
    var p := defs[k].provider.value;
    MarkingShrinks(defs, s, Entered(s, k), k);
    var served := Serve(defs, panics, Entered(s, k), k, |s.runs|, p.requests, []);
    if served.1.None? then
      (served.0, Panicked)
    else
      var left := served.0.(marks := served.0.marks - {k});
      match p.result(|s.runs|, served.1.value)
      case NilInterface => (left, Answered(Err(InvalidProvider)))
      case Value(instance) =>
        (if defs[k].scope.Prototype? then left else left.(made := left.made[k := instance]), Answered(Ok(instance)))
  }

  /** The requests a provider has still to issue, after these answers; None when it panics, or one of them does. */
  ghost function Serve(defs: Defs, panics: Panics, s: State, k: Key, run: nat, ks: seq<Key>, answers: seq<Outcome>)
    : (r: (State, Option<seq<Outcome>>))
    ensures s.marks <= r.0.marks && (r.1.Some? ==> r.0.marks == s.marks)
    decreases Unmarked(defs, s), 2, |ks|
  {
    if panics(k, run, answers) then
      (s, None)
    else if ks == [] then
      (s, Some(answers))
    else
      var got := Get(defs, panics, s, ks[0]);
      if got.1.Panicked? then (got.0, None)
      else Serve(defs, panics, got.0, k, run, ks[1..], answers + [got.1.outcome])
  }

  // ---------- Without panics ----------

  ghost predicate Quiet(panics: Panics) {
    forall k, run, answers :: !panics(k, run, answers)
  }

  /** When no provider panics, this is the get of Ioc. */
  lemma {:induction false} QuietGet(defs: Defs, panics: Panics, s: State, k: Key)
    requires Quiet(panics)
    ensures Get(defs, panics, s, k) == (Ioc.Get(defs, s, k).0, Answered(Ioc.Get(defs, s, k).1))
    decreases Unmarked(defs, s), 1, 0
  {
    if k in defs && k !in s.marks && !(defs[k].scope.Singleton? && k in s.made) && defs[k].provider.Some? {
      MarkingShrinks(defs, s, Entered(s, k), k);
      QuietServe(defs, panics, Entered(s, k), k, |s.runs|, defs[k].provider.value.requests, []);
      QuietConstruct(defs, panics, s, k);
      assert Ioc.Get(defs, s, k) == Ioc.Construct(defs, s, k);
      assert Get(defs, panics, s, k) == Construct(defs, panics, s, k);
    }
  }

  lemma {:induction false} QuietConstruct(defs: Defs, panics: Panics, s: State, k: Key)
    requires k in defs && k !in s.marks && defs[k].provider.Some?
    requires defs[k].scope.Singleton? ==> k !in s.made
    requires var served := Ioc.Serve(defs, Entered(s, k), defs[k].provider.value.requests);
      Serve(defs, panics, Entered(s, k), k, |s.runs|, defs[k].provider.value.requests, [])
      == (served.0, Some([] + served.1))
    ensures Construct(defs, panics, s, k) == (Ioc.Construct(defs, s, k).0, Answered(Ioc.Construct(defs, s, k).1))
  {
    var served := Ioc.Serve(defs, Entered(s, k), defs[k].provider.value.requests);
    assert [] + served.1 == served.1;
  }

  lemma {:induction false} QuietServe(
    defs: Defs, panics: Panics, s: State, k: Key, run: nat, ks: seq<Key>, answers: seq<Outcome>)
    requires Quiet(panics)
    ensures Serve(defs, panics, s, k, run, ks, answers)
         == (Ioc.Serve(defs, s, ks).0, Some(answers + Ioc.Serve(defs, s, ks).1))
    decreases Unmarked(defs, s), 2, |ks|
  {
    assert !panics(k, run, answers);
    if ks == [] {
      assert answers + [] == answers;
    } else {
      var first := Ioc.Get(defs, s, ks[0]);
      QuietGet(defs, panics, s, ks[0]);
      QuietServe(defs, panics, first.0, k, run, ks[1..], answers + [first.1]);
      Regroup(answers, first.1, Ioc.Serve(defs, first.0, ks[1..]).1);
    }
  }

  lemma Regroup(answers: seq<Outcome>, first: Outcome, rest: seq<Outcome>)
    ensures (answers + [first]) + rest == answers + ([first] + rest)
  {
  }

  // ---------- Which marks stay ----------

  ghost function Members(p: seq<Key>): set<Key> {
    set k | k in p
  }

  /** The marks a panic adds are those of the beans on one path of the dependency graph, from the bean
      requested down to the one whose provider panicked. */
  ghost predicate LeftOn(defs: Defs, s: State, t: State, p: seq<Key>, k: Key) {
    && IsPath(defs, p) && p[0] == k
    && t.marks == s.marks + Members(p)
    && forall x :: x in p ==> x in defs && x !in s.marks
  }

  lemma {:induction false} PanicLeavesPath(defs: Defs, panics: Panics, s: State, k: Key) returns (p: seq<Key>)
    requires Get(defs, panics, s, k).1.Panicked?
    ensures LeftOn(defs, s, Get(defs, panics, s, k).0, p, k)
    decreases Unmarked(defs, s), 1, 0
  {
    var entered, requests := Entered(s, k), defs[k].provider.value.requests;
    MarkingShrinks(defs, s, entered, k);
    var below := ServePanicLeavesPath(defs, panics, entered, k, |s.runs|, requests, []);
    p := [k] + below;
    PathGrows(defs, s, Serve(defs, panics, entered, k, |s.runs|, requests, []).0, below, k);
  }

  lemma PathGrows(defs: Defs, s: State, t: State, below: seq<Key>, k: Key)
    requires k in defs && k !in s.marks && defs[k].provider.Some?
    requires below == [] ==> t.marks == s.marks + {k}
    requires below != [] ==> below[0] in defs[k].provider.value.requests && LeftOn(defs, Entered(s, k), t, below, below[0])
    ensures LeftOn(defs, s, t, [k] + below, k)
  {
    var p := [k] + below;
    assert Members(p) == {k} + Members(below);
    forall i | 0 <= i < |p| - 1 ensures Edge(defs, p[i], p[i + 1]) {
      if i > 0 { assert p[i] == below[i - 1] && p[i + 1] == below[i]; }
    }
  }

  /** Below a provider: nothing when it panics by itself, otherwise the path from the request that panicked. */
  lemma {:induction false} ServePanicLeavesPath(
    defs: Defs, panics: Panics, s: State, k: Key, run: nat, ks: seq<Key>, answers: seq<Outcome>)
    returns (p: seq<Key>)
    requires Serve(defs, panics, s, k, run, ks, answers).1.None?
    ensures p == [] ==> Serve(defs, panics, s, k, run, ks, answers).0.marks == s.marks
    ensures p != [] ==> p[0] in ks && LeftOn(defs, s, Serve(defs, panics, s, k, run, ks, answers).0, p, p[0])
    decreases Unmarked(defs, s), 2, |ks|
  {
    p := [];
    if !panics(k, run, answers) {
      var got := Get(defs, panics, s, ks[0]);
      if got.1.Panicked? {
        p := PanicLeavesPath(defs, panics, s, ks[0]);
      } else {
        p := ServePanicLeavesPath(defs, panics, got.0, k, run, ks[1..], answers + [got.1.outcome]);
      }
    }
  }

  // ---------- What they do afterwards ----------

  /** The gets an application issues one after the other, recovering from panics. */
  ghost function Gets(defs: Defs, panics: Panics, s: State, ks: seq<Key>): (t: State)
    ensures s.marks <= t.marks
    decreases |ks|
  {
    if ks == [] then s else Gets(defs, panics, Get(defs, panics, s, ks[0]).0, ks[1..])
  }

  lemma {:induction false} MarkedIsNotRun(defs: Defs, panics: Panics, s: State, k: Key, m: Key)
    requires m in s.marks
    ensures Runs(Get(defs, panics, s, k).0.runs, m) == Runs(s.runs, m)
    decreases Unmarked(defs, s), 1, 0
  {
    if k in defs && k !in s.marks && !(defs[k].scope.Singleton? && k in s.made) && defs[k].provider.Some? {
      MarkingShrinks(defs, s, Entered(s, k), k);
      MarkedIsNotRunBelow(defs, panics, Entered(s, k), k, |s.runs|, defs[k].provider.value.requests, [], m);
    }
  }

  lemma {:induction false} MarkedIsNotRunBelow(
    defs: Defs, panics: Panics, s: State, k: Key, run: nat, ks: seq<Key>, answers: seq<Outcome>, m: Key)
    requires m in s.marks
    ensures Runs(Serve(defs, panics, s, k, run, ks, answers).0.runs, m) == Runs(s.runs, m)
    decreases Unmarked(defs, s), 2, |ks|
  {
    if !panics(k, run, answers) && ks != [] {
      var got := Get(defs, panics, s, ks[0]);
      MarkedIsNotRun(defs, panics, s, ks[0], m);
      if got.1.Answered? {
        MarkedIsNotRunBelow(defs, panics, got.0, k, run, ks[1..], answers + [got.1.outcome], m);
      }
    }
  }

  lemma {:induction false} MarkStays(defs: Defs, panics: Panics, s: State, ks: seq<Key>, m: Key)
    requires m in s.marks
    ensures m in Gets(defs, panics, s, ks).marks
    ensures Runs(Gets(defs, panics, s, ks).runs, m) == Runs(s.runs, m)
    decreases |ks|
  {
    if ks != [] {
      MarkedIsNotRun(defs, panics, s, ks[0], m);
      MarkStays(defs, panics, Get(defs, panics, s, ks[0]).0, ks[1..], m);
    }
  }

  /** Once a get has panicked, every bean on the path it leaves marked is answered with CircularDependency by
      all later gets, cycle or not, and no get runs its provider again. */
  lemma PanickedBeansAreLost(defs: Defs, panics: Panics, s: State, k: Key, later: seq<Key>) returns (p: seq<Key>)
    requires Get(defs, panics, s, k).1.Panicked?
    ensures var t := Get(defs, panics, s, k).0;
      && LeftOn(defs, s, t, p, k)
      && forall m :: m in p ==>
           && Get(defs, panics, Gets(defs, panics, t, later), m).1 == Answered(Err(CircularDependency))
           && Runs(Gets(defs, panics, t, later + [m]).runs, m) == Runs(t.runs, m)
  {
    var t := Get(defs, panics, s, k).0;
    p := PanicLeavesPath(defs, panics, s, k);
    forall m | m in p
      ensures Get(defs, panics, Gets(defs, panics, t, later), m).1 == Answered(Err(CircularDependency))
      ensures Runs(Gets(defs, panics, t, later + [m]).runs, m) == Runs(t.runs, m)
    {
      MarkStays(defs, panics, t, later, m);
      MarkStays(defs, panics, t, later + [m], m);
    }
  }

  /** The get at `i` panicked and left `m` marked. */
  ghost predicate LeavesMarked(defs: Defs, panics: Panics, s: State, ks: seq<Key>, i: nat, m: Key) {
    i < |ks|
    && var got := Get(defs, panics, Gets(defs, panics, s, ks[..i]), ks[i]);
       got.1.Panicked? && m in got.0.marks && Reaches(defs, ks[i], m)
  }

  lemma {:induction false} MarksComeFromPanics(defs: Defs, panics: Panics, s: State, ks: seq<Key>, m: Key)
    returns (i: nat)
    requires m !in s.marks && m in Gets(defs, panics, s, ks).marks
    ensures LeavesMarked(defs, panics, s, ks, i, m)
    decreases |ks|
  {
    var first := Get(defs, panics, s, ks[0]);
    if m in first.0.marks {
      i := 0;
      assert ks[..0] == [];
      var p := PanicLeavesPath(defs, panics, s, ks[0]);
      var j :| 0 <= j < |p| && p[j] == m;
      assert PathFrom(defs, p[..j + 1], ks[0], m);
    } else {
      var rest := MarksComeFromPanics(defs, panics, first.0, ks[1..], m);
      i := rest + 1;
      assert ks[..i][0] == ks[0] && ks[..i][1..] == ks[1..][..rest];
    }
  }

  lemma {:induction false} LeftMarksStay(defs: Defs, panics: Panics, s: State, ks: seq<Key>, i: nat, m: Key)
    requires LeavesMarked(defs, panics, s, ks, i, m)
    ensures m in Gets(defs, panics, s, ks).marks
    decreases |ks|
  {
    var first := Get(defs, panics, s, ks[0]);
    if i == 0 {
      assert ks[..0] == [];
      MarkStays(defs, panics, first.0, ks[1..], m);
    } else {
      assert ks[..i][0] == ks[0] && ks[..i][1..] == ks[1..][..i - 1];
      LeftMarksStay(defs, panics, first.0, ks[1..], i - 1, m);
    }
  }

  /** Between calls of the application, a get of a registered bean is itself answered with
      CircularDependency exactly when an earlier get, of a bean that reaches it, panicked and left it marked. */
  lemma {:induction false} RefusedIffLeftMarked(defs: Defs, panics: Panics, s: State, ks: seq<Key>, k: Key)
    requires s.marks == {} && k in defs
    ensures Get(defs, panics, Gets(defs, panics, s, ks), k).1 == Answered(Err(CircularDependency))
       <==> exists i :: LeavesMarked(defs, panics, s, ks, i, k)
  {
    if k in Gets(defs, panics, s, ks).marks {
      var i := MarksComeFromPanics(defs, panics, s, ks, k);
    }
    if i :| LeavesMarked(defs, panics, s, ks, i, k) {
      LeftMarksStay(defs, panics, s, ks, i, k);
    }
  }

  // ---------- Start ----------

  /** `getForLifecycle`, which Start calls for every singleton: it does not look at the mark, and clears it. */
  ghost function LifecycleGet(defs: Defs, panics: Panics, s: State, k: Key): (State, Ending)
    requires k in defs && defs[k].scope.Singleton?
  {
    if k in s.made then (s, Answered(Ok(s.made[k])))
    else if defs[k].provider.None? then (s, Answered(Err(InvalidProvider)))
    else
      var p := defs[k].provider.value;
      var served := Serve(defs, panics, Entered(s, k), k, |s.runs|, p.requests, []);
      if served.1.None? then (served.0, Panicked)
      else
        var left := served.0.(marks := served.0.marks - {k});
        match p.result(|s.runs|, served.1.value)
        case NilInterface => (left, Answered(Err(InvalidProvider)))
        case Value(instance) => (left.(made := left.made[k := instance]), Answered(Ok(instance)))
  }

  /** When no provider panics, this too is what Ioc says, for the singletons a Start on an open container meets. */
  lemma {:induction false} QuietLifecycleGet(defs: Defs, panics: Panics, s: State, k: Key)
    requires Quiet(panics) && k in defs && defs[k].scope.Singleton? && k !in s.marks
    ensures LifecycleGet(defs, panics, s, k).0 == Ioc.LifecycleGet(defs, s, k).0
    ensures LifecycleGet(defs, panics, s, k).1 == Answered(Ioc.LifecycleGet(defs, s, k).1)
  {
    if k !in s.made && defs[k].provider.Some? {
      var requests := defs[k].provider.value.requests;
      QuietServe(defs, panics, Entered(s, k), k, |s.runs|, requests, []);
      assert [] + Ioc.Serve(defs, Entered(s, k), requests).1 == Ioc.Serve(defs, Entered(s, k), requests).1;
    }
  }

  /** A panic during Start leaves the marks of a path too, from the singleton it was getting, marked before or not. */
  lemma {:induction false} StartPanicLeavesPath(defs: Defs, panics: Panics, s: State, k: Key) returns (p: seq<Key>)
    requires k in defs && defs[k].scope.Singleton? && LifecycleGet(defs, panics, s, k).1.Panicked?
    ensures IsPath(defs, p) && p[0] == k && forall x :: x in p[1..] ==> x in defs && x !in s.marks
    ensures LifecycleGet(defs, panics, s, k).0.marks == s.marks + Members(p)
  {
    var below := ServePanicLeavesPath(
      defs, panics, Entered(s, k), k, |s.runs|, defs[k].provider.value.requests, []);
    p := [k] + below;
    assert Members(p) == {k} + Members(below);
    forall i | 0 <= i < |p| - 1 ensures Edge(defs, p[i], p[i + 1]) {
      if i > 0 { assert p[i] == below[i - 1] && p[i + 1] == below[i]; }
    }
  }

  /** So a Start that gets a singleton made brings it back, marked or not, and clears no other mark: the gets
      that follow return the instance. */
  lemma {:induction false} StartBringsBack(defs: Defs, panics: Panics, s: State, k: Key)
    requires k in defs && defs[k].scope.Singleton? && k !in s.made
    requires LifecycleGet(defs, panics, s, k).1.Answered? && LifecycleGet(defs, panics, s, k).1.outcome.Ok?
    ensures var r := LifecycleGet(defs, panics, s, k);
      r.0.marks == s.marks - {k} && Get(defs, panics, r.0, k) == r
  {
    var served := Serve(defs, panics, Entered(s, k), k, |s.runs|, defs[k].provider.value.requests, []);
    assert served.0.marks - {k} == s.marks - {k};
  }
}
