/** Dependency resolution of the IoC container (framework/gbxioc/container.go).

    Resolution is a depth-first search over the requests that providers issue: a bean
    is marked while its provider runs, a marked bean refuses a further request, and a
    singleton keeps the instance it built.  This module gives the search as functions
    on an abstract state and proves what it promises about dependency cycles and about
    how often providers run; the mutable container is in IocContainer. */
module Ioc {
  import opened Wrappers

  /** Beans are registered by pointer type, or under a name when the name is non-empty. */
  datatype Key = ByType(id: nat) | ByName(name: string)

  datatype Scope = Singleton | Prototype

  datatype Error = NotFound | Duplicate | InvalidType | InvalidProvider | CircularDependency | ContainerClosed
    | InitFailed(bean: Key)

  /** A bean is a pointer; two beans are the same instance when they are the same pointer. */
  datatype Instance = NilPointer | Pointer(address: nat)

  /** What a provider hands back to the container.  Go distinguishes a nil interface from an
      interface that holds a nil pointer; only the former compares equal to nil. */
  datatype Returned = NilInterface | Value(instance: Instance)

  datatype Outcome = Ok(instance: Instance) | Err(error: Error)

  /** A provider issues its requests in order and then decides what to return.  It may allocate, so what it
      returns depends on which run, of all runs of all providers, this one is. */
  datatype Provider = Provider(requests: seq<Key>, result: (nat, seq<Outcome>) -> Returned)

  datatype Def = Def(scope: Scope, provider: Option<Provider>)

  type Defs = map<Key, Def>

  /** marks: the beans under construction; made: the cached instances; runs: every provider
      run so far, in order; refused: every request answered with CircularDependency. */
  datatype State = State(marks: set<Key>, made: map<Key, Instance>, runs: seq<Key>, refused: seq<Key>)

  ghost predicate Extends(s: State, t: State) {
    && t.marks == s.marks
    && s.runs <= t.runs
    && s.refused <= t.refused
    && (forall k :: k in s.made ==> k in t.made && t.made[k] == s.made[k])
  }

  ghost function Unmarked(defs: Defs, s: State): nat {
    |defs.Keys - s.marks|
  }

  lemma MarkingShrinks(defs: Defs, s: State, t: State, k: Key)
    requires k in defs && k !in s.marks && t.marks == s.marks + {k}
    ensures Unmarked(defs, t) < Unmarked(defs, s)
  {
    assert defs.Keys - t.marks == (defs.Keys - s.marks) - {k};
  }

  /** The state in which the provider of `k` starts to run. */
  ghost function Entered(s: State, k: Key): State {
    s.(marks := s.marks + {k}, runs := s.runs + [k])
  }

  /** `get` on an open container. */
  ghost function Get(defs: Defs, s: State, k: Key): (r: (State, Outcome))
    ensures Extends(s, r.0)
    decreases Unmarked(defs, s), 1, 0
  {
    if k !in defs then
      (s, Err(NotFound))
    else if k in s.marks then
      (s.(refused := s.refused + [k]), Err(CircularDependency))
    else if defs[k].scope.Singleton? && k in s.made then
      (s, Ok(s.made[k]))
    else if defs[k].provider.None? then
      (s, Err(InvalidProvider))
    else
      Construct(defs, s, k)
  }

  /** Running the provider of an unmarked bean, with the mark set around the run; a singleton keeps what
      the provider returned. */
  ghost function Construct(defs: Defs, s: State, k: Key): (r: (State, Outcome))
    requires k in defs && k !in s.marks && defs[k].provider.Some?
    requires defs[k].scope.Singleton? ==> k !in s.made
    ensures Extends(s, r.0)
    decreases Unmarked(defs, s), 0, 0
  {
    var p := defs[k].provider.value;
    var entered := Entered(s, k);
    MarkingShrinks(defs, s, entered, k);
    var served := Serve(defs, entered, p.requests);
    var left := served.0.(marks := served.0.marks - {k});
    assert left.marks == s.marks;
    match p.result(|s.runs|, served.1)
    case NilInterface => (left, Err(InvalidProvider))
    case Value(instance) =>
      (if defs[k].scope.Prototype? then left else left.(made := left.made[k := instance]), Ok(instance))
  }

  /** A list of requests issued one after the other. */
  ghost function Serve(defs: Defs, s: State, ks: seq<Key>): (r: (State, seq<Outcome>))
    ensures Extends(s, r.0)
    ensures |r.1| == |ks|
    decreases Unmarked(defs, s), 2, |ks|
  {
    if ks == [] then
      (s, [])
    else
      var first := Get(defs, s, ks[0]);
      var rest := Serve(defs, first.0, ks[1..]);
      (rest.0, [first.1] + rest.1)
  }

  /** What the provider of `k` returns when it runs in the state `s`: it is given its number among all runs
      and the answers to its own requests. */
  ghost function Handed(defs: Defs, s: State, k: Key): Returned
    requires k in defs && defs[k].provider.Some?
  {
    var p := defs[k].provider.value;
    p.result(|s.runs|, Serve(defs, Entered(s, k), p.requests).1)
  }

  // ---------- The dependency graph ----------

  /** `a`'s provider requests the registered bean `b`. */
  ghost predicate Edge(defs: Defs, a: Key, b: Key) {
    a in defs && b in defs && defs[a].provider.Some? && b in defs[a].provider.value.requests
  }

  ghost predicate IsPath(defs: Defs, p: seq<Key>) {
    && p != []
    && forall i :: 0 <= i < |p| - 1 ==> Edge(defs, p[i], p[i + 1])
  }

  ghost predicate PathFrom(defs: Defs, p: seq<Key>, a: Key, b: Key) {
    IsPath(defs, p) && p[0] == a && p[|p| - 1] == b
  }

  ghost predicate Reaches(defs: Defs, a: Key, b: Key) {
    exists p :: PathFrom(defs, p, a, b)
  }

  /** Reaches in one step or more. */
  ghost predicate DependsOn(defs: Defs, a: Key, b: Key) {
    exists p :: PathFrom(defs, p, a, b) && |p| >= 2
  }

  ghost predicate ReachesCycle(defs: Defs, a: Key) {
    exists c :: Reaches(defs, a, c) && DependsOn(defs, c, c)
  }

  lemma JoinPaths(defs: Defs, p: seq<Key>, q: seq<Key>, a: Key, b: Key, c: Key)
    requires PathFrom(defs, p, a, b) && PathFrom(defs, q, b, c)
    ensures PathFrom(defs, p + q[1..], a, c)
  {
    var r := p + q[1..];
    forall i | 0 <= i < |r| - 1 ensures Edge(defs, r[i], r[i + 1]) {
      if i == |p| - 1 {
        assert r[i] == q[0] && r[i + 1] == q[1];
      } else if i >= |p| {
        assert r[i] == q[i - |p| + 1] && r[i + 1] == q[i - |p| + 2];
      }
    }
  }

  lemma StepReaches(defs: Defs, a: Key, b: Key)
    requires Edge(defs, a, b)
    ensures DependsOn(defs, a, b)
  {
    assert PathFrom(defs, [a, b], a, b);
  }

  lemma DependsThenStep(defs: Defs, a: Key, b: Key, c: Key)
    requires DependsOn(defs, a, b) && Edge(defs, b, c)
    ensures DependsOn(defs, a, c)
  {
    var p :| PathFrom(defs, p, a, b) && |p| >= 2;
    assert PathFrom(defs, [b, c], b, c);
    JoinPaths(defs, p, [b, c], a, b, c);
  }

  /** A cycle is reachable from `a` exactly when it is reachable from one of a's requests. */
  lemma ReachesCycleByRequest(defs: Defs, a: Key)
    ensures ReachesCycle(defs, a) <==> exists b :: Edge(defs, a, b) && ReachesCycle(defs, b)
  {
    if ReachesCycle(defs, a) {
      var c :| Reaches(defs, a, c) && DependsOn(defs, c, c);
      var p :| PathFrom(defs, p, a, c);
      var q :| PathFrom(defs, q, c, c) && |q| >= 2;
      JoinPaths(defs, p, q, a, c, c);
      var r := p + q[1..];
      assert PathFrom(defs, r[1..], r[1], c) by {
        forall i | 0 <= i < |r[1..]| - 1 ensures Edge(defs, r[1..][i], r[1..][i + 1]) {
          assert Edge(defs, r[i + 1], r[i + 2]);
        }
      }
      assert Edge(defs, r[0], r[1]);
      assert Edge(defs, a, r[1]) && ReachesCycle(defs, r[1]);
    }
    if b :| Edge(defs, a, b) && ReachesCycle(defs, b) {
      var c :| Reaches(defs, b, c) && DependsOn(defs, c, c);
      var p :| PathFrom(defs, p, b, c);
      assert PathFrom(defs, [a, b], a, b);
      JoinPaths(defs, [a, b], p, a, b, c);
    }
  }

  // ---------- Cycle detection ----------

  ghost predicate MadeAcyclic(defs: Defs, s: State) {
    forall k :: k in s.made ==> !ReachesCycle(defs, k)
  }

  ghost predicate NoNewRefusal(s: State, t: State) {
    |t.refused| == |s.refused|
  }

  /** A get whose call tree refuses nothing has explored everything its bean reaches. */
  lemma {:induction false} GetWithoutRefusal(defs: Defs, s: State, k: Key)
    requires MadeAcyclic(defs, s)
    requires NoNewRefusal(s, Get(defs, s, k).0)
    ensures !ReachesCycle(defs, k)
    ensures MadeAcyclic(defs, Get(defs, s, k).0)
    decreases Unmarked(defs, s), 1, 0
  {
    ReachesCycleByRequest(defs, k);
    if k in defs && k !in s.marks && !(defs[k].scope.Singleton? && k in s.made) && defs[k].provider.Some? {
      var p := defs[k].provider.value;
      var entered := Entered(s, k);
      MarkingShrinks(defs, s, entered, k);
      assert Get(defs, s, k).0.refused == Serve(defs, entered, p.requests).0.refused;
      ServeWithoutRefusal(defs, entered, p.requests);
    }
  }

  lemma {:induction false} ServeWithoutRefusal(defs: Defs, s: State, ks: seq<Key>)
    requires MadeAcyclic(defs, s)
    requires NoNewRefusal(s, Serve(defs, s, ks).0)
    ensures forall k :: k in ks ==> !ReachesCycle(defs, k)
    ensures MadeAcyclic(defs, Serve(defs, s, ks).0)
    decreases Unmarked(defs, s), 2, |ks|
  {
    if ks != [] {
      var first := Get(defs, s, ks[0]);
      var rest := Serve(defs, first.0, ks[1..]);
      GetWithoutRefusal(defs, s, ks[0]);
      ServeWithoutRefusal(defs, first.0, ks[1..]);
    }
  }

  /** Every marked bean is waiting, directly or not, for `k`. */
  ghost predicate MarksWaitFor(defs: Defs, s: State, k: Key) {
    forall m :: m in s.marks ==> DependsOn(defs, m, k)
  }

  lemma {:induction false} GetRefusalMeansCycle(defs: Defs, s: State, k: Key)
    requires k in defs ==> MarksWaitFor(defs, s, k)
    requires !NoNewRefusal(s, Get(defs, s, k).0)
    ensures ReachesCycle(defs, k)
    decreases Unmarked(defs, s), 1, 0
  {
    if k in s.marks {
      assert PathFrom(defs, [k], k, k);
      assert Reaches(defs, k, k);
    } else {
      var p := defs[k].provider.value;
      var entered := Entered(s, k);
      MarkingShrinks(defs, s, entered, k);
      forall z | z in p.requests && z in defs ensures MarksWaitFor(defs, entered, z) {
        assert Edge(defs, k, z);
        forall m | m in entered.marks ensures DependsOn(defs, m, z) {
          if m == k { StepReaches(defs, k, z); } else { DependsThenStep(defs, m, k, z); }
        }
      }
      var z := ServeRefusalMeansCycle(defs, entered, p.requests);
      ReachesCycleByRequest(defs, z);
      assert Edge(defs, k, z);
      ReachesCycleByRequest(defs, k);
    }
  }

  lemma {:induction false} ServeRefusalMeansCycle(defs: Defs, s: State, ks: seq<Key>) returns (z: Key)
    requires forall k :: k in ks && k in defs ==> MarksWaitFor(defs, s, k)
    requires !NoNewRefusal(s, Serve(defs, s, ks).0)
    ensures z in ks && z in defs && ReachesCycle(defs, z)
    decreases Unmarked(defs, s), 2, |ks|
  {
    var first := Get(defs, s, ks[0]);
    if NoNewRefusal(s, first.0) {
      z := ServeRefusalMeansCycle(defs, first.0, ks[1..]);
    } else {
      GetRefusalMeansCycle(defs, s, ks[0]);
      z := ks[0];
    }
  }

  /** A container on which only registrations have happened: no marks, no runs, and the
      only cached instances are the registered ready-made ones, which have no provider. */
  ghost predicate Fresh(defs: Defs, s: State) {
    && s.marks == {} && s.runs == [] && s.refused == []
    && forall k :: k in s.made ==> k in defs && defs[k].scope.Singleton? && defs[k].provider.None?
  }

  /** For any sequence of top-level gets on a freshly registered container, some request in
      some call tree is answered with CircularDependency if and only if one of the requested
      beans reaches a dependency cycle. */
  lemma {:induction false} CircularErrorIffCycle(defs: Defs, s: State, ks: seq<Key>)
    requires Fresh(defs, s)
    ensures Serve(defs, s, ks).0.refused != [] <==> exists k :: k in ks && ReachesCycle(defs, k)
  {
    forall k | k in s.made ensures !ReachesCycle(defs, k) {
      ReachesCycleByRequest(defs, k);
    }
    if NoNewRefusal(s, Serve(defs, s, ks).0) {
      ServeWithoutRefusal(defs, s, ks);
    } else {
      var z := ServeRefusalMeansCycle(defs, s, ks);
    }
  }

  // ---------- How often providers run ----------

  ghost function Runs(runs: seq<Key>, k: Key): nat {
    multiset(runs)[k]
  }

  /** The provider never returns a nil interface. */
  ghost predicate AlwaysReturns(d: Def) {
    d.provider.Some? ==> forall run: nat, outs :: d.provider.value.result(run, outs).Value?
  }

  /** What a container holds that was filled by the typed registration functions only, and not used yet. */
  ghost predicate JustFilled(defs: Defs, s: State) {
    Fresh(defs, s) && forall k :: k in defs ==> AlwaysReturns(defs[k])
  }

  ghost predicate RunAtMostOnce(s: State, b: Key) {
    Runs(s.runs, b) <= 1 && (Runs(s.runs, b) == 1 ==> b in s.made || b in s.marks)
  }

  ghost predicate RunsOnce(defs: Defs, b: Key) {
    b in defs && defs[b].scope.Singleton? && AlwaysReturns(defs[b])
  }

  lemma {:induction false} GetRunsAtMostOnce(defs: Defs, s: State, k: Key, b: Key)
    requires RunsOnce(defs, b) && RunAtMostOnce(s, b)
    ensures RunAtMostOnce(Get(defs, s, k).0, b)
    decreases Unmarked(defs, s), 1, 0
  {
    if k in defs && k !in s.marks && !(defs[k].scope.Singleton? && k in s.made) && defs[k].provider.Some? {
      MarkingShrinks(defs, s, Entered(s, k), k);
      assert RunAtMostOnce(Entered(s, k), b);
      ServeRunsAtMostOnce(defs, Entered(s, k), defs[k].provider.value.requests, b);
      ConstructRunsAtMostOnce(defs, s, k, b);
      assert Get(defs, s, k) == Construct(defs, s, k);
    }
  }

  lemma {:induction false} ConstructRunsAtMostOnce(defs: Defs, s: State, k: Key, b: Key)
    requires k in defs && k !in s.marks && defs[k].provider.Some?
    requires defs[k].scope.Singleton? ==> k !in s.made
    requires RunsOnce(defs, b) && RunAtMostOnce(Serve(defs, Entered(s, k), defs[k].provider.value.requests).0, b)
    ensures RunAtMostOnce(Construct(defs, s, k).0, b)
  {
    var served := Serve(defs, Entered(s, k), defs[k].provider.value.requests);
    assert k == b ==> defs[k].provider.value.result(|s.runs|, served.1).Value?;
  }

  lemma {:induction false} ServeRunsAtMostOnce(defs: Defs, s: State, ks: seq<Key>, b: Key)
    requires RunsOnce(defs, b) && RunAtMostOnce(s, b)
    ensures RunAtMostOnce(Serve(defs, s, ks).0, b)
    decreases Unmarked(defs, s), 2, |ks|
  {
    if ks != [] {
      GetRunsAtMostOnce(defs, s, ks[0], b);
      ServeRunsAtMostOnce(defs, Get(defs, s, ks[0]).0, ks[1..], b);
    }
  }

  /** The premise is needed: a provider that returned a nil interface runs again on the next get. */
  lemma {:induction false} NilInterfaceRunsAgain(defs: Defs, s: State, k: Key)
    requires k in defs && defs[k].provider.Some? && k !in s.marks
    requires Get(defs, s, k).1 == Err(InvalidProvider)
    ensures s.runs + [k] <= Get(defs, s, k).0.runs
    ensures Get(defs, s, k).0.runs + [k] <= Serve(defs, s, [k, k]).0.runs
  {
    var once := Get(defs, s, k);
    assert [k, k][1..] == [k];
    assert Serve(defs, once.0, [k]).0 == Get(defs, once.0, k).0;
    assert defs[k].scope.Singleton? ==> k !in once.0.made by {
      var served := Serve(defs, Entered(s, k), defs[k].provider.value.requests).0;
      if k in served.made && defs[k].scope.Singleton? {
        ServeLeavesMarkedUnmade(defs, Entered(s, k), defs[k].provider.value.requests, k);
      }
    }
  }

  /** A bean under construction gains no instance from the gets its provider issues. */
  lemma {:induction false} GetLeavesMarkedUnmade(defs: Defs, s: State, k: Key, m: Key)
    requires m in s.marks && m !in s.made
    ensures m !in Get(defs, s, k).0.made
    decreases Unmarked(defs, s), 1, 0
  {
    if k in defs && k !in s.marks && !(defs[k].scope.Singleton? && k in s.made) && defs[k].provider.Some? {
      MarkingShrinks(defs, s, Entered(s, k), k);
      ServeLeavesMarkedUnmade(defs, Entered(s, k), defs[k].provider.value.requests, m);
      assert Get(defs, s, k) == Construct(defs, s, k);
    }
  }

  lemma {:induction false} ServeLeavesMarkedUnmade(defs: Defs, s: State, ks: seq<Key>, m: Key)
    requires m in s.marks && m !in s.made
    ensures m !in Serve(defs, s, ks).0.made
    decreases Unmarked(defs, s), 2, |ks|
  {
    if ks != [] {
      GetLeavesMarkedUnmade(defs, s, ks[0], m);
      ServeLeavesMarkedUnmade(defs, Get(defs, s, ks[0]).0, ks[1..], m);
    }
  }

  /** What a provider returned decides what its get returns: only a nil interface becomes
      InvalidProvider, a nil pointer inside an interface is handed out as a bean. */
  lemma {:induction false} OnlyNilInterfaceIsInvalid(defs: Defs, s: State, k: Key)
    requires k in defs && defs[k].provider.Some? && k !in s.marks
    requires defs[k].scope.Singleton? ==> k !in s.made
    ensures var ret := Handed(defs, s, k);
      && (Get(defs, s, k).1 == Err(InvalidProvider) <==> ret.NilInterface?)
      && (forall i :: Get(defs, s, k).1 == Ok(i) <==> ret == Value(i))
  {
    assert Get(defs, s, k) == Construct(defs, s, k);
  }

  /** Every answer of a get, from what is registered, marked and cached. */
  lemma {:induction false} GetAnswers(defs: Defs, s: State, k: Key)
    ensures Get(defs, s, k).1 == Err(NotFound) <==> k !in defs
    ensures Get(defs, s, k).1 == Err(CircularDependency) <==> k in defs && k in s.marks
    ensures k in defs && k !in s.marks && defs[k].scope.Singleton? && k in s.made ==>
      Get(defs, s, k) == (s, Ok(s.made[k]))
    ensures k in defs && k !in s.marks && (defs[k].scope.Prototype? || k !in s.made) ==>
      Get(defs, s, k).1 == if defs[k].provider.None? || Handed(defs, s, k).NilInterface? then Err(InvalidProvider)
                           else Ok(Handed(defs, s, k).instance)
  {
  }

  /** Only singletons are cached, and only when their provider has run. */
  ghost predicate CachedWereRun(defs: Defs, s: State, t: State) {
    forall x :: x in t.made && x !in s.made ==>
      x in defs && defs[x].scope.Singleton? && Runs(t.runs, x) > Runs(s.runs, x)
  }

  lemma RunsGrow(a: seq<Key>, b: seq<Key>, k: Key)
    requires a <= b
    ensures Runs(a, k) <= Runs(b, k)
  {
    assert b == a + b[|a|..];
  }

  lemma CachedChain(defs: Defs, s: State, t: State, u: State)
    requires CachedWereRun(defs, s, t) && CachedWereRun(defs, t, u) && s.runs <= t.runs <= u.runs
    ensures CachedWereRun(defs, s, u)
  {
    forall x | x in u.made && x !in s.made
      ensures x in defs && defs[x].scope.Singleton? && Runs(u.runs, x) > Runs(s.runs, x)
    {
      RunsGrow(s.runs, t.runs, x);
      RunsGrow(t.runs, u.runs, x);
    }
  }

  lemma {:induction false} GetCachesWhatRan(defs: Defs, s: State, k: Key)
    ensures CachedWereRun(defs, s, Get(defs, s, k).0)
    decreases Unmarked(defs, s), 1, 0
  {
    if k in defs && k !in s.marks && !(defs[k].scope.Singleton? && k in s.made) && defs[k].provider.Some? {
      var entered, requests := Entered(s, k), defs[k].provider.value.requests;
      MarkingShrinks(defs, s, entered, k);
      ServeCachesWhatRan(defs, entered, requests);
      CachedChain(defs, s, entered, Serve(defs, entered, requests).0);
      RunsGrow(entered.runs, Serve(defs, entered, requests).0.runs, k);
      assert Get(defs, s, k) == Construct(defs, s, k);
    }
  }

  lemma {:induction false} ServeCachesWhatRan(defs: Defs, s: State, ks: seq<Key>)
    ensures CachedWereRun(defs, s, Serve(defs, s, ks).0)
    decreases Unmarked(defs, s), 2, |ks|
  {
    if ks != [] {
      var first := Get(defs, s, ks[0]).0;
      GetCachesWhatRan(defs, s, ks[0]);
      ServeCachesWhatRan(defs, first, ks[1..]);
      CachedChain(defs, s, first, Serve(defs, first, ks[1..]).0);
    }
  }

  // ---------- Identity of the instances handed out ----------

  lemma {:induction false} GetCachesSingleton(defs: Defs, s: State, k: Key)
    requires k in defs && defs[k].scope.Singleton? && Get(defs, s, k).1.Ok?
    ensures var r := Get(defs, s, k); k in r.0.made && r.0.made[k] == r.1.instance
  {
  }

  /** The state in which the request at `i` is issued. */
  ghost function Before(defs: Defs, s: State, ks: seq<Key>, i: nat): State
    requires i < |ks|
  {
    Serve(defs, s, ks[..i]).0
  }

  /** Each request of a list is a get in the state its predecessors left. */
  lemma {:induction false} ServeAt(defs: Defs, s: State, ks: seq<Key>, i: nat)
    requires i < |ks|
    ensures var got := Get(defs, Before(defs, s, ks, i), ks[i]);
      Serve(defs, s, ks).1[i] == got.1 && got.0.runs <= Serve(defs, s, ks).0.runs
    ensures s.runs <= Before(defs, s, ks, i).runs
    decreases |ks|
  {
    var first := Get(defs, s, ks[0]);
    if i > 0 {
      ServeAt(defs, first.0, ks[1..], i - 1);
      assert ks[..i][0] == ks[0] && ks[..i][1..] == ks[1..][..i - 1];
    } else {
      assert ks[..0] == [];
      assert first.0.runs <= Serve(defs, first.0, ks[1..]).0.runs;
    }
  }

  /** Of two requests the later one is issued after every run of the earlier one. */
  lemma {:induction false} LaterRequest(defs: Defs, s: State, ks: seq<Key>, i: nat, j: nat)
    requires i < j < |ks|
    ensures Get(defs, Before(defs, s, ks, i), ks[i]).0.runs <= Before(defs, s, ks, j).runs
  {
    ServeAt(defs, s, ks[..j], i);
    assert ks[..j][..i] == ks[..i];
  }

  lemma {:induction false} GetRunsPrototype(defs: Defs, s: State, k: Key)
    requires k in defs && defs[k].scope.Prototype? && Get(defs, s, k).1.Ok?
    ensures defs[k].provider.Some? && s.runs + [k] <= Get(defs, s, k).0.runs
    ensures Handed(defs, s, k) == Value(Get(defs, s, k).1.instance)
  {
    assert Get(defs, s, k) == Construct(defs, s, k);
    assert Entered(s, k).runs <= Serve(defs, Entered(s, k), defs[k].provider.value.requests).0.runs;
  }

  lemma {:induction false} ServeCachesSingletons(defs: Defs, s: State, ks: seq<Key>, i: nat)
    requires i < |ks| && ks[i] in defs && defs[ks[i]].scope.Singleton?
    requires Serve(defs, s, ks).1[i].Ok?
    ensures ks[i] in Serve(defs, s, ks).0.made
    ensures Serve(defs, s, ks).0.made[ks[i]] == Serve(defs, s, ks).1[i].instance
    decreases |ks|
  {
    var first := Get(defs, s, ks[0]);
    if i > 0 {
      ServeCachesSingletons(defs, first.0, ks[1..], i - 1);
    } else {
      GetCachesSingleton(defs, s, ks[0]);
      assert Extends(first.0, Serve(defs, first.0, ks[1..]).0);
    }
  }

  /** All successful gets of one singleton return the same instance. */
  lemma {:induction false} SingletonSharesInstance(defs: Defs, s: State, ks: seq<Key>, i: nat, j: nat)
    requires i < |ks| && j < |ks| && ks[i] == ks[j]
    requires ks[i] in defs && defs[ks[i]].scope.Singleton?
    requires Serve(defs, s, ks).1[i].Ok? && Serve(defs, s, ks).1[j].Ok?
    ensures Serve(defs, s, ks).1[i] == Serve(defs, s, ks).1[j]
  {
    ServeCachesSingletons(defs, s, ks, i);
    ServeCachesSingletons(defs, s, ks, j);
  }

  /** A get of a prototype runs the provider anew, and hands out what this run returns on the answers to its
      own requests. */
  lemma {:induction false} PrototypeRunsAnew(defs: Defs, s: State, ks: seq<Key>, i: nat)
    requires i < |ks| && ks[i] in defs && defs[ks[i]].scope.Prototype?
    requires Serve(defs, s, ks).1[i].Ok?
    ensures var before := Before(defs, s, ks, i);
      && s.runs <= before.runs && before.runs + [ks[i]] <= Serve(defs, s, ks).0.runs
      && defs[ks[i]].provider.Some? && Handed(defs, before, ks[i]) == Value(Serve(defs, s, ks).1[i].instance)
  {
    ServeAt(defs, s, ks, i);
    GetRunsPrototype(defs, Before(defs, s, ks, i), ks[i]);
  }

  /** Two gets of one prototype are two runs of its provider; they hand out the same instance if and only if
      the provider, on what each run was answered, returns the same pointer in both. */
  lemma {:induction false} PrototypesShareIffProviderRepeats(defs: Defs, s: State, ks: seq<Key>, i: nat, j: nat)
    requires i < j < |ks| && ks[i] == ks[j]
    requires ks[i] in defs && defs[ks[i]].scope.Prototype?
    requires Serve(defs, s, ks).1[i].Ok? && Serve(defs, s, ks).1[j].Ok?
    ensures defs[ks[i]].provider.Some?
    ensures var u, v, k := Before(defs, s, ks, i), Before(defs, s, ks, j), ks[i];
      && u.runs + [k] <= v.runs && v.runs + [k] <= Serve(defs, s, ks).0.runs
      && (Serve(defs, s, ks).1[i] == Serve(defs, s, ks).1[j] <==> Handed(defs, u, k) == Handed(defs, v, k))
  {
    PrototypeRunsAnew(defs, s, ks, i);
    PrototypeRunsAnew(defs, s, ks, j);
    ServeAt(defs, s, ks, i);
    GetRunsPrototype(defs, Before(defs, s, ks, i), ks[i]);
    LaterRequest(defs, s, ks, i, j);
  }

  // ---------- Start ----------

  /** The part of the container that Start changes: the resolution state, the beans whose
      OnInit has succeeded, and the OnInit calls made so far in order. */
  datatype Lifecycle = Lifecycle(s: State, done: set<Key>, calls: seq<Key>)

  /** `getForLifecycle`: like `get`, but without looking at the mark or at `closed`. */
  ghost function LifecycleGet(defs: Defs, s: State, k: Key): (r: (State, Outcome))
    requires k in defs && k !in s.marks && defs[k].scope.Singleton?
    ensures r == Get(defs, s, k)
  {
    if k in s.made then (s, Ok(s.made[k]))
    else if defs[k].provider.None? then (s, Err(InvalidProvider))
    else Construct(defs, s, k)
  }

  /** Start's treatment of one bean.  `initializers` are the beans whose instances implement
      OnInit, `fails` those whose OnInit returns an error this time. */
  ghost function StartBean(defs: Defs, initializers: set<Key>, fails: set<Key>, k: Key, l: Lifecycle)
    : (r: (Lifecycle, Option<Error>))
    requires l.s.marks == {} && k in defs
    ensures Extends(l.s, r.0.s)
  {
    if defs[k].scope.Prototype? then
      (l, None)
    else
      var got := LifecycleGet(defs, l.s, k);
      var l1 := l.(s := got.0);
      if got.1.Err? then
        (l1, Some(got.1.error))
      else if k !in initializers || k in l.done then
        (l1, None)
      else if k in fails then
        (l1.(calls := l.calls + [k]), Some(InitFailed(k)))
      else
        (l1.(calls := l.calls + [k], done := l.done + {k}), None)
  }

  /** Start goes through the beans in registration order and stops at the first error. */
  ghost function Start(defs: Defs, initializers: set<Key>, fails: set<Key>, order: seq<Key>, l: Lifecycle)
    : (r: (Lifecycle, Option<Error>))
    requires l.s.marks == {}
    requires forall k :: k in order ==> k in defs
    ensures Extends(l.s, r.0.s)
    decreases |order|
  {
    if order == [] then
      (l, None)
    else
      var first := StartBean(defs, initializers, fails, order[0], l);
      if first.1.Some? then first else Start(defs, initializers, fails, order[1..], first.0)
  }

  // ---------- Runs of gets and Starts ----------

  datatype Action = GetBean(k: Key) | StartAll(fails: set<Key>)

  /** What an application does with an open container, one call after the other. */
  ghost function Perform(defs: Defs, initializers: set<Key>, order: seq<Key>, l: Lifecycle, acts: seq<Action>)
    : (r: Lifecycle)
    requires l.s.marks == {}
    requires forall k :: k in order ==> k in defs
    ensures Extends(l.s, r.s)
    decreases |acts|
  {
    if acts == [] then l
    else
      var next := match acts[0]
        case GetBean(k) => l.(s := Get(defs, l.s, k).0)
        case StartAll(fails) => Start(defs, initializers, fails, order, l).0;
      Perform(defs, initializers, order, next, acts[1..])
  }

  function GetAll(ks: seq<Key>): seq<Action> {
    if ks == [] then [] else [GetBean(ks[0])] + GetAll(ks[1..])
  }

  /** Gets are performed one after the other, and before what follows them. */
  lemma {:induction false} PerformGets(
    defs: Defs, initializers: set<Key>, order: seq<Key>, l: Lifecycle, ks: seq<Key>, fails: set<Key>)
    requires l.s.marks == {}
    requires forall k :: k in order ==> k in defs
    ensures var got := l.(s := Serve(defs, l.s, ks).0);
      && Perform(defs, initializers, order, l, GetAll(ks)) == got
      && Perform(defs, initializers, order, l, GetAll(ks) + [StartAll(fails)])
         == Start(defs, initializers, fails, order, got).0
    decreases |ks|
  {
    if ks == [] {
      assert GetAll(ks) + [StartAll(fails)] == [StartAll(fails)] && [StartAll(fails)][1..] == [];
      var started := Start(defs, initializers, fails, order, l).0;
      assert Perform(defs, initializers, order, started, []) == started;
    } else {
      PerformGets(defs, initializers, order, l.(s := Get(defs, l.s, ks[0]).0), ks[1..], fails);
      assert (GetAll(ks) + [StartAll(fails)])[1..] == GetAll(ks[1..]) + [StartAll(fails)];
    }
  }

  lemma {:induction false} StartRunsAtMostOnce(
    defs: Defs, initializers: set<Key>, fails: set<Key>, order: seq<Key>, l: Lifecycle, b: Key)
    requires l.s.marks == {}
    requires forall k :: k in order ==> k in defs
    requires RunsOnce(defs, b) && RunAtMostOnce(l.s, b)
    ensures RunAtMostOnce(Start(defs, initializers, fails, order, l).0.s, b)
    decreases |order|
  {
    if order != [] {
      GetRunsAtMostOnce(defs, l.s, order[0], b);
      var first := StartBean(defs, initializers, fails, order[0], l);
      if first.1.None? { StartRunsAtMostOnce(defs, initializers, fails, order[1..], first.0, b); }
    }
  }

  lemma {:induction false} PerformRunsAtMostOnce(
    defs: Defs, initializers: set<Key>, order: seq<Key>, l: Lifecycle, acts: seq<Action>, b: Key)
    requires l.s.marks == {}
    requires forall k :: k in order ==> k in defs
    requires RunsOnce(defs, b) && RunAtMostOnce(l.s, b)
    ensures RunAtMostOnce(Perform(defs, initializers, order, l, acts).s, b)
    decreases |acts|
  {
    if acts != [] {
      match acts[0]
      case GetBean(k) =>
        GetRunsAtMostOnce(defs, l.s, k, b);
        PerformRunsAtMostOnce(defs, initializers, order, l.(s := Get(defs, l.s, k).0), acts[1..], b);
      case StartAll(fails) =>
        StartRunsAtMostOnce(defs, initializers, fails, order, l, b);
        PerformRunsAtMostOnce(defs, initializers, order, Start(defs, initializers, fails, order, l).0, acts[1..], b);
    }
  }

  /** From a freshly registered container, no mix of gets and Starts runs a singleton's provider twice,
      provided the provider never returns a nil interface. */
  lemma {:induction false} SingletonRunsAtMostOnce(
    defs: Defs, initializers: set<Key>, order: seq<Key>, l: Lifecycle, acts: seq<Action>, b: Key)
    requires forall k :: k in order ==> k in defs
    requires Fresh(defs, l.s) && RunsOnce(defs, b)
    ensures Runs(Perform(defs, initializers, order, l, acts).s.runs, b) <= 1
  {
    PerformRunsAtMostOnce(defs, initializers, order, l, acts, b);
  }

  /** The typed registration functions leave no other provider, so there no singleton's provider runs twice. */
  lemma {:induction false} FilledSingletonsRunAtMostOnce(
    defs: Defs, initializers: set<Key>, order: seq<Key>, l: Lifecycle, acts: seq<Action>)
    requires forall k :: k in order ==> k in defs
    requires JustFilled(defs, l.s)
    ensures forall b :: b in defs && defs[b].scope.Singleton? ==>
      Runs(Perform(defs, initializers, order, l, acts).s.runs, b) <= 1
  {
    forall b | b in defs && defs[b].scope.Singleton?
      ensures Runs(Perform(defs, initializers, order, l, acts).s.runs, b) <= 1
    {
      SingletonRunsAtMostOnce(defs, initializers, order, l, acts, b);
    }
  }

  /** The singletons, in registration order, whose OnInit is still owed. */
  ghost function Owed(defs: Defs, initializers: set<Key>, done: set<Key>, order: seq<Key>): seq<Key>
    requires forall k :: k in order ==> k in defs
  {
    if order == [] then []
    else
      var k := order[0];
      (if defs[k].scope.Singleton? && k in initializers && k !in done then [k] else [])
      + Owed(defs, initializers, done, order[1..])
  }

  ghost predicate Distinct(order: seq<Key>) {
    forall i, j :: 0 <= i < j < |order| ==> order[i] != order[j]
  }

  lemma {:induction false} OwedSkips(defs: Defs, initializers: set<Key>, done: set<Key>, order: seq<Key>, k: Key)
    requires forall x :: x in order ==> x in defs
    requires k !in order
    ensures Owed(defs, initializers, done + {k}, order) == Owed(defs, initializers, done, order)
    decreases |order|
  {
    if order != [] { OwedSkips(defs, initializers, done, order[1..], k); }
  }

  lemma {:induction false} GetErrors(defs: Defs, s: State, k: Key)
    ensures Get(defs, s, k).1.Err? ==> !Get(defs, s, k).1.error.InitFailed?
  {
  }

  /** The OnInit calls that returned no error. */
  ghost function Initialised(called: seq<Key>, fails: set<Key>): set<Key> {
    set k | k in called && k !in fails
  }

  /** What Start promises about its OnInit calls: they go through an initial stretch of the owed
      beans, in registration order; if it succeeds the stretch is everything owed and none of it
      failed; if it stops at a failing OnInit, that is the last one called.  The others called are
      recorded as initialised, and nothing else is. */
  ghost predicate InitialisesInOrder(owed: seq<Key>, fails: set<Key>, before: Lifecycle, called: seq<Key>,
                                     after: Lifecycle, err: Option<Error>) {
    && after.calls == before.calls + called
    && after.done == before.done + Initialised(called, fails)
    && called <= owed
    && (forall i :: 0 <= i < |called| - 1 ==> called[i] !in fails)
    && (err == None ==> called == owed && forall k :: k in called ==> k !in fails)
    && (err.Some? && err.value.InitFailed? ==>
          called != [] && called[|called| - 1] == err.value.bean && err.value.bean in fails)
  }

  lemma CallsOneMore(owed: seq<Key>, fails: set<Key>, before: Lifecycle, k: Key, called: seq<Key>,
                     after: Lifecycle, err: Option<Error>)
    requires k !in fails
    requires InitialisesInOrder(owed, fails, before.(calls := before.calls + [k], done := before.done + {k}), called, after, err)
    ensures InitialisesInOrder([k] + owed, fails, before, [k] + called, after, err)
  {
    assert Initialised([k] + called, fails) == {k} + Initialised(called, fails);
    var all := [k] + called;
    forall i | 0 <= i < |all| - 1 ensures all[i] !in fails {
      if i > 0 { assert all[i] == called[i - 1]; }
    }
  }

  lemma {:induction false} StartInitialisesInOrder(
    defs: Defs, initializers: set<Key>, fails: set<Key>, order: seq<Key>, l: Lifecycle)
    returns (called: seq<Key>)
    requires l.s.marks == {}
    requires forall k :: k in order ==> k in defs
    requires Distinct(order)
    ensures var r := Start(defs, initializers, fails, order, l);
      InitialisesInOrder(Owed(defs, initializers, l.done, order), fails, l, called, r.0, r.1)
    decreases |order|
  {
    if order == [] {
      called := [];
    } else {
      var k, rest := order[0], order[1..];
      var first := StartBean(defs, initializers, fails, k, l);
      GetErrors(defs, l.s, k);
      if first.1.Some? {
        called := if first.1 == Some(InitFailed(k)) then [k] else [];
      } else {
        var tail := StartInitialisesInOrder(defs, initializers, fails, rest, first.0);
        if first.0.calls == l.calls {
          called := tail;
        } else {
          OwedSkips(defs, initializers, l.done, rest, k);
          CallsOneMore(Owed(defs, initializers, l.done, rest), fails, l.(s := first.0.s), k, tail,
                       Start(defs, initializers, fails, rest, first.0).0,
                       Start(defs, initializers, fails, rest, first.0).1);
          called := [k] + tail;
        }
      }
    }
  }

  /** A bean whose OnInit stopped one Start is called again by the next one that gets as far as it, whether that
      Start goes on behind it or stops there again. */
  lemma FailedInitIsCalledAgain(
    defs: Defs, initializers: set<Key>, fails: set<Key>, fails': set<Key>, order: seq<Key>, l: Lifecycle, k: Key)
    returns (again: seq<Key>)
    requires l.s.marks == {}
    requires forall x :: x in order ==> x in defs
    requires Distinct(order) && Start(defs, initializers, fails, order, l).1 == Some(InitFailed(k))
    ensures var first := Start(defs, initializers, fails, order, l).0;
      var second := Start(defs, initializers, fails', order, first);
      && k !in l.done && k !in first.done && k in initializers && k in order
      && (second.1 == None ==> k in second.0.done && k !in fails')
      && second.0.calls == first.calls + again
      && (second.1 == None || second.1 == Some(InitFailed(k)) ==> k in again)
  {
    var first := Start(defs, initializers, fails, order, l).0;
    var called := StartInitialisesInOrder(defs, initializers, fails, order, l);
    var owed := Owed(defs, initializers, l.done, order);
    assert k in owed;
    OwedAre(defs, initializers, l.done, order);
    again := StartInitialisesInOrder(defs, initializers, fails', order, first);
    OwedAre(defs, initializers, first.done, order);
  }

  lemma {:induction false} OwedAre(defs: Defs, initializers: set<Key>, done: set<Key>, order: seq<Key>)
    requires forall k :: k in order ==> k in defs
    ensures forall k :: k in Owed(defs, initializers, done, order) <==>
      k in order && defs[k].scope.Singleton? && k in initializers && k !in done
    decreases |order|
  {
    if order != [] { OwedAre(defs, initializers, done, order[1..]); }
  }

  /** The singletons of the registration order. */
  ghost function Singletons(defs: Defs, order: seq<Key>): seq<Key>
    requires forall k :: k in order ==> k in defs
  {
    if order == [] then []
    else (if defs[order[0]].scope.Singleton? then [order[0]] else []) + Singletons(defs, order[1..])
  }

  /** What Start resolves: it gets the first `n` singletons one after the other.  All answers but the last are
      instances; an error other than a failed OnInit is the last answer, and a failed OnInit is that of the last
      bean; without an error all singletons are got, and every answer is an instance. */
  ghost predicate StopsAfter(singles: seq<Key>, n: nat, answers: seq<Outcome>, err: Option<Error>) {
    && n <= |singles| && |answers| == n
    && (forall i :: 0 <= i < n - 1 ==> answers[i].Ok?)
    && match err
       case None => n == |singles| && (n > 0 ==> answers[n - 1].Ok?)
       case Some(e) => n > 0 && (if e.InitFailed? then e.bean == singles[n - 1] && answers[n - 1].Ok?
                                 else answers[n - 1] == Err(e))
  }

  lemma {:induction false} ServeCons(defs: Defs, s: State, k: Key, ks: seq<Key>)
    ensures var got, rest := Get(defs, s, k), Serve(defs, Get(defs, s, k).0, ks);
      Serve(defs, s, [k] + ks) == (rest.0, [got.1] + rest.1)
  {
    assert ([k] + ks)[1..] == ks;
  }

  lemma {:induction false} ServeOne(defs: Defs, s: State, k: Key)
    ensures Serve(defs, s, [k]) == (Get(defs, s, k).0, [Get(defs, s, k).1])
  {
    ServeCons(defs, s, k, []);
    assert [k] + [] == [k] && [Get(defs, s, k).1] + [] == [Get(defs, s, k).1];
  }

  lemma StopsOneLater(k: Key, singles: seq<Key>, n: nat, first: Outcome, answers: seq<Outcome>, err: Option<Error>)
    requires first.Ok? && StopsAfter(singles, n, answers, err)
    ensures StopsAfter([k] + singles, n + 1, [first] + answers, err)
  {
    forall i | 0 <= i < n ensures ([first] + answers)[i].Ok? {
      if i > 0 { assert ([first] + answers)[i] == answers[i - 1]; }
    }
  }

  lemma {:induction false} StartGetsSingletons(
    defs: Defs, initializers: set<Key>, fails: set<Key>, order: seq<Key>, l: Lifecycle) returns (n: nat)
    requires l.s.marks == {}
    requires forall k :: k in order ==> k in defs
    ensures n <= |Singletons(defs, order)|
    ensures var r, got := Start(defs, initializers, fails, order, l), Serve(defs, l.s, Singletons(defs, order)[..n]);
      r.0.s == got.0 && StopsAfter(Singletons(defs, order), n, got.1, r.1)
    decreases |order|
  {
    var singles := Singletons(defs, order);
    if order == [] {
      n := 0;
    } else {
      var first := StartBean(defs, initializers, fails, order[0], l);
      GetErrors(defs, l.s, order[0]);
      if defs[order[0]].scope.Prototype? {
        n := StartGetsSingletons(defs, initializers, fails, order[1..], l);
        assert singles == Singletons(defs, order[1..]);
      } else if first.1.Some? {
        n := 1;
        assert singles[..1] == [order[0]];
        ServeOne(defs, l.s, order[0]);
      } else {
        var m := StartGetsSingletons(defs, initializers, fails, order[1..], first.0);
        n := m + 1;
        assert singles[..n] == [order[0]] + Singletons(defs, order[1..])[..m];
        ServeCons(defs, l.s, order[0], Singletons(defs, order[1..])[..m]);
        StopsOneLater(order[0], Singletons(defs, order[1..]), m, Get(defs, l.s, order[0]).1,
                      Serve(defs, first.0.s, Singletons(defs, order[1..])[..m]).1,
                      Start(defs, initializers, fails, order, l).1);
      }
    }
  }

  /** After a Start that succeeded, every singleton has an instance and every singleton that
      implements OnInit has been initialised. */
  lemma {:induction false} StartCompletes(
    defs: Defs, initializers: set<Key>, fails: set<Key>, order: seq<Key>, l: Lifecycle)
    requires l.s.marks == {}
    requires forall k :: k in order ==> k in defs
    requires Start(defs, initializers, fails, order, l).1 == None
    ensures var r := Start(defs, initializers, fails, order, l).0;
      && l.done <= r.done
      && forall k :: k in order && defs[k].scope.Singleton? ==> k in r.s.made && (k in initializers ==> k in r.done)
    decreases |order|
  {
    if order != [] {
      var first := StartBean(defs, initializers, fails, order[0], l);
      if defs[order[0]].scope.Singleton? {
        GetCachesSingleton(defs, l.s, order[0]);
      }
      StartCompletes(defs, initializers, fails, order[1..], first.0);
    }
  }

  /** Start is idempotent: once it has succeeded, a further Start runs nothing, calls nothing
      and changes nothing, whatever the OnInits would return. */
  lemma {:induction false} StartAgainDoesNothing(
    defs: Defs, initializers: set<Key>, fails: set<Key>, order: seq<Key>, l: Lifecycle)
    requires l.s.marks == {}
    requires forall k :: k in order ==> k in defs
    requires forall k :: k in order && defs[k].scope.Singleton? ==> k in l.s.made
    requires forall k :: k in order && defs[k].scope.Singleton? && k in initializers ==> k in l.done
    ensures Start(defs, initializers, fails, order, l) == (l, None)
    decreases |order|
  {
    if order != [] {
      StartAgainDoesNothing(defs, initializers, fails, order[1..], l);
    }
  }

  /** The two preceding lemmas together, for a container and its registration order. */
  lemma {:induction false} StartTwice(
    defs: Defs, initializers: set<Key>, fails: set<Key>, fails': set<Key>, order: seq<Key>, l: Lifecycle)
    requires l.s.marks == {}
    requires forall k :: k in order ==> k in defs
    requires Start(defs, initializers, fails, order, l).1 == None
    ensures var once := Start(defs, initializers, fails, order, l).0;
      Start(defs, initializers, fails', order, once) == (once, None)
  {
    StartCompletes(defs, initializers, fails, order, l);
    StartAgainDoesNothing(defs, initializers, fails', order, Start(defs, initializers, fails, order, l).0);
  }

  // ---------- Shutdown ----------

  /** The beans, in registration order, that have an instance to dispose of. */
  ghost function Disposable(made: set<Key>, disposers: set<Key>, order: seq<Key>): seq<Key> {
    if order == [] then []
    else
      (if order[0] in made && order[0] in disposers then [order[0]] else [])
      + Disposable(made, disposers, order[1..])
  }

  ghost function Reversed(ks: seq<Key>): seq<Key> {
    if ks == [] then [] else Reversed(ks[1..]) + [ks[0]]
  }

  lemma {:induction false} ReversedDisposableCons(made: set<Key>, disposers: set<Key>, k: Key, ks: seq<Key>)
    ensures Reversed(Disposable(made, disposers, [k] + ks))
         == Reversed(Disposable(made, disposers, ks)) + (if k in made && k in disposers then [k] else [])
  {
    var head, rest := if k in made && k in disposers then [k] else [], Disposable(made, disposers, ks);
    assert ([k] + ks)[1..] == ks;
    assert Disposable(made, disposers, [k] + ks) == head + rest;
    if head == [] {
      assert head + rest == rest;
    } else {
      assert (head + rest)[1..] == rest;
    }
  }

  lemma {:induction false} ReversedAt(ks: seq<Key>, i: nat)
    requires i < |ks|
    ensures |Reversed(ks)| == |ks| && Reversed(ks)[i] == ks[|ks| - 1 - i]
  {
    if i < |ks| - 1 {
      ReversedAt(ks[1..], i);
    } else if |ks| > 1 {
      ReversedAt(ks[1..], 0);
    }
  }

  /** Shutdown disposes of exactly the beans that have an instance and implement OnDestroy, each once. */
  lemma {:induction false} DisposesExactly(made: set<Key>, disposers: set<Key>, order: seq<Key>)
    requires Distinct(order)
    ensures var d := Reversed(Disposable(made, disposers, order));
      && (forall k :: k in d <==> k in order && k in made && k in disposers)
      && Distinct(d)
    decreases |order|
  {
    if order != [] {
      var rest := Reversed(Disposable(made, disposers, order[1..]));
      assert [order[0]] + order[1..] == order;
      ReversedDisposableCons(made, disposers, order[0], order[1..]);
      DisposesExactly(made, disposers, order[1..]);
      assert order[0] !in rest;
    }
  }

  /** Of two beans to dispose of, Shutdown disposes of the one registered later first. */
  lemma {:induction false} DisposesInReverse(made: set<Key>, disposers: set<Key>, order: seq<Key>, i: nat, j: nat)
    requires i < j < |order|
    requires order[i] in made && order[i] in disposers && order[j] in made && order[j] in disposers
    ensures var d := Reversed(Disposable(made, disposers, order));
      exists x, y :: 0 <= x < y < |d| && d[x] == order[j] && d[y] == order[i]
  {
    var f := Disposable(made, disposers, order);
    var p, q := DisposableAt(made, disposers, order, i, j);
    ReversedAt(f, |f| - 1 - q);
    ReversedAt(f, |f| - 1 - p);
  }

  lemma {:induction false} DisposableAt(made: set<Key>, disposers: set<Key>, order: seq<Key>, i: nat, j: nat)
    returns (p: nat, q: nat)
    requires i < j < |order|
    requires order[i] in made && order[i] in disposers && order[j] in made && order[j] in disposers
    ensures var f := Disposable(made, disposers, order);
      p < q < |f| && f[p] == order[i] && f[q] == order[j]
    decreases |order|
  {
    var head := if order[0] in made && order[0] in disposers then [order[0]] else [];
    if i == 0 {
      q := DisposableHas(made, disposers, order[1..], j - 1);
      p, q := 0, q + 1;
    } else {
      p, q := DisposableAt(made, disposers, order[1..], i - 1, j - 1);
      p, q := p + |head|, q + |head|;
    }
  }

  lemma {:induction false} DisposableHas(made: set<Key>, disposers: set<Key>, order: seq<Key>, j: nat) returns (q: nat)
    requires j < |order| && order[j] in made && order[j] in disposers
    ensures var f := Disposable(made, disposers, order); q < |f| && f[q] == order[j]
    decreases |order|
  {
    var head := if order[0] in made && order[0] in disposers then [order[0]] else [];
    if j == 0 {
      q := 0;
    } else {
      q := DisposableHas(made, disposers, order[1..], j - 1);
      q := q + |head|;
    }
  }
}
