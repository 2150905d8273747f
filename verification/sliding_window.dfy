/** The sliding-window limiter of framework/notify/ratelimit.go.

    The limiter keeps, per key, the accepted times that are still in the window, and forgets the
    others when it happens to look at them.  The reference keeps every accepted time. */
module SlidingWindow {

  datatype Key = Key(text: string)

  type Hits = map<Key, seq<int>>

  function At(hits: Hits, key: Key): seq<int> {
    if key in hits then hits[key] else []
  }

  /** The times later than `cutoff`, in order. */
  function Recent(times: seq<int>, cutoff: int): seq<int> {
    if times == [] then []
    else Recent(times[..|times| - 1], cutoff) + (if times[|times| - 1] > cutoff then [times[|times| - 1]] else [])
  }

  datatype Config = Config(window: int, max: int)

  predicate Enabled(c: Config) {
    c.window > 0 && c.max > 0
  }

  datatype Op = Allow(key: Key, now: int) | Clean(now: int)

  /** The limiter: what an operation leaves in memory, and the answer of an Allow. */
  function Step(c: Config, hits: Hits, op: Op): (Hits, seq<bool>) {
    match op
    case Allow(key, now) =>
      if !Enabled(c) then (hits, [true])
      else
        var kept := Recent(At(hits, key), now - c.window);
        if |kept| >= c.max then (hits[key := kept], [false]) else (hits[key := kept + [now]], [true])
    case Clean(now) =>
      (map key | key in hits && Recent(hits[key], now - c.window) != [] :: Recent(hits[key], now - c.window), [])
  }

  function Run(c: Config, hits: Hits, ops: seq<Op>): seq<bool>
    decreases |ops|
  {
    if ops == [] then [] else Step(c, hits, ops[0]).1 + Run(c, Step(c, hits, ops[0]).0, ops[1..])
  }

  /** The reference: every accepted time is kept, and Clean does nothing. */
  function Reference(c: Config, accepted: Hits, op: Op): (Hits, seq<bool>) {
    match op
    case Allow(key, now) =>
      if !Enabled(c) then (accepted, [true])
      else if |Recent(At(accepted, key), now - c.window)| >= c.max then (accepted, [false])
      else (accepted[key := At(accepted, key) + [now]], [true])
    case Clean(_) => (accepted, [])
  }

  function ReferenceRun(c: Config, accepted: Hits, ops: seq<Op>): (Hits, seq<bool>)
    decreases |ops|
  {
    if ops == [] then (accepted, [])
    else
      var first := Reference(c, accepted, ops[0]);
      var rest := ReferenceRun(c, first.0, ops[1..]);
      (rest.0, first.1 + rest.1)
  }

  // ---------- Filtering ----------

  lemma {:induction false} RecentTwice(times: seq<int>, a: int, b: int)
    requires a <= b
    ensures Recent(Recent(times, a), b) == Recent(times, b)
    decreases |times|
  {
    if times != [] {
      var init, last := times[..|times| - 1], times[|times| - 1];
      RecentTwice(init, a, b);
      if last > a {
        RecentSnoc(Recent(init, a), last, b);
      } else {
        assert Recent(init, a) + [] == Recent(init, a);
      }
    }
  }

  lemma {:induction false} RecentSnoc(times: seq<int>, t: int, cutoff: int)
    ensures Recent(times + [t], cutoff) == Recent(times, cutoff) + (if t > cutoff then [t] else [])
  {
    assert (times + [t])[..|times|] == times;
  }

  lemma {:induction false} RecentShrinks(times: seq<int>, a: int, b: int)
    requires a <= b
    ensures |Recent(times, b)| <= |Recent(times, a)|
    decreases |times|
  {
    if times != [] { RecentShrinks(times[..|times| - 1], a, b); }
  }

  // ---------- Pruning changes no decision ----------

  /** From time `now` on, both memories show the same times in the window. */
  ghost predicate Agree(c: Config, hits: Hits, accepted: Hits, now: int) {
    forall key, cutoff :: cutoff >= now - c.window ==> Recent(At(hits, key), cutoff) == Recent(At(accepted, key), cutoff)
  }

  function Time(op: Op): int {
    op.now
  }

  ghost predicate Nondecreasing(from: int, ops: seq<Op>) {
    && (forall i :: 0 <= i < |ops| ==> from <= Time(ops[i]))
    && (forall i, j :: 0 <= i < j < |ops| ==> Time(ops[i]) <= Time(ops[j]))
  }

  lemma {:induction false} KeptAgrees(times: seq<int>, accepted: seq<int>, edge: int, now: int, cutoff: int)
    requires cutoff >= edge && Recent(times, cutoff) == Recent(accepted, cutoff)
    ensures Recent(Recent(times, edge), cutoff) == Recent(accepted, cutoff)
    ensures Recent(Recent(times, edge) + [now], cutoff) == Recent(accepted + [now], cutoff)
  {
    RecentTwice(times, edge, cutoff);
    RecentSnoc(Recent(times, edge), now, cutoff);
    RecentSnoc(accepted, now, cutoff);
  }

  /** What an Allow that found the times `shown` in the window leaves for its key. */
  function After(times: seq<int>, shown: seq<int>, max: int, now: int): seq<int> {
    if |shown| >= max then times else times + [now]
  }

  lemma {:induction false} AfterAgrees(times: seq<int>, accepted: seq<int>, edge: int, max: int, now: int, cutoff: int)
    requires cutoff >= edge && Recent(times, cutoff) == Recent(accepted, cutoff)
    ensures var shown := Recent(times, edge);
      Recent(After(shown, shown, max, now), cutoff) == Recent(After(accepted, shown, max, now), cutoff)
  {
    KeptAgrees(times, accepted, edge, now, cutoff);
  }

  lemma {:induction false} AllowLeaves(c: Config, hits: Hits, name: Key, now: int, shown: seq<int>)
    requires Enabled(c) && shown == Recent(At(hits, name), now - c.window)
    ensures At(Step(c, hits, Allow(name, now)).0, name) == After(shown, shown, c.max, now)
    ensures At(Reference(c, hits, Allow(name, now)).0, name) == After(At(hits, name), shown, c.max, now)
  {
  }

  lemma AllowSparesOthers(c: Config, hits: Hits, name: Key, now: int, key: Key)
    requires key != name
    ensures At(Step(c, hits, Allow(name, now)).0, key) == At(hits, key)
    ensures At(Reference(c, hits, Allow(name, now)).0, key) == At(hits, key)
  {
  }

  /** Under the key of the call. */
  lemma AllowAgreesAtKey(c: Config, hits: Hits, accepted: Hits, key: Key, now: int, cutoff: int)
    requires Enabled(c) && cutoff >= now - c.window
    requires Recent(At(hits, key), cutoff) == Recent(At(accepted, key), cutoff)
    requires Recent(At(hits, key), now - c.window) == Recent(At(accepted, key), now - c.window)
    ensures Recent(At(Step(c, hits, Allow(key, now)).0, key), cutoff)
         == Recent(At(Reference(c, accepted, Allow(key, now)).0, key), cutoff)
  {
    var shown := Recent(At(hits, key), now - c.window);
    AllowLeaves(c, hits, key, now, shown);
    AllowLeaves(c, accepted, key, now, shown);
    AfterAgrees(At(hits, key), At(accepted, key), now - c.window, c.max, now, cutoff);
  }

  /** Under any other key. */
  lemma {:induction false} AllowAgreesElsewhere(
    c: Config, hits: Hits, accepted: Hits, name: Key, now: int, key: Key, cutoff: int)
    requires key != name && Recent(At(hits, key), cutoff) == Recent(At(accepted, key), cutoff)
    ensures Recent(At(Step(c, hits, Allow(name, now)).0, key), cutoff)
         == Recent(At(Reference(c, accepted, Allow(name, now)).0, key), cutoff)
  {
    AllowSparesOthers(c, hits, name, now, key);
    AllowSparesOthers(c, accepted, name, now, key);
  }

  lemma {:induction false} CleanAgreesAt(c: Config, hits: Hits, now: int, key: Key, cutoff: int)
    requires cutoff >= now - c.window
    ensures Recent(At(Step(c, hits, Clean(now)).0, key), cutoff) == Recent(At(hits, key), cutoff)
  {
    RecentTwice(At(hits, key), now - c.window, cutoff);
    assert Recent([], cutoff) == [];
  }

  lemma StepAgrees(c: Config, hits: Hits, accepted: Hits, now: int, op: Op)
    requires Agree(c, hits, accepted, now) && now <= Time(op)
    ensures Step(c, hits, op).1 == Reference(c, accepted, op).1
    ensures Agree(c, Step(c, hits, op).0, Reference(c, accepted, op).0, Time(op))
  {
    var hits', accepted' := Step(c, hits, op).0, Reference(c, accepted, op).0;
    var edge := Time(op) - c.window;
    assert op.Allow? ==> Recent(At(hits, op.key), edge) == Recent(At(accepted, op.key), edge);
    forall key, cutoff | cutoff >= edge
      ensures Recent(At(hits', key), cutoff) == Recent(At(accepted', key), cutoff)
    {
      assert Recent(At(hits, key), cutoff) == Recent(At(accepted, key), cutoff);
      if op.Clean? {
        CleanAgreesAt(c, hits, op.now, key, cutoff);
      } else if Enabled(c) {
        if key == op.key {
          AllowAgreesAtKey(c, hits, accepted, key, op.now, cutoff);
        } else {
          AllowAgreesElsewhere(c, hits, accepted, op.key, op.now, key, cutoff);
        }
      }
    }
  }

  /** With a clock that never goes back, the pruning limiter answers like the reference. */
  lemma {:induction false} PruningIsInvisible(c: Config, hits: Hits, accepted: Hits, now: int, ops: seq<Op>)
    requires Agree(c, hits, accepted, now) && Nondecreasing(now, ops)
    ensures Run(c, hits, ops) == ReferenceRun(c, accepted, ops).1
    decreases |ops|
  {
    if ops != [] {
      StepAgrees(c, hits, accepted, now, ops[0]);
      PruningIsInvisible(c, Step(c, hits, ops[0]).0, Reference(c, accepted, ops[0]).0, Time(ops[0]), ops[1..]);
    }
  }

  /** The operations without the calls of Clean. */
  function WithoutClean(ops: seq<Op>): seq<Op> {
    if ops == [] then [] else (if ops[0].Clean? then [] else [ops[0]]) + WithoutClean(ops[1..])
  }

  lemma {:induction false} ReferenceIgnoresClean(c: Config, accepted: Hits, ops: seq<Op>)
    ensures ReferenceRun(c, accepted, ops) == ReferenceRun(c, accepted, WithoutClean(ops))
    decreases |ops|
  {
    if ops != [] {
      var first := Reference(c, accepted, ops[0]);
      ReferenceIgnoresClean(c, first.0, ops[1..]);
      if ops[0].Allow? {
        assert WithoutClean(ops)[1..] == WithoutClean(ops[1..]);
      } else {
        assert [] + WithoutClean(ops[1..]) == WithoutClean(ops[1..]);
        assert [] + ReferenceRun(c, accepted, ops[1..]).1 == ReferenceRun(c, accepted, ops[1..]).1;
      }
    }
  }

  lemma {:induction false} WithoutCleanIsOrdered(now: int, ops: seq<Op>)
    requires Nondecreasing(now, ops)
    ensures Nondecreasing(now, WithoutClean(ops))
    ensures forall o :: o in WithoutClean(ops) ==> o in ops
    decreases |ops|
  {
    if ops != [] {
      WithoutCleanIsOrdered(Time(ops[0]), ops[1..]);
      assert forall o :: o in ops[1..] ==> o in ops;
    }
  }

  /** Calling Clean anywhere changes no answer. */
  lemma {:induction false} CleanIsInvisible(c: Config, now: int, ops: seq<Op>)
    requires Nondecreasing(now, ops)
    ensures Run(c, map[], ops) == Run(c, map[], WithoutClean(ops))
  {
    assert Agree(c, map[], map[], now);
    PruningIsInvisible(c, map[], map[], now, ops);
    WithoutCleanIsOrdered(now, ops);
    PruningIsInvisible(c, map[], map[], now, WithoutClean(ops));
    ReferenceIgnoresClean(c, map[], ops);
  }
}
