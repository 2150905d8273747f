/** What the sliding-window limiter of framework/notify/ratelimit.go promises about the calls it accepts, when
    every operation reads the clock before it takes the lock, so that operations run in an order that may differ
    from the order of their readings. */
module SlidingLimit {
  import opened SlidingWindow

  /** The times in the half-open window that ends at `end`. */
  function Within(times: seq<int>, window: int, end: int): seq<int> {
    if times == [] then []
    else
      var last := times[|times| - 1];
      Within(times[..|times| - 1], window, end) + (if end - window < last <= end then [last] else [])
  }

  // ---------- The accepted calls ----------

  /** An accepted call is added to the log, which nothing is removed from. */
  function Logged(log: Hits, op: Op, answers: seq<bool>): Hits {
    if op.Allow? && answers == [true] then log[op.key := At(log, op.key) + [op.now]] else log
  }

  /** The memory of the limiter and the log after a run. */
  function Track(c: Config, hits: Hits, log: Hits, ops: seq<Op>): (Hits, Hits)
    decreases |ops|
  {
    if ops == [] then (hits, log)
    else
      var r := Step(c, hits, ops[0]);
      Track(c, r.0, Logged(log, ops[0], r.1), ops[1..])
  }

  /** The times of the calls with this key that a new limiter accepted. */
  function Accepted(c: Config, ops: seq<Op>, key: Key): seq<int> {
    At(Track(c, map[], map[], ops).1, key)
  }

  function Max(a: int, b: int): int {
    if a >= b then a else b
  }

  /** No reading is more than `lag` behind the latest one before it. */
  predicate LagsAtMost(latest: int, lag: nat, ops: seq<Op>)
    decreases |ops|
  {
    ops == [] || (latest <= Time(ops[0]) + lag && LagsAtMost(Max(latest, Time(ops[0])), lag, ops[1..]))
  }

  predicate RunLagsAtMost(lag: nat, ops: seq<Op>) {
    ops == [] || LagsAtMost(Time(ops[0]), lag, ops)
  }

  // ---------- The limit holds for windows shorter by the lag ----------

  ghost predicate Limited(c: Config, log: Hits, window: int) {
    forall key, end :: |Within(At(log, key), window, end)| <= c.max
  }

  lemma {:induction false} WithinSnoc(times: seq<int>, t: int, window: int, end: int)
    ensures Within(times + [t], window, end) == Within(times, window, end) + (if end - window < t <= end then [t] else [])
  {
    assert (times + [t])[..|times|] == times;
  }

  lemma {:induction false} WithinAtMostRecent(times: seq<int>, window: int, end: int)
    ensures |Within(times, window, end)| <= |Recent(times, end - window)|
    decreases |times|
  {
    if times != [] { WithinAtMostRecent(times[..|times| - 1], window, end); }
  }

  lemma {:induction false} WithinGrows(times: seq<int>, small: int, large: int, end: int)
    requires small <= large
    ensures |Within(times, small, end)| <= |Within(times, large, end)|
    decreases |times|
  {
    if times != [] { WithinGrows(times[..|times| - 1], small, large, end); }
  }

  lemma {:induction false} LoggedAt(c: Config, hits: Hits, log: Hits, key: Key, now: int, shown: seq<int>)
    requires Enabled(c) && shown == Recent(At(hits, key), now - c.window)
    ensures var op := Allow(key, now);
      At(Logged(log, op, Step(c, hits, op).1), key) == After(At(log, key), shown, c.max, now)
  {
  }

  lemma LoggedElsewhere(log: Hits, op: Op, answers: seq<bool>, key: Key)
    requires op.Clean? || op.key != key
    ensures At(Logged(log, op, answers), key) == At(log, key)
  {
  }

  /** Memory and log still show the same times, from the latest reading on. */
  lemma StepAgreesWithLog(c: Config, hits: Hits, log: Hits, latest: int, op: Op)
    requires Enabled(c) && Agree(c, hits, log, latest)
    ensures var r := Step(c, hits, op); Agree(c, r.0, Logged(log, op, r.1), Max(latest, Time(op)))
  {
    var r := Step(c, hits, op);
    var log' := Logged(log, op, r.1);
    forall key, cutoff | cutoff >= Max(latest, Time(op)) - c.window
      ensures Recent(At(r.0, key), cutoff) == Recent(At(log', key), cutoff)
    {
      assert Recent(At(hits, key), cutoff) == Recent(At(log, key), cutoff);
      if op.Clean? {
        CleanAgreesAt(c, hits, op.now, key, cutoff);
      } else if key == op.key {
        var shown := Recent(At(hits, key), op.now - c.window);
        AllowLeaves(c, hits, key, op.now, shown);
        LoggedAt(c, hits, log, key, op.now, shown);
        AfterAgrees(At(hits, key), At(log, key), op.now - c.window, c.max, op.now, cutoff);
      } else {
        AllowSparesOthers(c, hits, op.key, op.now, key);
        LoggedElsewhere(log, op, r.1, key);
      }
    }
  }

  /** An accepted call leaves room in every window that reaches back no further than what was pruned. */
  lemma AcceptedHasRoom(c: Config, hits: Hits, log: Hits, latest: int, lag: nat, key: Key, now: int, end: int)
    requires Enabled(c) && Agree(c, hits, log, latest) && latest <= now + lag
    requires |Recent(At(hits, key), now - c.window)| < c.max && end - (c.window - lag) < now <= end
    ensures |Within(At(log, key), c.window - lag, end)| < c.max
  {
    var edge := Max(latest, now) - c.window;
    WithinAtMostRecent(At(log, key), c.window - lag, end);
    RecentShrinks(At(log, key), edge, end - (c.window - lag));
    assert Recent(At(hits, key), edge) == Recent(At(log, key), edge);
    RecentShrinks(At(hits, key), now - c.window, edge);
  }

  lemma CallStaysLimited(c: Config, hits: Hits, log: Hits, latest: int, lag: nat, key: Key, now: int, end: int)
    requires Enabled(c) && Agree(c, hits, log, latest) && latest <= now + lag
    requires |Within(At(log, key), c.window - lag, end)| <= c.max
    ensures var op := Allow(key, now);
      |Within(At(Logged(log, op, Step(c, hits, op).1), key), c.window - lag, end)| <= c.max
  {
    var shown := Recent(At(hits, key), now - c.window);
    LoggedAt(c, hits, log, key, now, shown);
    WithinSnoc(At(log, key), now, c.window - lag, end);
    if |shown| < c.max && end - (c.window - lag) < now <= end {
      AcceptedHasRoom(c, hits, log, latest, lag, key, now, end);
    }
  }

  lemma StepStaysLimited(c: Config, hits: Hits, log: Hits, latest: int, lag: nat, op: Op, short: int)
    requires Enabled(c) && Agree(c, hits, log, latest) && latest <= Time(op) + lag
    requires short == c.window - lag && Limited(c, log, short)
    ensures Limited(c, Logged(log, op, Step(c, hits, op).1), short)
  {
    var log' := Logged(log, op, Step(c, hits, op).1);
    forall key, end ensures |Within(At(log', key), short, end)| <= c.max {
      assert |Within(At(log, key), short, end)| <= c.max;
      if op.Clean? || op.key != key {
        LoggedElsewhere(log, op, Step(c, hits, op).1, key);
      } else {
        CallStaysLimited(c, hits, log, latest, lag, key, op.now, end);
      }
    }
  }

  lemma {:induction false} TrackStaysLimited(c: Config, hits: Hits, log: Hits, latest: int, lag: nat, ops: seq<Op>)
    requires Enabled(c) && Agree(c, hits, log, latest) && Limited(c, log, c.window - lag) && LagsAtMost(latest, lag, ops)
    ensures Limited(c, Track(c, hits, log, ops).1, c.window - lag)
    decreases |ops|
  {
    if ops != [] {
      var r := Step(c, hits, ops[0]);
      StepStaysLimited(c, hits, log, latest, lag, ops[0], c.window - lag);
      StepAgreesWithLog(c, hits, log, latest, ops[0]);
      TrackStaysLimited(c, r.0, Logged(log, ops[0], r.1), Max(latest, Time(ops[0])), lag, ops[1..]);
    }
  }

  lemma NothingIsLimited(c: Config, window: int)
    requires Enabled(c)
    ensures Limited(c, map[], window)
  {
    var none: Hits := map[];
    assert forall key, end :: Within(At(none, key), window, end) == [];
  }

  /** If no reading is more than `lag` behind, every window that is shorter by `lag` has at most `max` accepted
      calls of a key. */
  lemma LaggingRunStaysLimited(c: Config, lag: nat, ops: seq<Op>, key: Key, end: int)
    requires Enabled(c) && RunLagsAtMost(lag, ops)
    ensures |Within(Accepted(c, ops, key), c.window - lag, end)| <= c.max
  {
    var none: Hits := map[];
    NothingIsLimited(c, c.window - lag);
    if ops != [] { TrackStaysLimited(c, none, none, Time(ops[0]), lag, ops); }
  }

  lemma {:induction false} OrderedDoesNotLag(latest: int, ops: seq<Op>)
    requires Nondecreasing(latest, ops)
    ensures LagsAtMost(latest, 0, ops)
    decreases |ops|
  {
    if ops != [] {
      assert Nondecreasing(Time(ops[0]), ops[1..]) by {
        forall i | 0 <= i < |ops[1..]| ensures Time(ops[0]) <= Time(ops[1..][i]) {
          assert ops[1..][i] == ops[i + 1];
        }
      }
      OrderedDoesNotLag(Time(ops[0]), ops[1..]);
    }
  }

  /** With a clock that never goes back, every window has at most `max` accepted calls of a key. */
  lemma {:induction false} RunStaysLimited(c: Config, now: int, ops: seq<Op>, key: Key, end: int)
    requires Enabled(c) && Nondecreasing(now, ops)
    ensures |Within(Accepted(c, ops, key), c.window, end)| <= c.max
  {
    if ops != [] { OrderedDoesNotLag(Time(ops[0]), ops); }
    LaggingRunStaysLimited(c, 0, ops, key, end);
  }

  // ---------- And whoever keeps to it is let in ----------

  ghost predicate NotAfter(log: Hits, latest: int) {
    forall key, i :: 0 <= i < |At(log, key)| ==> At(log, key)[i] <= latest
  }

  lemma {:induction false} WithinIsRecent(times: seq<int>, window: int, end: int)
    requires forall i :: 0 <= i < |times| ==> times[i] <= end
    ensures Within(times, window, end) == Recent(times, end - window)
    decreases |times|
  {
    if times != [] { WithinIsRecent(times[..|times| - 1], window, end); }
  }

  lemma LoggedNotAfter(c: Config, hits: Hits, log: Hits, latest: int, op: Op)
    requires NotAfter(log, latest) && latest <= Time(op)
    ensures NotAfter(Logged(log, op, Step(c, hits, op).1), Time(op))
  {
    var log' := Logged(log, op, Step(c, hits, op).1);
    forall key, i | 0 <= i < |At(log', key)| ensures At(log', key)[i] <= Time(op) {
      assert i < |At(log, key)| ==> At(log', key)[i] == At(log, key)[i] <= latest;
    }
  }

  lemma {:induction false} TrackAgrees(c: Config, hits: Hits, log: Hits, latest: int, ops: seq<Op>, now: int)
    requires Enabled(c) && Agree(c, hits, log, latest) && NotAfter(log, latest)
    requires Nondecreasing(latest, ops) && latest <= now && forall i :: 0 <= i < |ops| ==> Time(ops[i]) <= now
    ensures var r := Track(c, hits, log, ops); Agree(c, r.0, r.1, now) && NotAfter(r.1, now)
    decreases |ops|
  {
    if ops != [] {
      var r := Step(c, hits, ops[0]);
      StepAgreesWithLog(c, hits, log, latest, ops[0]);
      LoggedNotAfter(c, hits, log, latest, ops[0]);
      TrackAgrees(c, r.0, Logged(log, ops[0], r.1), Time(ops[0]), ops[1..], now);
    }
  }

  /** With a clock that never goes back: a call is let in if and only if the limiter is switched off, or fewer than
      `max` calls of its key were let in within the window that ends now. */
  lemma {:induction false} AllowedIffRoom(c: Config, start: int, ops: seq<Op>, key: Key, now: int)
    requires Nondecreasing(start, ops) && start <= now && forall i :: 0 <= i < |ops| ==> Time(ops[i]) <= now
    ensures Step(c, Track(c, map[], map[], ops).0, Allow(key, now)).1
         == [c.window <= 0 || c.max <= 0 || |Within(Accepted(c, ops, key), c.window, now)| < c.max]
  {
    if Enabled(c) {
      var none: Hits := map[];
      assert Agree(c, none, none, start) && NotAfter(none, start);
      TrackAgrees(c, none, none, start, ops, now);
      var hits, log := Track(c, none, none, ops).0, Track(c, none, none, ops).1;
      assert Recent(At(hits, key), now - c.window) == Recent(At(log, key), now - c.window);
      WithinIsRecent(At(log, key), c.window, now);
    }
  }

  // ---------- And for no longer ones ----------

  function Zeros(n: nat): (z: seq<int>)
    ensures |z| == n && forall i :: 0 <= i < n ==> z[i] == 0
  {
    seq(n, _ => 0)
  }

  function AllowMany(key: Key, n: nat): seq<Op> {
    if n == 0 then [] else [Allow(key, 0)] + AllowMany(key, n - 1)
  }

  lemma {:induction false} RecentKeepsLater(times: seq<int>, cutoff: int)
    requires forall i :: 0 <= i < |times| ==> times[i] > cutoff
    ensures Recent(times, cutoff) == times
    decreases |times|
  {
    if times != [] {
      RecentKeepsLater(times[..|times| - 1], cutoff);
      assert times == times[..|times| - 1] + [times[|times| - 1]];
    }
  }

  lemma {:induction false} RecentDropsEarlier(times: seq<int>, cutoff: int)
    requires forall i :: 0 <= i < |times| ==> times[i] <= cutoff
    ensures Recent(times, cutoff) == []
    decreases |times|
  {
    if times != [] { RecentDropsEarlier(times[..|times| - 1], cutoff); }
  }

  lemma {:induction false} WithinHoldsAll(times: seq<int>, window: int, end: int)
    requires forall i :: 0 <= i < |times| ==> end - window < times[i] <= end
    ensures Within(times, window, end) == times
    decreases |times|
  {
    if times != [] {
      WithinHoldsAll(times[..|times| - 1], window, end);
      assert times == times[..|times| - 1] + [times[|times| - 1]];
    }
  }

  lemma OneMoreZero(c: Config, hits: Hits, log: Hits, key: Key, n: nat)
    requires Enabled(c) && n < c.max && At(hits, key) == Zeros(n) && At(log, key) == Zeros(n)
    ensures var r := Step(c, hits, Allow(key, 0));
      At(r.0, key) == Zeros(n + 1) && At(Logged(log, Allow(key, 0), r.1), key) == Zeros(n + 1)
  {
    RecentKeepsLater(Zeros(n), -c.window);
    AllowLeaves(c, hits, key, 0, Zeros(n));
    LoggedAt(c, hits, log, key, 0, Zeros(n));
    assert Zeros(n) + [0] == Zeros(n + 1);
  }

  lemma {:induction false} AllowManyFillsWindow(c: Config, hits: Hits, log: Hits, key: Key, n: nat, m: nat)
    requires Enabled(c) && n + m <= c.max && At(hits, key) == Zeros(n) && At(log, key) == Zeros(n)
    ensures var t := Track(c, hits, log, AllowMany(key, m));
      At(t.0, key) == Zeros(n + m) && At(t.1, key) == Zeros(n + m)
    decreases m
  {
    if m > 0 {
      var r := Step(c, hits, Allow(key, 0));
      OneMoreZero(c, hits, log, key, n);
      assert AllowMany(key, m)[1..] == AllowMany(key, m - 1);
      AllowManyFillsWindow(c, r.0, Logged(log, Allow(key, 0), r.1), key, n + 1, m - 1);
    }
  }

  lemma {:induction false} TrackConcat(c: Config, hits: Hits, log: Hits, ops: seq<Op>, more: seq<Op>)
    ensures var t := Track(c, hits, log, ops); Track(c, hits, log, ops + more) == Track(c, t.0, t.1, more)
    decreases |ops|
  {
    if ops == [] {
      assert ops + more == more;
    } else {
      assert (ops + more)[1..] == ops[1..] + more;
      var r := Step(c, hits, ops[0]);
      TrackConcat(c, r.0, Logged(log, ops[0], r.1), ops[1..], more);
    }
  }

  /** A Clean that forgets everything lets one call more in. */
  lemma {:induction false} CleanLetsOneMoreIn(c: Config, hits: Hits, log: Hits, key: Key, late: int)
    requires Enabled(c) && At(hits, key) == Zeros(c.max) && At(log, key) == Zeros(c.max)
    ensures At(Track(c, hits, log, [Clean(c.window), Allow(key, late)]).1, key) == Zeros(c.max) + [late]
  {
    var clean, last := Clean(c.window), Allow(key, late);
    var cleaned := Step(c, hits, clean).0;
    RecentDropsEarlier(Zeros(c.max), 0);
    assert At(cleaned, key) == [];
    LoggedAt(c, cleaned, log, key, late, []);
    var r := Step(c, cleaned, last);
    assert [clean, last][1..] == [last] && [last][1..] == [];
    assert Track(c, hits, log, [clean, last]) == Track(c, cleaned, log, [last]);
    assert Track(c, cleaned, log, [last]) == Track(c, r.0, Logged(log, last, r.1), []);
  }

  lemma {:induction false} ManyDoNotLag(key: Key, n: nat, lag: nat, more: seq<Op>)
    requires LagsAtMost(0, lag, more)
    ensures LagsAtMost(0, lag, AllowMany(key, n) + more)
    decreases n
  {
    if n == 0 {
      assert AllowMany(key, n) + more == more;
    } else {
      assert (AllowMany(key, n) + more)[1..] == AllowMany(key, n - 1) + more;
      ManyDoNotLag(key, n - 1, lag, more);
    }
  }

  /** `max` calls at once, a Clean a window later, and a call whose reading lags behind it. */
  function Overtaken(c: Config, lag: nat, key: Key): seq<Op>
    requires Enabled(c)
  {
    AllowMany(key, c.max) + [Clean(c.window), Allow(key, Max(c.window - lag, 0))]
  }

  lemma OvertakenLags(c: Config, lag: nat, key: Key)
    requires Enabled(c)
    ensures RunLagsAtMost(lag, Overtaken(c, lag, key))
  {
    var late := Allow(key, Max(c.window - lag, 0));
    assert [Clean(c.window), late][1..] == [late] && [late][1..] == [];
    assert LagsAtMost(c.window, lag, [late]);
    assert LagsAtMost(0, lag, [Clean(c.window), late]);
    ManyDoNotLag(key, c.max, lag, [Clean(c.window), late]);
  }

  lemma OvertakenIsAccepted(c: Config, lag: nat, key: Key)
    requires Enabled(c)
    ensures Accepted(c, Overtaken(c, lag, key), key) == Zeros(c.max) + [Max(c.window - lag, 0)]
  {
    var none: Hits := map[];
    var many := AllowMany(key, c.max);
    var full := Track(c, none, none, many);
    AllowManyFillsWindow(c, none, none, key, 0, c.max);
    CleanLetsOneMoreIn(c, full.0, full.1, key, Max(c.window - lag, 0));
    TrackConcat(c, none, none, many, [Clean(c.window), Allow(key, Max(c.window - lag, 0))]);
  }

  lemma {:induction false} ZerosAndLate(n: nat, late: int, length: int)
    requires 0 <= late < length
    ensures |Within(Zeros(n) + [late], length, late)| == n + 1
  {
    WithinHoldsAll(Zeros(n) + [late], length, late);
  }

  /** Then more than `max` accepted calls lie in a window that is less than `lag` shorter. */
  lemma OvertakingBreaksTheLimit(c: Config, lag: nat, key: Key, length: int)
    requires Enabled(c) && length >= 1 && length > c.window - lag
    ensures |Within(Accepted(c, Overtaken(c, lag, key), key), length, Max(c.window - lag, 0))| == c.max + 1
  {
    OvertakenIsAccepted(c, lag, key);
    ZerosAndLate(c.max, Max(c.window - lag, 0), length);
  }

  /** In every run whose readings lag at most so much, every window of this length has at most `max` accepted
      calls. */
  ghost predicate LimitHolds(c: Config, lag: nat, length: int) {
    forall ops: seq<Op>, key, end ::
      RunLagsAtMost(lag, ops) ==> |Within(Accepted(c, ops, key), length, end)| <= c.max
  }

  /** For readings that lag at most `lag`, the limit is kept in windows of a length if and only if the length is
      at most the configured window less `lag`; with ordered readings, in the whole window. */
  lemma LimitHoldsIffShorterByLag(c: Config, lag: nat, length: int)
    requires Enabled(c) && length >= 1
    ensures LimitHolds(c, lag, length) <==> length <= c.window - lag
  {
    if length <= c.window - lag {
      forall ops: seq<Op>, key, end | RunLagsAtMost(lag, ops)
        ensures |Within(Accepted(c, ops, key), length, end)| <= c.max
      {
        LaggingRunStaysLimited(c, lag, ops, key, end);
        WithinGrows(Accepted(c, ops, key), length, c.window - lag, end);
      }
    } else {
      var key := Key("");
      OvertakenLags(c, lag, key);
      OvertakingBreaksTheLimit(c, lag, key, length);
      assert |Within(Accepted(c, Overtaken(c, lag, key), key), length, Max(c.window - lag, 0))| > c.max;
    }
  }
}
