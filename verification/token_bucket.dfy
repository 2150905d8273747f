/** The token bucket of framework/ratelimit/limiter.go: a Redis script that refills by elapsed time,
    spends what is requested, and lets the key expire when it has been idle long enough.

    The script's floating-point numbers are modelled as reals.  The clock readings passed to the
    script are arbitrary: they may stall, jump or go backward. */
module TokenBucket {

  datatype Bucket = Absent | Stored(tokens: real, ts: int, expireAt: int)

  datatype Limits = Limits(rate: int, burst: int)

  predicate ValidLimits(l: Limits) {
    l.rate > 0 && l.burst > 0
  }

  function Ceil(x: real): int {
    -((-x).Floor)
  }

  function Min(a: real, b: real): real {
    if a <= b then a else b
  }

  function Max(a: int, b: int): int {
    if a >= b then a else b
  }

  /** The life of a key in milliseconds: twice the time an empty bucket takes to fill up. */
  function TimeToLive(l: Limits): int
    requires ValidLimits(l)
  {
    Max(1, Ceil(l.burst as real / l.rate as real * 1000.0) * 2)
  }

  /** The tokens that accrue in `delta` milliseconds. */
  function Accrued(delta: int, rate: int): real {
    delta as real * rate as real / 1000.0
  }

  /** The tokens available to a request at time `now`. */
  function Refilled(b: Bucket, l: Limits, now: int): real
    requires ValidLimits(l)
  {
    match b
    case Absent => Min(l.burst as real, l.burst as real + Accrued(0, l.rate))
    case Stored(tokens, ts, _) =>
      Min(l.burst as real, tokens + Accrued(Max(0, now - ts), l.rate))
  }

  /** One run of the script. */
  function Script(b: Bucket, l: Limits, now: int, requested: int): (Bucket, bool)
    requires ValidLimits(l)
  {
    var tokens := Refilled(b, l, now);
    var allowed := tokens >= requested as real;
    (Stored(if allowed then tokens - requested as real else tokens, now, now + TimeToLive(l)), allowed)
  }

  /** A request: when it arrives, how much it asks for, and whether Redis has dropped the key by then. */
  datatype Request = Request(now: int, requested: int, expired: bool)

  /** Redis may drop a key from its deadline on, and not before. */
  predicate MayExpire(b: Bucket, now: int) {
    b.Stored? && now >= b.expireAt
  }

  function Step(b: Bucket, l: Limits, r: Request): (Bucket, bool)
    requires ValidLimits(l)
  {
    Script(if r.expired && MayExpire(b, r.now) then Absent else b, l, r.now, r.requested)
  }

  function Run(b: Bucket, l: Limits, rs: seq<Request>): (r: (Bucket, seq<bool>))
    requires ValidLimits(l)
    ensures |r.1| == |rs|
    decreases |rs|
  {
    if rs == [] then (b, [])
    else
      var first := Step(b, l, rs[0]);
      var rest := Run(first.0, l, rs[1..]);
      (rest.0, [first.1] + rest.1)
  }

  // ---------- The bucket stays within its bounds ----------

  predicate ValidBucket(b: Bucket, l: Limits)
    requires ValidLimits(l)
  {
    b.Stored? ==> 0.0 <= b.tokens <= l.burst as real && b.expireAt == b.ts + TimeToLive(l)
  }

  predicate ValidRequests(rs: seq<Request>) {
    forall i :: 0 <= i < |rs| ==> rs[i].requested > 0
  }

  lemma RefillGrows(delta: int, rate: int)
    requires delta >= 0 && rate > 0
    ensures Accrued(delta, rate) >= 0.0
  {
    assert delta as real * rate as real >= 0.0;
  }

  lemma StepKeepsBounds(b: Bucket, l: Limits, r: Request)
    requires ValidLimits(l) && ValidBucket(b, l) && r.requested > 0
    ensures ValidBucket(Step(b, l, r).0, l)
  {
    if b.Stored? { RefillGrows(Max(0, r.now - b.ts), l.rate); }
  }

  // ---------- Expiry changes nothing ----------

  /** A bucket whose key may expire has had the time to fill up. */
  lemma ExpiredIsFull(b: Bucket, l: Limits, now: int)
    requires ValidLimits(l) && ValidBucket(b, l) && MayExpire(b, now)
    ensures Refilled(b, l, now) == l.burst as real
  {
    var delta := now - b.ts;
    var fill := l.burst as real / l.rate as real * 1000.0;
    assert fill > 0.0;
    assert delta as real >= Ceil(fill) as real >= fill;
    FilledAfter(delta as real, l.rate as real, l.burst as real);
    assert Max(0, delta) == delta;
    assert Accrued(delta, l.rate) >= l.burst as real;
  }

  lemma FilledAfter(delta: real, rate: real, burst: real)
    requires rate > 0.0 && delta >= burst / rate * 1000.0
    ensures delta * rate / 1000.0 >= burst
  {
    var share := burst / rate;
    assert share * rate == burst;
    ScaleUp(delta, share * 1000.0, rate);
    assert share * 1000.0 * rate == share * rate * 1000.0;
  }

  lemma ScaleUp(x: real, y: real, z: real)
    requires x >= y && z > 0.0
    ensures x * z >= y * z
  {
    assert (x - y) * z >= 0.0;
  }

  lemma StepIgnoresExpiry(b: Bucket, l: Limits, r: Request)
    requires ValidLimits(l) && ValidBucket(b, l)
    ensures Step(b, l, r) == Script(b, l, r.now, r.requested)
  {
    if MayExpire(b, r.now) { ExpiredIsFull(b, l, r.now); }
  }

  function NeverExpiring(rs: seq<Request>): (ns: seq<Request>)
    ensures |ns| == |rs| && forall i :: 0 <= i < |rs| ==> ns[i] == rs[i].(expired := false)
  {
    seq(|rs|, i requires 0 <= i < |rs| => rs[i].(expired := false))
  }

  /** Letting keys expire changes neither a decision nor a state, for every clock. */
  lemma {:induction false} ExpiryIsInvisible(b: Bucket, l: Limits, rs: seq<Request>)
    requires ValidLimits(l) && ValidBucket(b, l) && ValidRequests(rs)
    ensures Run(b, l, rs) == Run(b, l, NeverExpiring(rs))
    decreases |rs|
  {
    if rs != [] {
      StepIgnoresExpiry(b, l, rs[0]);
      StepIgnoresExpiry(b, l, rs[0].(expired := false));
      StepKeepsBounds(b, l, rs[0]);
      ExpiryIsInvisible(Step(b, l, rs[0]).0, l, rs[1..]);
      assert NeverExpiring(rs)[1..] == NeverExpiring(rs[1..]);
    }
  }

  // ---------- Limits that change from call to call ----------

  /** AllowN takes the limits with every call. */
  datatype Call = Call(limits: Limits, request: Request)

  ghost predicate ValidCalls(cs: seq<Call>) {
    forall i :: 0 <= i < |cs| ==> ValidLimits(cs[i].limits) && cs[i].request.requested > 0
  }

  /** The calls for one key, which is absent at first. */
  ghost function RunCalls(cs: seq<Call>): (r: (Bucket, seq<bool>))
    requires ValidCalls(cs)
    ensures |r.1| == |cs|
  {
    if cs == [] then (Absent, [])
    else
      var before, last := RunCalls(cs[..|cs| - 1]), cs[|cs| - 1];
      var step := Step(before.0, last.limits, last.request);
      (step.0, before.1 + [step.1])
  }

  ghost function WithoutExpiry(cs: seq<Call>): (ns: seq<Call>)
    ensures |ns| == |cs|
    ensures forall i :: 0 <= i < |cs| ==> ns[i] == Call(cs[i].limits, cs[i].request.(expired := false))
  {
    seq(|cs|, i requires 0 <= i < |cs| => Call(cs[i].limits, cs[i].request.(expired := false)))
  }

  /** In the life of a key written under the limits `l`, an empty bucket fills up under the limits `next`. */
  ghost predicate Outlasts(l: Limits, next: Limits)
    requires ValidLimits(l)
  {
    TimeToLive(l) * next.rate >= next.burst * 1000
  }

  lemma SameLimitsOutlast(l: Limits)
    requires ValidLimits(l)
    ensures Outlasts(l, l)
  {
    ExpiredIsFull(Stored(0.0, 0, TimeToLive(l)), l, TimeToLive(l));
    assert Accrued(TimeToLive(l), l.rate) == (TimeToLive(l) * l.rate) as real / 1000.0;
  }

  lemma FullWhenOutlasted(b: Bucket, l: Limits, next: Limits, r: Request)
    requires ValidLimits(l) && ValidLimits(next) && ValidBucket(b, l) && Outlasts(l, next)
    ensures Step(b, next, r) == Step(b, next, r.(expired := false))
  {
    if MayExpire(b, r.now) {
      var delta := r.now - b.ts;
      assert (delta - TimeToLive(l)) * next.rate >= 0;
      assert delta as real * next.rate as real == (delta * next.rate) as real;
    }
  }

  /** Otherwise one token asked for at the deadline of an emptied bucket tells whether the key was kept. */
  lemma ExpiryShows(l: Limits, next: Limits, ts: int)
    requires ValidLimits(l) && ValidLimits(next) && !Outlasts(l, next)
    ensures var b, r := Stored(0.0, ts, ts + TimeToLive(l)), Request(ts + TimeToLive(l), 1, true);
      Step(b, next, r) != Step(b, next, r.(expired := false))
  {
    var b, now := Stored(0.0, ts, ts + TimeToLive(l)), ts + TimeToLive(l);
    var short := TimeToLive(l) * next.rate;
    assert TimeToLive(l) as real * next.rate as real == short as real;
    assert Refilled(b, next, now) == short as real / 1000.0 < next.burst as real;
    assert Accrued(0, next.rate) == 0.0 && Refilled(Absent, next, now) == next.burst as real;
  }

  lemma {:induction false} RunCallsKeepBounds(cs: seq<Call>)
    requires ValidCalls(cs) && cs != []
    ensures ValidBucket(RunCalls(cs).0, cs[|cs| - 1].limits)
  {
    var before, last := cs[..|cs| - 1], cs[|cs| - 1];
    if before != [] {
      RunCallsKeepBounds(before);
    }
    StepHasBounds(RunCalls(before).0, last.limits, last.request);
  }

  lemma StepHasBounds(b: Bucket, l: Limits, r: Request)
    requires ValidLimits(l) && r.requested > 0 && (b.Stored? ==> b.tokens >= 0.0)
    ensures ValidBucket(Step(b, l, r).0, l)
  {
    if b.Stored? { RefillGrows(Max(0, r.now - b.ts), l.rate); }
  }

  ghost predicate ValidChain(ls: seq<Limits>) {
    forall i :: 0 <= i < |ls| ==> ValidLimits(ls[i])
  }

  /** The limits each outlast those that follow them. */
  ghost predicate EachOutlasts(ls: seq<Limits>)
    requires ValidChain(ls)
  {
    forall i, j :: 0 <= i < j == i + 1 < |ls| ==> Outlasts(ls[i], ls[j])
  }

  ghost predicate MadeUnder(cs: seq<Call>, ls: seq<Limits>) {
    |cs| <= |ls| && forall i :: 0 <= i < |cs| ==> cs[i].limits == ls[i]
  }

  /** Whatever is asked for, and when, the calls made under these limits, in this order, go as if no key expired. */
  ghost predicate ExpiryNeverShows(ls: seq<Limits>) {
    forall cs :: ValidCalls(cs) && MadeUnder(cs, ls) ==> RunCalls(cs) == RunCalls(WithoutExpiry(cs))
  }

  lemma {:induction false} CallsIgnoreExpiry(cs: seq<Call>, ls: seq<Limits>)
    requires ValidChain(ls) && EachOutlasts(ls) && ValidCalls(cs) && MadeUnder(cs, ls)
    ensures RunCalls(cs) == RunCalls(WithoutExpiry(cs))
  {
    if cs != [] {
      var n := |cs| - 1;
      CallsIgnoreExpiry(cs[..n], ls);
      assert WithoutExpiry(cs)[..n] == WithoutExpiry(cs[..n]);
      if n > 0 {
        RunCallsKeepBounds(cs[..n]);
        assert Outlasts(ls[n - 1], ls[n]);
        FullWhenOutlasted(RunCalls(cs[..n]).0, ls[n - 1], ls[n], cs[n].request);
      }
    }
  }

  function EndOf(cs: seq<Call>): int {
    if cs == [] then 0 else cs[|cs| - 1].request.now
  }

  /** Each call comes when the bucket is full again, and takes all its tokens. */
  ghost function Draining(ls: seq<Limits>): (cs: seq<Call>)
    requires ValidChain(ls)
    ensures ValidCalls(cs) && MadeUnder(cs, ls) && |cs| == |ls|
    ensures forall i :: 0 <= i < |cs| ==> !cs[i].request.expired
  {
    if ls == [] then []
    else
      var before, l := Draining(ls[..|ls| - 1]), ls[|ls| - 1];
      before + [Call(l, Request(EndOf(before) + l.burst * 1000, l.burst, false))]
  }

  ghost predicate Emptied(b: Bucket, l: Limits, now: int)
    requires ValidLimits(l)
  {
    b == Stored(0.0, now, now + TimeToLive(l))
  }

  lemma {:induction false} DrainingEmpties(ls: seq<Limits>)
    requires ValidChain(ls) && ls != []
    ensures Emptied(RunCalls(Draining(ls)).0, ls[|ls| - 1], EndOf(Draining(ls)))
  {
    var init, l := ls[..|ls| - 1], ls[|ls| - 1];
    var before := Draining(init);
    var cs := before + [Call(l, Request(EndOf(before) + l.burst * 1000, l.burst, false))];
    assert cs[..|cs| - 1] == before;
    if init != [] { DrainingEmpties(init); }
    DrainedAtOnce(RunCalls(before).0, l, EndOf(before));
  }

  lemma DrainedAtOnce(b: Bucket, l: Limits, from: int)
    requires ValidLimits(l) && (b.Stored? ==> b.tokens == 0.0 && b.ts == from)
    ensures var now := from + l.burst * 1000;
      Emptied(Step(b, l, Request(now, l.burst, false)).0, l, now)
  {
    assert Accrued(0, l.rate) == 0.0;
    AccruesABurst(l.burst * 1000, l.rate);
  }

  /** At one token a second or more. */
  lemma AccruesABurst(delta: int, rate: int)
    requires delta > 0 && rate > 0
    ensures Accrued(delta, rate) >= delta as real / 1000.0
  {
    assert delta * (rate - 1) >= 0;
    assert delta as real * rate as real == (delta * rate) as real;
  }

  /** Expiry never shows, under limits that change from call to call, exactly when each outlasts the next. */
  lemma ExpiryNeverShowsIffEachOutlasts(ls: seq<Limits>)
    requires ValidChain(ls)
    ensures ExpiryNeverShows(ls) <==> EachOutlasts(ls)
  {
    if EachOutlasts(ls) {
      forall cs | ValidCalls(cs) && MadeUnder(cs, ls) ensures RunCalls(cs) == RunCalls(WithoutExpiry(cs)) {
        CallsIgnoreExpiry(cs, ls);
      }
    } else {
      var i, j :| 0 <= i < j == i + 1 < |ls| && !Outlasts(ls[i], ls[j]);
      ShownAfter(ls, j);
    }
  }

  lemma ShownAfter(ls: seq<Limits>, n: nat)
    requires ValidChain(ls) && 0 < n < |ls| && !Outlasts(ls[n - 1], ls[n])
    ensures !ExpiryNeverShows(ls)
  {
    var drained := Draining(ls[..n]);
    var ts := EndOf(drained);
    DrainingEmpties(ls[..n]);
    ExpiryShows(ls[n - 1], ls[n], ts);
    var call := Call(ls[n], Request(ts + TimeToLive(ls[n - 1]), 1, true));
    LastStepShows(drained, call, call.(request := call.request.(expired := false)));
    ShownByRun(drained, call, ls);
  }

  lemma {:induction false} ShownByRun(cs: seq<Call>, call: Call, ls: seq<Limits>)
    requires ValidCalls(cs + [call]) && MadeUnder(cs + [call], ls)
    requires forall i :: 0 <= i < |cs| ==> !cs[i].request.expired
    requires ValidCalls(cs + [call.(request := call.request.(expired := false))])
    requires RunCalls(cs + [call]) != RunCalls(cs + [call.(request := call.request.(expired := false))])
    ensures !ExpiryNeverShows(ls)
  {
    assert WithoutExpiry(cs + [call]) == cs + [call.(request := call.request.(expired := false))];
  }

  lemma {:induction false} LastStepShows(cs: seq<Call>, call: Call, other: Call)
    requires ValidCalls(cs + [call]) && ValidCalls(cs + [other]) && ValidCalls(cs)
    requires ValidLimits(call.limits) && ValidLimits(other.limits)
    requires call.request.requested > 0 && other.request.requested > 0
    requires Step(RunCalls(cs).0, call.limits, call.request) != Step(RunCalls(cs).0, other.limits, other.request)
    ensures RunCalls(cs + [call]) != RunCalls(cs + [other])
  {
    RunCallsSnoc(cs, call);
    RunCallsSnoc(cs, other);
    assert RunCalls(cs + [call]).1[|cs|] == Step(RunCalls(cs).0, call.limits, call.request).1;
    assert RunCalls(cs + [other]).1[|cs|] == Step(RunCalls(cs).0, other.limits, other.request).1;
  }

  lemma {:induction false} RunCallsSnoc(cs: seq<Call>, call: Call)
    requires ValidCalls(cs) && ValidLimits(call.limits) && call.request.requested > 0
    ensures ValidCalls(cs + [call])
    ensures var step := Step(RunCalls(cs).0, call.limits, call.request);
      RunCalls(cs + [call]) == (step.0, RunCalls(cs).1 + [step.1])
  {
    assert (cs + [call])[..|cs|] == cs;
  }

  // ---------- How much is granted ----------

  function Granted(rs: seq<Request>, decisions: seq<bool>): int
    requires |rs| == |decisions|
    decreases |rs|
  {
    if rs == [] then 0
    else (if decisions[0] then rs[0].requested else 0) + Granted(rs[1..], decisions[1..])
  }

  /** The time by which the clock moves forward over the requests, backward steps not subtracted. */
  function Forward(from: int, rs: seq<Request>): int
    decreases |rs|
  {
    if rs == [] then 0 else Max(0, rs[0].now - from) + Forward(rs[0].now, rs[1..])
  }

  function Spent(r: Request, allowed: bool): int {
    if allowed then r.requested else 0
  }

  /** What one request takes and leaves comes from the tokens before it and what has accrued. */
  lemma StepSpends(b: Bucket, l: Limits, r: Request)
    requires ValidLimits(l) && ValidBucket(b, l) && b.Stored?
    ensures var first := Step(b, l, r);
      first.0.ts == r.now
      && first.0.tokens + Spent(r, first.1) as real <= b.tokens + Accrued(Max(0, r.now - b.ts), l.rate)
  {
    StepIgnoresExpiry(b, l, r);
  }

  lemma AccruedAdds(a: int, b: int, rate: int)
    ensures Accrued(a + b, rate) == Accrued(a, rate) + Accrued(b, rate)
  {
    assert (a + b) as real == a as real + b as real;
  }

  lemma {:induction false} RunCons(b: Bucket, l: Limits, rs: seq<Request>)
    requires ValidLimits(l) && rs != []
    ensures var first, all := Step(b, l, rs[0]), Run(b, l, rs);
      && all.0 == Run(first.0, l, rs[1..]).0
      && Granted(rs, all.1) == Spent(rs[0], first.1) + Granted(rs[1..], Run(first.0, l, rs[1..]).1)
  {
    assert Run(b, l, rs).1[1..] == Run(Step(b, l, rs[0]).0, l, rs[1..]).1;
  }

  lemma {:induction false} GrantedWithin(b: Bucket, l: Limits, rs: seq<Request>)
    requires ValidLimits(l) && ValidBucket(b, l) && ValidRequests(rs) && b.Stored?
    ensures var r := Run(b, l, rs);
      r.0.Stored? && Granted(rs, r.1) as real + r.0.tokens <= b.tokens + Accrued(Forward(b.ts, rs), l.rate)
    decreases |rs|
  {
    if rs == [] {
    } else {
      var next := Step(b, l, rs[0]).0;
      StepSpends(b, l, rs[0]);
      StepKeepsBounds(b, l, rs[0]);
      GrantedWithin(next, l, rs[1..]);
      RunCons(b, l, rs);
      AccruedAdds(Max(0, rs[0].now - b.ts), Forward(rs[0].now, rs[1..]), l.rate);
    }
  }

  /** Whatever the clock does, the requests from the first one on are granted no more than the
      burst plus what accrues in the time the clock has moved forward since the first one. */
  lemma {:induction false} GrantsAreBounded(b: Bucket, l: Limits, rs: seq<Request>)
    requires ValidLimits(l) && ValidBucket(b, l) && ValidRequests(rs) && rs != []
    ensures Granted(rs, Run(b, l, rs).1) as real <= l.burst as real + Accrued(Forward(rs[0].now, rs[1..]), l.rate)
  {
    var first := Step(b, l, rs[0]);
    StepKeepsBounds(b, l, rs[0]);
    GrantedWithin(first.0, l, rs[1..]);
    RunKeepsBounds(first.0, l, rs[1..]);
    RunCons(b, l, rs);
    assert first.0.tokens + Spent(rs[0], first.1) as real <= l.burst as real;
  }

  lemma {:induction false} RunKeepsBounds(b: Bucket, l: Limits, rs: seq<Request>)
    requires ValidLimits(l) && ValidBucket(b, l) && ValidRequests(rs)
    ensures ValidBucket(Run(b, l, rs).0, l)
    decreases |rs|
  {
    if rs != [] {
      StepKeepsBounds(b, l, rs[0]);
      RunKeepsBounds(Step(b, l, rs[0]).0, l, rs[1..]);
    }
  }

  predicate Nondecreasing(rs: seq<Request>) {
    forall i, j :: 0 <= i < j < |rs| ==> rs[i].now <= rs[j].now
  }

  lemma {:induction false} ForwardIsElapsed(from: int, rs: seq<Request>)
    requires Nondecreasing(rs) && rs != [] && from <= rs[0].now
    ensures Forward(from, rs) == rs[|rs| - 1].now - from
    decreases |rs|
  {
    if |rs| > 1 {
      ForwardIsElapsed(rs[0].now, rs[1..]);
    } else {
      assert Forward(rs[0].now, []) == 0;
    }
  }

  lemma ForwardFromFirst(rs: seq<Request>)
    requires Nondecreasing(rs) && rs != []
    ensures Forward(rs[0].now, rs[1..]) == rs[|rs| - 1].now - rs[0].now
  {
    if |rs| > 1 { ForwardIsElapsed(rs[0].now, rs[1..]); }
  }

  /** With a clock that never goes back, that time is the time elapsed. */
  lemma {:induction false} GrantsAreBoundedByElapsedTime(b: Bucket, l: Limits, rs: seq<Request>)
    requires ValidLimits(l) && ValidBucket(b, l) && ValidRequests(rs) && rs != [] && Nondecreasing(rs)
    ensures Granted(rs, Run(b, l, rs).1) as real
         <= l.burst as real + Accrued(rs[|rs| - 1].now - rs[0].now, l.rate)
  {
    GrantsAreBounded(b, l, rs);
    ForwardFromFirst(rs);
  }

  function Times(rs: seq<Request>): (ts: seq<int>)
    ensures |ts| == |rs| && forall i :: 0 <= i < |ts| ==> ts[i] == rs[i].now
  {
    seq(|rs|, i requires 0 <= i < |rs| => rs[i].now)
  }

  ghost predicate WithinElapsed(b: Bucket, l: Limits, rs: seq<Request>)
    requires ValidLimits(l) && rs != []
  {
    Granted(rs, Run(b, l, rs).1) as real <= l.burst as real + Accrued(rs[|rs| - 1].now - rs[0].now, l.rate)
  }

  /** Whatever the limits, the bucket and the requests, as long as they come at these times. */
  ghost predicate AlwaysWithinElapsed(times: seq<int>) {
    forall b, l, rs: seq<Request> ::
      ValidLimits(l) && ValidBucket(b, l) && ValidRequests(rs) && rs != [] && Times(rs) == times ==> WithinElapsed(b, l, rs)
  }

  ghost predicate NeverGoesBack(times: seq<int>) {
    forall i, j :: 0 <= i < j < |times| ==> times[i] <= times[j]
  }

  /** At each time, a request for all that has come since the time before, or for one token when none has. */
  function Greedy(from: int, times: seq<int>): (rs: seq<Request>)
    ensures |rs| == |times| && ValidRequests(rs)
    ensures forall i :: 0 <= i < |rs| ==> rs[i].now == times[i]
    decreases |times|
  {
    if times == [] then []
    else [Request(times[0], if times[0] > from then times[0] - from else 1, false)] + Greedy(times[0], times[1..])
  }

  lemma {:induction false} ForwardIsPositive(from: int, rs: seq<Request>)
    ensures Forward(from, rs) >= 0
    decreases |rs|
  {
    if rs != [] { ForwardIsPositive(rs[0].now, rs[1..]); }
  }

  lemma GreedyStep(b: Bucket, l: Limits, now: int)
    requires l.rate == 1000 && l.burst > 0 && b.Stored? && b.tokens == 0.0 && now - b.ts <= l.burst
    ensures var r := Request(now, if now > b.ts then now - b.ts else 1, false);
      var s := Step(b, l, r);
      s.0.Stored? && s.0.tokens == 0.0 && s.0.ts == now && s.1 == (now > b.ts)
  {
    var delta := Max(0, now - b.ts);
    assert Accrued(delta, 1000) == delta as real;
  }

  /** With one token a millisecond and room enough, an emptied bucket grants greedy requests exactly the time
      the clock moves forward. */
  lemma {:induction false} GreedyTakesAll(b: Bucket, l: Limits, times: seq<int>)
    requires l.rate == 1000 && l.burst > 0 && b.Stored? && b.tokens == 0.0
    requires Forward(b.ts, Greedy(b.ts, times)) <= l.burst
    ensures var rs := Greedy(b.ts, times);
      Granted(rs, Run(b, l, rs).1) == Forward(b.ts, rs)
    decreases |times|
  {
    if times != [] {
      var rs := Greedy(b.ts, times);
      var rest := Greedy(times[0], times[1..]);
      assert rs[1..] == rest;
      ForwardIsPositive(times[0], rest);
      GreedyStep(b, l, times[0]);
      var first := Step(b, l, rs[0]);
      GreedyTakesAll(first.0, l, times[1..]);
      assert Run(b, l, rs).1 == [first.1] + Run(first.0, l, rest).1;
      assert Run(b, l, rs).1[1..] == Run(first.0, l, rest).1;
    }
  }

  /** The clock moves forward at least as far as it gets, and further when it goes back in between. */
  lemma {:induction false} ForwardCoversElapsed(from: int, rs: seq<Request>)
    ensures rs != [] ==> Forward(from, rs) >= rs[|rs| - 1].now - from
    ensures rs != [] && !NeverGoesBack([from] + Times(rs)) ==> Forward(from, rs) > rs[|rs| - 1].now - from
    decreases |rs|
  {
    if rs != [] {
      var rest := rs[1..];
      ForwardCoversElapsed(rs[0].now, rest);
      ForwardIsPositive(rs[0].now, rest);
      if from <= rs[0].now && NeverGoesBack([rs[0].now] + Times(rest)) {
        OneTimeBefore(from, rs);
      }
    }
  }

  lemma OneTimeBefore(from: int, rs: seq<Request>)
    requires rs != [] && from <= rs[0].now && NeverGoesBack([rs[0].now] + Times(rs[1..]))
    ensures NeverGoesBack([from] + Times(rs))
  {
    var a, b := [from] + Times(rs), [rs[0].now] + Times(rs[1..]);
    assert a == [from] + b;
    forall i, j | 0 <= i < j < |a| ensures a[i] <= a[j] {
      if i == 0 {
        assert a[j] == b[j - 1] && b[0] <= b[j - 1];
      } else {
        assert a[i] == b[i - 1] && a[j] == b[j - 1];
      }
    }
  }

  lemma {:induction false} GreedyMovesFurther(from: int, later: seq<int>)
    requires later != [] && !NeverGoesBack([from] + later)
    ensures Forward(from, Greedy(from, later)) > later[|later| - 1] - from
  {
    var rs := Greedy(from, later);
    assert Times(rs) == later;
    ForwardCoversElapsed(from, rs);
  }

  /** A burst as large as the clock moves, taken at once, and then greedy requests. */
  lemma GreedyBreaksElapsed(times: seq<int>)
    requires times != [] && !NeverGoesBack(times)
    ensures !AlwaysWithinElapsed(times)
  {
    var rest := Greedy(times[0], times[1..]);
    assert [times[0]] + times[1..] == times;
    GreedyMovesFurther(times[0], times[1..]);
    ForwardIsPositive(times[0], rest);
    var l := Limits(1000, Forward(times[0], rest) + 1);
    var rs := [Request(times[0], l.burst, false)] + rest;
    BurstThenGreedy(l, times, rs, rest);
    BurstTimes(l, times, rs, rest);
    NotWithin(l, rs, times[|times| - 1] - times[0], Forward(times[0], rest));
  }

  lemma BurstTimes(l: Limits, times: seq<int>, rs: seq<Request>, rest: seq<Request>)
    requires times != [] && l.burst > 0
    requires rest == Greedy(times[0], times[1..]) && rs == [Request(times[0], l.burst, false)] + rest
    ensures Times(rs) == times && ValidRequests(rs)
    ensures rs[|rs| - 1].now - rs[0].now == times[|times| - 1] - times[0]
  {
  }

  lemma {:induction false} NotWithin(l: Limits, rs: seq<Request>, elapsed: int, forward: int)
    requires ValidLimits(l) && l.rate == 1000 && rs != [] && rs[|rs| - 1].now - rs[0].now == elapsed < forward
    requires Granted(rs, Run(Absent, l, rs).1) == l.burst + forward
    ensures !WithinElapsed(Absent, l, rs)
  {
    assert Accrued(elapsed, 1000) == elapsed as real;
  }

  lemma {:induction false} BurstThenGreedy(l: Limits, times: seq<int>, rs: seq<Request>, rest: seq<Request>)
    requires times != [] && rest == Greedy(times[0], times[1..]) && l == Limits(1000, Forward(times[0], rest) + 1)
    requires l.burst > 0 && rs == [Request(times[0], l.burst, false)] + rest
    ensures Granted(rs, Run(Absent, l, rs).1) == l.burst + Forward(times[0], rest)
  {
    var first := Step(Absent, l, rs[0]);
    assert Accrued(0, l.rate) == 0.0;
    assert first.1 && first.0.tokens == 0.0 && first.0.ts == times[0];
    GreedyTakesAll(first.0, l, times[1..]);
    assert rs[1..] == rest;
    assert Run(Absent, l, rs).1 == [first.1] + Run(first.0, l, rest).1;
    assert Run(Absent, l, rs).1[1..] == Run(first.0, l, rest).1;
  }

  /** The elapsed time bounds the grants, for all limits, buckets and requests at given times, if and only if
      the clock never goes back between them. */
  lemma WithinElapsedIffClockNeverGoesBack(times: seq<int>)
    requires times != []
    ensures AlwaysWithinElapsed(times) <==> NeverGoesBack(times)
  {
    if NeverGoesBack(times) {
      forall b, l, rs: seq<Request>
        | ValidLimits(l) && ValidBucket(b, l) && ValidRequests(rs) && rs != [] && Times(rs) == times
        ensures WithinElapsed(b, l, rs)
      {
        assert forall i :: 0 <= i < |rs| ==> rs[i].now == times[i];
        GrantsAreBoundedByElapsedTime(b, l, rs);
      }
    } else {
      GreedyBreaksElapsed(times);
    }
  }

  /** A small example: two tokens are granted by a bucket of one token in no elapsed time, because the stamp
      is moved back and forth again. */
  lemma BackwardClockGrantsTwice()
    ensures var l, rs := Limits(1, 1), [Request(1000, 1, false), Request(0, 1, false), Request(1000, 1, false)];
      Run(Absent, l, rs).1 == [true, false, true]
      && Granted(rs, Run(Absent, l, rs).1) as real
         > l.burst as real + Accrued(rs[2].now - rs[0].now, l.rate)
  {
    var l, rs := Limits(1, 1), [Request(1000, 1, false), Request(0, 1, false), Request(1000, 1, false)];
    var a := Step(Absent, l, rs[0]);
    var b := Step(a.0, l, rs[1]);
    var c := Step(b.0, l, rs[2]);
    assert a.1 && a.0.tokens == 0.0 && a.0.ts == 1000;
    assert !b.1 && b.0.tokens == 0.0 && b.0.ts == 0;
    assert c.1;
    assert Run(c.0, l, []).1 == [];
    assert rs[1..] == [rs[1], rs[2]] && rs[1..][1..] == [rs[2]];
    assert Run(b.0, l, [rs[2]]).1 == [true];
    assert Run(a.0, l, [rs[1], rs[2]]).1 == [false, true];
    assert Granted([rs[2]], [true]) == 1 && Granted([rs[1], rs[2]], [false, true]) == 1;
  }

  /** A request of at most the burst is granted once the bucket has been idle for the time that
      many tokens take to refill. */
  lemma GrantedAfterIdle(b: Bucket, l: Limits, now: int, requested: int)
    requires ValidLimits(l) && ValidBucket(b, l) && 0 < requested <= l.burst
    requires b.Stored? ==> (now - b.ts) * l.rate >= requested * 1000
    ensures Script(b, l, now, requested).1
  {
    if b.Stored? {
      var delta := now - b.ts;
      assert delta <= 0 ==> delta * l.rate <= 0;
      assert delta as real * l.rate as real == (delta * l.rate) as real;
    }
  }

  /** A request of more than the burst is never granted. */
  lemma NeverMoreThanBurst(b: Bucket, l: Limits, now: int, requested: int)
    requires ValidLimits(l) && requested > l.burst
    ensures !Script(b, l, now, requested).1
  {
  }

  // ---------- What is granted, exactly ----------

  /** A request is granted if and only if it asks for no more than the burst, and what is left and what has come
      since cover it. */
  lemma GrantedIffCovered(b: Bucket, l: Limits, r: Request)
    requires ValidLimits(l) && ValidBucket(b, l)
    ensures Step(b, l, r).1 <==>
      r.requested <= l.burst
      && (b.Stored? ==> b.tokens * 1000.0 + (Max(0, r.now - b.ts) * l.rate) as real >= r.requested as real * 1000.0)
  {
    StepIgnoresExpiry(b, l, r);
    if b.Stored? {
      var delta := Max(0, r.now - b.ts);
      assert delta as real * l.rate as real == (delta * l.rate) as real;
    } else {
      assert Accrued(0, l.rate) == 0.0;
    }
  }

  /** What a request leaves: the tokens there were, and those that came, up to the burst, less what was granted. */
  lemma StepLeavesTheRest(b: Bucket, l: Limits, r: Request)
    requires ValidLimits(l) && ValidBucket(b, l)
    ensures var step := Step(b, l, r);
      && step.0.Stored? && step.0.ts == r.now && step.0.expireAt == r.now + TimeToLive(l)
      && step.0.tokens + (if step.1 then r.requested else 0) as real
         == if b.Stored? && b.tokens + Accrued(Max(0, r.now - b.ts), l.rate) < l.burst as real
            then b.tokens + Accrued(Max(0, r.now - b.ts), l.rate) else l.burst as real
  {
    StepIgnoresExpiry(b, l, r);
    assert Accrued(0, l.rate) == 0.0;
  }

  lemma {:induction false} RunAt(b: Bucket, l: Limits, rs: seq<Request>, k: nat)
    requires ValidLimits(l) && k < |rs|
    ensures var step := Step(Run(b, l, rs[..k]).0, l, rs[k]);
      Run(b, l, rs[..k + 1]).0 == step.0 && Run(b, l, rs).1[k] == step.1
    decreases |rs|
  {
    var next := Step(b, l, rs[0]).0;
    if k == 0 {
      assert rs[..0] == [] && rs[..1] == [rs[0]] && [rs[0]][1..] == [];
      assert Run(next, l, []) == (next, []);
    } else {
      assert rs[..k][1..] == rs[1..][..k - 1] && rs[..k + 1][1..] == rs[1..][..k];
      RunAt(next, l, rs[1..], k - 1);
    }
  }

  /** What the requests from `j` on, before `k`, were granted. */
  function GrantedIn(rs: seq<Request>, decisions: seq<bool>, j: nat, k: nat): int
    requires j <= k <= |rs| == |decisions|
    decreases k
  {
    if j == k then 0 else GrantedIn(rs, decisions, j, k - 1) + if decisions[k - 1] then rs[k - 1].requested else 0
  }

  /** The time by which the clock moves forward from the request at `j` to that at `k`. */
  function ForwardIn(rs: seq<Request>, j: nat, k: nat): int
    requires j <= k < |rs|
    decreases k
  {
    if j == k then 0 else ForwardIn(rs, j, k - 1) + Max(0, rs[k].now - rs[k - 1].now)
  }

  /** What the burst and the rate leave for the request at `k`, over the window that begins with the one at `j`. */
  function Room(l: Limits, rs: seq<Request>, decisions: seq<bool>, j: nat, k: nat): real
    requires j <= k < |rs| == |decisions|
  {
    l.burst as real + Accrued(ForwardIn(rs, j, k), l.rate) - GrantedIn(rs, decisions, j, k) as real
  }

  /** The tokens before a request are the room of the tightest window. */
  lemma {:induction false} TokensAreRoom(l: Limits, rs: seq<Request>, k: nat) returns (tightest: nat)
    requires ValidLimits(l) && ValidRequests(rs) && k < |rs|
    ensures var b, ds := Run(Absent, l, rs[..k]).0, Run(Absent, l, rs).1;
      && ValidBucket(b, l)
      && tightest <= k && Refilled(b, l, rs[k].now) == Room(l, rs, ds, tightest, k)
      && forall j :: 0 <= j <= k ==> Refilled(b, l, rs[k].now) <= Room(l, rs, ds, j, k)
    decreases k
  {
    var ds := Run(Absent, l, rs).1;
    assert Accrued(0, l.rate) == 0.0;
    RunKeepsBounds(Absent, l, rs[..k]);
    if k == 0 {
      tightest := 0;
      assert rs[..0] == [];
    } else {
      var before := TokensAreRoom(l, rs, k - 1);
      var b := Run(Absent, l, rs[..k - 1]).0;
      RunAt(Absent, l, rs, k - 1);
      StepIgnoresExpiry(b, l, rs[k - 1]);
      RoomsOneLater(l, rs, ds, k);
      tightest := if Refilled(Run(Absent, l, rs[..k]).0, l, rs[k].now) == l.burst as real then k else before;
    }
  }

  lemma RoomsOneLater(l: Limits, rs: seq<Request>, decisions: seq<bool>, k: nat)
    requires 0 < k < |rs| == |decisions|
    ensures forall j :: 0 <= j < k ==>
      Room(l, rs, decisions, j, k)
      == Room(l, rs, decisions, j, k - 1) + Accrued(Max(0, rs[k].now - rs[k - 1].now), l.rate)
       - (if decisions[k - 1] then rs[k - 1].requested else 0) as real
  {
    forall j | 0 <= j < k
      ensures Accrued(ForwardIn(rs, j, k), l.rate)
           == Accrued(ForwardIn(rs, j, k - 1), l.rate) + Accrued(Max(0, rs[k].now - rs[k - 1].now), l.rate)
    {
      AccruedAdds(ForwardIn(rs, j, k - 1), Max(0, rs[k].now - rs[k - 1].now), l.rate);
    }
  }

  /** With the request at `k`, the window from `j` is granted no more than the burst and what comes in its time. */
  ghost predicate WindowAllows(l: Limits, rs: seq<Request>, decisions: seq<bool>, j: nat, k: nat)
    requires j <= k < |rs| == |decisions|
  {
    (GrantedIn(rs, decisions, j, k) + rs[k].requested) as real <= l.burst as real + Accrued(ForwardIn(rs, j, k), l.rate)
  }

  lemma AllowsIffRoom(l: Limits, rs: seq<Request>, decisions: seq<bool>, j: nat, k: nat)
    requires j <= k < |rs| == |decisions|
    ensures WindowAllows(l, rs, decisions, j, k) <==> rs[k].requested as real <= Room(l, rs, decisions, j, k)
  {
  }

  /** Over every run of a new key: a request is granted if and only if every window allows it that begins with an
      earlier request or with itself. */
  lemma {:induction false} GrantedIffEveryWindowAllows(l: Limits, rs: seq<Request>, k: nat)
    requires ValidLimits(l) && ValidRequests(rs) && k < |rs|
    ensures var ds := Run(Absent, l, rs).1;
      ds[k] <==> forall j :: 0 <= j <= k ==> WindowAllows(l, rs, ds, j, k)
  {
    var b, ds := Run(Absent, l, rs[..k]).0, Run(Absent, l, rs).1;
    var tightest := TokensAreRoom(l, rs, k);
    RunAt(Absent, l, rs, k);
    StepIgnoresExpiry(b, l, rs[k]);
    GrantedByRoom(l, rs, ds, k, tightest, Refilled(b, l, rs[k].now), ds[k]);
  }

  lemma GrantedByRoom(l: Limits, rs: seq<Request>, ds: seq<bool>, k: nat, tightest: nat, tokens: real, granted: bool)
    requires tightest <= k < |rs| == |ds| && granted == (tokens >= rs[k].requested as real)
    requires tokens == Room(l, rs, ds, tightest, k) && forall j :: 0 <= j <= k ==> tokens <= Room(l, rs, ds, j, k)
    ensures granted <==> forall j :: 0 <= j <= k ==> WindowAllows(l, rs, ds, j, k)
  {
    forall j | 0 <= j <= k
      ensures WindowAllows(l, rs, ds, j, k) <==> rs[k].requested as real <= Room(l, rs, ds, j, k)
    {
      AllowsIffRoom(l, rs, ds, j, k);
    }
  }

  lemma {:induction false} NotMoreThanAsked(rs: seq<Request>, decisions: seq<bool>, j: nat, k: nat)
    requires j <= k <= |rs| == |decisions| && ValidRequests(rs)
    ensures GrantedIn(rs, decisions, j, k) <= GrantedIn(rs, seq(|rs|, _ => true), 0, k)
    decreases k
  {
    if j < k {
      NotMoreThanAsked(rs, decisions, j, k - 1);
    } else {
      AskedIsPositive(rs, k);
    }
  }

  lemma {:induction false} AskedIsPositive(rs: seq<Request>, k: nat)
    requires k <= |rs| && ValidRequests(rs)
    ensures GrantedIn(rs, seq(|rs|, _ => true), 0, k) >= 0
    decreases k
  {
    if k > 0 { AskedIsPositive(rs, k - 1); }
  }

  /** A new key grants all requests that add up to no more than the burst, whatever their times. */
  lemma {:induction false} BurstIsGranted(l: Limits, rs: seq<Request>, k: nat)
    requires ValidLimits(l) && ValidRequests(rs) && k < |rs|
    requires GrantedIn(rs, seq(|rs|, _ => true), 0, k + 1) <= l.burst
    ensures Run(Absent, l, rs).1[k]
  {
    var ds := Run(Absent, l, rs).1;
    forall j | 0 <= j <= k ensures WindowAllows(l, rs, ds, j, k) {
      NotMoreThanAsked(rs, ds, j, k);
      MovedIsPositive(rs, j, k);
      RefillGrows(ForwardIn(rs, j, k), l.rate);
    }
    GrantedIffEveryWindowAllows(l, rs, k);
  }

  lemma {:induction false} MovedIsPositive(rs: seq<Request>, j: nat, k: nat)
    requires j <= k < |rs|
    ensures ForwardIn(rs, j, k) >= 0
    decreases k
  {
    if j < k { MovedIsPositive(rs, j, k - 1); }
  }

  /** A key lives twice as long as an empty bucket takes to fill up, counted in whole milliseconds. */
  lemma LifeIsTwiceTheFill(l: Limits) returns (fill: int)
    requires ValidLimits(l)
    ensures TimeToLive(l) == 2 * fill
    ensures (fill - 1) * l.rate < l.burst * 1000 <= fill * l.rate
  {
    var exact := l.burst as real / l.rate as real * 1000.0;
    fill := Ceil(exact);
    assert (fill - 1) as real < exact <= fill as real;
    assert l.burst as real / l.rate as real * l.rate as real == l.burst as real;
    assert exact * l.rate as real == l.burst as real * 1000.0;
    ScaleUp(fill as real, exact, l.rate as real);
    assert (exact - (fill - 1) as real) * l.rate as real > 0.0;
    assert fill as real * l.rate as real == (fill * l.rate) as real;
    assert (fill - 1) as real * l.rate as real == ((fill - 1) * l.rate) as real;
  }

  // ---------- The limiter ----------

  datatype Answer = Allowed | Limited | Rejected

  class Limiter {
    const prefix: string
    var store: map<string, Bucket>  // the keys Redis holds

    constructor (prefix: string)
      ensures this.prefix == prefix && store == map[]
    {
      this.prefix, store := prefix, map[];
    }

    function RedisKey(key: string): string {
      if prefix == "" then key else prefix + ":" + key
    }

    function Find(key: string): Bucket
      reads this
    {
      if RedisKey(key) in store then store[RedisKey(key)] else Absent
    }

    /** AllowN at time `now`; `expired` tells whether Redis has dropped the key, if it may. */
    method AllowN(key: string, rate: int, burst: int, n: int, now: int, expired: bool) returns (answer: Answer)
      modifies this
      ensures answer == Rejected <==> key == "" || rate <= 0 || burst <= 0 || n <= 0
      ensures answer == Rejected ==> store == old(store)
      ensures answer != Rejected ==>
        var k := if prefix == "" then key else prefix + ":" + key;
        var b := if k in old(store) then old(store)[k] else Absent;
        var r := Step(b, Limits(rate, burst), Request(now, n, expired));
        store == old(store)[k := r.0] && (answer == Allowed <==> r.1)
    {
      if key == "" { return Rejected; }
      if rate <= 0 || burst <= 0 || n <= 0 { return Rejected; }
      var data := Find(key);
      if expired && MayExpire(data, now) { data := Absent; }
      var tokens, ts := burst as real, now;
      if data.Stored? { tokens, ts := data.tokens, data.ts; }
      var delta := Max(0, now - ts);
      tokens := Min(burst as real, tokens + Accrued(delta, rate));
      answer := Limited;
      if tokens >= n as real {
        tokens := tokens - n as real;
        answer := Allowed;
      }
      store := store[RedisKey(key) := Stored(tokens, now, now + TimeToLive(Limits(rate, burst)))];
    }

    lemma KeysStayApart(a: string, b: string)
      ensures RedisKey(a) == RedisKey(b) <==> a == b
    {
      if prefix != "" {
        var n := |prefix| + 1;
        assert RedisKey(a)[n..] == a && RedisKey(b)[n..] == b;
      }
    }

    /** The next request for this key finds a full bucket, and no other key is touched. */
    method Reset(key: string)
      modifies this
      ensures Find(key) == Absent
      ensures forall other :: other != key ==> Find(other) == old(Find(other))
      ensures store == old(store) - {if prefix == "" then key else prefix + ":" + key}
    {
      forall other ensures RedisKey(other) == RedisKey(key) <==> other == key {
        KeysStayApart(other, key);
      }
      store := store - {RedisKey(key)};
    }
  }
}
