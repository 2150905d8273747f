/** The circuit breaker of framework/circuit/circuit.go, as the two atomic steps Execute takes around
    a protected call: `allow` before it and `record` after it, interleaved in any order between
    concurrent callers.  The failure rate is computed with reals. */
module CircuitBreaker {

  datatype Config = Config(threshold: real, minRequests: int, window: int, cooldown: int, halfOpenMax: int)

  const SECOND: int := 1_000_000_000

  function DefaultConfig(): Config {
    Config(0.5, 10, 10 * SECOND, 10 * SECOND, 1)
  }

  function Normalize(c: Config): (r: Config)
    ensures ValidConfig(r)
    ensures ValidConfig(c) ==> r == c
    ensures r.threshold == if 0.0 < c.threshold <= 1.0 then c.threshold else 0.5
    ensures r.minRequests == if c.minRequests > 0 then c.minRequests else 10
    ensures r.window == if c.window > 0 then c.window else 10_000_000_000
    ensures r.cooldown == if c.cooldown > 0 then c.cooldown else 10_000_000_000
    ensures r.halfOpenMax == if c.halfOpenMax > 0 then c.halfOpenMax else 1
  {
    var d := DefaultConfig();
    Config(
      if c.threshold <= 0.0 || c.threshold > 1.0 then d.threshold else c.threshold,
      if c.minRequests <= 0 then d.minRequests else c.minRequests,
      if c.window <= 0 then d.window else c.window,
      if c.cooldown <= 0 then d.cooldown else c.cooldown,
      if c.halfOpenMax <= 0 then d.halfOpenMax else c.halfOpenMax)
  }

  predicate ValidConfig(c: Config) {
    0.0 < c.threshold <= 1.0 && c.minRequests > 0 && c.window > 0 && c.cooldown > 0 && c.halfOpenMax > 0
  }

  datatype Phase = Closed | Open | HalfOpen

  datatype State = State(phase: Phase, windowAt: int, success: nat, failure: nat, openedAt: int, halfOK: nat)

  function Roll(b: State, now: int): State {
    b.(windowAt := now, success := 0, failure := 0)
  }

  function Allow(c: Config, b: State, now: int): (State, bool) {
    match b.phase
    case Closed => (if now - b.windowAt >= c.window then Roll(b, now) else b, true)
    case Open =>
      if now - b.openedAt >= c.cooldown then (State(HalfOpen, now, 0, 0, b.openedAt, 0), true) else (b, false)
    case HalfOpen =>
      if b.halfOK < c.halfOpenMax then (b.(halfOK := b.halfOK + 1), true) else (b, false)
  }

  function Evaluate(c: Config, b: State, now: int): State
    requires ValidConfig(c)
  {
    var requests := b.success + b.failure;
    if requests < c.minRequests then Roll(b, now)
    else if b.failure as real / requests as real >= c.threshold then b.(phase := Open, openedAt := now)
    else Roll(b, now)
  }

  function Counted(b: State, success: bool): State {
    if success then b.(success := b.success + 1) else b.(failure := b.failure + 1)
  }

  function Record(c: Config, b: State, success: bool, now: int): State
    requires ValidConfig(c)
  {
    match b.phase
    case Closed =>
      var n := Counted(b, success);
      if now - n.windowAt >= c.window || n.success + n.failure >= c.minRequests then Evaluate(c, n, now) else n
    case Open => b
    case HalfOpen =>
      if success then b.(phase := Closed, windowAt := now, success := 0, failure := 0)
      else b.(phase := Open, openedAt := now)
  }

  // ---------- Single steps ----------

  /** A closed breaker opens on an outcome if and only if that outcome completes the minimum number
      of requests and the failures among them reach the threshold. */
  lemma OpensExactlyAtMinRequests(c: Config, b: State, success: bool, now: int)
    requires ValidConfig(c) && b.phase == Closed && b.success + b.failure < c.minRequests
    ensures var failures := b.failure + if success then 0 else 1; var r := Record(c, b, success, now);
      && (r.phase == Open <==>
            b.success + b.failure + 1 == c.minRequests && failures as real >= c.threshold * c.minRequests as real)
      && (r.phase == Open ==> r.openedAt == now && r.failure == failures && r.success + r.failure == c.minRequests)
      && (r.phase != Open ==>
            if b.success + b.failure + 1 == c.minRequests || now >= b.windowAt + c.window
            then r == State(Closed, now, 0, 0, b.openedAt, b.halfOK)
            else r == b.(success := b.success + if success then 1 else 0, failure := failures))
  {
    RateAsProduct(Counted(b, success).failure, c.minRequests, c.threshold);
  }

  /** What a closed breaker has counted is forgotten when its window is over, by the next call or by the
      next outcome that does not open it. */
  lemma WindowIsForgotten(c: Config, b: State, success: bool, now: int)
    requires ValidConfig(c) && b.phase == Closed && now >= b.windowAt + c.window
    ensures Allow(c, b, now) == (State(Closed, now, 0, 0, b.openedAt, b.halfOK), true)
    ensures var r := Record(c, b, success, now);
      r.phase == Open || r == State(Closed, now, 0, 0, b.openedAt, b.halfOK)
  {
  }

  lemma RateAsProduct(failure: nat, requests: int, threshold: real)
    requires requests > 0
    ensures failure as real / requests as real >= threshold <==> failure as real >= threshold * requests as real
  {
    var q, n := failure as real / requests as real, requests as real;
    assert q * n == failure as real;
    assert q >= threshold ==> q * n >= threshold * n;
    assert q < threshold ==> q * n < threshold * n;
  }

  /** An open breaker admits a call if and only if the cooldown has passed since it opened. */
  lemma OpenAdmitsAfterCooldown(c: Config, b: State, now: int)
    requires b.phase == Open
    ensures Allow(c, b, now).1 <==> now >= b.openedAt + c.cooldown
    ensures Allow(c, b, now).0 == if Allow(c, b, now).1 then State(HalfOpen, now, 0, 0, b.openedAt, 0) else b
  {
  }

  // ---------- Runs ----------

  /** Calls are numbered in the order in which they are admitted. */
  datatype Event = Ask(now: int) | Report(call: nat, success: bool, now: int)

  /** out: the admitted calls that have not reported; admitted: how many there were; opener: the call that
      opened the latest half-open episode. */
  datatype Track = Track(b: State, out: set<nat>, admitted: nat, opener: nat)

  function Next(c: Config, t: Track, e: Event): Track
    requires ValidConfig(c)
  {
    match e
    case Ask(now) =>
      var r := Allow(c, t.b, now);
      if r.1 then Track(r.0, t.out + {t.admitted}, t.admitted + 1, if t.b.phase == Open then t.admitted else t.opener)
      else t.(b := r.0)
    case Report(call, success, now) =>
      // Only an admitted call reports, and only once.
      if call !in t.out then t else t.(b := Record(c, t.b, success, now), out := t.out - {call})
  }

  function Admits(c: Config, t: Track, e: Event): bool {
    e.Ask? && Allow(c, t.b, e.now).1
  }

  function Run(c: Config, t: Track, es: seq<Event>): Track
    requires ValidConfig(c)
    decreases |es|
  {
    if es == [] then t else Run(c, Next(c, t, es[0]), es[1..])
  }

  function Admitted(c: Config, t: Track, es: seq<Event>): nat
    requires ValidConfig(c)
    decreases |es|
  {
    if es == [] then 0 else (if Admits(c, t, es[0]) then 1 else 0) + Admitted(c, Next(c, t, es[0]), es[1..])
  }

  /** A closed breaker has counted fewer outcomes than it evaluates; an open one keeps the counts
      that opened it, or none when a trial call did; a half-open one is waiting for all its trial calls. */
  ghost predicate Inv(c: Config, t: Track) {
    (forall x :: x in t.out ==> x < t.admitted) &&
    match t.b.phase
    case Closed => t.b.success + t.b.failure < c.minRequests
    case Open =>
      || (t.b.success == 0 && t.b.failure == 0)
      || (t.b.success + t.b.failure == c.minRequests && t.b.failure as real >= c.threshold * c.minRequests as real)
    case HalfOpen =>
      && t.b.success == 0 && t.b.failure == 0 && t.b.halfOK <= c.halfOpenMax
      && t.admitted == t.opener + 1 + t.b.halfOK
      && forall x :: t.opener <= x < t.admitted ==> x in t.out
  }

  function Initial(now: int): Track {
    Track(State(Closed, now, 0, 0, 0, 0), {}, 0, 0)
  }

  lemma NextKeepsInv(c: Config, t: Track, e: Event)
    requires ValidConfig(c) && Inv(c, t)
    ensures Inv(c, Next(c, t, e))
  {
    if e.Report? && t.b.phase == Closed {
      OpensExactlyAtMinRequests(c, t.b, e.success, e.now);
    }
  }

  /** The invariant holds after every run of a new breaker. */
  lemma {:induction false} RunKeepsInv(c: Config, now: int, es: seq<Event>)
    requires ValidConfig(c)
    ensures Inv(c, Run(c, Initial(now), es))
  {
    RunKeepsInvFrom(c, Initial(now), es);
  }

  lemma {:induction false} RunKeepsInvFrom(c: Config, t: Track, es: seq<Event>)
    requires ValidConfig(c) && Inv(c, t)
    ensures Inv(c, Run(c, t, es))
    decreases |es|
  {
    if es != [] {
      NextKeepsInv(c, t, es[0]);
      RunKeepsInvFrom(c, Next(c, t, es[0]), es[1..]);
    }
  }

  function Reports(es: seq<Event>, success: bool): nat {
    if es == [] then 0 else (if es[0].Report? && es[0].success == success then 1 else 0) + Reports(es[1..], success)
  }

  /** Every outcome belongs to a call that is out, when each ask is admitted. */
  predicate ReportsAreOwed(out: set<nat>, admitted: nat, es: seq<Event>)
    decreases |es|
  {
    es == []
    || (if es[0].Ask? then ReportsAreOwed(out + {admitted}, admitted + 1, es[1..])
        else es[0].call in out && ReportsAreOwed(out - {es[0].call}, admitted, es[1..]))
  }

  /** Within its window, and short of the minimum, a closed breaker admits every call and counts exactly the
      outcomes reported. */
  lemma {:induction false} ClosedCountsReports(c: Config, t: Track, es: seq<Event>)
    requires ValidConfig(c) && t.b.phase == Closed && ReportsAreOwed(t.out, t.admitted, es)
    requires forall e :: e in es ==> e.now < t.b.windowAt + c.window
    requires t.b.success + t.b.failure + Reports(es, true) + Reports(es, false) < c.minRequests
    ensures Admitted(c, t, es) == |es| - Reports(es, true) - Reports(es, false)
    ensures Run(c, t, es).b
         == t.b.(success := t.b.success + Reports(es, true), failure := t.b.failure + Reports(es, false))
    decreases |es|
  {
    if es != [] {
      var e := es[0];
      assert e in es;
      assert Next(c, t, e).b == if e.Report? then Counted(t.b, e.success) else t.b;
      ClosedCountsReports(c, Next(c, t, es[0]), es[1..]);
    }
  }

  /** While the cooldown lasts, an open breaker admits nothing, whatever late outcomes come in. */
  lemma {:induction false} NothingAdmittedInCooldown(c: Config, t: Track, es: seq<Event>)
    requires ValidConfig(c) && t.b.phase == Open
    requires forall e :: e in es && e.Ask? ==> e.now < t.b.openedAt + c.cooldown
    ensures Admitted(c, t, es) == 0 && Run(c, t, es).b == t.b
    decreases |es|
  {
    if es != [] {
      assert es[0] in es;
      NothingAdmittedInCooldown(c, Next(c, t, es[0]), es[1..]);
    }
  }

  /** How many of the events ask for admission. */
  function Asks(es: seq<Event>): nat {
    if es == [] then 0 else (if es[0].Ask? then 1 else 0) + Asks(es[1..])
  }

  function Min(a: nat, b: nat): nat {
    if a <= b then a else b
  }

  lemma {:induction false} HalfOpenAdmits(c: Config, t: Track, es: seq<Event>)
    requires ValidConfig(c) && t.b.phase == HalfOpen && t.b.halfOK <= c.halfOpenMax
    requires forall e :: e in es ==> e.Ask?
    ensures Admitted(c, t, es) == Min(Asks(es), c.halfOpenMax - t.b.halfOK)
    ensures Run(c, t, es).b.phase == HalfOpen
    decreases |es|
  {
    if es != [] {
      assert es[0] in es;
      HalfOpenAdmits(c, Next(c, t, es[0]), es[1..]);
    }
  }

  /** A half-open episode is opened by a call after the cooldown and ends with the first outcome
      reported.  Of the calls that ask meanwhile it admits as many as configured, besides the one
      that opened it: one more than the configuration's comment says. */
  lemma {:induction false} EpisodeAdmitsOneMore(c: Config, t: Track, first: int, es: seq<Event>)
    requires ValidConfig(c) && t.b.phase == Open && first >= t.b.openedAt + c.cooldown
    requires forall e :: e in es ==> e.Ask?
    ensures Admitted(c, t, [Ask(first)] + es) == Min(Asks([Ask(first)] + es), c.halfOpenMax + 1)
  {
    HalfOpenAdmits(c, Next(c, t, Ask(first)), es);
    assert ([Ask(first)] + es)[1..] == es;
  }

  /** Any outcome ends the episode: a success closes the breaker with an empty window, a failure
      opens it with a new cooldown. */
  lemma OutcomeEndsEpisode(c: Config, b: State, success: bool, now: int)
    requires ValidConfig(c) && b.phase == HalfOpen
    ensures var r := Record(c, b, success, now);
      && (r.phase == Closed <==> success) && (r.phase == Open <==> !success)
      && r == (if success then State(Closed, now, 0, 0, b.openedAt, b.halfOK) else b.(phase := Open, openedAt := now))
      && (!success ==> forall later :: Allow(c, r, later).1 <==> later >= now + c.cooldown)
  {
  }

  /** Who is out while an episode of asks lasts: the calls that were out when it was opened, and all calls
      admitted in it, which are the later numbers. */
  lemma {:induction false} CallsOutInEpisode(c: Config, t: Track, es: seq<Event>)
    requires ValidConfig(c) && Inv(c, t) && t.b.phase == HalfOpen
    requires forall e :: e in es ==> e.Ask?
    ensures var u := Run(c, t, es);
      && u.b.phase == HalfOpen && u.opener == t.opener && u.admitted >= t.admitted
      && forall x :: x in u.out <==> x in t.out || t.admitted <= x < u.admitted
    decreases |es|
  {
    if es != [] {
      assert es[0] in es;
      NextKeepsInv(c, t, es[0]);
      CallsOutInEpisode(c, Next(c, t, es[0]), es[1..]);
    }
  }

  /** The breaker is half open until this report, and not after it. */
  ghost predicate Decides(c: Config, t: Track, first: int, asks: seq<Event>, report: Event)
    requires ValidConfig(c) && report.Report?
  {
    && (forall e :: e in asks ==> e.Ask?)
    && Run(c, Next(c, t, Ask(first)), asks).b.phase == HalfOpen
    && Next(c, Run(c, Next(c, t, Ask(first)), asks), report).b.phase != HalfOpen
  }

  /** The outcome that ends the episode opened by the call number `t.admitted` is that of a call still out: one
      admitted in the episode, or one admitted before that was out when the episode was opened. */
  lemma {:induction false} DecidedByCallOut(c: Config, t: Track, first: int, asks: seq<Event>, report: Event)
    requires ValidConfig(c) && Inv(c, t) && t.b.phase == Open && first >= t.b.openedAt + c.cooldown
    requires report.Report? && forall e :: e in asks ==> e.Ask?
    ensures var u := Run(c, Next(c, t, Ask(first)), asks);
      Decides(c, t, first, asks, report) <==> report.call in t.out || t.admitted <= report.call < u.admitted
  {
    var opening := Next(c, t, Ask(first));
    NextKeepsInv(c, t, Ask(first));
    CallsOutInEpisode(c, opening, asks);
    OutcomeEndsEpisode(c, Run(c, opening, asks).b, report.success, report.now);
  }

  /** After every run: an episode can be decided by the outcome of a call admitted before it if and only if
      some call was still out when the episode was opened. */
  lemma {:induction false} LateOutcomeDecidesIffCallOut(c: Config, start: int, es: seq<Event>, first: int)
    requires ValidConfig(c)
    requires var b := Run(c, Initial(start), es).b; b.phase == Open && first >= b.openedAt + c.cooldown
    ensures var t := Run(c, Initial(start), es);
      (exists asks: seq<Event>, report: Event ::
         report.Report? && report.call < t.admitted && Decides(c, t, first, asks, report)) <==> t.out != {}
  {
    var t := Run(c, Initial(start), es);
    RunKeepsInv(c, start, es);
    if call :| call in t.out {
      DecidedByCallOut(c, t, first, [], Report(call, true, first));
      assert Decides(c, t, first, [], Report(call, true, first));
    }
    forall asks: seq<Event>, report: Event
      | report.Report? && report.call < t.admitted && Decides(c, t, first, asks, report)
      ensures report.call in t.out
    {
      DecidedByCallOut(c, t, first, asks, report);
    }
  }

  // With every configuration there are such runs.

  function AskMany(n: nat): seq<Event> {
    if n == 0 then [] else [Ask(0)] + AskMany(n - 1)
  }

  /** Failures of so many calls, from this number on. */
  function FailMany(call: nat, n: nat): seq<Event>
    decreases n
  {
    if n == 0 then [] else [Report(call, false, 0)] + FailMany(call + 1, n - 1)
  }

  lemma {:induction false} RunConcat(c: Config, t: Track, es: seq<Event>, more: seq<Event>)
    requires ValidConfig(c)
    ensures Run(c, t, es + more) == Run(c, Run(c, t, es), more)
    decreases |es|
  {
    if es == [] {
      assert es + more == more;
    } else {
      assert (es + more)[1..] == es[1..] + more;
      RunConcat(c, Next(c, t, es[0]), es[1..], more);
    }
  }

  lemma {:induction false} AskManyAreOut(c: Config, t: Track, n: nat)
    requires ValidConfig(c) && t.b == State(Closed, 0, 0, 0, 0, 0)
    ensures var u := Run(c, t, AskMany(n));
      u.b == t.b && u.admitted == t.admitted + n
      && forall x :: x in t.out || t.admitted <= x < t.admitted + n ==> x in u.out
    decreases n
  {
    if n > 0 { AskManyAreOut(c, Next(c, t, Ask(0)), n - 1); }
  }

  lemma {:induction false} FailManyOpen(c: Config, t: Track, n: nat)
    requires ValidConfig(c) && 0 < n <= c.minRequests && t.b == State(Closed, 0, 0, c.minRequests - n, 0, 0)
    requires forall x :: c.minRequests - n <= x <= c.minRequests ==> x in t.out
    ensures var u := Run(c, t, FailMany(c.minRequests - n, n)); u.b.phase == Open && c.minRequests in u.out
    decreases n
  {
    var e := Report(c.minRequests - n, false, 0);
    OpensExactlyAtMinRequests(c, t.b, false, 0);
    if n == 1 {
      assert Run(c, t, [e] + []) == Run(c, Next(c, t, e), []);
    } else {
      FailManyOpen(c, Next(c, t, e), n - 1);
    }
  }

  lemma {:induction false} CallsCanBeOut(c: Config)
    requires ValidConfig(c)
    ensures exists es :: var t := Run(c, Initial(0), es); t.b.phase == Open && t.out != {}
  {
    var asks, fails := AskMany(c.minRequests + 1), FailMany(0, c.minRequests);
    AskManyAreOut(c, Initial(0), c.minRequests + 1);
    FailManyOpen(c, Run(c, Initial(0), asks), c.minRequests);
    RunConcat(c, Initial(0), asks, fails);
    var t := Run(c, Initial(0), asks + fails);
    assert c.minRequests in t.out;
  }

  /** Only these calls report; the others panic. */
  ghost predicate ReportedBy(es: seq<Event>, reporters: set<nat>) {
    forall e :: e in es && e.Report? ==> e.call in reporters
  }

  /** Once an episode's calls are used up, and none of the calls out reports, nothing changes any more. */
  lemma {:induction false} UnreportedEpisodeNeverEnds(c: Config, t: Track, es: seq<Event>, reporters: set<nat>)
    requires ValidConfig(c) && t.b.phase == HalfOpen && t.b.halfOK == c.halfOpenMax
    requires ReportedBy(es, reporters) && reporters * t.out == {}
    ensures Admitted(c, t, es) == 0 && Run(c, t, es) == t
    decreases |es|
  {
    if es != [] {
      assert es[0] in es;
      assert forall call :: call in reporters && call in t.out ==> call in reporters * t.out;
      UnreportedEpisodeNeverEnds(c, t, es[1..], reporters);
    }
  }

  /** A used-up episode is ever followed by an admission exactly when one of the calls out reports. */
  lemma {:induction false} AdmittedAgainIffCallReports(c: Config, t: Track, reporters: set<nat>)
    requires ValidConfig(c) && t.b.phase == HalfOpen && t.b.halfOK == c.halfOpenMax
    ensures (exists es :: ReportedBy(es, reporters) && Admitted(c, t, es) > 0) <==> reporters * t.out != {}
  {
    if reporters * t.out == {} {
      forall es | ReportedBy(es, reporters) ensures Admitted(c, t, es) == 0 {
        UnreportedEpisodeNeverEnds(c, t, es, reporters);
      }
    } else {
      var call :| call in reporters * t.out;
      var es := [Report(call, true, 0), Ask(0)];
      var closed := Next(c, t, es[0]);
      assert es[1..] == [Ask(0)] && Admits(c, closed, Ask(0));
      assert Admitted(c, closed, es[1..]) > 0;
      assert ReportedBy(es, reporters) && Admitted(c, t, es) > 0;
    }
  }

  // ---------- The breaker ----------

  class Breaker {
    const config: Config
    var phase: Phase
    var windowAt: int
    var success: nat
    var failure: nat
    var openedAt: int
    var halfOK: nat

    function View(): State
      reads this
    {
      State(phase, windowAt, success, failure, openedAt, halfOK)
    }

    constructor (c: Config, now: int)
      ensures config == Normalize(c) && View() == Initial(now).b
    {
      config := Normalize(c);
      phase, windowAt, success, failure, openedAt, halfOK := Closed, now, 0, 0, 0, 0;
    }

    method AllowCall(now: int) returns (allowed: bool)
      modifies this
      ensures (View(), allowed) == Allow(config, old(View()), now)
    {
      match phase {
        case Closed =>
          if now - windowAt >= config.window { RollWindow(now); }
          return true;
        case Open =>
          if now - openedAt >= config.cooldown {
            phase, halfOK, windowAt := HalfOpen, 0, now;
            success, failure := 0, 0;
            return true;
          }
          return false;
        case HalfOpen =>
          if halfOK < config.halfOpenMax {
            halfOK := halfOK + 1;
            return true;
          }
          return false;
      }
    }

    method RecordOutcome(ok: bool, now: int)
      requires ValidConfig(config)
      modifies this
      ensures View() == Record(config, old(View()), ok, now)
    {
      match phase {
        case Closed =>
          if ok { success := success + 1; } else { failure := failure + 1; }
          if now - windowAt >= config.window {
            EvaluateWindow(now);
          } else if success + failure >= config.minRequests {
            EvaluateWindow(now);
          }
        case Open =>
        case HalfOpen =>
          if ok {
            phase, windowAt := Closed, now;
            success, failure := 0, 0;
          } else {
            phase, openedAt := Open, now;
          }
      }
    }

    method EvaluateWindow(now: int)
      requires ValidConfig(config)
      modifies this
      ensures View() == Evaluate(config, old(View()), now)
    {
      var requests := success + failure;
      if requests < config.minRequests {
        RollWindow(now);
        return;
      }
      var failureRate := failure as real / requests as real;
      if failureRate >= config.threshold {
        phase, openedAt := Open, now;
        return;
      }
      RollWindow(now);
    }

    method RollWindow(now: int)
      modifies this
      ensures View() == Roll(old(View()), now)
    {
      windowAt, success, failure := now, 0, 0;
    }
  }
}
