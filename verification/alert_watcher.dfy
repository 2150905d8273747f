/** The alert rules of framework/alert/alert.go: a rule starts to alert after enough consecutive samples at
    or above its threshold, and recovers after as many below it. */
module AlertWatcher {
  import opened Wrappers

  datatype Stats = Stats(cpu: real, memory: real, disk: real)

  datatype Rule = Rule(name: string, threshold: real, consecutive: int, level: string,
                       check: Option<Stats -> real>)

  /** high: consecutive samples at or above the threshold; low: consecutive samples below it while
      alerting. */
  datatype State = State(high: nat, low: nat, alerting: bool)

  datatype Message = Alert(name: string, level: string, value: real) | Recovered(name: string, value: real)

  const QUIET := State(0, 0, false)

  // ---------- One rule ----------

  function Next(n: int, s: State, above: bool): State {
    if above then State(s.high + 1, 0, s.alerting || s.high + 1 >= n)
    else if !s.alerting then QUIET
    else if s.low + 1 >= n then QUIET
    else State(0, s.low + 1, true)
  }

  /** What the sample makes the rule send: an alert (true), a recovery (false) or nothing. */
  function Sends(n: int, s: State, above: bool): seq<bool> {
    if Next(n, s, above).alerting == s.alerting then [] else [above]
  }

  function After(n: int, h: seq<bool>): State {
    if h == [] then QUIET else Next(n, After(n, h[..|h| - 1]), h[|h| - 1])
  }

  function Sent(n: int, h: seq<bool>): seq<bool> {
    if h == [] then []
    else Sent(n, h[..|h| - 1]) + Sends(n, After(n, h[..|h| - 1]), h[|h| - 1])
  }

  /** The `n` samples before position `e` are all on this side. */
  ghost predicate RunEndsAt(h: seq<bool>, n: int, e: nat, side: bool) {
    n <= e <= |h| && forall i :: e - n <= i < e && 0 <= i ==> h[i] == side
  }

  /** The most recent run of `n` samples on one side was on the high side. */
  ghost predicate LastRunIsHigh(h: seq<bool>, n: int) {
    exists e: nat :: RunEndsAt(h, n, e, true) && forall l: nat :: e < l ==> !RunEndsAt(h, n, l, false)
  }

  /** How many samples at the end are on this side. */
  function Trailing(h: seq<bool>, side: bool): (t: nat)
    ensures t <= |h|
  {
    if h == [] || h[|h| - 1] != side then 0 else Trailing(h[..|h| - 1], side) + 1
  }

  lemma {:induction false} TrailingIsRun(h: seq<bool>, n: int, side: bool)
    requires n >= 0
    ensures RunEndsAt(h, n, |h|, side) <==> n <= Trailing(h, side)
    decreases |h|
  {
    if h != [] && n > 0 {
      var p := h[..|h| - 1];
      TrailingIsRun(p, n - 1, side);
      if RunEndsAt(h, n, |h|, side) {
        assert h[|h| - 1] == side && RunEndsAt(p, n - 1, |p|, side);
      }
      if n <= Trailing(h, side) {
        assert RunEndsAt(p, n - 1, |p|, side);
      }
    }
  }

  /** The two counters are the lengths of the runs the history ends with. */
  lemma {:induction false} CountersAreRuns(n: int, h: seq<bool>)
    requires n > 0
    ensures After(n, h).high == Trailing(h, true)
    ensures After(n, h).low == if After(n, h).alerting then Trailing(h, false) else 0
    ensures if After(n, h).alerting then After(n, h).low < n else After(n, h).high < n
    decreases |h|
  {
    if h != [] { CountersAreRuns(n, h[..|h| - 1]); }
  }

  lemma RunsOfPrefix(h: seq<bool>, n: int, e: nat, side: bool)
    requires h != [] && e < |h|
    ensures RunEndsAt(h[..|h| - 1], n, e, side) == RunEndsAt(h, n, e, side)
  {
    var p := h[..|h| - 1];
    assert forall i :: 0 <= i < |p| ==> p[i] == h[i];
  }

  lemma LastRunSnoc(h: seq<bool>, n: int)
    requires h != [] && n > 0
    ensures LastRunIsHigh(h, n) <==>
      RunEndsAt(h, n, |h|, true) || (LastRunIsHigh(h[..|h| - 1], n) && !RunEndsAt(h, n, |h|, false))
  {
    var p := h[..|h| - 1];
    forall e: nat, side | e < |h| ensures RunEndsAt(p, n, e, side) == RunEndsAt(h, n, e, side) {
      RunsOfPrefix(h, n, e, side);
    }
    if LastRunIsHigh(h, n) {
      var e: nat :| RunEndsAt(h, n, e, true) && forall l: nat :: e < l ==> !RunEndsAt(h, n, l, false);
      if e < |h| { assert RunEndsAt(p, n, e, true); }
    }
    if LastRunIsHigh(p, n) && !RunEndsAt(h, n, |h|, false) {
      var e: nat :| RunEndsAt(p, n, e, true) && forall l: nat :: e < l ==> !RunEndsAt(p, n, l, false);
      assert RunEndsAt(h, n, e, true);
    }
  }

  /** A rule alerts exactly while the most recent run of enough samples on one side was a high one. */
  lemma {:induction false} AlertingIffLastRunIsHigh(n: int, h: seq<bool>)
    requires n > 0
    ensures After(n, h).alerting <==> LastRunIsHigh(h, n)
    decreases |h|
  {
    if h != [] {
      AlertingIffLastRunIsHigh(n, h[..|h| - 1]);
      LastRunSnoc(h, n);
      CountersAreRuns(n, h[..|h| - 1]);
      TrailingIsRun(h, n, true);
      TrailingIsRun(h, n, false);
    }
  }

  /** Alerts and recoveries alternate, an alert first. */
  lemma {:induction false} MessagesAlternate(n: int, h: seq<bool>)
    ensures forall i :: 0 <= i < |Sent(n, h)| ==> Sent(n, h)[i] == (i % 2 == 0)
    ensures After(n, h).alerting == (|Sent(n, h)| % 2 == 1)
    decreases |h|
  {
    if h != [] { MessagesAlternate(n, h[..|h| - 1]); }
  }

  /** Each message costs a full run of samples, so jitter cannot flood the channels. */
  lemma {:induction false} MessagesNeedRuns(n: int, h: seq<bool>)
    requires n > 0
    ensures |Sent(n, h)| * n + (if After(n, h).alerting then After(n, h).low else After(n, h).high) <= |h|
    decreases |h|
  {
    if h != [] {
      var p := h[..|h| - 1];
      MessagesNeedRuns(n, p);
      CountersAreRuns(n, p);
      assert (|Sent(n, p)| + 1) * n == |Sent(n, p)| * n + n;
    }
  }

  // ---------- Several rules ----------

  /** Without a check the value is zero. */
  function ValueOf(r: Rule, stats: Stats): real {
    if r.check.Some? then r.check.value(stats) else 0.0
  }

  function Normalize(r: Rule): Rule {
    r.(check := Some(if r.check.Some? then r.check.value else (_ => 0.0)),
       consecutive := if r.consecutive <= 0 then 1 else r.consecutive,
       level := if r.level == "" then "warning" else r.level)
  }

  /** What a rule of the configuration comes to: at least one sample, a level, and zero for a missing check. */
  lemma NormalizedRule(r: Rule, stats: Stats)
    ensures var n := Normalize(r);
      && n.name == r.name && n.threshold == r.threshold
      && n.consecutive == (if r.consecutive > 0 then r.consecutive else 1)
      && n.level == (if r.level != "" then r.level else "warning")
      && ValueOf(n, stats) == (if r.check.Some? then r.check.value(stats) else 0.0)
  {
  }

  function IsAbove(r: Rule, stats: Stats): bool {
    ValueOf(r, stats) >= r.threshold
  }

  function StateOf(states: map<string, State>, name: string): State {
    if name in states then states[name] else QUIET
  }

  function MessagesFor(r: Rule, s: State, stats: Stats): seq<Message> {
    if Sends(r.consecutive, s, IsAbove(r, stats)) == [] then []
    else if IsAbove(r, stats) then [Alert(r.name, r.level, ValueOf(r, stats))]
    else [Recovered(r.name, ValueOf(r, stats))]
  }

  /** States by rule name, and everything sent so far. */
  datatype Watch = Watch(states: map<string, State>, sent: seq<Message>)

  function EvaluateOne(w: Watch, r: Rule, stats: Stats): Watch {
    var s := StateOf(w.states, r.name);
    Watch(w.states[r.name := Next(r.consecutive, s, IsAbove(r, stats))], w.sent + MessagesFor(r, s, stats))
  }

  function EvaluateAll(w: Watch, rules: seq<Rule>, stats: Stats): Watch {
    if rules == [] then w
    else EvaluateOne(EvaluateAll(w, rules[..|rules| - 1], stats), rules[|rules| - 1], stats)
  }

  function Watched(rules: seq<Rule>, samples: seq<Stats>): Watch {
    if samples == [] then Watch(map[], [])
    else EvaluateAll(Watched(rules, samples[..|samples| - 1]), rules, samples[|samples| - 1])
  }

  function History(r: Rule, samples: seq<Stats>): (h: seq<bool>)
    ensures |h| == |samples| && forall i :: 0 <= i < |h| ==> h[i] == (ValueOf(r, samples[i]) >= r.threshold)
  {
    seq(|samples|, i requires 0 <= i < |samples| => IsAbove(r, samples[i]))
  }

  /** The message tells of this rule and this sample: an alert names the rule's level and a value at or above the
      threshold, a recovery a value below it. */
  ghost predicate TellsOf(m: Message, r: Rule, stats: Stats) {
    && m.name == r.name && m.value == ValueOf(r, stats)
    && (if m.Alert? then m.level == r.level && m.value >= r.threshold else m.value < r.threshold)
  }

  ghost predicate TellsOfSome(m: Message, rules: seq<Rule>, samples: seq<Stats>) {
    exists k, i :: 0 <= k < |rules| && 0 <= i < |samples| && TellsOf(m, rules[k], samples[i])
  }

  lemma {:induction false} TickTells(w: Watch, rules: seq<Rule>, all: seq<Rule>, samples: seq<Stats>, i: nat)
    requires rules <= all && i < |samples|
    requires forall m :: m in w.sent ==> TellsOfSome(m, all, samples)
    ensures forall m :: m in EvaluateAll(w, rules, samples[i]).sent ==> TellsOfSome(m, all, samples)
    decreases |rules|
  {
    if rules != [] {
      var n := |rules| - 1;
      var before := EvaluateAll(w, rules[..n], samples[i]);
      TickTells(w, rules[..n], all, samples, i);
      forall m | m in MessagesFor(rules[n], StateOf(before.states, rules[n].name), samples[i])
        ensures TellsOfSome(m, all, samples)
      {
        assert TellsOf(m, all[n], samples[i]);
      }
    }
  }

  /** Every message tells of a rule and a sample. */
  lemma {:induction false} MessagesTellOfSamples(rules: seq<Rule>, samples: seq<Stats>)
    ensures forall m :: m in Watched(rules, samples).sent ==> TellsOfSome(m, rules, samples)
    decreases |samples|
  {
    if samples != [] {
      var n := |samples| - 1;
      MessagesTellOfSamples(rules, samples[..n]);
      forall m | m in Watched(rules, samples[..n]).sent ensures TellsOfSome(m, rules, samples) {
        var k, i :| 0 <= k < |rules| && 0 <= i < n && TellsOf(m, rules[k], samples[..n][i]);
        assert TellsOf(m, rules[k], samples[i]);
      }
      TickTells(Watched(rules, samples[..n]), rules, rules, samples, n);
    }
  }

  /** What the rules, one after the other, send on a sample, each in its own state. */
  function TickMessages(states: map<string, State>, rules: seq<Rule>, stats: Stats): seq<Message> {
    if rules == [] then []
    else
      TickMessages(states, rules[..|rules| - 1], stats)
      + MessagesFor(rules[|rules| - 1], StateOf(states, rules[|rules| - 1].name), stats)
  }

  /** Rules with different names send their messages of a tick in the order of the rules. */
  lemma {:induction false} TickSendsInOrder(w: Watch, rules: seq<Rule>, stats: Stats)
    requires forall i, j :: 0 <= i < j < |rules| ==> rules[i].name != rules[j].name
    ensures EvaluateAll(w, rules, stats).sent == w.sent + TickMessages(w.states, rules, stats)
    decreases |rules|
  {
    if rules == [] {
      assert w.sent + [] == w.sent;
    } else {
      var n := |rules| - 1;
      TickSendsInOrder(w, rules[..n], stats);
      OthersDoNotMatter(w, rules[..n], stats, rules[n].name);
    }
  }

  /** The alerts (true) and recoveries (false) sent under one name. */
  function Sides(sent: seq<Message>, name: string): seq<bool> {
    if sent == [] then []
    else Sides(sent[..|sent| - 1], name)
         + if sent[|sent| - 1].name == name then [sent[|sent| - 1].Alert?] else []
  }

  /** No other rule has this rule's name. */
  ghost predicate HasOwnName(rules: seq<Rule>, k: nat)
    requires k < |rules|
  {
    forall j :: 0 <= j < |rules| && j != k ==> rules[j].name != rules[k].name
  }

  lemma {:induction false} SidesOfStep(w: Watch, r: Rule, stats: Stats, name: string)
    ensures Sides(EvaluateOne(w, r, stats).sent, name)
         == Sides(w.sent, name)
            + if r.name == name then Sends(r.consecutive, StateOf(w.states, name), IsAbove(r, stats)) else []
  {
    var more := MessagesFor(r, StateOf(w.states, r.name), stats);
    if more == [] {
      assert w.sent + more == w.sent;
    } else {
      assert (w.sent + more)[..|w.sent|] == w.sent;
    }
  }

  /** Rules with other names do not touch a rule. */
  lemma {:induction false} OthersDoNotMatter(w: Watch, rules: seq<Rule>, stats: Stats, name: string)
    requires forall i :: 0 <= i < |rules| ==> rules[i].name != name
    ensures StateOf(EvaluateAll(w, rules, stats).states, name) == StateOf(w.states, name)
    ensures Sides(EvaluateAll(w, rules, stats).sent, name) == Sides(w.sent, name)
    decreases |rules|
  {
    if rules != [] {
      var before := rules[..|rules| - 1];
      OthersDoNotMatter(w, before, stats, name);
      SidesOfStep(EvaluateAll(w, before, stats), rules[|rules| - 1], stats, name);
    }
  }

  /** One tick of a rule on its own. */
  ghost predicate TookOwnStep(w: Watch, t: Watch, r: Rule, stats: Stats) {
    var s := StateOf(w.states, r.name);
    && StateOf(t.states, r.name) == Next(r.consecutive, s, IsAbove(r, stats))
    && Sides(t.sent, r.name) == Sides(w.sent, r.name) + Sends(r.consecutive, s, IsAbove(r, stats))
  }

  lemma {:induction false} LastTakesStep(w: Watch, rules: seq<Rule>, stats: Stats)
    requires rules != [] && HasOwnName(rules, |rules| - 1)
    ensures TookOwnStep(w, EvaluateAll(w, rules, stats), rules[|rules| - 1], stats)
  {
    var n := |rules| - 1;
    OthersDoNotMatter(w, rules[..n], stats, rules[n].name);
    SidesOfStep(EvaluateAll(w, rules[..n], stats), rules[n], stats, rules[n].name);
  }

  lemma OtherLeavesStep(w: Watch, t: Watch, r: Rule, other: Rule, stats: Stats)
    requires TookOwnStep(w, t, r, stats) && other.name != r.name
    ensures TookOwnStep(w, EvaluateOne(t, other, stats), r, stats)
  {
    SidesOfStep(t, other, stats, r.name);
  }

  lemma {:induction false} TickOfRule(w: Watch, rules: seq<Rule>, stats: Stats, k: nat)
    requires k < |rules| && HasOwnName(rules, k)
    ensures TookOwnStep(w, EvaluateAll(w, rules, stats), rules[k], stats)
    decreases |rules|
  {
    var n := |rules| - 1;
    if k == n {
      LastTakesStep(w, rules, stats);
    } else {
      TickOfRule(w, rules[..n], stats, k);
      OtherLeavesStep(w, EvaluateAll(w, rules[..n], stats), rules[k], rules[n], stats);
    }
  }

  /** A rule with a name of its own behaves as if it were alone. */
  lemma {:induction false} RuleIsIndependent(rules: seq<Rule>, samples: seq<Stats>, k: nat)
    requires k < |rules| && HasOwnName(rules, k)
    ensures BehavesAlone(rules, samples, k)
    decreases |samples|
  {
    if samples == [] {
      RuleStartsAlone(rules, k);
    } else {
      var n := |samples| - 1;
      RuleIsIndependent(rules, samples[..n], k);
      RuleOneMore(rules, samples[..n], samples[n], k);
      assert samples == samples[..n] + [samples[n]];
    }
  }

  lemma RuleStartsAlone(rules: seq<Rule>, k: nat)
    requires k < |rules|
    ensures BehavesAlone(rules, [], k)
  {
    assert History(rules[k], []) == [];
  }

  lemma RuleOneMore(rules: seq<Rule>, before: seq<Stats>, last: Stats, k: nat)
    requires k < |rules| && HasOwnName(rules, k) && BehavesAlone(rules, before, k)
    ensures BehavesAlone(rules, before + [last], k)
  {
    var w := Watched(rules, before);
    TickOfRule(w, rules, last, k);
    WatchedSnoc(rules, before, last);
    AloneOneMore(w, EvaluateAll(w, rules, last), rules[k], History(rules[k], before), last);
    assert History(rules[k], before + [last]) == History(rules[k], before) + [IsAbove(rules[k], last)];
  }

  lemma {:induction false} WatchedSnoc(rules: seq<Rule>, before: seq<Stats>, last: Stats)
    ensures Watched(rules, before + [last]) == EvaluateAll(Watched(rules, before), rules, last)
  {
    assert (before + [last])[..|before|] == before;
  }

  lemma AloneOneMore(w: Watch, t: Watch, r: Rule, h: seq<bool>, stats: Stats)
    requires Follows(w, r, h) && TookOwnStep(w, t, r, stats)
    ensures Follows(t, r, h + [IsAbove(r, stats)])
  {
    assert (h + [IsAbove(r, stats)])[..|h|] == h;
  }

  /** The rule's state and the messages under its name are those of the rule on its own. */
  ghost predicate BehavesAlone(rules: seq<Rule>, samples: seq<Stats>, k: nat)
    requires k < |rules|
  {
    Follows(Watched(rules, samples), rules[k], History(rules[k], samples))
  }

  /** The watcher shows what the rule alone would show after this history. */
  ghost predicate Follows(w: Watch, r: Rule, h: seq<bool>) {
    && StateOf(w.states, r.name) == After(r.consecutive, h)
    && Sides(w.sent, r.name) == Sent(r.consecutive, h)
  }

  ghost predicate AllBehaveAlone(rules: seq<Rule>) {
    forall samples: seq<Stats>, k: nat :: k < |rules| ==> BehavesAlone(rules, samples, k)
  }

  ghost predicate NeverAbove(r: Rule) {
    forall stats :: !IsAbove(r, stats)
  }

  /** Rules that share their name can never reach their thresholds. */
  ghost predicate SharedNamesAreIdle(rules: seq<Rule>) {
    forall i, j :: 0 <= i < j < |rules| && rules[i].name == rules[j].name ==> NeverAbove(rules[i]) && NeverAbove(rules[j])
  }

  // Rules with one name that stay below leave their state as it was at the start.

  lemma {:induction false} QuietTick(w: Watch, rules: seq<Rule>, stats: Stats, name: string)
    requires forall i :: 0 <= i < |rules| && rules[i].name == name ==> NeverAbove(rules[i])
    requires StateOf(w.states, name) == QUIET
    ensures StateOf(EvaluateAll(w, rules, stats).states, name) == QUIET
    ensures Sides(EvaluateAll(w, rules, stats).sent, name) == Sides(w.sent, name)
    decreases |rules|
  {
    if rules != [] {
      var n := |rules| - 1;
      QuietTick(w, rules[..n], stats, name);
      SidesOfStep(EvaluateAll(w, rules[..n], stats), rules[n], stats, name);
      assert rules[n].name == name ==> !IsAbove(rules[n], stats);
    }
  }

  lemma {:induction false} QuietRun(rules: seq<Rule>, samples: seq<Stats>, name: string)
    requires forall i :: 0 <= i < |rules| && rules[i].name == name ==> NeverAbove(rules[i])
    ensures StateOf(Watched(rules, samples).states, name) == QUIET && Sides(Watched(rules, samples).sent, name) == []
    decreases |samples|
  {
    if samples != [] {
      var n := |samples| - 1;
      QuietRun(rules, samples[..n], name);
      QuietTick(Watched(rules, samples[..n]), rules, samples[n], name);
    }
  }

  lemma {:induction false} QuietHistory(n: int, h: seq<bool>)
    requires forall i :: 0 <= i < |h| ==> !h[i]
    ensures After(n, h) == QUIET && Sent(n, h) == []
    decreases |h|
  {
    if h != [] { QuietHistory(n, h[..|h| - 1]); }
  }

  // Rules with one name that are all above count one sample once each.

  function Members(rules: seq<Rule>, name: string): nat {
    if rules == [] then 0
    else Members(rules[..|rules| - 1], name) + if rules[|rules| - 1].name == name then 1 else 0
  }

  lemma {:induction false} MembersAtLeast(rules: seq<Rule>, i: nat, j: nat)
    requires i < j < |rules| && rules[i].name == rules[j].name
    ensures Members(rules, rules[j].name) >= 2
    decreases |rules|
  {
    var n := |rules| - 1;
    if j < n {
      MembersAtLeast(rules[..n], i, j);
    } else {
      MemberIsCounted(rules[..n], i);
    }
  }

  lemma {:induction false} MemberIsCounted(rules: seq<Rule>, i: nat)
    requires i < |rules|
    ensures Members(rules, rules[i].name) >= 1
    decreases |rules|
  {
    var n := |rules| - 1;
    if i < n { MemberIsCounted(rules[..n], i); }
  }

  lemma {:induction false} SharedCount(w: Watch, rules: seq<Rule>, stats: Stats, name: string)
    requires forall i :: 0 <= i < |rules| && rules[i].name == name ==> IsAbove(rules[i], stats)
    ensures StateOf(EvaluateAll(w, rules, stats).states, name).high == StateOf(w.states, name).high + Members(rules, name)
    decreases |rules|
  {
    if rules != [] { SharedCount(w, rules[..|rules| - 1], stats, name); }
  }

  lemma {:induction false} OneSample(rules: seq<Rule>, stats: Stats, k: nat)
    requires k < |rules| && BehavesAlone(rules, [stats], k)
    ensures Watched(rules, [stats]) == EvaluateAll(Watch(map[], []), rules, stats)
    ensures StateOf(Watched(rules, [stats]).states, rules[k].name).high == if IsAbove(rules[k], stats) then 1 else 0
  {
    var h := History(rules[k], [stats]);
    assert [stats][..0] == [] && h[..0] == [];
    assert After(rules[k].consecutive, h) == Next(rules[k].consecutive, QUIET, IsAbove(rules[k], stats));
  }

  /** A rule above its threshold that shares its name is not alone after a single sample. */
  lemma SharedNameInterferes(rules: seq<Rule>, i: nat, j: nat, stats: Stats)
    requires i < j < |rules| && rules[i].name == rules[j].name
    requires IsAbove(rules[i], stats) || IsAbove(rules[j], stats)
    ensures exists k: nat :: k < |rules| && rules[k].name == rules[i].name && !BehavesAlone(rules, [stats], k)
  {
    var name := rules[i].name;
    if forall k: nat :: k < |rules| && rules[k].name == name ==> BehavesAlone(rules, [stats], k) {
      OneSample(rules, stats, i);
      OneSample(rules, stats, j);
      forall k: nat | k < |rules| && rules[k].name == name ensures IsAbove(rules[k], stats) {
        OneSample(rules, stats, k);
      }
      SharedCount(Watch(map[], []), rules, stats, name);
      MembersAtLeast(rules, i, j);
      assert false;
    }
  }

  /** All rules behave as if alone, whatever is sampled, if and only if rules that share a name can never
      reach their thresholds.  Giving every rule a name of its own is enough. */
  lemma AllAloneIffSharedNamesAreIdle(rules: seq<Rule>)
    ensures AllBehaveAlone(rules) <==> SharedNamesAreIdle(rules)
    ensures (forall k: nat :: k < |rules| ==> HasOwnName(rules, k)) ==> AllBehaveAlone(rules)
  {
    if SharedNamesAreIdle(rules) {
      forall samples: seq<Stats>, k: nat | k < |rules| ensures BehavesAlone(rules, samples, k) {
        IdleOrOwnName(rules, samples, k);
      }
    } else {
      var i, j :| 0 <= i < j < |rules| && rules[i].name == rules[j].name
                  && !(NeverAbove(rules[i]) && NeverAbove(rules[j]));
      var stats :| IsAbove(rules[i], stats) || IsAbove(rules[j], stats);
      SharedNameInterferes(rules, i, j, stats);
      assert !HasOwnName(rules, i) && i < |rules|;
    }
  }

  lemma IdleOrOwnName(rules: seq<Rule>, samples: seq<Stats>, k: nat)
    requires k < |rules| && SharedNamesAreIdle(rules)
    ensures BehavesAlone(rules, samples, k)
  {
    if HasOwnName(rules, k) {
      RuleIsIndependent(rules, samples, k);
    } else {
      assert NeverAbove(rules[k]);
      forall i | 0 <= i < |rules| && rules[i].name == rules[k].name ensures NeverAbove(rules[i]) {
        assert i == k || i < k || k < i;
      }
      QuietRun(rules, samples, rules[k].name);
      QuietHistory(rules[k].consecutive, History(rules[k], samples));
    }
  }

  /** Two rules under one name share their counters: with thresholds on both sides of a constant value the
      lower one never alerts, however long the value stays above it. */
  lemma {:induction false} SharedNameNeverAlerts(low: Rule, high: Rule, stats: Stats, samples: seq<Stats>)
    requires low.name == high.name && low.consecutive >= 2
    requires IsAbove(low, stats) && !IsAbove(high, stats)
    requires forall i :: 0 <= i < |samples| ==> samples[i] == stats
    ensures Watched([low, high], samples).sent == []
    ensures LastRunIsHigh(History(low, samples), low.consecutive) <==> |samples| >= low.consecutive
    decreases |samples|
  {
    SharedState(low, high, stats, samples);
    if |samples| >= low.consecutive {
      assert RunEndsAt(History(low, samples), low.consecutive, |samples|, true);
    }
  }

  lemma {:induction false} SharedState(low: Rule, high: Rule, stats: Stats, samples: seq<Stats>)
    requires low.name == high.name && low.consecutive >= 2
    requires IsAbove(low, stats) && !IsAbove(high, stats)
    requires forall i :: 0 <= i < |samples| ==> samples[i] == stats
    ensures Watched([low, high], samples).sent == []
    ensures StateOf(Watched([low, high], samples).states, low.name) == QUIET
    decreases |samples|
  {
    if samples != [] {
      var w := Watched([low, high], samples[..|samples| - 1]);
      SharedState(low, high, stats, samples[..|samples| - 1]);
      assert [low, high][..1] == [low];
      assert [low][..0] == [];
      assert EvaluateAll(w, [low], stats) == EvaluateOne(w, low, stats);
      assert EvaluateAll(w, [low, high], stats) == EvaluateOne(EvaluateOne(w, low, stats), high, stats);
    }
  }

  // ---------- The watcher ----------

  class Watcher {
    const rules: seq<Rule>
    var ruleState: map<string, State>
    var sent: seq<Message>
    ghost var samples: seq<Stats>

    ghost predicate Valid()
      reads this
    {
      && Watch(ruleState, sent) == Watched(rules, samples)
      && forall i :: 0 <= i < |rules| ==> rules[i].consecutive > 0
    }

    constructor (config: seq<Rule>)
      ensures Valid() && samples == [] && |rules| == |config|
      ensures forall i :: 0 <= i < |rules| ==> rules[i] == Normalize(config[i])
    {
      rules := seq(|config|, i requires 0 <= i < |config| => Normalize(config[i]));
      ruleState, sent, samples := map[], [], [];
    }

    /** One collection of the indicators; a failed one evaluates nothing. */
    method Tick(stats: Option<Stats>)
      requires Valid()
      modifies this
      ensures Valid() && samples == old(samples) + if stats.Some? then [stats.value] else []
    {
      if stats == None { return; }
      for i := 0 to |rules|
        invariant Watch(ruleState, sent) == EvaluateAll(Watched(rules, old(samples)), rules[..i], stats.value)
        invariant samples == old(samples)
      {
        assert rules[..i + 1][..i] == rules[..i];
        Evaluate(rules[i], stats.value);
      }
      assert rules[..|rules|] == rules;
      samples := samples + [stats.value];
      assert samples[..|samples| - 1] == old(samples);
    }

    method Evaluate(rule: Rule, stats: Stats)
      modifies this`ruleState, this`sent
      ensures Watch(ruleState, sent) == EvaluateOne(Watch(old(ruleState), old(sent)), rule, stats)
    {
      var value := ValueOf(rule, stats);
      var state := StateOf(ruleState, rule.name);
      if value >= rule.threshold {
        state := state.(low := 0, high := state.high + 1);
        if !state.alerting && state.high >= rule.consecutive {
          state := state.(alerting := true);
          sent := sent + [Alert(rule.name, rule.level, value)];
        }
      } else if state.alerting {
        state := state.(high := 0, low := state.low + 1);
        if state.low >= rule.consecutive {
          state := state.(low := 0, alerting := false);
          sent := sent + [Recovered(rule.name, value)];
        }
      } else {
        state := QUIET;
      }
      ruleState := ruleState[rule.name := state];
    }
  }
}
