/** The snowflake generator of framework/database/id/snowflake.go: 64-bit identifiers packed from a
    millisecond stamp, a node number and a sequence number, under an arbitrary clock. */
module Snowflake {

  const EPOCH: int := 1704067200000
  const MAX_NODE: int := 1023
  const MAX_SEQ: int := 4095
  const MAX_BACKOFF: int := 5
  const STAMPS: int := 0x200_0000_0000  // 2^41, the stamps that fit

  // ---------- Two's-complement arithmetic on 64 bits ----------

  /** The int64 that an integer wraps to. */
  function Wrap(x: int): int {
    (x + 0x8000_0000_0000_0000) % 0x1_0000_0000_0000_0000 - 0x8000_0000_0000_0000
  }

  function Pow2(k: nat): nat {
    if k == 0 then 1 else 2 * Pow2(k - 1)
  }

  /** Shifts: left with wrap-around, right arithmetic. */
  function Shl(x: int, k: nat): int {
    Wrap(x * Pow2(k))
  }

  function Shr(x: int, k: nat): int
    requires Pow2(k) > 0
  {
    x / Pow2(k)
  }

  /** Bitwise or and and, bit by bit from the lowest; 0 and -1 repeat one bit forever. */
  function Or(a: int, b: int): int
    decreases if a < 0 then -a else a, if b < 0 then -b else b
  {
    if a == 0 || b == -1 then b
    else if b == 0 || a == -1 then a
    else 2 * Or(a / 2, b / 2) + (if a % 2 == 1 || b % 2 == 1 then 1 else 0)
  }

  function And(a: int, b: int): int
    decreases if a < 0 then -a else a, if b < 0 then -b else b
  {
    if a == 0 || b == -1 then a
    else if b == 0 || a == -1 then b
    else 2 * And(a / 2, b / 2) + (if a % 2 == 1 && b % 2 == 1 then 1 else 0)
  }

  /** Both act on the lowest bits and on the rest, 0 and -1 being all zeros and all ones. */
  lemma {:induction false} OrAndByBits(a: int, b: int)
    ensures Or(a, b) % 2 == (if a % 2 == 1 || b % 2 == 1 then 1 else 0) && Or(a, b) / 2 == Or(a / 2, b / 2)
    ensures And(a, b) % 2 == (if a % 2 == 1 && b % 2 == 1 then 1 else 0) && And(a, b) / 2 == And(a / 2, b / 2)
    ensures Or(0, 0) == And(0, 0) == And(0, -1) == And(-1, 0) == 0
    ensures Or(-1, -1) == And(-1, -1) == Or(0, -1) == Or(-1, 0) == -1
  {
  }

  /** Or of a multiple of 2^k and a number below 2^k is their sum. */
  lemma {:induction false} OrIsSum(a: int, b: int, k: nat)
    requires 0 <= b < Pow2(k)
    ensures Or(a * Pow2(k), b) == a * Pow2(k) + b
    decreases k
  {
    if k == 0 {
    } else {
      var x := a * Pow2(k);
      assert x == 2 * (a * Pow2(k - 1));
      OrIsSum(a, b / 2, k - 1);
      if x != 0 && b != 0 {
        assert x != -1;
      }
    }
  }

  lemma DivModUnique(a: int, n: int, q: int, r: int)
    requires n > 0 && a == q * n + r && 0 <= r < n
    ensures a / n == q && a % n == r
  {
    var d := a / n - q;
    assert a == n * (a / n) + a % n;
    assert n * d == r - a % n;
    assert d >= 1 ==> n * d >= n;
    assert d <= -1 ==> n * d <= -n;
  }

  lemma DoubleMod(a: int, m: int)
    requires m > 0
    ensures a % (2 * m) == 2 * ((a / 2) % m) + a % 2
  {
    var q, r := (a / 2) / m, (a / 2) % m;
    assert a / 2 == m * q + r;
    assert a == q * (2 * m) + (2 * r + a % 2);
    DivModUnique(a, 2 * m, q, 2 * r + a % 2);
  }

  /** And with 2^k - 1 is the remainder modulo 2^k. */
  lemma {:induction false} AndIsMod(a: int, k: nat)
    requires a >= 0
    ensures Pow2(k) > 0 && And(a, Pow2(k) - 1) == a % Pow2(k)
    decreases k
  {
    if k == 0 {
      assert And(a, 0) == 0;
    } else {
      AndIsMod(a / 2, k - 1);
      var m := Pow2(k - 1);
      DoubleMod(a, m);
      AndOddMask(a, m);
    }
  }

  lemma AndOddMask(a: int, m: int)
    requires a >= 0 && m > 0
    ensures And(a, 2 * m - 1) == 2 * And(a / 2, m - 1) + a % 2
  {
    assert (2 * m - 1) / 2 == m - 1 && (2 * m - 1) % 2 == 1;
    if a == 0 {
      assert And(0, m - 1) == 0;
    }
  }

  lemma Powers()
    ensures Pow2(10) == 1024 && Pow2(12) == 4096 && Pow2(22) == 4194304
  {
  }

  // ---------- Packing and parsing ----------

  function Pack(stamp: int, node: int, sequence: int): int {
    Or(Or(Shl(stamp - EPOCH, 22), Shl(node, 12)), sequence)
  }

  datatype Parsed = NotPositive | Parts(stamp: int, node: int, sequence: int)

  function ParseSnowflake(value: int): Parsed {
    if value <= 0 then NotPositive
    else
      Powers();
      Parts(Shr(value, 22) + EPOCH, And(Shr(value, 12), MAX_NODE), And(value, MAX_SEQ))
  }

  predicate Fits(stamp: int) {
    0 <= stamp - EPOCH < STAMPS
  }

  predicate ValidParts(node: int, sequence: int) {
    0 <= node <= MAX_NODE && 0 <= sequence <= MAX_SEQ
  }

  /** The stamp part after the shift: 42 bits of the distance to the epoch, the top one a sign. */
  function Folded(stamp: int): int {
    (stamp - EPOCH + STAMPS) % (2 * STAMPS) - STAMPS
  }

  lemma ShiftedStamp(stamp: int)
    ensures Shl(stamp - EPOCH, 22) == Folded(stamp) * 4194304
  {
    Powers();
    var t := stamp - EPOCH;
    var q, r := (t + STAMPS) / (2 * STAMPS), (t + STAMPS) % (2 * STAMPS);
    assert t * 4194304 + 0x8000_0000_0000_0000 == q * 0x1_0000_0000_0000_0000 + r * 4194304;
    DivModUnique(t * 4194304 + 0x8000_0000_0000_0000, 0x1_0000_0000_0000_0000, q, r * 4194304);
  }

  lemma FitsIffUnfolded(stamp: int)
    ensures Fits(stamp) <==> Folded(stamp) == stamp - EPOCH && Folded(stamp) >= 0
  {
  }

  lemma PackIsSum(stamp: int, node: int, sequence: int)
    requires ValidParts(node, sequence)
    ensures Pack(stamp, node, sequence) == Folded(stamp) * 4194304 + node * 4096 + sequence
    ensures Fits(stamp) <==> Folded(stamp) == stamp - EPOCH && Folded(stamp) >= 0
  {
    Powers();
    ShiftedStamp(stamp);
    FitsIffUnfolded(stamp);
    assert Shl(node, 12) == node * 4096;
    OrIsSum(Folded(stamp), node * 4096, 22);
    OrIsSum(Folded(stamp) * 1024 + node, sequence, 12);
  }

  /** The epoch is the beginning of 2024, 54 years with 13 leap days after the beginning of 1970. */
  lemma EpochIs2024()
    ensures EPOCH == (54 * 365 + 13) * 24 * 60 * 60 * 1000
  {
  }

  lemma ParseIsDivision(value: int)
    requires value > 0
    ensures ParseSnowflake(value) == Parts(value / 4194304 + EPOCH, value / 4096 % 1024, value % 4096)
  {
    Powers();
    AndIsMod(value / 4096, 10);
    AndIsMod(value, 12);
  }

  /** Parsing recovers exactly what was packed, if and only if the stamp lies within 2^41
      milliseconds after the epoch and the identifier is not the all-zero one. */
  lemma ParseRecoversParts(stamp: int, node: int, sequence: int)
    requires ValidParts(node, sequence)
    ensures ParseSnowflake(Pack(stamp, node, sequence)) == Parts(stamp, node, sequence)
      <==> Fits(stamp) && !(stamp == EPOCH && node == 0 && sequence == 0)
  {
    PackIsSum(stamp, node, sequence);
    var value, f := Pack(stamp, node, sequence), Folded(stamp);
    if value > 0 {
      ParseIsDivision(value);
      DivModUnique(value, 4194304, f, node * 4096 + sequence);
      DivModUnique(value, 4096, f * 1024 + node, sequence);
      DivModUnique(f * 1024 + node, 1024, f, node);
    }
  }

  /** Identifiers with stamps that fit are ordered by stamp, then node, then sequence. */
  lemma PackIsMonotone(stamp: int, node: int, sequence: int, stamp': int, node': int, sequence': int)
    requires Fits(stamp) && Fits(stamp') && ValidParts(node, sequence) && ValidParts(node', sequence')
    ensures Pack(stamp, node, sequence) < Pack(stamp', node', sequence') <==>
      stamp < stamp' || (stamp == stamp' && (node < node' || (node == node' && sequence < sequence')))
  {
    PackIsSum(stamp, node, sequence);
    PackIsSum(stamp', node', sequence');
  }

  // ---------- The generator ----------

  datatype Gen = Gen(node: int, lastStamp: int, sequence: int)

  datatype Outcome = Issued(id: int) | ClockBackward | Waiting

  /** The first position from `i` on at which the clock reads later than `last`. */
  function FirstLater(readings: seq<int>, i: nat, last: int): (j: nat)
    requires i <= |readings|
    ensures i <= j <= |readings|
    ensures j < |readings| ==> readings[j] > last
    ensures forall k :: i <= k < j ==> readings[k] <= last
    decreases |readings| - i
  {
    if i == |readings| || readings[i] > last then i else FirstLater(readings, i + 1, last)
  }

  /** A call of nextID that sees the given clock readings.  It is still Waiting when they run out
      before it returns. */
  function Next(g: Gen, readings: seq<int>): (Gen, Outcome) {
    if readings == [] then (g, Waiting)
    else if readings[0] >= g.lastStamp then Stamp(g, readings, 0)
    else if g.lastStamp - readings[0] > MAX_BACKOFF then (g, ClockBackward)
    else if |readings| == 1 then (g, Waiting)
    else if readings[1] < g.lastStamp then (g, ClockBackward)
    else Stamp(g, readings, 1)
  }

  /** The rest of the call, once a reading that is not behind has been accepted. */
  function Stamp(g: Gen, readings: seq<int>, i: nat): (Gen, Outcome)
    requires i < |readings|
  {
    if readings[i] == g.lastStamp then
      var sequence := And(g.sequence + 1, MAX_SEQ);
      var j := if sequence == 0 then FirstLater(readings, i, g.lastStamp) else i;
      if j == |readings| then (g.(sequence := sequence), Waiting) else Emit(g, readings[j], sequence)
    else
      Emit(g, readings[i], 0)
  }

  function Emit(g: Gen, stamp: int, sequence: int): (Gen, Outcome) {
    (Gen(g.node, stamp, sequence), Issued(Pack(stamp, g.node, sequence)))
  }

  predicate ValidGen(g: Gen) {
    ValidParts(g.node, g.sequence)
  }

  predicate Later(a: Gen, b: Gen) {
    a.lastStamp < b.lastStamp || (a.lastStamp == b.lastStamp && a.sequence < b.sequence)
  }

  /** The next sequence number: up by one, from the last one to zero. */
  lemma SequenceStep(sequence: int)
    requires 0 <= sequence <= MAX_SEQ
    ensures And(sequence + 1, MAX_SEQ) == if sequence == MAX_SEQ then 0 else sequence + 1
  {
    AndWithMask(sequence + 1);
    var last := sequence == MAX_SEQ;
    DivModUnique(sequence + 1, 4096, if last then 1 else 0, if last then 0 else sequence + 1);
  }

  lemma {:induction false} AndWithMask(n: int)
    requires n >= 0
    ensures And(n, MAX_SEQ) == n % 4096
  {
    Powers();
    AndIsMod(n, 12);
  }

  /** What a call that started from `g` may leave behind. */
  ghost predicate Advanced(g: Gen, readings: seq<int>, r: (Gen, Outcome)) {
    && ValidGen(r.0) && r.0.node == g.node
    && (r.1.Issued? ==>
          Later(g, r.0) && r.0.lastStamp in readings && r.1.id == Pack(r.0.lastStamp, g.node, r.0.sequence))
    && (r.1.ClockBackward? ==> r.0 == g)
  }

  lemma StampAdvances(g: Gen, readings: seq<int>, i: nat)
    requires ValidGen(g) && i < |readings| && readings[i] >= g.lastStamp
    ensures Advanced(g, readings, Stamp(g, readings, i))
  {
    SequenceStep(g.sequence);
  }

  /** A call that issues an identifier advances the pair of stamp and sequence; a refused call
      leaves the generator as it was. */
  lemma NextAdvances(g: Gen, readings: seq<int>)
    requires ValidGen(g)
    ensures Advanced(g, readings, Next(g, readings))
  {
    if readings != [] && readings[0] >= g.lastStamp {
      StampAdvances(g, readings, 0);
    } else if |readings| > 1 && readings[1] >= g.lastStamp {
      StampAdvances(g, readings, 1);
    }
  }

  /** The clock is more than 5 ms behind, or still behind when it is read again. */
  ghost predicate IsBehind(g: Gen, readings: seq<int>) {
    && readings != [] && readings[0] < g.lastStamp
    && (g.lastStamp - readings[0] > 5 || (|readings| > 1 && readings[1] < g.lastStamp))
  }

  /** The reading at `a`, the first or the second, is the one that is accepted: it is not behind. */
  ghost predicate Accepts(g: Gen, readings: seq<int>, a: nat) {
    && a < |readings| && readings[a] >= g.lastStamp
    && (a == 0 || (a == 1 && g.lastStamp - 5 <= readings[0] < g.lastStamp))
  }

  /** When a call refuses. */
  lemma RefusedIffBehind(g: Gen, readings: seq<int>)
    ensures Next(g, readings).1 == ClockBackward <==> IsBehind(g, readings)
  {
  }

  lemma AcceptedIsStamped(g: Gen, readings: seq<int>, a: nat)
    requires Accepts(g, readings, a)
    ensures Next(g, readings) == Stamp(g, readings, a)
  {
  }

  /** A later stamp starts at number 0. */
  lemma LaterStampStartsAtZero(g: Gen, readings: seq<int>, a: nat)
    requires Accepts(g, readings, a) && readings[a] > g.lastStamp
    ensures Next(g, readings) == (Gen(g.node, readings[a], 0), Issued(Pack(readings[a], g.node, 0)))
  {
    AcceptedIsStamped(g, readings, a);
  }

  /** An equal stamp takes the next number. */
  lemma EqualStampTakesNext(g: Gen, readings: seq<int>, a: nat)
    requires ValidGen(g) && Accepts(g, readings, a) && readings[a] == g.lastStamp && g.sequence < 4095
    ensures Next(g, readings)
         == (Gen(g.node, g.lastStamp, g.sequence + 1), Issued(Pack(g.lastStamp, g.node, g.sequence + 1)))
  {
    AcceptedIsStamped(g, readings, a);
    SequenceStep(g.sequence);
    assert FirstLater(readings, a, g.lastStamp) <= |readings|;
  }

  ghost predicate IsFirstLater(g: Gen, readings: seq<int>, a: nat, j: nat) {
    a < j < |readings| && readings[j] > g.lastStamp && forall k :: a < k < j ==> readings[k] <= g.lastStamp
  }

  /** When all 4096 numbers are used, the first later reading starts again at 0. */
  lemma UsedUpTakesLaterStamp(g: Gen, readings: seq<int>, a: nat, j: nat)
    requires ValidGen(g) && Accepts(g, readings, a) && readings[a] == g.lastStamp && g.sequence == 4095
    requires IsFirstLater(g, readings, a, j)
    ensures Next(g, readings) == (Gen(g.node, readings[j], 0), Issued(Pack(readings[j], g.node, 0)))
  {
    AcceptedIsStamped(g, readings, a);
    SequenceStep(g.sequence);
    assert FirstLater(readings, a, g.lastStamp) == j;
  }

  /** With the reading accepted at `a` there is a number to issue. */
  ghost predicate HasNumber(g: Gen, readings: seq<int>, a: nat) {
    Accepts(g, readings, a)
    && (readings[a] > g.lastStamp || g.sequence < 4095 || exists j :: IsFirstLater(g, readings, a, j))
  }

  /** A call issues an identifier exactly when a reading is accepted and there is a number for it. */
  lemma IssuedIffAccepted(g: Gen, readings: seq<int>)
    requires ValidGen(g)
    ensures Next(g, readings).1.Issued? <==> HasNumber(g, readings, 0) || HasNumber(g, readings, 1)
  {
    if Accepts(g, readings, 0) { IssuedFrom(g, readings, 0); }
    if Accepts(g, readings, 1) { IssuedFrom(g, readings, 1); }
  }

  lemma IssuedFrom(g: Gen, readings: seq<int>, a: nat)
    requires ValidGen(g) && Accepts(g, readings, a)
    ensures Next(g, readings).1.Issued? <==> HasNumber(g, readings, a)
  {
    if readings[a] > g.lastStamp {
      LaterStampStartsAtZero(g, readings, a);
    } else if g.sequence < 4095 {
      EqualStampTakesNext(g, readings, a);
    } else {
      AcceptedIsStamped(g, readings, a);
      SequenceStep(g.sequence);
      var j := FirstLater(readings, a, g.lastStamp);
      if j < |readings| {
        assert IsFirstLater(g, readings, a, j);
      }
    }
  }

  // ---------- Runs ----------

  datatype Call = NextCall(readings: seq<int>) | NodeCall(node: int)

  datatype Emission = Emission(stamp: int, node: int, sequence: int, id: int)

  function WithNode(g: Gen, node: int): Gen {
    if 0 <= node <= MAX_NODE then g.(node := node) else g
  }

  /** The identifiers issued by a sequence of calls; a call that keeps waiting ends the run. */
  function Run(g: Gen, calls: seq<Call>): seq<Emission>
    decreases |calls|
  {
    if calls == [] then []
    else match calls[0]
      case NodeCall(node) => Run(WithNode(g, node), calls[1..])
      case NextCall(readings) =>
        var r := Next(g, readings);
        match r.1
        case Issued(id) => [Emission(r.0.lastStamp, r.0.node, r.0.sequence, id)] + Run(r.0, calls[1..])
        case ClockBackward => Run(r.0, calls[1..])
        case Waiting => []
  }

  /** The generator after a sequence of calls. */
  function After(g: Gen, calls: seq<Call>): Gen {
    if calls == [] then g
    else
      var before, last := After(g, calls[..|calls| - 1]), calls[|calls| - 1];
      match last
      case NodeCall(node) => WithNode(before, node)
      case NextCall(readings) => Next(before, readings).0
  }

  lemma {:induction false} AfterCons(g: Gen, call: Call, calls: seq<Call>)
    ensures After(g, [call] + calls) == After(After(g, [call]), calls)
    decreases |calls|
  {
    if calls == [] {
      assert [call] + calls == [call];
    } else {
      var n := |calls| - 1;
      AfterCons(g, call, calls[..n]);
      assert ([call] + calls)[..n + 1] == [call] + calls[..n];
    }
  }

  /** The outcome of the call at `i`, when the calls before it have been made. */
  function OutcomeAt(g: Gen, calls: seq<Call>, i: nat): Outcome
    requires i < |calls| && calls[i].NextCall?
  {
    Next(After(g, calls[..i]), calls[i].readings).1
  }

  lemma {:induction false} AfterOne(g: Gen, call: Call)
    ensures After(g, []) == g
    ensures After(g, [call]) == if call.NodeCall? then WithNode(g, call.node) else Next(g, call.readings).0
  {
    assert [call][..0] == [];
  }

  /** The outcomes behind the first call are those of the remaining calls. */
  lemma {:induction false} OutcomeShift(g: Gen, calls: seq<Call>, i: nat)
    requires 0 < i < |calls| && calls[i].NextCall?
    ensures OutcomeAt(g, calls, i) == OutcomeAt(After(g, [calls[0]]), calls[1..], i - 1)
  {
    AfterCons(g, calls[0], calls[1..][..i - 1]);
    assert calls[..i] == [calls[0]] + calls[1..][..i - 1];
  }

  /** No call before the one at `i` is still waiting. */
  ghost predicate NoneWaits(g: Gen, calls: seq<Call>, i: nat)
    requires i < |calls|
  {
    forall j :: 0 <= j < i && calls[j].NextCall? ==> OutcomeAt(g, calls, j) != Waiting
  }

  lemma {:induction false} NoneWaitsBehind(g: Gen, calls: seq<Call>, i: nat)
    requires 0 < i < |calls| && NoneWaits(g, calls, i)
    ensures NoneWaits(After(g, [calls[0]]), calls[1..], i - 1)
  {
    var next, rest := After(g, [calls[0]]), calls[1..];
    forall j | 0 <= j < i - 1 && rest[j].NextCall? ensures OutcomeAt(next, rest, j) != Waiting {
      OutcomeShift(g, calls, j + 1);
      assert OutcomeAt(g, calls, j + 1) != Waiting;
    }
  }

  lemma {:induction false} RunGoesOn(g: Gen, calls: seq<Call>)
    requires calls != [] && (calls[0].NextCall? ==> Next(g, calls[0].readings).1 != Waiting)
    ensures forall e :: e in Run(After(g, [calls[0]]), calls[1..]) ==> e in Run(g, calls)
    ensures calls[0].NextCall? && Next(g, calls[0].readings).1.Issued? ==>
      Run(g, calls) != [] && Run(g, calls)[0].id == Next(g, calls[0].readings).1.id
  {
    AfterOne(g, calls[0]);
  }

  /** Unless an earlier call is still waiting, an identifier that a call issues is listed by the run. */
  lemma {:induction false} IssuedIsListed(g: Gen, calls: seq<Call>, i: nat) returns (e: Emission)
    requires i < |calls| && calls[i].NextCall? && OutcomeAt(g, calls, i).Issued?
    requires NoneWaits(g, calls, i)
    ensures e in Run(g, calls) && e.id == OutcomeAt(g, calls, i).id
    decreases |calls|
  {
    AfterOne(g, calls[0]);
    assert calls[..0] == [];
    RunGoesOn(g, calls);
    if i == 0 {
      e := Run(g, calls)[0];
    } else {
      var next, rest := After(g, [calls[0]]), calls[1..];
      OutcomeShift(g, calls, i);
      NoneWaitsBehind(g, calls, i);
      e := IssuedIsListed(next, rest, i - 1);
    }
  }

  ghost predicate ClockFits(calls: seq<Call>) {
    forall c :: c in calls && c.NextCall? ==> forall r :: r in c.readings ==> Fits(r)
  }

  ghost predicate WellPacked(e: Emission) {
    Fits(e.stamp) && ValidParts(e.node, e.sequence) && e.id == Pack(e.stamp, e.node, e.sequence)
  }

  predicate EmittedLater(e: Emission, f: Emission) {
    e.stamp < f.stamp || (e.stamp == f.stamp && e.sequence < f.sequence)
  }

  predicate AfterState(g: Gen, e: Emission) {
    g.lastStamp < e.stamp || (g.lastStamp == e.stamp && g.sequence < e.sequence)
  }

  ghost predicate Ascending(g: Gen, es: seq<Emission>) {
    && (forall e :: e in es ==> WellPacked(e) && AfterState(g, e))
    && (forall i, j :: 0 <= i < j < |es| ==> EmittedLater(es[i], es[j]))
  }

  lemma AscendingCons(g: Gen, h: Gen, e: Emission, es: seq<Emission>)
    requires Ascending(h, es) && WellPacked(e) && Later(g, h)
    requires e.stamp == h.lastStamp && e.sequence == h.sequence
    ensures Ascending(g, [e] + es)
  {
    forall i, j | 0 <= i < j < |[e] + es| ensures EmittedLater(([e] + es)[i], ([e] + es)[j]) {
      if i == 0 { assert ([e] + es)[j] in es; }
    }
  }

  /** Whatever the clock does, each identifier's stamp and sequence come after all earlier ones. */
  lemma {:induction false} RunAdvances(g: Gen, calls: seq<Call>)
    requires ValidGen(g) && ClockFits(calls)
    ensures Ascending(g, Run(g, calls))
    decreases |calls|
  {
    if calls != [] {
      assert ClockFits(calls[1..]) by {
        assert forall c :: c in calls[1..] ==> c in calls;
      }
      match calls[0]
      case NodeCall(node) =>
        RunAdvances(WithNode(g, node), calls[1..]);
      case NextCall(readings) =>
        var r := Next(g, readings);
        NextAdvances(g, readings);
        RunAdvances(r.0, calls[1..]);
        if r.1.Issued? {
          assert calls[0] in calls && Fits(r.0.lastStamp);
          AscendingCons(g, r.0, Emission(r.0.lastStamp, r.0.node, r.0.sequence, r.1.id), Run(r.0, calls[1..]));
        }
    }
  }

  /** One generator never issues an identifier twice, through stalls, jumps and backward steps of
      the clock and through changes of its node. */
  lemma {:induction false} IdsAreDistinct(g: Gen, calls: seq<Call>)
    requires ValidGen(g) && ClockFits(calls)
    ensures var es := Run(g, calls); forall i, j :: 0 <= i < j < |es| ==> es[i].id != es[j].id
  {
    RunAdvances(g, calls);
    var es := Run(g, calls);
    forall i, j | 0 <= i < j < |es| ensures es[i].id != es[j].id {
      assert WellPacked(es[i]) && WellPacked(es[j]) && EmittedLater(es[i], es[j]);
      PackIsMonotone(es[i].stamp, es[i].node, es[i].sequence, es[j].stamp, es[j].node, es[j].sequence);
      PackIsMonotone(es[j].stamp, es[j].node, es[j].sequence, es[i].stamp, es[i].node, es[i].sequence);
    }
  }

  lemma {:induction false} RunKeepsNode(g: Gen, calls: seq<Call>)
    requires ValidGen(g) && forall c :: c in calls ==> c.NextCall?
    ensures forall e :: e in Run(g, calls) ==> e.node == g.node
    decreases |calls|
  {
    if calls != [] {
      assert calls[0] in calls;
      NextAdvances(g, calls[0].readings);
      RunKeepsNode(Next(g, calls[0].readings).0, calls[1..]);
    }
  }

  ghost predicate IdsAscend(es: seq<Emission>) {
    && (forall i :: 0 <= i < |es| ==> es[i].id >= 0)
    && (forall i, j :: 0 <= i < j < |es| ==> es[i].id < es[j].id)
  }

  /** With a fixed node the identifiers strictly increase. */
  lemma {:induction false} IdsIncrease(g: Gen, calls: seq<Call>)
    requires ValidGen(g) && ClockFits(calls) && forall c :: c in calls ==> c.NextCall?
    ensures IdsAscend(Run(g, calls))
  {
    RunAdvances(g, calls);
    RunKeepsNode(g, calls);
    var es := Run(g, calls);
    forall i | 0 <= i < |es| ensures es[i].id >= 0 {
      assert es[i] in es;
      PackIsSum(es[i].stamp, es[i].node, es[i].sequence);
    }
    forall i, j | 0 <= i < j < |es| ensures es[i].id < es[j].id {
      assert es[i] in es && es[j] in es && EmittedLater(es[i], es[j]);
      PackIsMonotone(es[i].stamp, es[i].node, es[i].sequence, es[j].stamp, es[j].node, es[j].sequence);
    }
  }

  /** Generators with different fixed nodes never issue the same identifier. */
  lemma {:induction false} NodesNeverCollide(g: Gen, calls: seq<Call>, h: Gen, calls': seq<Call>)
    requires ValidGen(g) && ClockFits(calls) && forall c :: c in calls ==> c.NextCall?
    requires ValidGen(h) && ClockFits(calls') && forall c :: c in calls' ==> c.NextCall?
    requires g.node != h.node
    ensures forall e, f :: e in Run(g, calls) && f in Run(h, calls') ==> e.id != f.id
  {
    RunAdvances(g, calls);
    RunKeepsNode(g, calls);
    RunAdvances(h, calls');
    RunKeepsNode(h, calls');
    forall e, f | e in Run(g, calls) && f in Run(h, calls') ensures e.id != f.id {
      PackIsMonotone(e.stamp, e.node, e.sequence, f.stamp, f.node, f.sequence);
      PackIsMonotone(f.stamp, f.node, f.sequence, e.stamp, e.node, e.sequence);
    }
  }

  class Generator {
    var node: int
    var lastStamp: int
    var sequence: int

    function State(): Gen
      reads this
    {
      Gen(node, lastStamp, sequence)
    }

    constructor ()
      ensures State() == Gen(0, 0, 0)
    {
      node, lastStamp, sequence := 0, 0, 0;
    }

    method SetNode(newNode: int) returns (ok: bool)
      modifies this
      ensures ok <==> 0 <= newNode <= 1023
      ensures State() == if ok then old(State()).(node := newNode) else old(State())
      ensures State() == WithNode(old(State()), newNode)
    {
      if newNode < 0 || newNode > MAX_NODE { return false; }
      node := newNode;
      return true;
    }

    /** The readings are what the clock shows at the successive places the call looks at it. */
    method NextID(readings: seq<int>) returns (out: Outcome)
      modifies this
      ensures (State(), out) == Next(old(State()), readings)
    {
      if |readings| == 0 { return Waiting; }
      var i := 0;
      if readings[0] < lastStamp {
        if lastStamp - readings[0] > MAX_BACKOFF { return ClockBackward; }
        if |readings| == 1 { return Waiting; }
        i := 1;
        if readings[1] < lastStamp { return ClockBackward; }
      }
      if readings[i] == lastStamp {
        sequence := And(sequence + 1, MAX_SEQ);
        if sequence == 0 {
          ghost var first := i;
          while i < |readings| && readings[i] <= lastStamp
            modifies {}
            invariant first <= i <= |readings|
            invariant FirstLater(readings, first, lastStamp) == FirstLater(readings, i, lastStamp)
          {
            i := i + 1;
          }
          if i == |readings| { return Waiting; }
        }
      } else {
        sequence := 0;
      }
      lastStamp := readings[i];
      return Issued(Pack(lastStamp, node, sequence));
    }
  }
}
