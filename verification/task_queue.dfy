/** The in-process delayed task queue of framework/taskqueue/taskqueue.go: submitters append tasks, one
    scheduling loop takes due tasks out, earliest first, and launches at most so many at a time. */
module TaskQueue {
  import opened Wrappers

  datatype Task = Task(id: nat, runAt: int)

  // ---------- Taking the earliest due task ----------

  predicate IsDue(t: Task, now: int) {
    t.runAt <= now
  }

  /** `k` is the first of the due tasks with the smallest time. */
  ghost predicate IsEarliest(pending: seq<Task>, now: int, k: nat) {
    && k < |pending| && IsDue(pending[k], now)
    && forall j :: 0 <= j < |pending| && IsDue(pending[j], now) ==>
         pending[k].runAt <= pending[j].runAt && (j < k ==> pending[k].runAt < pending[j].runAt)
  }

  ghost predicate NoneDue(pending: seq<Task>, now: int) {
    forall j :: 0 <= j < |pending| ==> !IsDue(pending[j], now)
  }

  function Without(pending: seq<Task>, k: nat): seq<Task>
    requires k < |pending|
  {
    pending[..k] + pending[k + 1..]
  }

  function Due(pending: seq<Task>, now: int): seq<Task> {
    if pending == [] then []
    else (if IsDue(pending[0], now) then [pending[0]] else []) + Due(pending[1..], now)
  }

  function NotDue(pending: seq<Task>, now: int): seq<Task> {
    if pending == [] then []
    else (if IsDue(pending[0], now) then [] else [pending[0]]) + NotDue(pending[1..], now)
  }

  // ---------- Stable order ----------

  ghost predicate SortedByTime(ts: seq<Task>) {
    forall i, j :: 0 <= i < j < |ts| ==> ts[i].runAt <= ts[j].runAt
  }

  /** The tasks with one time, in order. */
  function Group(ts: seq<Task>, time: int): seq<Task> {
    if ts == [] then [] else (if ts[0].runAt == time then [ts[0]] else []) + Group(ts[1..], time)
  }

  /** `sorted` is `ts` in order of time, tasks with the same time in their original order. */
  ghost predicate IsStableSort(sorted: seq<Task>, ts: seq<Task>) {
    SortedByTime(sorted) && forall time :: Group(sorted, time) == Group(ts, time)
  }

  lemma {:induction false} GroupMembers(ts: seq<Task>, time: int)
    ensures forall t :: t in Group(ts, time) <==> t in ts && t.runAt == time
    decreases |ts|
  {
    if ts != [] { GroupMembers(ts[1..], time); }
  }

  /** There is only one stable order. */
  lemma {:induction false} StableSortIsUnique(a: seq<Task>, b: seq<Task>, ts: seq<Task>)
    requires IsStableSort(a, ts) && IsStableSort(b, ts)
    ensures a == b
  {
    forall time ensures Group(a, time) == Group(b, time) {
      assert Group(a, time) == Group(ts, time);
    }
    SameGroupsSameList(a, b);
  }

  lemma {:induction false} SameGroupsSameList(a: seq<Task>, b: seq<Task>)
    requires SortedByTime(a) && SortedByTime(b)
    requires forall time :: Group(a, time) == Group(b, time)
    ensures a == b
    decreases |a|
  {
    if a == [] {
      var time := TimeInUse(b);
      assert Group(a, time) == Group(b, time);
    } else {
      GroupMembers(a, a[0].runAt);
      GroupMembers(b, a[0].runAt);
      assert a[0] in Group(a, a[0].runAt);
      GroupMembers(a, b[0].runAt);
      GroupMembers(b, b[0].runAt);
      assert b[0] in Group(b, b[0].runAt);
      HeadOfGroup(a);
      HeadOfGroup(b);
      assert Group(a, a[0].runAt) == Group(b, a[0].runAt) && Group(a, b[0].runAt) == Group(b, b[0].runAt);
      assert a[0] == b[0];
      forall time ensures Group(a[1..], time) == Group(b[1..], time) {
        assert Group(a, time) == Group(b, time);
        var n := if a[0].runAt == time then 1 else 0;
        assert Group(a[1..], time) == Group(a, time)[n..] && Group(b[1..], time) == Group(b, time)[n..];
      }
      SameGroupsSameList(a[1..], b[1..]);
    }
  }

  lemma TimeInUse(ts: seq<Task>) returns (time: int)
    ensures ts != [] ==> Group(ts, time) != []
  {
    time := if ts == [] then 0 else ts[0].runAt;
    GroupMembers(ts, time);
    assert ts != [] ==> ts[0] in Group(ts, time);
  }

  lemma {:induction false} HeadOfGroup(a: seq<Task>)
    requires SortedByTime(a) && a != []
    ensures Group(a, a[0].runAt) != [] && Group(a, a[0].runAt)[0] == a[0]
    ensures forall t :: t in a ==> a[0].runAt <= t.runAt
  {
  }

  // ---------- A dispatch pass ----------

  /** Taking out the earliest due task again and again, at time `now`: what was taken, in order, and
      what is left. */
  ghost predicate Takes(pending: seq<Task>, now: int, taken: seq<Task>, rest: seq<Task>)
    decreases |taken|
  {
    if taken == [] then rest == pending
    else exists k: nat :: IsEarliest(pending, now, k) && taken[0] == pending[k]
                          && Takes(Without(pending, k), now, taken[1..], rest)
  }

  /** One pass that no submission disturbs: it goes on until nothing is due. */
  ghost predicate IsPass(pending: seq<Task>, now: int, launched: seq<Task>, rest: seq<Task>) {
    Takes(pending, now, launched, rest) && NoneDue(rest, now)
  }

  lemma {:induction false} TakesOneMore(pending: seq<Task>, now: int, taken: seq<Task>, rest: seq<Task>, k: nat)
    requires Takes(pending, now, taken, rest) && IsEarliest(rest, now, k)
    ensures Takes(pending, now, taken + [rest[k]], Without(rest, k))
    decreases |taken|
  {
    if taken == [] {
      assert Takes(Without(rest, k), now, [], Without(rest, k));
    } else {
      var h: nat :| IsEarliest(pending, now, h) && taken[0] == pending[h]
                    && Takes(Without(pending, h), now, taken[1..], rest);
      TakesOneMore(Without(pending, h), now, taken[1..], rest, k);
      assert (taken + [rest[k]])[1..] == taken[1..] + [rest[k]];
    }
  }

  lemma {:induction false} GroupCons(t: Task, ts: seq<Task>, time: int)
    ensures Group([t] + ts, time) == (if t.runAt == time then [t] else []) + Group(ts, time)
  {
    assert ([t] + ts)[1..] == ts;
  }

  lemma {:induction false} DueCons(t: Task, ts: seq<Task>, now: int)
    ensures Due([t] + ts, now) == (if IsDue(t, now) then [t] else []) + Due(ts, now)
    ensures NotDue([t] + ts, now) == (if IsDue(t, now) then [] else [t]) + NotDue(ts, now)
  {
    assert ([t] + ts)[1..] == ts;
  }

  lemma {:induction false} GroupDueCons(t: Task, ts: seq<Task>, now: int, time: int)
    ensures Group(Due([t] + ts, now), time)
         == (if IsDue(t, now) && t.runAt == time then [t] else []) + Group(Due(ts, now), time)
  {
    DueCons(t, ts, now);
    GroupCons(t, Due(ts, now), time);
    assert [] + Due(ts, now) == Due(ts, now);
  }

  lemma {:induction false} GroupWithout(pending: seq<Task>, k: nat, now: int, time: int)
    requires IsEarliest(pending, now, k)
    ensures Group(Due(pending, now), time)
         == (if time == pending[k].runAt then [pending[k]] else []) + Group(Due(Without(pending, k), now), time)
    ensures NotDue(Without(pending, k), now) == NotDue(pending, now)
    decreases |pending|
  {
    var first, rest := pending[0], pending[1..];
    assert pending == [first] + rest;
    GroupDueCons(first, rest, now, time);
    DueCons(first, rest, now);
    if k == 0 {
      assert Without(pending, k) == rest;
    } else {
      assert Without(pending, k) == [first] + Without(rest, k - 1);
      GroupDueCons(first, Without(rest, k - 1), now, time);
      DueCons(first, Without(rest, k - 1), now);
      EarliestOfRest(pending, now, k);
      GroupWithout(rest, k - 1, now, time);
    }
  }

  lemma EarliestOfRest(pending: seq<Task>, now: int, k: nat)
    requires IsEarliest(pending, now, k) && k > 0
    ensures IsEarliest(pending[1..], now, k - 1)
  {
    forall j | 0 <= j < |pending[1..]| && IsDue(pending[1..][j], now)
      ensures pending[k].runAt <= pending[1..][j].runAt && (j < k - 1 ==> pending[k].runAt < pending[1..][j].runAt)
    {
      assert pending[1..][j] == pending[j + 1];
    }
  }

  lemma {:induction false} NothingDue(pending: seq<Task>, now: int)
    requires NoneDue(pending, now)
    ensures Due(pending, now) == [] && NotDue(pending, now) == pending
    decreases |pending|
  {
    if pending != [] {
      assert !IsDue(pending[0], now);
      assert NoneDue(pending[1..], now) by {
        forall j | 0 <= j < |pending[1..]| ensures !IsDue(pending[1..][j], now) {
          assert !IsDue(pending[j + 1], now);
        }
      }
      NothingDue(pending[1..], now);
    }
  }

  /** A pass launches exactly the due tasks, in stable order of their times, and leaves exactly the
      others, in their order. */
  lemma {:induction false} PassLaunchesDueInOrder(pending: seq<Task>, now: int, launched: seq<Task>, rest: seq<Task>)
    requires IsPass(pending, now, launched, rest)
    ensures IsStableSort(launched, Due(pending, now))
    ensures rest == NotDue(pending, now)
    decreases |launched|
  {
    if launched == [] {
      NothingDue(pending, now);
    } else {
      var k: nat :| IsEarliest(pending, now, k) && launched[0] == pending[k]
                    && Takes(Without(pending, k), now, launched[1..], rest);
      PassLaunchesDueInOrder(Without(pending, k), now, launched[1..], rest);
      GroupWithout(pending, k, now, 0);
      StableCons(pending, now, k, launched[1..]);
      assert launched == [pending[k]] + launched[1..];
    }
  }

  lemma {:induction false} StableCons(pending: seq<Task>, now: int, k: nat, later: seq<Task>)
    requires IsEarliest(pending, now, k)
    requires IsStableSort(later, Due(Without(pending, k), now))
    ensures IsStableSort([pending[k]] + later, Due(pending, now))
  {
    EarliestComesFirst(pending, now, k, later);
    forall time ensures Group([pending[k]] + later, time) == Group(Due(pending, now), time) {
      GroupCons(pending[k], later, time);
      GroupWithout(pending, k, now, time);
      assert Group(later, time) == Group(Due(Without(pending, k), now), time);
    }
  }

  /** What a pass launches later is no earlier than what it launches first. */
  lemma {:induction false} EarliestComesFirst(pending: seq<Task>, now: int, k: nat, later: seq<Task>)
    requires IsEarliest(pending, now, k)
    requires IsStableSort(later, Due(Without(pending, k), now))
    ensures SortedByTime([pending[k]] + later)
  {
    forall j | 0 <= j < |later| ensures pending[k].runAt <= later[j].runAt {
      var t := later[j];
      GroupMembers(later, t.runAt);
      assert t in later && t in Group(later, t.runAt);
      assert Group(later, t.runAt) == Group(Due(Without(pending, k), now), t.runAt);
      GroupMembers(Due(Without(pending, k), now), t.runAt);
      DueMembers(Without(pending, k), now);
      assert t in Without(pending, k) && IsDue(t, now);
      assert t in pending;
    }
  }

  /** What is due is what has a time up to now; the rest is not. */
  lemma {:induction false} DueMembers(pending: seq<Task>, now: int)
    ensures forall t :: t in Due(pending, now) <==> t in pending && t.runAt <= now
    ensures forall t :: t in NotDue(pending, now) <==> t in pending && t.runAt > now
    decreases |pending|
  {
    if pending != [] { DueMembers(pending[1..], now); }
  }

  // ---------- Runs of submitters, the scheduling loop and the workers ----------

  /** Where the scheduling loop stands: waiting, in the middle of a pass that read the clock at
      `now`, or holding a task it took out until a worker is free. */
  datatype Loop = Waiting | Passing(now: int) | Holding(now: int, task: Task)

  /** nextId: the last identifier drawn; drawn: identifiers of submissions that have not appended
      their task yet; started: every launch with its time, in order. */
  datatype System = System(
    clock: int, nextId: nat, drawn: set<nat>, pending: seq<Task>, submitted: seq<Task>,
    loop: Loop, running: nat, started: seq<(Task, int)>)

  datatype Event =
    | Tick(ms: nat)
    | Draw                          // Submit draws an identifier
    | AppendTask(id: nat, delay: int)   // Submit appends the task
    | Wake                          // the loop starts a pass
    | Take                          // popDue
    | Launch                        // the loop finds a free worker and starts the task
    | Finish                        // a worker ends

  function Earliest(pending: seq<Task>, now: int, n: nat): (r: Option<nat>)
    requires n <= |pending|
    ensures r.Some? ==> r.value < n
    ensures r == None ==> forall j :: 0 <= j < n ==> !IsDue(pending[j], now)
    ensures r.Some? ==> IsDue(pending[r.value], now)
    ensures r.Some? ==> forall j :: 0 <= j < n && IsDue(pending[j], now) ==>
      pending[r.value].runAt <= pending[j].runAt && (j < r.value ==> pending[r.value].runAt < pending[j].runAt)
  {
    if n == 0 then None
    else
      var before := Earliest(pending, now, n - 1);
      if !IsDue(pending[n - 1], now) then before
      else if before == None || pending[n - 1].runAt < pending[before.value].runAt then Some(n - 1)
      else before
  }

  lemma {:induction false} EarliestIsEarliest(pending: seq<Task>, now: int)
    ensures var r := Earliest(pending, now, |pending|);
      if r == None then NoneDue(pending, now) else IsEarliest(pending, now, r.value)
  {
  }

  function Step(workers: nat, s: System, e: Event): System {
    match e
    case Tick(ms) => s.(clock := s.clock + ms)
    case Draw => s.(nextId := s.nextId + 1, drawn := s.drawn + {s.nextId + 1})
    case AppendTask(id, delay) =>
      if id !in s.drawn then s
      else
        var t := Task(id, s.clock + (if delay < 0 then 0 else delay));
        s.(drawn := s.drawn - {id}, pending := s.pending + [t], submitted := s.submitted + [t])
    case Wake => if s.loop.Waiting? then s.(loop := Passing(s.clock)) else s
    case Take =>
      if !s.loop.Passing? then s
      else
        var k := Earliest(s.pending, s.loop.now, |s.pending|);
        if k == None then s.(loop := Waiting)
        else s.(pending := Without(s.pending, k.value), loop := Holding(s.loop.now, s.pending[k.value]))
    case Launch =>
      if !s.loop.Holding? || s.running >= workers then s
      else s.(running := s.running + 1, started := s.started + [(s.loop.task, s.clock)], loop := Passing(s.loop.now))
    case Finish => if s.running == 0 then s else s.(running := s.running - 1)
  }

  function Run(workers: nat, s: System, es: seq<Event>): System
    decreases |es|
  {
    if es == [] then s else Run(workers, Step(workers, s, es[0]), es[1..])
  }

  function Tasks(started: seq<(Task, int)>): (ts: seq<Task>)
    ensures |ts| == |started| && forall i :: 0 <= i < |ts| ==> ts[i] == started[i].0
  {
    seq(|started|, i requires 0 <= i < |started| => started[i].0)
  }

  function Held(l: Loop): seq<Task> {
    if l.Holding? then [l.task] else []
  }

  /** Every submitted task is in exactly one place: pending, held by the loop, or started. */
  ghost predicate Conserved(s: System) {
    multiset(s.pending) + multiset(Held(s.loop)) + multiset(Tasks(s.started)) == multiset(s.submitted)
  }

  /** No identifier is used for two tasks. */
  ghost predicate UniqueIds(s: System) {
    && (forall i, j :: 0 <= i < j < |s.submitted| ==> s.submitted[i].id != s.submitted[j].id)
    && (forall i :: 0 <= i < |s.submitted| ==> s.submitted[i].id <= s.nextId && s.submitted[i].id !in s.drawn)
    && (forall id :: id in s.drawn ==> id <= s.nextId)
  }

  ghost predicate NeverEarly(s: System) {
    && (s.loop.Passing? || s.loop.Holding? ==> s.loop.now <= s.clock)
    && (s.loop.Holding? ==> s.loop.task.runAt <= s.loop.now)
    && (forall i :: 0 <= i < |s.started| ==> s.started[i].0.runAt <= s.started[i].1 <= s.clock)
  }

  ghost predicate Inv(workers: nat, s: System) {
    Conserved(s) && UniqueIds(s) && NeverEarly(s) && s.running <= workers
  }

  function Initial(clock: int): System {
    System(clock, 0, {}, [], [], Waiting, 0, [])
  }

  lemma RemovedMultiset(pending: seq<Task>, k: nat)
    requires k < |pending|
    ensures multiset(pending) == multiset(Without(pending, k)) + multiset([pending[k]])
  {
    assert pending == pending[..k] + [pending[k]] + pending[k + 1..];
  }

  lemma TakeConserves(workers: nat, s: System)
    requires Conserved(s)
    ensures Conserved(Step(workers, s, Take))
  {
    if s.loop.Passing? {
      var k := Earliest(s.pending, s.loop.now, |s.pending|);
      if k.Some? { RemovedMultiset(s.pending, k.value); }
    }
  }

  lemma LaunchConserves(workers: nat, s: System)
    requires Conserved(s)
    ensures Conserved(Step(workers, s, Launch))
  {
    if s.loop.Holding? && s.running < workers {
      assert Tasks(s.started + [(s.loop.task, s.clock)]) == Tasks(s.started) + [s.loop.task];
    }
  }

  lemma StepConserves(workers: nat, s: System, e: Event)
    requires Conserved(s)
    ensures Conserved(Step(workers, s, e))
  {
    match e
    case AppendTask(id, delay) => AppendConserves(workers, s, id, delay);
    case Take => TakeConserves(workers, s);
    case Launch => LaunchConserves(workers, s);
    case _ =>
  }

  lemma AppendConserves(workers: nat, s: System, id: nat, delay: int)
    requires Conserved(s)
    ensures Conserved(Step(workers, s, AppendTask(id, delay)))
  {
    if id in s.drawn {
      var t := Task(id, s.clock + (if delay < 0 then 0 else delay));
      assert multiset(s.pending + [t]) == multiset(s.pending) + multiset{t};
      assert multiset(s.submitted + [t]) == multiset(s.submitted) + multiset{t};
    }
  }

  lemma StepKeepsUniqueIds(workers: nat, s: System, e: Event)
    requires UniqueIds(s)
    ensures UniqueIds(Step(workers, s, e))
  {
  }

  lemma StepIsNeverEarly(workers: nat, s: System, e: Event)
    requires NeverEarly(s)
    ensures NeverEarly(Step(workers, s, e))
  {
  }

  lemma StepKeepsInv(workers: nat, s: System, e: Event)
    requires Inv(workers, s)
    ensures Inv(workers, Step(workers, s, e))
  {
    StepConserves(workers, s, e);
    StepKeepsUniqueIds(workers, s, e);
    StepIsNeverEarly(workers, s, e);
    assert Step(workers, s, e).running <= workers;
  }

  /** In every interleaving of submissions, one scheduling loop and the workers, from an empty queue,
      the invariant holds. */
  lemma {:induction false} RunKeepsInv(workers: nat, clock: int, es: seq<Event>)
    ensures Inv(workers, Run(workers, Initial(clock), es))
  {
    assert Conserved(Initial(clock));
    RunKeepsInvFrom(workers, Initial(clock), es);
  }

  lemma {:induction false} RunKeepsInvFrom(workers: nat, s: System, es: seq<Event>)
    requires Inv(workers, s)
    ensures Inv(workers, Run(workers, s, es))
    decreases |es|
  {
    if es != [] {
      StepKeepsInv(workers, s, es[0]);
      RunKeepsInvFrom(workers, Step(workers, s, es[0]), es[1..]);
    }
  }

  lemma {:induction false} DistinctMultiplicity(ts: seq<Task>, t: Task)
    requires forall i, j :: 0 <= i < j < |ts| ==> ts[i].id != ts[j].id
    ensures multiset(ts)[t] <= 1
    decreases |ts|
  {
    if ts != [] {
      assert ts == [ts[0]] + ts[1..];
      DistinctMultiplicity(ts[1..], t);
      if ts[0] == t { assert t !in ts[1..]; }
    }
  }

  /** No task is started twice, and every started task was submitted. */
  lemma StartedAtMostOnce(workers: nat, s: System)
    requires Inv(workers, s)
    ensures forall i :: 0 <= i < |s.started| ==> s.started[i].0 in s.submitted
    ensures forall i, j :: 0 <= i < j < |s.started| ==> s.started[i].0.id != s.started[j].0.id
  {
    var ts := Tasks(s.started);
    assert multiset(ts) <= multiset(s.submitted);
    forall i | 0 <= i < |ts| ensures ts[i] in s.submitted {
      assert ts[i] in multiset(ts);
      assert ts[i] in multiset(s.submitted);
    }
    forall i, j | 0 <= i < j < |ts| ensures ts[i].id != ts[j].id {
      if ts[i] == ts[j] {
        TwiceInMultiset(ts, i, j);
        DistinctMultiplicity(s.submitted, ts[i]);
        assert false;
      }
    }
  }

  lemma TwiceInMultiset(ts: seq<Task>, i: nat, j: nat)
    requires i < j < |ts| && ts[i] == ts[j]
    ensures multiset(ts)[ts[i]] >= 2
  {
    assert ts == ts[..i] + [ts[i]] + ts[i + 1..j] + [ts[j]] + ts[j + 1..];
  }

  // ---------- What becomes of a submission ----------

  function Elapsed(es: seq<Event>): int {
    if es == [] then 0 else (if es[0].Tick? then es[0].ms else 0) + Elapsed(es[1..])
  }

  lemma {:induction false} ClockIsElapsed(workers: nat, s: System, es: seq<Event>)
    ensures Run(workers, s, es).clock == s.clock + Elapsed(es)
    decreases |es|
  {
    if es != [] { ClockIsElapsed(workers, Step(workers, s, es[0]), es[1..]); }
  }

  lemma {:induction false} RunSplit(workers: nat, s: System, es: seq<Event>, i: nat)
    requires i <= |es|
    ensures Run(workers, s, es) == Run(workers, Run(workers, s, es[..i]), es[i..])
    decreases i
  {
    if i > 0 {
      assert es[..i][0] == es[0] && es[..i][1..] == es[1..][..i - 1] && es[i..] == es[1..][i - 1..];
      RunSplit(workers, Step(workers, s, es[0]), es[1..], i - 1);
    } else {
      assert es[..0] == [] && es[0..] == es;
    }
  }

  lemma {:induction false} SubmittedStays(workers: nat, s: System, es: seq<Event>)
    ensures s.submitted <= Run(workers, s, es).submitted
    decreases |es|
  {
    if es != [] { SubmittedStays(workers, Step(workers, s, es[0]), es[1..]); }
  }

  /** The event at `i` appends the task of a submission that drew this identifier. */
  ghost predicate IsSubmission(workers: nat, clock: int, es: seq<Event>, i: nat) {
    i < |es| && es[i].AppendTask? && es[i].id in Run(workers, Initial(clock), es[..i]).drawn
  }

  /** Over every run, a submission is not started before its delay has passed since it was appended; a negative
      delay counts as none. */
  lemma {:induction false} StartsAfterItsDelay(workers: nat, clock: int, es: seq<Event>, i: nat, k: nat)
    requires IsSubmission(workers, clock, es, i)
    requires var u := Run(workers, Initial(clock), es); k < |u.started| && u.started[k].0.id == es[i].id
    ensures var at := Run(workers, Initial(clock), es).started[k].1;
      clock + Elapsed(es[..i]) + (if es[i].delay > 0 then es[i].delay else 0) <= at <= clock + Elapsed(es)
  {
    var before, u := Run(workers, Initial(clock), es[..i]), Run(workers, Initial(clock), es);
    var after := Step(workers, before, es[i]);
    RunSplit(workers, Initial(clock), es, i);
    assert es[i..][0] == es[i] && es[i..][1..] == es[i + 1..];
    SubmittedStays(workers, after, es[i + 1..]);
    RunKeepsInv(workers, clock, es);
    StartedAtMostOnce(workers, u);
    ClockIsElapsed(workers, Initial(clock), es[..i]);
    ClockIsElapsed(workers, Initial(clock), es);
    var t := after.submitted[|after.submitted| - 1];
    assert u.submitted[|after.submitted| - 1] == t && t.id == es[i].id;
    var j :| 0 <= j < |u.submitted| && u.submitted[j] == u.started[k].0;
    assert j == |after.submitted| - 1;
  }

  /** A submission, in its two steps, waits under a number of its own until exactly its delay has passed. */
  lemma SubmitAppends(workers: nat, s: System, delay: int)
    requires forall id :: id in s.drawn ==> id <= s.nextId
    ensures var t := Step(workers, Step(workers, s, Draw), AppendTask(s.nextId + 1, delay));
      t == s.(nextId := s.nextId + 1,
              pending := s.pending + [Task(s.nextId + 1, s.clock + if delay > 0 then delay else 0)],
              submitted := s.submitted + [Task(s.nextId + 1, s.clock + if delay > 0 then delay else 0)])
  {
    assert s.drawn + {s.nextId + 1} - {s.nextId + 1} == s.drawn;
  }

  /** A worker that ends makes room for the task the loop holds. */
  lemma EndingMakesRoom(workers: nat, s: System)
    requires workers > 0 && s.running == workers && s.loop.Holding?
    ensures Step(workers, s, Launch) == s
    ensures var t := Step(workers, Step(workers, s, Finish), Launch);
      t == s.(started := s.started + [(s.loop.task, s.clock)], loop := Passing(s.loop.now))
  {
  }

  /** Nothing that was submitted is given up: it is pending, held by the loop, or started. */
  lemma {:induction false} SubmissionsStay(workers: nat, clock: int, es: seq<Event>, i: nat)
    requires IsSubmission(workers, clock, es, i)
    ensures var u := Run(workers, Initial(clock), es);
      exists t: Task :: t.id == es[i].id && (t in u.pending || t in Held(u.loop) || t in Tasks(u.started))
  {
    var before, u := Run(workers, Initial(clock), es[..i]), Run(workers, Initial(clock), es);
    var after := Step(workers, before, es[i]);
    RunSplit(workers, Initial(clock), es, i);
    assert es[i..][0] == es[i] && es[i..][1..] == es[i + 1..];
    SubmittedStays(workers, after, es[i + 1..]);
    RunKeepsInv(workers, clock, es);
    var t := after.submitted[|after.submitted| - 1];
    assert t in u.submitted && t.id == es[i].id;
    assert t in multiset(u.pending) + multiset(Held(u.loop)) + multiset(Tasks(u.started));
  }

  /** A loop that wakes with workers enough takes and launches what is due by then, one task after the other, and
      then waits: its steps are a pass. */
  lemma WakingLoopMakesPass(workers: nat, s: System) returns (es: seq<Event>, launched: seq<Task>)
    requires s.loop == Waiting && s.running + |s.pending| <= workers
    ensures forall e :: e in es ==> e == Take || e == Launch
    ensures var u := Run(workers, s, [Wake] + es);
      && u.loop == Waiting && IsPass(s.pending, s.clock, launched, u.pending)
      && Tasks(u.started) == Tasks(s.started) + launched && u.running == s.running + |launched|
  {
    es, launched := LoopMakesPass(workers, Step(workers, s, Wake));
    assert ([Wake] + es)[1..] == es;
  }

  lemma {:induction false} LoopMakesPass(workers: nat, s: System) returns (es: seq<Event>, launched: seq<Task>)
    requires s.loop.Passing? && s.running + |s.pending| <= workers
    ensures forall e :: e in es ==> e == Take || e == Launch
    ensures var u := Run(workers, s, es);
      && u.loop == Waiting && IsPass(s.pending, s.loop.now, launched, u.pending)
      && Tasks(u.started) == Tasks(s.started) + launched && u.running == s.running + |launched|
    decreases |s.pending|
  {
    EarliestIsEarliest(s.pending, s.loop.now);
    var k := Earliest(s.pending, s.loop.now, |s.pending|);
    var taken := Step(workers, s, Take);
    if k == None {
      es, launched := [Take], [];
      assert Run(workers, taken, []) == taken;
      assert Tasks(s.started) + [] == Tasks(s.started);
    } else {
      var next := Step(workers, taken, Launch);
      var more, later := LoopMakesPass(workers, next);
      es, launched := [Take, Launch] + more, [s.pending[k.value]] + later;
      assert es[1..] == [Launch] + more && ([Launch] + more)[1..] == more;
      assert Run(workers, s, es) == Run(workers, next, more);
      assert Tasks(next.started) == Tasks(s.started) + [s.pending[k.value]];
      assert Tasks(s.started) + launched == Tasks(next.started) + later;
      assert launched[1..] == later;
      assert IsEarliest(s.pending, s.loop.now, k.value) && launched[0] == s.pending[k.value];
    }
  }

  // ---------- The queue ----------

  class Queue {
    var pending: seq<Task>
    var workers: nat
    var running: nat
    var lastId: nat

    ghost predicate Valid()
      reads this
    {
      workers > 0 && running <= workers
    }

    constructor (count: int)
      ensures Valid() && pending == [] && running == 0 && lastId == 0
      ensures workers == if count <= 0 then 2 else count
    {
      pending, running, lastId := [], 0, 0;
      workers := if count <= 0 then 2 else count;
    }

    method Submit(delay: int, now: int) returns (id: nat)
      requires Valid()
      modifies this`pending, this`lastId
      ensures Valid() && id == lastId == old(lastId) + 1
      ensures pending == old(pending) + [Task(id, now + (if delay < 0 then 0 else delay))]
    {
      var wait := if delay < 0 then 0 else delay;
      lastId := lastId + 1;
      id := lastId;
      pending := pending + [Task(id, now + wait)];
    }

    method PopDue(now: int) returns (t: Option<Task>)
      requires Valid()
      modifies this`pending
      ensures Valid()
      ensures t == None ==> (forall p :: p in old(pending) ==> p.runAt > now) && pending == old(pending)
      ensures t.Some? ==> t.value.runAt <= now
      ensures t == None ==> NoneDue(old(pending), now)
      ensures t.Some? ==> (exists k: nat :: IsEarliest(old(pending), now, k)
                                         && t.value == old(pending)[k] && pending == Without(old(pending), k))
    {
      EarliestIsEarliest(pending, now);
      var earliest := -1;
      for i := 0 to |pending|
        invariant earliest < i
        invariant Earliest(pending, now, i) == if earliest < 0 then None else Some(earliest)
      {
        if pending[i].runAt > now { continue; }
        if earliest < 0 || pending[i].runAt < pending[earliest].runAt {
          earliest := i;
        }
      }
      if earliest < 0 { return None; }
      t := Some(pending[earliest]);
      pending := pending[..earliest] + pending[earliest + 1..];
    }

    /** A pass that no submission disturbs; what it launches is returned in order, with the number of
        workers that ended meanwhile. */
    method DispatchDue(now: int) returns (launched: seq<Task>, ended: nat)
      requires Valid()
      modifies this`pending, this`running
      ensures Valid()
      ensures IsPass(old(pending), now, launched, pending)
      ensures running == old(running) + |launched| - ended
    {
      launched, ended := [], 0;
      while true
        invariant Valid()
        invariant Takes(old(pending), now, launched, pending)
        invariant running == old(running) + |launched| - ended
        decreases |pending|
      {
        ghost var before := pending;
        var t := PopDue(now);
        if t == None { return; }
        ghost var k: nat :| IsEarliest(before, now, k) && t.value == before[k] && pending == Without(before, k);
        TakesOneMore(old(pending), now, launched, before, k);
        var more := AwaitWorker();
        ended := ended + more;
        running := running + 1;
        launched := launched + [t.value];
      }
    }

    /** The loop sleeps while all workers are busy; meanwhile workers end. */
    method AwaitWorker() returns (ended: nat)
      requires Valid()
      modifies this`running
      ensures Valid() && running < workers && running == old(running) - ended
      ensures old(running) < workers ==> ended == 0
    {
      ended := 0;
      while running >= workers
        invariant running == old(running) - ended
        invariant old(running) < workers ==> ended == 0
      {
        running := running - 1;
        ended := ended + 1;
      }
    }
  }
}
