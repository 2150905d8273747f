/** The Redis task queue of framework/taskqueue/redqueue/redqueue.go: an immediate list, a sorted set of
    delayed tasks and a list of dead letters, worked on by any number of consumers. Every Redis command
    or script is one step; the clock counts nanoseconds, due times are whole milliseconds. */
module RedisQueue {

  type Payload = seq<bv8>

  const MAX_MOVED := 100

  /** A submission and its history: runs counts how often a handler was given the task, requeues how
      often it came back from the dead letters. Redis stores data and retries only. */
  datatype Task = Task(id: nat, data: Payload, retries: nat, due: int, runs: nat, requeues: nat)

  datatype Dead = Dead(task: Task, failedAt: int)

  /** The task list has its head first: tasks enter there and leave at the tail. hands: tasks popped
      and not settled yet. done, superseded and lost keep the tasks that left the queue. */
  datatype System = System(
    clock: int, submitted: nat, list: seq<Task>, delayed: seq<Task>, hands: seq<Task>, dead: seq<Dead>,
    done: seq<Task>, superseded: seq<Task>, lost: seq<Task>)

  datatype Event =
    | Tick(ns: nat)
    | Submit(data: Payload, delay: int, at: nat)  // `at`: where the sorted set puts the new member
    | Move
    | Pop
    | Settle(hand: nat, ok: bool)
    | Lose(hand: nat)                             // the consumer dies, or reports a Redis error
    | Requeue(index: nat)

  // ---------- Steps ----------

  function Millis(ns: int): int {
    ns / 1_000_000
  }

  function Without<T>(ts: seq<T>, k: nat): (r: seq<T>)
    requires k < |ts|
    ensures |r| == |ts| - 1
  {
    ts[..k] + ts[k + 1..]
  }

  function Reversed(ts: seq<Task>): (r: seq<Task>)
    ensures |r| == |ts| && forall i :: 0 <= i < |r| ==> r[i] == ts[|ts| - 1 - i]
  {
    if ts == [] then [] else Reversed(ts[1..]) + [ts[0]]
  }

  /** The position of the member with this payload, or the length. */
  function Find(ts: seq<Task>, data: Payload): (k: nat)
    ensures k <= |ts| && (k < |ts| ==> ts[k].data == data)
    ensures forall i :: 0 <= i < k ==> ts[i].data != data
  {
    if ts == [] || ts[0].data == data then 0 else 1 + Find(ts[1..], data)
  }

  /** Adding a member that is there already replaces it. */
  function Others(ts: seq<Task>, data: Payload): seq<Task> {
    var k := Find(ts, data);
    if k < |ts| then Without(ts, k) else ts
  }

  /** The sorted set is ordered by score; among equal scores any order is possible here. */
  predicate IsSlot(ts: seq<Task>, score: int, at: nat) {
    && at <= |ts|
    && (forall i :: 0 <= i < at ==> ts[i].due <= score)
    && (forall i :: at <= i < |ts| ==> score <= ts[i].due)
  }

  function DueCount(ts: seq<Task>, now: int): (k: nat)
    ensures k <= |ts| && (forall i :: 0 <= i < k ==> ts[i].due <= now)
    ensures k < |ts| ==> now < ts[k].due
  {
    if ts == [] || now < ts[0].due then 0 else 1 + DueCount(ts[1..], now)
  }

  function Moved(ts: seq<Task>, now: int): (k: nat)
    ensures k <= |ts|
  {
    var n := DueCount(ts, now);
    if n <= MAX_MOVED then n else MAX_MOVED
  }

  predicate SameLetter(a: Dead, b: Dead) {
    a.task.data == b.task.data && a.task.retries == b.task.retries && a.failedAt == b.failedAt
  }

  function FirstSame(ds: seq<Dead>, d: Dead): (k: nat)
    requires exists i :: 0 <= i < |ds| && SameLetter(ds[i], d)
    ensures k < |ds| && SameLetter(ds[k], d)
    ensures forall i :: 0 <= i < k ==> !SameLetter(ds[i], d)
  {
    if SameLetter(ds[0], d) then 0 else 1 + FirstSame(ds[1..], d)
  }

  function NewTask(s: System, data: Payload, delay: int): Task {
    Task(s.submitted + 1, data, 0, Millis(s.clock + delay), 0, 0)
  }

  function SubmitDelayed(s: System, t: Task, at: nat): System {
    var k := Find(s.delayed, t.data);
    var others := Others(s.delayed, t.data);
    if !IsSlot(others, t.due, at) then s
    else s.(submitted := s.submitted + 1,
            delayed := others[..at] + [t] + others[at..],
            superseded := s.superseded + (if k < |s.delayed| then [s.delayed[k]] else []))
  }

  function SubmitStep(s: System, data: Payload, delay: int, at: nat): System {
    if data == [] then s
    else if delay <= 0 then
      s.(submitted := s.submitted + 1, list := [NewTask(s, data, 0)] + s.list)
    else SubmitDelayed(s, NewTask(s, data, delay), at)
  }

  function MoveStep(s: System): System {
    var k := Moved(s.delayed, Millis(s.clock));
    s.(list := Reversed(s.delayed[..k]) + s.list, delayed := s.delayed[k..])
  }

  function PopStep(s: System): System {
    if s.list == [] then s
    else
      var t := s.list[|s.list| - 1];
      s.(list := s.list[..|s.list| - 1], hands := s.hands + [t.(runs := t.runs + 1)])
  }

  /** A limit of zero or less means retrying without end. */
  function SettleStep(m: int, s: System, hand: nat, ok: bool): System {
    if hand >= |s.hands| then s
    else
      var t := s.hands[hand];
      var rest := s.(hands := Without(s.hands, hand));
      if ok then rest.(done := s.done + [t])
      else if m > 0 && t.retries + 1 > m then rest.(dead := [Dead(t, s.clock)] + s.dead)
      else rest.(list := [t.(retries := t.retries + 1)] + s.list)
  }

  function LoseStep(s: System, hand: nat): System {
    if hand >= |s.hands| then s
    else s.(hands := Without(s.hands, hand), lost := s.lost + [s.hands[hand]])
  }

  /** The letter at `index` is put back with its count; the first equal letter is removed. */
  function RequeueStep(s: System, index: nat): System {
    if index >= |s.dead| then s
    else
      assert SameLetter(s.dead[index], s.dead[index]);
      var k := FirstSame(s.dead, s.dead[index]);
      var t := s.dead[k].task;
      s.(list := [t.(requeues := t.requeues + 1)] + s.list, dead := Without(s.dead, k))
  }

  function Step(m: int, s: System, e: Event): System {
    match e
    case Tick(ns) => s.(clock := s.clock + ns)
    case Submit(data, delay, at) => SubmitStep(s, data, delay, at)
    case Move => MoveStep(s)
    case Pop => PopStep(s)
    case Settle(hand, ok) => SettleStep(m, s, hand, ok)
    case Lose(hand) => LoseStep(s, hand)
    case Requeue(index) => RequeueStep(s, index)
  }

  function Run(m: int, s: System, es: seq<Event>): System
    decreases |es|
  {
    if es == [] then s else Run(m, Step(m, s, es[0]), es[1..])
  }

  function Initial(clock: int): System {
    System(clock, 0, [], [], [], [], [], [], [])
  }

  // ---------- Every task is in exactly one place ----------

  function Count(ts: seq<Task>, id: nat): nat {
    if ts == [] then 0 else (if ts[0].id == id then 1 else 0) + Count(ts[1..], id)
  }

  function DeadCountOf(ds: seq<Dead>, id: nat): nat {
    if ds == [] then 0 else (if ds[0].task.id == id then 1 else 0) + DeadCountOf(ds[1..], id)
  }

  /** How often a submission is found, over all places. */
  function Placed(s: System, id: nat): nat {
    Count(s.list, id) + Count(s.delayed, id) + Count(s.hands, id) + DeadCountOf(s.dead, id)
    + Count(s.done, id) + Count(s.superseded, id) + Count(s.lost, id)
  }

  /** Once if it was submitted, otherwise never. */
  ghost predicate PlacedOnce(s: System, id: nat) {
    Placed(s, id) == if 1 <= id <= s.submitted then 1 else 0
  }

  function One(t: Task, id: nat): nat {
    if t.id == id then 1 else 0
  }

  lemma {:induction false} CountConcat(a: seq<Task>, b: seq<Task>, id: nat)
    ensures Count(a + b, id) == Count(a, id) + Count(b, id)
    decreases |a|
  {
    if a == [] {
      assert a + b == b;
    } else {
      CountConcat(a[1..], b, id);
      assert (a + b)[1..] == a[1..] + b;
    }
  }

  lemma {:induction false} CountCons(t: Task, ts: seq<Task>, id: nat)
    ensures Count([t] + ts, id) == One(t, id) + Count(ts, id)
  {
    assert ([t] + ts)[1..] == ts;
  }

  lemma {:induction false} CountSnoc(ts: seq<Task>, t: Task, id: nat)
    ensures Count(ts + [t], id) == Count(ts, id) + One(t, id)
  {
    CountConcat(ts, [t], id);
    CountCons(t, [], id);
    assert [t] + [] == [t];
  }

  lemma {:induction false} CountWithout(ts: seq<Task>, k: nat, id: nat)
    requires k < |ts|
    ensures Count(ts, id) == Count(Without(ts, k), id) + One(ts[k], id)
  {
    assert ts == ts[..k] + ([ts[k]] + ts[k + 1..]);
    CountConcat(ts[..k], [ts[k]] + ts[k + 1..], id);
    CountCons(ts[k], ts[k + 1..], id);
    CountConcat(ts[..k], ts[k + 1..], id);
  }

  lemma {:induction false} CountInsert(ts: seq<Task>, at: nat, t: Task, id: nat)
    requires at <= |ts|
    ensures Count(ts[..at] + [t] + ts[at..], id) == Count(ts, id) + One(t, id)
  {
    CountConcat(ts[..at] + [t], ts[at..], id);
    CountSnoc(ts[..at], t, id);
    CountConcat(ts[..at], ts[at..], id);
    assert ts == ts[..at] + ts[at..];
  }

  lemma {:induction false} CountReversed(ts: seq<Task>, id: nat)
    ensures Count(Reversed(ts), id) == Count(ts, id)
    decreases |ts|
  {
    if ts != [] {
      CountReversed(ts[1..], id);
      CountSnoc(Reversed(ts[1..]), ts[0], id);
    }
  }

  lemma {:induction false} DeadCountWithout(ds: seq<Dead>, k: nat, id: nat)
    requires k < |ds|
    ensures DeadCountOf(ds, id) == DeadCountOf(Without(ds, k), id) + One(ds[k].task, id)
    decreases |ds|
  {
    if k == 0 {
      assert Without(ds, k) == ds[1..];
    } else {
      DeadCountWithout(ds[1..], k - 1, id);
      assert Without(ds, k) == [ds[0]] + Without(ds[1..], k - 1);
      DeadCountCons(ds[0], Without(ds[1..], k - 1), id);
    }
  }

  lemma {:induction false} DeadCountCons(d: Dead, ds: seq<Dead>, id: nat)
    ensures DeadCountOf([d] + ds, id) == One(d.task, id) + DeadCountOf(ds, id)
  {
    assert ([d] + ds)[1..] == ds;
  }

  lemma DelayedPlacesOnce(s: System, t: Task, at: nat, id: nat)
    requires PlacedOnce(s, id) && t.id == s.submitted + 1
    ensures PlacedOnce(SubmitDelayed(s, t, at), id)
  {
    var k := Find(s.delayed, t.data);
    var others := Others(s.delayed, t.data);
    if IsSlot(others, t.due, at) {
      CountInsert(others, at, t, id);
      if k < |s.delayed| {
        CountWithout(s.delayed, k, id);
        CountSnoc(s.superseded, s.delayed[k], id);
      } else {
        assert s.superseded + [] == s.superseded;
      }
    }
  }

  lemma SubmitPlacesOnce(s: System, data: Payload, delay: int, at: nat, id: nat)
    requires PlacedOnce(s, id)
    ensures PlacedOnce(SubmitStep(s, data, delay, at), id)
  {
    if data == [] {
    } else if delay <= 0 {
      CountCons(NewTask(s, data, 0), s.list, id);
    } else {
      DelayedPlacesOnce(s, NewTask(s, data, delay), at, id);
    }
  }

  lemma MovePlacesOnce(s: System, id: nat)
    requires PlacedOnce(s, id)
    ensures PlacedOnce(MoveStep(s), id)
  {
    var k := Moved(s.delayed, Millis(s.clock));
    var moved, kept := s.delayed[..k], s.delayed[k..];
    CountConcat(Reversed(moved), s.list, id);
    CountReversed(moved, id);
    CountConcat(moved, kept, id);
    assert s.delayed == moved + kept;
  }

  lemma PopPlacesOnce(s: System, id: nat)
    requires PlacedOnce(s, id)
    ensures PlacedOnce(PopStep(s), id)
  {
    if s.list != [] {
      var n := |s.list| - 1;
      var t := s.list[n];
      assert s.list == s.list[..n] + [t];
      CountSnoc(s.list[..n], t, id);
      CountSnoc(s.hands, t.(runs := t.runs + 1), id);
    }
  }

  lemma SettlePlacesOnce(m: int, s: System, hand: nat, ok: bool, id: nat)
    requires PlacedOnce(s, id)
    ensures PlacedOnce(SettleStep(m, s, hand, ok), id)
  {
    if hand < |s.hands| {
      var t := s.hands[hand];
      CountWithout(s.hands, hand, id);
      if ok {
        CountSnoc(s.done, t, id);
      } else if m > 0 && t.retries + 1 > m {
        DeadCountCons(Dead(t, s.clock), s.dead, id);
      } else {
        CountCons(t.(retries := t.retries + 1), s.list, id);
      }
    }
  }

  lemma LosePlacesOnce(s: System, hand: nat, id: nat)
    requires PlacedOnce(s, id)
    ensures PlacedOnce(LoseStep(s, hand), id)
  {
    if hand < |s.hands| {
      CountWithout(s.hands, hand, id);
      CountSnoc(s.lost, s.hands[hand], id);
    }
  }

  lemma RequeuePlacesOnce(s: System, index: nat, id: nat)
    requires PlacedOnce(s, id)
    ensures PlacedOnce(RequeueStep(s, index), id)
  {
    if index < |s.dead| {
      assert SameLetter(s.dead[index], s.dead[index]);
      var k := FirstSame(s.dead, s.dead[index]);
      var t := s.dead[k].task;
      DeadCountWithout(s.dead, k, id);
      CountCons(t.(requeues := t.requeues + 1), s.list, id);
    }
  }

  lemma StepPlacesOnce(m: int, s: System, e: Event, id: nat)
    requires PlacedOnce(s, id)
    ensures PlacedOnce(Step(m, s, e), id)
  {
    match e
    case Tick(_) =>
    case Submit(data, delay, at) => SubmitPlacesOnce(s, data, delay, at, id);
    case Move => MovePlacesOnce(s, id);
    case Pop => PopPlacesOnce(s, id);
    case Settle(hand, ok) => SettlePlacesOnce(m, s, hand, ok, id);
    case Lose(hand) => LosePlacesOnce(s, hand, id);
    case Requeue(index) => RequeuePlacesOnce(s, index, id);
  }

  // ---------- Retry counts ----------

  /** Everywhere in the queue a task's count is its number of runs, less one for each time it came
      back from the dead letters; with a limit, the count never passes the limit, and exactly the tasks
      that failed at the limit are dead. */
  ghost predicate CountsAreRight(m: int, s: System) {
    && (forall t :: t in s.list ==> WaitingCount(m, t))
    && (forall t :: t in s.delayed ==> t.retries == 0 && t.runs == 0 && t.requeues == 0)
    && (forall t :: t in s.hands ==> HandedCount(m, t))
    && (forall d :: d in s.dead ==> DeadCount(m, d.task))
    && (m <= 0 ==> s.dead == [])
    && (forall t :: t in s.done ==> HandedCount(m, t))
    && (forall t :: t in s.superseded ==> t.runs == 0)
    && (forall t :: t in s.lost ==> HandedCount(m, t))
  }

  ghost predicate WaitingCount(m: int, t: Task) {
    && t.runs == t.retries + t.requeues
    && (if m > 0 then t.retries <= m else t.requeues == 0)
  }

  ghost predicate HandedCount(m: int, t: Task) {
    && t.runs == t.retries + t.requeues + 1
    && (if m > 0 then t.retries <= m else t.requeues == 0)
  }

  ghost predicate DeadCount(m: int, t: Task) {
    m > 0 && t.retries == m && t.runs == m + 1 + t.requeues
  }

  lemma MemberOfWithout<T>(ts: seq<T>, k: nat)
    requires k < |ts|
    ensures forall t :: t in Without(ts, k) ==> t in ts
  {
  }

  lemma MovedMembers(s: System)
    ensures forall t :: t in MoveStep(s).list ==> t in s.list || t in s.delayed
    ensures forall t :: t in MoveStep(s).delayed ==> t in s.delayed
  {
  }

  lemma SubmitMembers(s: System, t: Task, at: nat)
    ensures forall u :: u in SubmitDelayed(s, t, at).delayed ==> u == t || u in s.delayed
    ensures forall u :: u in SubmitDelayed(s, t, at).superseded ==> u in s.superseded || u in s.delayed
  {
  }

  lemma StepKeepsCounts(m: int, s: System, e: Event)
    requires CountsAreRight(m, s)
    ensures CountsAreRight(m, Step(m, s, e))
  {
    match e
    case Tick(_) =>
    case Submit(data, delay, at) => SubmitMembers(s, NewTask(s, data, delay), at);
    case Move => MovedMembers(s);
    case Pop => PopKeepsCounts(m, s);
    case Settle(hand, ok) => SettleKeepsCounts(m, s, hand, ok);
    case Lose(hand) => if hand < |s.hands| { MemberOfWithout(s.hands, hand); }
    case Requeue(index) => RequeueKeepsCounts(m, s, index);
  }

  lemma PopKeepsCounts(m: int, s: System)
    requires CountsAreRight(m, s)
    ensures CountsAreRight(m, PopStep(s))
  {
    if s.list != [] {
      assert WaitingCount(m, s.list[|s.list| - 1]);
    }
  }

  lemma SettleKeepsCounts(m: int, s: System, hand: nat, ok: bool)
    requires CountsAreRight(m, s)
    ensures CountsAreRight(m, SettleStep(m, s, hand, ok))
  {
    if hand < |s.hands| {
      MemberOfWithout(s.hands, hand);
      assert HandedCount(m, s.hands[hand]);
    }
  }

  lemma RequeueKeepsCounts(m: int, s: System, index: nat)
    requires CountsAreRight(m, s)
    ensures CountsAreRight(m, RequeueStep(s, index))
  {
    if index < |s.dead| {
      assert SameLetter(s.dead[index], s.dead[index]);
      var k := FirstSame(s.dead, s.dead[index]);
      MemberOfWithout(s.dead, k);
      assert DeadCount(m, s.dead[k].task);
    }
  }

  // ---------- Due times ----------

  /** The delayed set is in order of score with one member for each payload, and only tasks whose time
      has come are anywhere else. */
  ghost predicate TimesAreRight(s: System) {
    && Ordered(s.delayed)
    && AllDue(s.list, Millis(s.clock)) && AllDue(s.hands, Millis(s.clock))
    && AllDue(s.done, Millis(s.clock)) && AllDue(s.lost, Millis(s.clock))
    && (forall i :: 0 <= i < |s.dead| ==> s.dead[i].task.due <= Millis(s.clock))
  }

  ghost predicate AllDue(ts: seq<Task>, now: int) {
    forall i :: 0 <= i < |ts| ==> ts[i].due <= now
  }

  ghost predicate Ordered(ts: seq<Task>) {
    && (forall i, j :: 0 <= i < j < |ts| ==> ts[i].due <= ts[j].due)
    && (forall i, j :: 0 <= i < j < |ts| ==> ts[i].data != ts[j].data)
  }

  lemma OrderedWithout(ts: seq<Task>, k: nat)
    requires Ordered(ts) && k < |ts|
    ensures Ordered(Without(ts, k))
    ensures forall i :: 0 <= i < |ts| - 1 ==> Without(ts, k)[i].data != ts[k].data
  {
    var rest := Without(ts, k);
    assert forall i :: 0 <= i < |rest| ==> rest[i] == ts[if i < k then i else i + 1];
  }

  lemma OrderedInsert(ts: seq<Task>, at: nat, t: Task)
    requires Ordered(ts) && IsSlot(ts, t.due, at)
    requires forall i :: 0 <= i < |ts| ==> ts[i].data != t.data
    ensures Ordered(ts[..at] + [t] + ts[at..])
  {
  }

  lemma SubmitKeepsTimes(s: System, t: Task, at: nat)
    requires TimesAreRight(s)
    ensures TimesAreRight(SubmitDelayed(s, t, at))
  {
    var k := Find(s.delayed, t.data);
    var others := Others(s.delayed, t.data);
    if k < |s.delayed| { OrderedWithout(s.delayed, k); }
    if IsSlot(others, t.due, at) { OrderedInsert(others, at, t); }
  }

  lemma MoveKeepsTimes(s: System)
    requires TimesAreRight(s)
    ensures TimesAreRight(MoveStep(s))
  {
    var k := Moved(s.delayed, Millis(s.clock));
    assert AllDue(s.delayed[..k], Millis(s.clock));
    assert AllDue(Reversed(s.delayed[..k]), Millis(s.clock));
  }

  lemma StepKeepsTimes(m: int, s: System, e: Event)
    requires TimesAreRight(s)
    ensures TimesAreRight(Step(m, s, e))
  {
    match e
    case Tick(ns) => TickKeepsTimes(s, ns);
    case Submit(data, delay, at) => SubmitStepKeepsTimes(s, data, delay, at);
    case Move => MoveKeepsTimes(s);
    case Pop => PopKeepsTimes(s);
    case Settle(hand, ok) => SettleKeepsTimes(m, s, hand, ok);
    case Lose(hand) => LoseKeepsTimes(s, hand);
    case Requeue(index) => RequeueKeepsTimes(s, index);
  }

  lemma TickKeepsTimes(s: System, ns: nat)
    requires TimesAreRight(s)
    ensures TimesAreRight(s.(clock := s.clock + ns))
  {
    assert Millis(s.clock) <= Millis(s.clock + ns);
  }

  lemma PopKeepsTimes(s: System)
    requires TimesAreRight(s)
    ensures TimesAreRight(PopStep(s))
  {
  }

  lemma LoseKeepsTimes(s: System, hand: nat)
    requires TimesAreRight(s)
    ensures TimesAreRight(LoseStep(s, hand))
  {
  }

  lemma SubmitStepKeepsTimes(s: System, data: Payload, delay: int, at: nat)
    requires TimesAreRight(s)
    ensures TimesAreRight(SubmitStep(s, data, delay, at))
  {
    if data != [] && delay > 0 { SubmitKeepsTimes(s, NewTask(s, data, delay), at); }
  }

  lemma SettleKeepsTimes(m: int, s: System, hand: nat, ok: bool)
    requires TimesAreRight(s)
    ensures TimesAreRight(SettleStep(m, s, hand, ok))
  {
  }

  lemma RequeueKeepsTimes(s: System, index: nat)
    requires TimesAreRight(s)
    ensures TimesAreRight(RequeueStep(s, index))
  {
  }

  // ---------- Whole runs ----------

  ghost predicate Inv(m: int, s: System) {
    CountsAreRight(m, s) && TimesAreRight(s)
  }

  /** In every interleaving of submitters, consumers, moves, requeues and crashes, starting from an
      empty queue, retry counts and due times are right. */
  lemma {:induction false} RunKeepsInv(m: int, clock: int, es: seq<Event>)
    ensures Inv(m, Run(m, Initial(clock), es))
  {
    RunKeepsInvFrom(m, Initial(clock), es);
  }

  lemma {:induction false} RunKeepsInvFrom(m: int, s: System, es: seq<Event>)
    requires Inv(m, s)
    ensures Inv(m, Run(m, s, es))
    decreases |es|
  {
    if es != [] {
      StepKeepsCounts(m, s, es[0]);
      StepKeepsTimes(m, s, es[0]);
      RunKeepsInvFrom(m, Step(m, s, es[0]), es[1..]);
    }
  }

  /** Some run from an empty queue leads here. */
  ghost predicate Reached(m: int, s: System) {
    exists clock: int, es: seq<Event> :: s == Run(m, Initial(clock), es)
  }

  lemma {:induction false} RunSnoc(m: int, s: System, es: seq<Event>, e: Event)
    ensures Run(m, s, es + [e]) == Step(m, Run(m, s, es), e)
    decreases |es|
  {
    assert (es + [e])[0] == if es == [] then e else es[0];
    if es == [] {
      assert (es + [e])[1..] == [];
    } else {
      assert (es + [e])[1..] == es[1..] + [e];
      RunSnoc(m, Step(m, s, es[0]), es[1..], e);
    }
  }

  lemma StepReaches(m: int, s: System, e: Event)
    requires Reached(m, s)
    ensures Reached(m, Step(m, s, e))
  {
    var clock: int, es: seq<Event> :| s == Run(m, Initial(clock), es);
    RunSnoc(m, Initial(clock), es, e);
  }

  lemma ReachedKeepsInv(m: int, s: System)
    requires Reached(m, s)
    ensures Inv(m, s)
  {
    var clock: int, es: seq<Event> :| s == Run(m, Initial(clock), es);
    RunKeepsInv(m, clock, es);
  }

  /** Whatever happened, each submission is in exactly one place, and nothing else is anywhere. */
  lemma {:induction false} EachTaskInOnePlace(m: int, clock: int, es: seq<Event>, id: nat)
    ensures PlacedOnce(Run(m, Initial(clock), es), id)
  {
    RunPlacesOnce(m, Initial(clock), es, id);
  }

  lemma {:induction false} RunPlacesOnce(m: int, s: System, es: seq<Event>, id: nat)
    requires PlacedOnce(s, id)
    ensures PlacedOnce(Run(m, s, es), id)
    decreases |es|
  {
    if es != [] {
      StepPlacesOnce(m, s, es[0], id);
      RunPlacesOnce(m, Step(m, s, es[0]), es[1..], id);
    }
  }

  /** With a retry limit, a task that was never requeued is run at most one time more than the limit,
      and each requeue allows one further run. */
  lemma {:induction false} RunsAreBounded(m: int, clock: int, es: seq<Event>, t: Task)
    requires m > 0
    requires var s := Run(m, Initial(clock), es);
      t in s.list || t in s.delayed || t in s.hands || t in s.done || t in s.lost || t in s.superseded
      || exists d :: d in s.dead && d.task == t
    ensures t.runs <= m + 1 + t.requeues
  {
    RunKeepsInv(m, clock, es);
  }

  /** Without a limit nothing is ever given up. */
  lemma {:induction false} NothingDiesWithoutLimit(m: int, clock: int, es: seq<Event>)
    requires m <= 0
    ensures Run(m, Initial(clock), es).dead == []
  {
    var s := Run(m, Initial(clock), es);
    RunKeepsInv(m, clock, es);
  }

  // ---------- What becomes of a submission ----------

  /** All tasks, wherever they are. */
  ghost predicate Everywhere(s: System, ok: Task -> bool) {
    && (forall t :: t in s.list ==> ok(t))
    && (forall t :: t in s.delayed ==> ok(t))
    && (forall t :: t in s.hands ==> ok(t))
    && (forall i :: 0 <= i < |s.dead| ==> ok(s.dead[i].task))
    && (forall t :: t in s.done ==> ok(t))
    && (forall t :: t in s.superseded ==> ok(t))
    && (forall t :: t in s.lost ==> ok(t))
  }

  /** It says something about the number, the payload and the time of a task alone. */
  ghost predicate Lasting(ok: Task -> bool) {
    forall t: Task, u: Task :: ok(t) && u.id == t.id && u.data == t.data && u.due == t.due ==> ok(u)
  }

  /** The delay asked for, where a negative one counts as none. */
  function Delay(e: Event): int
    requires e.Submit?
  {
    if e.delay > 0 then e.delay else 0
  }

  /** The submission `e`, made at time `now`, is the one with this number: it was let in. */
  predicate Brings(m: int, s: System, e: Event, n: nat) {
    e.Submit? && n == s.submitted + 1 && Step(m, s, e).submitted == n
  }

  ghost predicate BroughtIs(m: int, s: System, e: Event, ok: Task -> bool) {
    Brings(m, s, e, s.submitted + 1) ==>
      forall t: Task :: t.id == s.submitted + 1 && t.data == e.data && t.due == (s.clock + Delay(e)) / 1_000_000 ==> ok(t)
  }

  lemma SubmitKeepsEverywhere(m: int, s: System, e: Event, ok: Task -> bool)
    requires Everywhere(s, ok) && e.Submit? && BroughtIs(m, s, e, ok)
    ensures Everywhere(Step(m, s, e), ok)
  {
    if Brings(m, s, e, s.submitted + 1) {
      var t := NewTask(s, e.data, Delay(e));
      assert ok(t);
      SubmitMembers(s, t, e.at);
    }
  }

  lemma SettleKeepsEverywhere(m: int, s: System, hand: nat, success: bool, ok: Task -> bool)
    requires Everywhere(s, ok) && Lasting(ok)
    ensures Everywhere(SettleStep(m, s, hand, success), ok)
  {
    if hand < |s.hands| {
      MemberOfWithout(s.hands, hand);
      assert ok(s.hands[hand]);
    }
  }

  lemma RequeueKeepsEverywhere(s: System, index: nat, ok: Task -> bool)
    requires Everywhere(s, ok) && Lasting(ok)
    ensures Everywhere(RequeueStep(s, index), ok)
  {
    if index < |s.dead| {
      assert SameLetter(s.dead[index], s.dead[index]);
      var k := FirstSame(s.dead, s.dead[index]);
      assert ok(s.dead[k].task);
      var rest := Without(s.dead, k);
      assert forall i :: 0 <= i < |rest| ==> rest[i] == s.dead[if i < k then i else i + 1];
    }
  }

  lemma StepKeepsEverywhere(m: int, s: System, e: Event, ok: Task -> bool)
    requires Everywhere(s, ok) && Lasting(ok) && BroughtIs(m, s, e, ok)
    ensures Everywhere(Step(m, s, e), ok)
  {
    match e
    case Tick(_) =>
    case Submit(_, _, _) => SubmitKeepsEverywhere(m, s, e, ok);
    case Move => MovedMembers(s);
    case Pop => if s.list != [] { assert ok(s.list[|s.list| - 1]); }
    case Settle(hand, success) => SettleKeepsEverywhere(m, s, hand, success, ok);
    case Lose(hand) => if hand < |s.hands| { MemberOfWithout(s.hands, hand); }
    case Requeue(index) => RequeueKeepsEverywhere(s, index, ok);
  }

  lemma StepNumbers(m: int, s: System, e: Event)
    ensures s.submitted <= Step(m, s, e).submitted <= s.submitted + 1
    ensures Step(m, s, e).submitted > s.submitted ==> e.Submit?
  {
  }

  ghost predicate InTime(ts: seq<Task>) {
    forall i, j :: 0 <= i < j < |ts| ==> ts[i].due <= ts[j].due
  }

  lemma SlotIffInTime(ts: seq<Task>, t: Task, at: nat)
    requires InTime(ts) && at <= |ts|
    ensures IsSlot(ts, t.due, at) <==> InTime(ts[..at] + [t] + ts[at..])
  {
    var all := ts[..at] + [t] + ts[at..];
    if InTime(all) {
      forall i | 0 <= i < at ensures ts[i].due <= t.due { assert all[i] == ts[i] && all[at] == t; }
      forall i | at <= i < |ts| ensures t.due <= ts[i].due { assert all[i + 1] == ts[i] && all[at] == t; }
    }
  }

  lemma OthersInTime(s: System, data: Payload)
    requires Ordered(s.delayed)
    ensures InTime(Others(s.delayed, data))
  {
    var k := Find(s.delayed, data);
    if k < |s.delayed| { OrderedWithout(s.delayed, k); }
  }

  /** A submission with a payload is let in: at once when it has no delay, and otherwise at every place among the
      other waiting tasks that keeps the order of their times. */
  lemma LetInIffInTime(m: int, s: System, data: Payload, delay: int, at: nat)
    requires Ordered(s.delayed)
    ensures var others, t := Others(s.delayed, data), NewTask(s, data, delay);
      Brings(m, s, Submit(data, delay, at), s.submitted + 1) <==>
        data != [] && (delay <= 0 || (at <= |others| && InTime(others[..at] + [t] + others[at..])))
  {
    OthersInTime(s, data);
    if at <= |Others(s.delayed, data)| {
      SlotIffInTime(Others(s.delayed, data), NewTask(s, data, delay), at);
    }
  }

  function UpTo(n: nat): Task -> bool {
    (t: Task) => t.id <= n
  }

  /** No task has a number that was not given out yet. */
  lemma {:induction false} NumbersAreGivenOut(m: int, s: System, es: seq<Event>)
    requires Everywhere(s, UpTo(s.submitted))
    ensures var u := Run(m, s, es); Everywhere(u, UpTo(u.submitted))
    decreases |es|
  {
    if es != [] {
      var next := Step(m, s, es[0]);
      StepNumbers(m, s, es[0]);
      assert Everywhere(s, UpTo(next.submitted));
      StepKeepsEverywhere(m, s, es[0], UpTo(next.submitted));
      NumbersAreGivenOut(m, next, es[1..]);
    }
  }

  /** The task number `n`, if this is one of its stages, has this payload and this time. */
  function Carries(n: nat, data: Payload, due: int): Task -> bool {
    (t: Task) => t.id == n ==> t.data == data && t.due == due
  }

  lemma {:induction false} RunKeepsCarried(m: int, s: System, es: seq<Event>, n: nat, data: Payload, due: int)
    requires n <= s.submitted && Everywhere(s, Carries(n, data, due))
    ensures Everywhere(Run(m, s, es), Carries(n, data, due))
    decreases |es|
  {
    if es != [] {
      StepNumbers(m, s, es[0]);
      StepKeepsEverywhere(m, s, es[0], Carries(n, data, due));
      RunKeepsCarried(m, Step(m, s, es[0]), es[1..], n, data, due);
    }
  }

  lemma {:induction false} RunSplit(m: int, s: System, es: seq<Event>, i: nat)
    requires i <= |es|
    ensures Run(m, s, es) == Run(m, Run(m, s, es[..i]), es[i..])
    decreases i
  {
    if i > 0 {
      assert es[..i][0] == es[0] && es[..i][1..] == es[1..][..i - 1] && es[i..] == es[1..][i - 1..];
      RunSplit(m, Step(m, s, es[0]), es[1..], i - 1);
    } else {
      assert es[..0] == [] && es[0..] == es;
    }
  }

  /** The time that passes. */
  function Elapsed(es: seq<Event>): int {
    if es == [] then 0 else (if es[0].Tick? then es[0].ns else 0) + Elapsed(es[1..])
  }

  lemma {:induction false} ClockIsElapsed(m: int, s: System, es: seq<Event>)
    ensures Run(m, s, es).clock == s.clock + Elapsed(es)
    decreases |es|
  {
    if es != [] { ClockIsElapsed(m, Step(m, s, es[0]), es[1..]); }
  }

  /** The event at `i` is the submission number `n`, made after the events before it. */
  ghost predicate IsSubmission(m: int, clock: int, es: seq<Event>, i: nat, n: nat) {
    i < |es| && Brings(m, Run(m, Initial(clock), es[..i]), es[i], n)
  }

  /** The millisecond in which the submission at `i` is due: its own time and its delay. */
  function DueAt(clock: int, es: seq<Event>, i: nat): int
    requires i < |es| && es[i].Submit?
  {
    (clock + Elapsed(es[..i]) + Delay(es[i])) / 1_000_000
  }

  /** Over every run, wherever a submission is found, it has the payload it was submitted with, and the time of
      its submission with the delay added. */
  lemma {:induction false} SubmissionsKeepDataAndTime(m: int, clock: int, es: seq<Event>, i: nat, n: nat)
    requires IsSubmission(m, clock, es, i, n)
    ensures Everywhere(Run(m, Initial(clock), es), Carries(n, es[i].data, DueAt(clock, es, i)))
    ensures n <= Run(m, Initial(clock), es).submitted
  {
    var before, ok := Run(m, Initial(clock), es[..i]), Carries(n, es[i].data, DueAt(clock, es, i));
    ClockIsElapsed(m, Initial(clock), es[..i]);
    NumbersAreGivenOut(m, Initial(clock), es[..i]);
    StepKeepsEverywhere(m, before, es[i], ok);
    RunKeepsCarried(m, Step(m, before, es[i]), es[i + 1..], n, es[i].data, DueAt(clock, es, i));
    RunSplit(m, Initial(clock), es, i);
    assert es[i..][0] == es[i] && es[i..][1..] == es[i + 1..];
    SubmittedGrows(m, Step(m, before, es[i]), es[i + 1..]);
  }

  lemma {:induction false} SubmittedGrows(m: int, s: System, es: seq<Event>)
    ensures s.submitted <= Run(m, s, es).submitted
    decreases |es|
  {
    if es != [] {
      StepNumbers(m, s, es[0]);
      SubmittedGrows(m, Step(m, s, es[0]), es[1..]);
    }
  }

  lemma {:induction false} Counted(ts: seq<Task>, id: nat) returns (k: nat)
    requires Count(ts, id) > 0
    ensures k < |ts| && ts[k].id == id
    decreases |ts|
  {
    if ts[0].id == id {
      k := 0;
    } else {
      var rest := Counted(ts[1..], id);
      k := rest + 1;
    }
  }

  lemma {:induction false} CountedDead(ds: seq<Dead>, id: nat) returns (k: nat)
    requires DeadCountOf(ds, id) > 0
    ensures k < |ds| && ds[k].task.id == id
    decreases |ds|
  {
    if ds[0].task.id == id {
      k := 0;
    } else {
      var rest := CountedDead(ds[1..], id);
      k := rest + 1;
    }
  }

  /** The submission has been handed out, or could be. */
  predicate HasCome(s: System, n: nat) {
    Count(s.list, n) + Count(s.hands, n) + Count(s.done, n) + Count(s.lost, n) + DeadCountOf(s.dead, n) > 0
  }

  lemma ComeIsDue(s: System, n: nat, data: Payload, due: int)
    requires TimesAreRight(s) && Everywhere(s, Carries(n, data, due)) && HasCome(s, n)
    ensures due <= Millis(s.clock)
  {
    if Count(s.list, n) > 0 {
      var k := Counted(s.list, n);
      assert s.list[k] in s.list;
    } else if Count(s.hands, n) > 0 {
      var k := Counted(s.hands, n);
      assert s.hands[k] in s.hands;
    } else if Count(s.done, n) > 0 {
      var k := Counted(s.done, n);
      assert s.done[k] in s.done;
    } else if Count(s.lost, n) > 0 {
      var k := Counted(s.lost, n);
      assert s.lost[k] in s.lost;
    } else {
      var k := CountedDead(s.dead, n);
      assert Carries(n, data, due)(s.dead[k].task);
    }
  }

  /** No submission is listed, handed out or settled before the millisecond in which its delay has passed. */
  lemma {:induction false} NeverHandedEarly(m: int, clock: int, es: seq<Event>, i: nat, n: nat)
    requires IsSubmission(m, clock, es, i, n) && HasCome(Run(m, Initial(clock), es), n)
    ensures DueAt(clock, es, i) <= (clock + Elapsed(es)) / 1_000_000
  {
    var s := Run(m, Initial(clock), es);
    SubmissionsKeepDataAndTime(m, clock, es, i, n);
    ClockIsElapsed(m, Initial(clock), es);
    RunKeepsInv(m, clock, es);
    ComeIsDue(s, n, es[i].data, DueAt(clock, es, i));
  }

  lemma {:induction false} CountAt(ts: seq<Task>, k: nat, id: nat)
    requires k < |ts| && ts[k].id == id
    ensures Count(ts, id) > 0
    decreases k
  {
    if k > 0 { CountAt(ts[1..], k - 1, id); }
  }

  /** A Move takes the first hundred due members, or all that are due. */
  lemma MoveTakesUpToAHundred(s: System) returns (k: nat)
    requires Ordered(s.delayed)
    ensures k <= |s.delayed| && k <= 100
    ensures MoveStep(s) == s.(list := Reversed(s.delayed[..k]) + s.list, delayed := s.delayed[k..])
    ensures forall j :: 0 <= j < k ==> s.delayed[j].due <= s.clock / 1_000_000
    ensures k < 100 ==> forall j :: k <= j < |s.delayed| ==> s.delayed[j].due > s.clock / 1_000_000
  {
    k := Moved(s.delayed, Millis(s.clock));
  }

  /** Once its delay has passed, the next Move that meets at most a hundred due members lists a submission that
      was waiting. */
  lemma {:induction false} DueIsMoved(m: int, clock: int, es: seq<Event>, i: nat, n: nat)
    requires IsSubmission(m, clock, es, i, n)
    requires var s := Run(m, Initial(clock), es);
      && Count(s.delayed, n) > 0
      && forall j :: 100 <= j < |s.delayed| ==> s.delayed[j].due > s.clock / 1_000_000
    requires DueAt(clock, es, i) <= (clock + Elapsed(es)) / 1_000_000
    ensures var t := MoveStep(Run(m, Initial(clock), es)); Count(t.list, n) == 1 && Count(t.delayed, n) == 0
  {
    var s := Run(m, Initial(clock), es);
    SubmissionsKeepDataAndTime(m, clock, es, i, n);
    ClockIsElapsed(m, Initial(clock), es);
    RunKeepsInv(m, clock, es);
    var at := Counted(s.delayed, n);
    assert Carries(n, es[i].data, DueAt(clock, es, i))(s.delayed[at]);
    var k := MoveTakesUpToAHundred(s);
    assert at < k;
    CountAt(s.delayed[..k], at, n);
    CountReversed(s.delayed[..k], n);
    CountConcat(Reversed(s.delayed[..k]), s.list, n);
    EachTaskInOnePlace(m, clock, es, n);
    MovePlacesOnce(s, n);
  }

  /** What a handler is given: the task at the tail, one run on; and what its answer does.  A success settles the
      task, a failure short of the limit, or without one, puts it back at the head with one retry more, and a
      failure at the limit makes it a dead letter of that moment. */
  lemma HandlerDecides(m: int, s: System, ok: bool)
    requires s.list != []
    ensures var t, h := s.list[|s.list| - 1], Handle(m, s, ok);
      var rest, ran := s.list[..|s.list| - 1], t.(runs := t.runs + 1);
      h == (if ok then s.(list := rest, done := s.done + [ran])
            else if m <= 0 || t.retries < m then s.(list := [ran.(retries := t.retries + 1)] + rest)
            else s.(list := rest, dead := [Dead(ran, s.clock)] + s.dead))
  {
    var t := s.list[|s.list| - 1];
    var popped := PopStep(s);
    assert popped.hands[|s.hands|] == t.(runs := t.runs + 1);
    assert Without(popped.hands, |s.hands|) == s.hands;
  }

  /** What Redis stores of a letter. */
  function Stored(d: Dead): (Payload, nat, int) {
    (d.task.data, d.task.retries, d.failedAt)
  }

  /** A consumer that dies, or stops at a Redis error, loses the task it holds, and that one only. */
  lemma CrashLosesHeldTask(m: int, s: System, hand: nat)
    requires hand < |s.hands|
    ensures Step(m, s, Lose(hand))
         == s.(hands := s.hands[..hand] + s.hands[hand + 1..], lost := s.lost + [s.hands[hand]])
  {
  }

  /** A dead letter that is put back enters the list at the head with its retry count, and the first letter equal
      to it is removed; an index out of range changes nothing. */
  lemma RequeuePutsBack(s: System, index: nat) returns (k: nat)
    ensures index >= |s.dead| ==> RequeueStep(s, index) == s
    ensures index < |s.dead| ==>
      && k <= index && Stored(s.dead[k]) == Stored(s.dead[index])
      && (forall i :: 0 <= i < k ==> Stored(s.dead[i]) != Stored(s.dead[index]))
      && var t := s.dead[k].task;
         RequeueStep(s, index)
         == s.(list := [t.(requeues := t.requeues + 1)] + s.list, dead := s.dead[..k] + s.dead[k + 1..])
  {
    k := 0;
    if index < |s.dead| {
      assert SameLetter(s.dead[index], s.dead[index]);
      k := FirstSame(s.dead, s.dead[index]);
    }
  }

  // ---------- First in, first out ----------

  function Ids(ts: seq<Task>): seq<nat> {
    if ts == [] then [] else [ts[0].id] + Ids(ts[1..])
  }

  /** The listed submissions in the order in which they will be handed out. */
  function Line(ts: seq<Task>): seq<nat> {
    if ts == [] then [] else Line(ts[1..]) + [ts[0].id]
  }

  /** The submissions a step puts into the list: new ones, due ones in the order of their times, failed ones
      and dead ones. */
  function Enters(m: int, s: System, e: Event): seq<nat> {
    match e
    case Submit(data, delay, _) => if data != [] && delay <= 0 then [s.submitted + 1] else []
    case Move => Ids(s.delayed[..Moved(s.delayed, Millis(s.clock))])
    case Settle(hand, ok) =>
      if hand < |s.hands| && !ok && (m <= 0 || s.hands[hand].retries < m) then [s.hands[hand].id] else []
    case Requeue(index) =>
      if index < |s.dead| then
        assert SameLetter(s.dead[index], s.dead[index]);
        [s.dead[FirstSame(s.dead, s.dead[index])].task.id]
      else []
    case _ => []
  }

  function Leaves(s: System, e: Event): seq<nat> {
    if e.Pop? && s.list != [] then [s.list[|s.list| - 1].id] else []
  }

  function EntersAll(m: int, s: System, es: seq<Event>): seq<nat>
    decreases |es|
  {
    if es == [] then [] else Enters(m, s, es[0]) + EntersAll(m, Step(m, s, es[0]), es[1..])
  }

  function LeavesAll(m: int, s: System, es: seq<Event>): seq<nat>
    decreases |es|
  {
    if es == [] then [] else Leaves(s, es[0]) + LeavesAll(m, Step(m, s, es[0]), es[1..])
  }

  lemma {:induction false} LineCons(t: Task, ts: seq<Task>)
    ensures Line([t] + ts) == Line(ts) + [t.id]
  {
    assert ([t] + ts)[1..] == ts;
  }

  lemma {:induction false} LineSnoc(ts: seq<Task>, t: Task)
    ensures Line(ts + [t]) == [t.id] + Line(ts)
    decreases |ts|
  {
    if ts == [] {
      assert ts + [t] == [t];
    } else {
      LineSnoc(ts[1..], t);
      assert (ts + [t])[1..] == ts[1..] + [t];
    }
  }

  lemma Regroup<T>(a: seq<T>, b: seq<T>, c: seq<T>)
    ensures a + b + c == a + (b + c)
  {
  }

  lemma {:induction false} LineOfMoved(moved: seq<Task>, ts: seq<Task>)
    ensures Line(Reversed(moved) + ts) == Line(ts) + Ids(moved)
    decreases |moved|
  {
    if moved == [] {
      assert Reversed(moved) + ts == ts;
    } else {
      var first, rest := [moved[0]], moved[1..];
      LineOfMoved(rest, first + ts);
      LineCons(moved[0], ts);
      Regroup(Reversed(rest), first, ts);
      Regroup(Line(ts), [moved[0].id], Ids(rest));
    }
  }

  lemma PopIsFifo(s: System)
    ensures Line(s.list) == Leaves(s, Pop) + Line(PopStep(s).list)
  {
    if s.list != [] {
      var n := |s.list| - 1;
      assert s.list == s.list[..n] + [s.list[n]];
      LineSnoc(s.list[..n], s.list[n]);
    }
  }

  lemma StepIsFifo(m: int, s: System, e: Event)
    ensures Line(s.list) + Enters(m, s, e) == Leaves(s, e) + Line(Step(m, s, e).list)
  {
    match e
    case Tick(_) =>
    case Submit(data, delay, at) => if data != [] && delay <= 0 { LineCons(NewTask(s, data, 0), s.list); }
    case Move => LineOfMoved(s.delayed[..Moved(s.delayed, Millis(s.clock))], s.list);
    case Pop => PopIsFifo(s);
    case Settle(hand, ok) =>
      if hand < |s.hands| { LineCons(s.hands[hand].(retries := s.hands[hand].retries + 1), s.list); }
    case Lose(hand) =>
    case Requeue(index) =>
      if index < |s.dead| {
        assert SameLetter(s.dead[index], s.dead[index]);
        var t := s.dead[FirstSame(s.dead, s.dead[index])].task;
        LineCons(t.(requeues := t.requeues + 1), s.list);
      }
  }

  /** Over every run, what was listed and what entered is handed out in exactly that order. */
  lemma {:induction false} RunIsFifo(m: int, s: System, es: seq<Event>)
    ensures Line(s.list) + EntersAll(m, s, es) == LeavesAll(m, s, es) + Line(Run(m, s, es).list)
    decreases |es|
  {
    if es != [] {
      var next := Step(m, s, es[0]);
      StepIsFifo(m, s, es[0]);
      RunIsFifo(m, next, es[1..]);
      Shift(Line(s.list), Enters(m, s, es[0]), EntersAll(m, next, es[1..]),
            Leaves(s, es[0]), Line(next.list), LeavesAll(m, next, es[1..]), Line(Run(m, next, es[1..]).list));
    }
  }

  lemma Shift(a: seq<nat>, b: seq<nat>, c: seq<nat>, d: seq<nat>, e: seq<nat>, f: seq<nat>, g: seq<nat>)
    requires a + b == d + e && e + c == f + g
    ensures a + (b + c) == (d + f) + g
  {
    assert a + (b + c) == (a + b) + c;
    assert (d + e) + c == d + (e + c);
    assert d + (f + g) == (d + f) + g;
  }

  // ---------- Equal delayed payloads ----------

  /** This is a delayed submission, and the task that is waiting with an equal payload is number `id`. */
  predicate Meets(s: System, e: Event, id: nat) {
    && e.Submit? && e.data != [] && e.delay > 0
    && IsSlot(Others(s.delayed, e.data), NewTask(s, e.data, e.delay).due, e.at)
    && var k := Find(s.delayed, e.data);
       k < |s.delayed| && s.delayed[k].id == id
  }

  /** Some event of the run is a delayed submission that finds number `id` waiting with an equal payload. */
  predicate SomeMeet(m: int, s: System, es: seq<Event>, id: nat) {
    exists k :: 0 <= k < |es| && Meets(Run(m, s, es[..k]), es[k], id)
  }

  lemma {:induction false} MeetingSupersedes(m: int, s: System, e: Event, id: nat)
    ensures Count(Step(m, s, e).superseded, id) == Count(s.superseded, id) + if Meets(s, e, id) then 1 else 0
  {
    if e.Submit? && e.data != [] && e.delay > 0 {
      var k := Find(s.delayed, e.data);
      if k < |s.delayed| {
        CountSnoc(s.superseded, s.delayed[k], id);
      } else {
        assert s.superseded + [] == s.superseded;
      }
    }
  }

  lemma SomeMeetSplit(m: int, s: System, es: seq<Event>, id: nat)
    requires es != []
    ensures SomeMeet(m, s, es, id) <==> Meets(s, es[0], id) || SomeMeet(m, Step(m, s, es[0]), es[1..], id)
  {
    var next := Step(m, s, es[0]);
    assert es[..0] == [];
    forall k | 0 < k < |es| ensures Run(m, s, es[..k]) == Run(m, next, es[1..][..k - 1]) {
      assert es[..k][1..] == es[1..][..k - 1];
    }
    if k :| 0 <= k < |es| && Meets(Run(m, s, es[..k]), es[k], id) {
      if k > 0 { assert Meets(Run(m, next, es[1..][..k - 1]), es[1..][k - 1], id); }
    }
    if k :| 0 <= k < |es[1..]| && Meets(Run(m, next, es[1..][..k]), es[1..][k], id) {
      assert Meets(Run(m, s, es[..k + 1]), es[k + 1], id);
    }
    if Meets(s, es[0], id) { assert Meets(Run(m, s, es[..0]), es[0], id); }
  }

  lemma {:induction false} RunSupersedes(m: int, s: System, es: seq<Event>, id: nat)
    ensures Count(Run(m, s, es).superseded, id) > 0 <==> Count(s.superseded, id) > 0 || SomeMeet(m, s, es, id)
    decreases |es|
  {
    if es != [] {
      MeetingSupersedes(m, s, es[0], id);
      RunSupersedes(m, Step(m, s, es[0]), es[1..], id);
      SomeMeetSplit(m, s, es, id);
    }
  }

  /** A submission is swallowed exactly when a later delayed one finds it waiting with an equal payload. */
  lemma {:induction false} SwallowedIffEqualPending(m: int, clock: int, es: seq<Event>, id: nat)
    ensures Count(Run(m, Initial(clock), es).superseded, id) > 0 <==> SomeMeet(m, Initial(clock), es, id)
  {
    RunSupersedes(m, Initial(clock), es, id);
  }

  // ---------- One consumer emptying the list ----------

  /** One consumer handing out one task and settling it. */
  function Handle(m: int, s: System, ok: bool): System {
    SettleStep(m, PopStep(s), |s.hands|, ok)
  }

  function HandleAll(m: int, s: System, oks: seq<bool>): System
    decreases |oks|
  {
    if oks == [] then s else HandleAll(m, Handle(m, s, oks[0]), oks[1..])
  }

  /** The runs the listed tasks can still need. */
  function Work(m: int, ts: seq<Task>): int {
    if ts == [] then 0 else m + 1 - ts[0].retries + Work(m, ts[1..])
  }

  ghost predicate WithinLimit(m: int, ts: seq<Task>) {
    forall i :: 0 <= i < |ts| ==> ts[i].retries <= m
  }

  lemma {:induction false} WorkSnoc(m: int, ts: seq<Task>, t: Task)
    ensures Work(m, ts + [t]) == Work(m, ts) + m + 1 - t.retries
    decreases |ts|
  {
    if ts == [] {
      assert ts + [t] == [t];
    } else {
      WorkSnoc(m, ts[1..], t);
      assert (ts + [t])[1..] == ts[1..] + [t];
    }
  }

  lemma {:induction false} WorkIsPositive(m: int, ts: seq<Task>)
    requires WithinLimit(m, ts)
    ensures Work(m, ts) >= |ts|
    decreases |ts|
  {
    if ts != [] { WorkIsPositive(m, ts[1..]); }
  }

  lemma {:induction false} HandleSpendsWork(m: int, s: System, ok: bool)
    requires m > 0 && WithinLimit(m, s.list) && s.list != []
    ensures WithinLimit(m, Handle(m, s, ok).list)
    ensures Work(m, Handle(m, s, ok).list) < Work(m, s.list)
  {
    var n := |s.list| - 1;
    var t := s.list[n];
    var rest := s.list[..n];
    assert s.list == rest + [t];
    WorkSnoc(m, rest, t);
    var back := [t.(runs := t.runs + 1).(retries := t.retries + 1)];
    assert (back + rest)[1..] == rest;
    assert Handle(m, s, ok).list == rest || (t.retries < m && Handle(m, s, ok).list == back + rest);
  }

  /** With a limit, however the handlers end, the listed tasks are all settled after a bounded number of
      runs. */
  lemma {:induction false} ConsumerEmptiesList(m: int, s: System, oks: seq<bool>)
    requires m > 0 && WithinLimit(m, s.list) && |oks| >= Work(m, s.list)
    ensures HandleAll(m, s, oks).list == []
    decreases |oks|
  {
    WorkIsPositive(m, s.list);
    if oks != [] {
      if s.list == [] {
        assert Handle(m, s, oks[0]).list == [];
      } else {
        HandleSpendsWork(m, s, oks[0]);
      }
      ConsumerEmptiesList(m, Handle(m, s, oks[0]), oks[1..]);
    }
  }

  /** Without a limit, a handler that always fails keeps every listed task in the list for ever. */
  lemma {:induction false} FailuresNeverEnd(m: int, s: System, oks: seq<bool>)
    requires m <= 0 && forall i :: 0 <= i < |oks| ==> !oks[i]
    ensures |HandleAll(m, s, oks).list| == |s.list|
    decreases |oks|
  {
    if oks != [] {
      assert !oks[0];
      FailuresNeverEnd(m, Handle(m, s, oks[0]), oks[1..]);
    }
  }

  function Pops(n: nat): seq<Event> {
    if n == 0 then [] else [Pop] + Pops(n - 1)
  }

  lemma {:induction false} PopsEmptyList(m: int, s: System, n: nat)
    requires n >= |s.list|
    ensures EntersAll(m, s, Pops(n)) == []
    ensures Run(m, s, Pops(n)).list == [] && Run(m, s, Pops(n)).clock == s.clock
    decreases n
  {
    if n > 0 {
      assert Pops(n)[1..] == Pops(n - 1);
      PopsEmptyList(m, Step(m, s, Pop), n - 1);
    }
  }

  /** Enough pops hand out the whole line, in no time. */
  lemma {:induction false} PopsHandOutLine(m: int, s: System, n: nat)
    requires n >= |s.list|
    ensures LeavesAll(m, s, Pops(n)) == Line(s.list) && Run(m, s, Pops(n)).clock == s.clock
  {
    PopsEmptyList(m, s, n);
    RunIsFifo(m, s, Pops(n));
    assert Line(s.list) + [] == Line(s.list) && LeavesAll(m, s, Pops(n)) + [] == LeavesAll(m, s, Pops(n));
  }

  lemma {:induction false} InLineIffCounted(ts: seq<Task>, id: nat)
    ensures id in Line(ts) <==> Count(ts, id) > 0
    decreases |ts|
  {
    if ts != [] { InLineIffCounted(ts[1..], id); }
  }

  /** After a failure the line is as before, without its first; a task with retries left is put at its end. */
  lemma LineAfterFailure(m: int, s: System)
    requires s.list != []
    ensures var t := s.list[|s.list| - 1];
      && Line(s.list) == [t.id] + Line(s.list[..|s.list| - 1])
      && Line(Handle(m, s, false).list)
         == Line(s.list[..|s.list| - 1]) + (if m <= 0 || t.retries < m then [t.id] else [])
      && Handle(m, s, false).clock == s.clock && |Handle(m, s, false).list| <= |s.list|
  {
    var n := |s.list| - 1;
    var t, rest := s.list[n], s.list[..n];
    assert s.list == rest + [t];
    LineSnoc(rest, t);
    LineCons(t.(runs := t.runs + 1).(retries := t.retries + 1), rest);
    assert Line(rest) + [] == Line(rest);
  }

  lemma {:induction false} OnlyOnceInLine(ts: seq<Task>, t: Task)
    requires Count(ts + [t], t.id) <= 1
    ensures t.id !in Line(ts)
  {
    CountSnoc(ts, t, t.id);
    InLineIffCounted(ts, t.id);
  }

  /** There is no delay before a retry.  In every reachable queue, when the handler of the next task fails, so
      many pops as tasks were listed, with the clock standing still, hand out the tasks that waited and then
      the failed one again, if and only if the limit leaves it a retry. */
  lemma {:induction false} RetryIsNotDelayed(m: int, s: System)
    requires Reached(m, s) && s.list != []
    ensures var t, failed := s.list[|s.list| - 1], Handle(m, s, false);
      var pops := Pops(|s.list|);
      && Run(m, failed, pops).clock == s.clock
      && LeavesAll(m, failed, pops) == Line(s.list)[1..] + (if m <= 0 || t.retries < m then [t.id] else [])
      && (t.id in LeavesAll(m, failed, pops) <==> m <= 0 || t.retries < m)
  {
    var n := |s.list| - 1;
    var t, rest := s.list[n], s.list[..n];
    LineAfterFailure(m, s);
    PopsHandOutLine(m, Handle(m, s, false), |s.list|);
    ReachedPlacesOnce(m, s, t.id);
    assert s.list == rest + [t];
    OnlyOnceInLine(rest, t);
  }

  lemma {:induction false} ReachedPlacesOnce(m: int, s: System, id: nat)
    requires Reached(m, s)
    ensures Count(s.list, id) <= 1
  {
    var clock: int, es: seq<Event> :| s == Run(m, Initial(clock), es);
    EachTaskInOnePlace(m, clock, es, id);
  }
}
