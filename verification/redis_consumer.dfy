/** The queue object of framework/taskqueue/redqueue/redqueue.go over the three Redis keys it uses. What
    Redis keeps are the encoded values; the ghost view adds to each of them which submission it is. */
module RedisConsumer {
  import opened RedisQueue

  /** The stored value of a task; the codec keeps both fields apart. */
  datatype Envelope = Envelope(data: Payload, retries: nat)

  datatype Member = Member(value: Envelope, score: int)

  datatype Letter = Letter(data: Payload, retries: nat, failedAt: int)

  /** One turn of the consumer: time passes, and the handler succeeds or not if a task is there. */
  datatype Turn = Turn(wait: nat, ok: bool)

  // ---------- What Redis keeps of the view ----------

  function EnvelopeOf(t: Task): Envelope {
    Envelope(t.data, t.retries)
  }

  function Envelopes(ts: seq<Task>): (r: seq<Envelope>)
    ensures |r| == |ts| && forall i :: 0 <= i < |r| ==> r[i] == EnvelopeOf(ts[i])
  {
    seq(|ts|, i requires 0 <= i < |ts| => EnvelopeOf(ts[i]))
  }

  function Members(ts: seq<Task>): (r: seq<Member>)
    ensures |r| == |ts| && forall i :: 0 <= i < |r| ==> r[i] == Member(EnvelopeOf(ts[i]), ts[i].due)
  {
    seq(|ts|, i requires 0 <= i < |ts| => Member(EnvelopeOf(ts[i]), ts[i].due))
  }

  function Letters(ds: seq<Dead>): (r: seq<Letter>)
    ensures |r| == |ds|
    ensures forall i :: 0 <= i < |r| ==> r[i] == Letter(ds[i].task.data, ds[i].task.retries, ds[i].failedAt)
  {
    seq(|ds|, i requires 0 <= i < |ds| => Letter(ds[i].task.data, ds[i].task.retries, ds[i].failedAt))
  }

  function TurnStep(m: int, s: System, turn: Turn): System {
    Run(m, s, [Tick(turn.wait), Move, Pop, Settle(|s.hands|, turn.ok)])
  }

  lemma TurnInSteps(m: int, s: System, turn: Turn, waited: System, moved: System)
    requires waited == Step(m, s, Tick(turn.wait)) && moved == Step(m, waited, Move) && |moved.hands| == |s.hands|
    ensures TurnStep(m, s, turn) == Handle(m, moved, turn.ok)
  {
    var a, b, c, d := Tick(turn.wait), Move, Pop, Settle(|s.hands|, turn.ok);
    assert [a, b, c, d][1..] == [b, c, d] && [b, c, d][1..] == [c, d] && [c, d][1..] == [d] && [d][1..] == [];
    var popped := Step(m, moved, c);
    assert Run(m, popped, [d]) == Run(m, Step(m, popped, d), []);
    assert Run(m, moved, [c, d]) == Run(m, popped, [d]);
    assert Run(m, waited, [b, c, d]) == Run(m, moved, [c, d]);
    assert Run(m, s, [a, b, c, d]) == Run(m, waited, [b, c, d]);
  }

  /** A turn looks for due tasks before it pops: with nothing listed, the first task whose time has come is handed
      out in the same turn, and settled when its handler succeeds. */
  lemma TurnTakesDueTask(m: int, s: System, turn: Turn)
    requires s.list == [] && s.delayed != [] && turn.ok
    requires s.delayed[0].due <= (s.clock + turn.wait) / 1_000_000
    ensures var t := s.delayed[0]; TurnStep(m, s, turn).done == s.done + [t.(runs := t.runs + 1)]
  {
    var waited := Step(m, s, Tick(turn.wait));
    var moved := Step(m, waited, Move);
    TurnInSteps(m, s, turn, waited, moved);
    var k := Moved(s.delayed, Millis(waited.clock));
    assert moved.list == Reversed(s.delayed[..k]) + [] == Reversed(s.delayed[..k]);
    assert moved.list[k - 1] == s.delayed[0];
    HandlerDecides(m, moved, true);
  }

  function Turns(m: int, s: System, turns: seq<Turn>): System
    decreases |turns|
  {
    if turns == [] then s else TurnStep(m, Turns(m, s, turns[..|turns| - 1]), turns[|turns| - 1])
  }

  lemma {:induction false} TurnsSnoc(m: int, s: System, turns: seq<Turn>, turn: Turn)
    ensures Turns(m, s, turns + [turn]) == TurnStep(m, Turns(m, s, turns), turn)
  {
    assert (turns + [turn])[..|turns|] == turns;
  }

  // ---------- The sorted set and the dead list ----------

  function FindMember(zs: seq<Member>, value: Envelope): (k: nat)
    ensures k <= |zs|
  {
    if zs == [] || zs[0].value == value then 0 else 1 + FindMember(zs[1..], value)
  }

  function OtherMembers(zs: seq<Member>, value: Envelope): seq<Member> {
    var k := FindMember(zs, value);
    if k < |zs| then Without(zs, k) else zs
  }

  predicate IsPlace(zs: seq<Member>, score: int, at: nat) {
    && at <= |zs|
    && (forall i :: 0 <= i < at ==> zs[i].score <= score)
    && (forall i :: at <= i < |zs| ==> score <= zs[i].score)
  }

  ghost predicate Fresh(ts: seq<Task>) {
    forall i :: 0 <= i < |ts| ==> ts[i].retries == 0
  }

  lemma {:induction false} FindMemberIsFind(ts: seq<Task>, data: Payload)
    requires Fresh(ts)
    ensures FindMember(Members(ts), Envelope(data, 0)) == Find(ts, data)
    decreases |ts|
  {
    if ts != [] {
      assert Members(ts)[1..] == Members(ts[1..]);
      FindMemberIsFind(ts[1..], data);
    }
  }

  lemma OthersAreMembers(ts: seq<Task>, data: Payload)
    requires Fresh(ts)
    ensures OtherMembers(Members(ts), Envelope(data, 0)) == Members(Others(ts, data))
  {
    FindMemberIsFind(ts, data);
  }

  lemma PlaceIsSlot(ts: seq<Task>, score: int, at: nat)
    ensures IsPlace(Members(ts), score, at) == IsSlot(ts, score, at)
  {
    if at <= |ts| {
      assert forall i :: 0 <= i < |ts| ==> Members(ts)[i].score == ts[i].due;
    }
  }

  lemma {:induction false} PlaceExists(zs: seq<Member>, score: int) returns (at: nat)
    requires forall i, j :: 0 <= i < j < |zs| ==> zs[i].score <= zs[j].score
    ensures IsPlace(zs, score, at)
    decreases |zs|
  {
    if zs == [] || score <= zs[0].score {
      at := 0;
    } else {
      var later := PlaceExists(zs[1..], score);
      at := later + 1;
      forall i | 0 <= i < at ensures zs[i].score <= score {
        if i > 0 { assert zs[i] == zs[1..][i - 1]; }
      }
      forall i | at <= i < |zs| ensures score <= zs[i].score {
        assert zs[i] == zs[1..][i - 1];
      }
    }
  }

  /** What ZADD leaves: the member once, with this score, at some place that keeps the order. */
  ghost predicate IsAdded(before: seq<Member>, value: Envelope, score: int, at: nat, after: seq<Member>) {
    var others := OtherMembers(before, value);
    IsPlace(others, score, at) && after == others[..at] + [Member(value, score)] + others[at..]
  }

  lemma AddedIsSubmitted(s: System, t: Task, at: nat, after: seq<Member>)
    requires Fresh(s.delayed) && t.retries == 0
    requires IsAdded(Members(s.delayed), Envelope(t.data, 0), t.due, at, after)
    ensures IsSlot(Others(s.delayed, t.data), t.due, at)
    ensures after == Members(SubmitDelayed(s, t, at).delayed)
  {
    OthersAreMembers(s.delayed, t.data);
    PlaceIsSlot(Others(s.delayed, t.data), t.due, at);
  }

  function FirstEqual(ls: seq<Letter>, l: Letter): (k: nat)
    ensures k <= |ls|
  {
    if ls == [] || ls[0] == l then 0 else 1 + FirstEqual(ls[1..], l)
  }

  lemma {:induction false} FirstEqualIsFirstSame(ds: seq<Dead>, d: Dead)
    requires exists i :: 0 <= i < |ds| && SameLetter(ds[i], d)
    ensures FirstEqual(Letters(ds), Letter(d.task.data, d.task.retries, d.failedAt)) == FirstSame(ds, d)
    decreases |ds|
  {
    if !SameLetter(ds[0], d) {
      assert Letters(ds)[1..] == Letters(ds[1..]);
      var i :| 0 <= i < |ds| && SameLetter(ds[i], d);
      assert ds[1..][i - 1] == ds[i];
      FirstEqualIsFirstSame(ds[1..], d);
    }
  }

  function ReversedValues(zs: seq<Member>): (r: seq<Envelope>)
    ensures |r| == |zs| && forall i :: 0 <= i < |r| ==> r[i] == zs[|zs| - 1 - i].value
  {
    if zs == [] then [] else ReversedValues(zs[1..]) + [zs[0].value]
  }

  lemma ReversedValuesSnoc(zs: seq<Member>, n: nat)
    requires n < |zs|
    ensures ReversedValues(zs[..n + 1]) == [zs[n].value] + ReversedValues(zs[..n])
  {
  }

  /** Moving on what Redis keeps is moving on the view. */
  lemma MoveShows(s: System, k: nat)
    requires k == Moved(s.delayed, Millis(s.clock))
    ensures Envelopes(MoveStep(s).list) == ReversedValues(Members(s.delayed)[..k]) + Envelopes(s.list)
    ensures Members(MoveStep(s).delayed) == Members(s.delayed)[k..]
    ensures MoveStep(s).clock == s.clock && MoveStep(s).dead == s.dead
  {
    var moved := s.delayed[..k];
    assert Members(moved) == Members(s.delayed)[..k];
    assert Envelopes(Reversed(moved)) == ReversedValues(Members(moved));
    assert Envelopes(Reversed(moved) + s.list) == Envelopes(Reversed(moved)) + Envelopes(s.list);
  }

  lemma RequeueShows(s: System, index: nat)
    requires index < |s.dead|
    ensures var letter := Letters(s.dead)[index];
      var k := FirstEqual(Letters(s.dead), letter);
      && Envelopes(RequeueStep(s, index).list) == [Envelope(letter.data, letter.retries)] + Envelopes(s.list)
      && k < |s.dead| && Letters(RequeueStep(s, index).dead) == Without(Letters(s.dead), k)
      && RequeueStep(s, index).clock == s.clock && RequeueStep(s, index).delayed == s.delayed
  {
    assert SameLetter(s.dead[index], s.dead[index]);
    FirstEqualIsFirstSame(s.dead, s.dead[index]);
  }

  lemma NothingToTake(m: int, s: System, ok: bool)
    requires s.list == []
    ensures Handle(m, s, ok) == s
  {
  }

  lemma {:induction false} DueCountOfMembers(ts: seq<Task>, now: int, n: nat)
    requires n <= |ts|
    requires forall i :: 0 <= i < n ==> Members(ts)[i].score <= now
    requires n < |ts| ==> Members(ts)[n].score > now
    ensures DueCount(ts, now) == n
    decreases n
  {
    if n > 0 {
      assert Members(ts)[0].score <= now;
      forall i | 0 <= i < n - 1 ensures Members(ts[1..])[i].score <= now {
        assert Members(ts[1..])[i] == Members(ts)[i + 1];
      }
      DueCountOfMembers(ts[1..], now, n - 1);
    }
  }

  // ---------- The queue ----------

  class Queue {
    const maxRetries: int
    var clock: int
    var list: seq<Envelope>
    var zset: seq<Member>
    var dead: seq<Letter>
    ghost var view: System

    ghost predicate Shows()
      reads this
    {
      && clock == view.clock && list == Envelopes(view.list)
      && zset == Members(view.delayed) && dead == Letters(view.dead)
    }

    ghost predicate Valid()
      reads this
    {
      Shows() && Reached(maxRetries, view)
    }

    constructor (limit: int, now: int)
      ensures Valid() && maxRetries == limit && view == Initial(now)
    {
      maxRetries, clock, list, zset, dead := limit, now, [], [], [];
      view := Initial(now);
      assert Initial(now) == Run(limit, Initial(now), []);
    }

    /** ZADD */
    method Add(value: Envelope, score: int) returns (at: nat)
      requires forall i, j :: 0 <= i < j < |zset| ==> zset[i].score <= zset[j].score
      modifies this`zset
      ensures IsAdded(old(zset), value, score, at, zset)
    {
      var k := 0;
      while k < |zset| && zset[k].value != value
        invariant k <= |zset|
        invariant FindMember(zset, value) == k + FindMember(zset[k..], value)
      {
        k := k + 1;
      }
      var others := if k < |zset| then zset[..k] + zset[k + 1..] else zset;
      assert others == OtherMembers(zset, value);
      ghost var place := PlaceExists(others, score);
      at :| 0 <= at <= |others| && IsPlace(others, score, at);
      zset := others[..at] + [Member(value, score)] + others[at..];
    }

    /** An empty payload is refused; a delay puts the task into the sorted set. */
    method Submit(data: Payload, delay: int) returns (ok: bool, ghost at: nat)
      requires Valid()
      modifies this
      ensures Valid() && ok == (data != [])
      ensures view == Step(maxRetries, old(view), RedisQueue.Submit(data, delay, at))
      ensures ok ==> view.submitted == old(view.submitted) + 1
    {
      at := 0;
      if data == [] { return false, 0; }
      if delay <= 0 {
        list := [Envelope(data, 0)] + list;
      } else {
        ReachedKeepsInv(maxRetries, view);
        at := Add(Envelope(data, 0), Millis(clock + delay));
        AddedIsSubmitted(view, NewTask(view, data, delay), at, zset);
      }
      StepReaches(maxRetries, view, RedisQueue.Submit(data, delay, at));
      view := Step(maxRetries, view, RedisQueue.Submit(data, delay, at));
      ok := true;
    }

    /** The script: at most a hundred due members leave the sorted set, the earliest enters the list
        first. */
    method MoveDueTasks()
      requires Valid()
      modifies this
      ensures Valid() && view == Step(maxRetries, old(view), Move) && view.hands == old(view).hands
    {
      var n := CountDue(Millis(clock));
      var k := if n <= MAX_MOVED then n else MAX_MOVED;
      TakeOut(k);
      MoveShows(view, k);
      StepReaches(maxRetries, view, Move);
      view := Step(maxRetries, view, Move);
    }

    /** ZREM and LPUSH of the first `k` members */
    method TakeOut(k: nat)
      requires k <= |zset|
      modifies this`zset, this`list
      ensures zset == old(zset)[k..] && list == ReversedValues(old(zset)[..k]) + old(list)
    {
      var items := zset[..k];
      zset := zset[k..];
      PushAll(items);
    }

    method CountDue(now: int) returns (n: nat)
      requires Shows()
      ensures n == DueCount(view.delayed, now)
    {
      n := 0;
      while n < |zset| && zset[n].score <= now
        invariant n <= |zset|
        invariant forall i :: 0 <= i < n ==> zset[i].score <= now
      {
        n := n + 1;
      }
      DueCountOfMembers(view.delayed, now, n);
    }

    method PushAll(items: seq<Member>)
      modifies this`list
      ensures list == ReversedValues(items) + old(list)
    {
      for i := 0 to |items|
        invariant list == ReversedValues(items[..i]) + old(list)
      {
        ReversedValuesSnoc(items, i);
        list := [items[i].value] + list;
      }
      assert items[..|items|] == items;
    }

    /** BRPOP: the value at the tail, if there is one. */
    method PopTail() returns (value: Envelope, found: bool)
      requires Valid()
      modifies this
      ensures Valid() && view == Step(maxRetries, old(view), Pop)
      ensures found == (old(view).list != [])
      ensures if found then |view.hands| == |old(view).hands| + 1 else view == old(view)
      ensures found ==> value == EnvelopeOf(view.hands[|view.hands| - 1])
    {
      StepReaches(maxRetries, view, Pop);
      found := list != [];
      if !found { return Envelope([], 0), false; }
      value := list[|list| - 1];
      list := list[..|list| - 1];
      view := PopStep(view);
    }

    /** What follows a handler call: a failed task is pushed again with its count one higher, or given up
        as dead with its count as it is. */
    method Settle(value: Envelope, ok: bool)
      requires Valid() && view.hands != [] && value == EnvelopeOf(view.hands[|view.hands| - 1])
      modifies this
      ensures Valid()
      ensures view == Step(maxRetries, old(view), RedisQueue.Settle(|old(view).hands| - 1, ok))
    {
      ghost var e := RedisQueue.Settle(|view.hands| - 1, ok);
      StepReaches(maxRetries, view, e);
      if !ok {
        var nextRetries := value.retries + 1;
        if maxRetries > 0 && nextRetries > maxRetries {
          dead := [Letter(value.data, value.retries, clock)] + dead;
        } else {
          list := [Envelope(value.data, nextRetries)] + list;
        }
      }
      view := Step(maxRetries, view, e);
    }

    /** One consumer left alone: every turn moves what is due, then takes and settles one task. */
    method Consume(turns: seq<Turn>)
      requires Valid()
      modifies this
      ensures Valid() && view == Turns(maxRetries, old(view), turns)
    {
      for i := 0 to |turns|
        invariant Valid() && view == Turns(maxRetries, old(view), turns[..i])
      {
        TurnsSnoc(maxRetries, old(view), turns[..i], turns[i]);
        assert turns[..i + 1] == turns[..i] + [turns[i]];
        TakeTurn(turns[i]);
      }
      assert turns[..|turns|] == turns;
    }

    method TakeTurn(turn: Turn)
      requires Valid()
      modifies this
      ensures Valid() && view == TurnStep(maxRetries, old(view), turn)
    {
      ghost var start := view;
      Wait(turn.wait);
      ghost var waited := view;
      MoveDueTasks();
      TurnInSteps(maxRetries, start, turn, waited, view);
      TakeOne(turn.ok);
    }

    method TakeOne(ok: bool)
      requires Valid()
      modifies this
      ensures Valid() && view == Handle(maxRetries, old(view), ok)
    {
      var value, found := PopTail();
      if found {
        Settle(value, ok);
      } else {
        NothingToTake(maxRetries, old(view), ok);
      }
    }

    method Wait(ns: nat)
      requires Valid()
      modifies this
      ensures Valid() && view == Step(maxRetries, old(view), Tick(ns)) && view.hands == old(view).hands
    {
      StepReaches(maxRetries, view, Tick(ns));
      clock := clock + ns;
      view := view.(clock := clock);
    }

    /** Puts the letter at `index` back with its count and removes the first letter equal to it; refused
        when there is no such letter. */
    method RequeueDeadLetter(index: int) returns (ok: bool)
      requires Valid()
      modifies this
      ensures Valid() && ok == (0 <= index < |old(view).dead|)
      ensures view == if ok then Step(maxRetries, old(view), Requeue(index)) else old(view)
    {
      if index < 0 || index >= |dead| { return false; }
      RequeueShows(view, index);
      StepReaches(maxRetries, view, Requeue(index));
      PutBack(dead[index]);
      view := RequeueStep(view, index);
      ok := true;
    }

    method PutBack(letter: Letter)
      requires FirstEqual(dead, letter) < |dead|
      modifies this`list, this`dead
      ensures list == [Envelope(letter.data, letter.retries)] + old(list)
      ensures dead == Without(old(dead), FirstEqual(old(dead), letter))
    {
      list := [Envelope(letter.data, letter.retries)] + list;
      Remove(letter);
    }

    /** LREM with a count of one */
    method Remove(letter: Letter)
      modifies this`dead
      ensures var k := FirstEqual(old(dead), letter);
        dead == if k < |old(dead)| then Without(old(dead), k) else old(dead)
    {
      var k := 0;
      while k < |dead| && dead[k] != letter
        invariant k <= |dead|
        invariant FirstEqual(dead, letter) == k + FirstEqual(dead[k..], letter)
      {
        k := k + 1;
      }
      if k < |dead| { dead := dead[..k] + dead[k + 1..]; }
    }
  }
}
