/** The asynchronous operation log of framework/audit/queue.go: requests put entries into a bounded
    channel without waiting, one consumer collects them into batches for the sink. */
module AuditQueue {

  datatype Entry = Entry(requestId: string, action: string)

  /** A batch handed to the sink, and whether the sink took it. */
  datatype Batch = Batch(entries: seq<Entry>, ok: bool)

  const MAX_BATCH := 100

  /** entering: the entries of callers that have found the queue open and have not sent yet; panicked: those
      of callers that sent on the closed channel; offered: every other entry given to Enqueue, with whether it
      was let in; dropped and failed are the two counters. */
  datatype System = System(
    capacity: nat, channel: seq<Entry>, closed: bool, batch: seq<Entry>, written: seq<Batch>,
    finished: bool, dropped: nat, failed: nat, offered: seq<(Entry, bool)>, entering: seq<Entry>, panicked: seq<Entry>)

  /** Enqueue looks at `closed` and sends in two steps; `ok` is how the sink answers if the step makes the
      consumer write. */
  datatype Event =
    | Check(entry: Entry)
    | Send(caller: nat)
    | Close
    | Receive(ok: bool)
    | Timer(ok: bool)

  // ---------- Steps ----------

  function CheckStep(s: System, entry: Entry): System {
    if s.closed then s.(dropped := s.dropped + 1, offered := s.offered + [(entry, false)])
    else s.(entering := s.entering + [entry])
  }

  /** Sending on a closed channel panics, also in a select with a default. */
  function SendStep(s: System, caller: nat): System {
    if caller >= |s.entering| then s
    else
      var entry := s.entering[caller];
      var t := s.(entering := s.entering[..caller] + s.entering[caller + 1..]);
      if s.closed then t.(panicked := s.panicked + [entry])
      else if |s.channel| >= s.capacity then t.(dropped := s.dropped + 1, offered := s.offered + [(entry, false)])
      else t.(channel := s.channel + [entry], offered := s.offered + [(entry, true)])
  }

  function Flush(s: System, ok: bool): System {
    if s.batch == [] then s
    else s.(batch := [], written := s.written + [Batch(s.batch, ok)],
            failed := s.failed + if ok then 0 else |s.batch|)
  }

  function ReceiveStep(s: System, ok: bool): System {
    if s.finished then s
    else if s.channel == [] then (if s.closed then Flush(s, ok).(finished := true) else s)
    else
      var t := s.(channel := s.channel[1..], batch := s.batch + [s.channel[0]]);
      if |t.batch| >= MAX_BATCH then Flush(t, ok) else t
  }

  function Step(s: System, e: Event): System {
    match e
    case Check(entry) => CheckStep(s, entry)
    case Send(caller) => SendStep(s, caller)
    case Close => s.(closed := true)
    case Receive(ok) => ReceiveStep(s, ok)
    case Timer(ok) => if s.finished then s else Flush(s, ok)
  }

  function Run(s: System, es: seq<Event>): System {
    if es == [] then s else Step(Run(s, es[..|es| - 1]), es[|es| - 1])
  }

  function Initial(bufferSize: int): System {
    System(if bufferSize <= 0 then 1024 else bufferSize, [], false, [], [], false, 0, 0, [], [], [])
  }

  // ---------- What was let in, what was handed over ----------

  function LetIn(offered: seq<(Entry, bool)>): seq<Entry> {
    if offered == [] then []
    else LetIn(offered[..|offered| - 1])
         + (if offered[|offered| - 1].1 then [offered[|offered| - 1].0] else [])
  }

  function TurnedAway(offered: seq<(Entry, bool)>): nat {
    if offered == [] then 0
    else TurnedAway(offered[..|offered| - 1]) + if offered[|offered| - 1].1 then 0 else 1
  }

  function HandedOver(written: seq<Batch>): seq<Entry> {
    if written == [] then [] else HandedOver(written[..|written| - 1]) + written[|written| - 1].entries
  }

  function FailedEntries(written: seq<Batch>): nat {
    if written == [] then 0
    else FailedEntries(written[..|written| - 1])
         + if written[|written| - 1].ok then 0 else |written[|written| - 1].entries|
  }

  /** The batches handed over, the open batch and the channel are together exactly what was let in, in
      order. */
  ghost predicate InOrder(s: System) {
    HandedOver(s.written) + s.batch + s.channel == LetIn(s.offered)
  }

  ghost predicate BatchesFit(s: System) {
    && |s.batch| < 100
    && forall i :: 0 <= i < |s.written| ==> 1 <= |s.written[i].entries| <= 100
  }

  ghost predicate CountersAreRight(s: System) {
    s.failed == FailedEntries(s.written) && s.dropped == TurnedAway(s.offered)
  }

  ghost predicate Bounded(s: System) {
    && |s.channel| <= s.capacity
    && (s.finished ==> s.closed && s.channel == [] && s.batch == [])
  }

  ghost predicate Inv(s: System) {
    InOrder(s) && BatchesFit(s) && CountersAreRight(s) && Bounded(s)
  }

  lemma {:induction false} OfferedSnoc(offered: seq<(Entry, bool)>, entry: Entry, taken: bool)
    ensures LetIn(offered + [(entry, taken)]) == LetIn(offered) + if taken then [entry] else []
    ensures TurnedAway(offered + [(entry, taken)]) == TurnedAway(offered) + if taken then 0 else 1
  {
    assert (offered + [(entry, taken)])[..|offered|] == offered;
  }

  lemma {:induction false} WrittenSnoc(written: seq<Batch>, b: Batch)
    ensures HandedOver(written + [b]) == HandedOver(written) + b.entries
    ensures FailedEntries(written + [b]) == FailedEntries(written) + if b.ok then 0 else |b.entries|
  {
    assert (written + [b])[..|written|] == written;
  }

  /** Writing a batch moves it from the open batch to what was handed over. */
  lemma FlushKeeps(s: System, ok: bool)
    requires InOrder(s) && CountersAreRight(s) && Bounded(s) && |s.batch| <= 100
    requires forall i :: 0 <= i < |s.written| ==> 1 <= |s.written[i].entries| <= 100
    ensures Inv(Flush(s, ok)) && Flush(s, ok).batch == []
  {
    if s.batch != [] { WrittenSnoc(s.written, Batch(s.batch, ok)); }
  }

  lemma CheckKeeps(s: System, entry: Entry)
    requires Inv(s)
    ensures Inv(CheckStep(s, entry))
  {
    OfferedSnoc(s.offered, entry, false);
    assert LetIn(s.offered) + [] == LetIn(s.offered);
  }

  lemma SendKeeps(s: System, caller: nat)
    requires Inv(s)
    ensures Inv(SendStep(s, caller))
  {
    if caller < |s.entering| {
      var entry := s.entering[caller];
      OfferedSnoc(s.offered, entry, |s.channel| < s.capacity);
      assert HandedOver(s.written) + s.batch + (s.channel + [entry]) == HandedOver(s.written) + s.batch + s.channel + [entry];
      assert LetIn(s.offered) + [] == LetIn(s.offered);
    }
  }

  lemma ReceiveKeeps(s: System, ok: bool)
    requires Inv(s)
    ensures Inv(ReceiveStep(s, ok))
  {
    if s.finished {
    } else if s.channel == [] {
      if s.closed { FlushKeeps(s, ok); }
    } else {
      var t := s.(channel := s.channel[1..], batch := s.batch + [s.channel[0]]);
      assert HandedOver(s.written) + (s.batch + [s.channel[0]]) + s.channel[1..]
          == HandedOver(s.written) + s.batch + s.channel;
      if |t.batch| >= MAX_BATCH { FlushKeeps(t, ok); }
    }
  }

  lemma StepKeepsInv(s: System, e: Event)
    requires Inv(s)
    ensures Inv(Step(s, e))
  {
    match e
    case Check(entry) => CheckKeeps(s, entry);
    case Send(caller) => SendKeeps(s, caller);
    case Close =>
    case Receive(ok) => ReceiveKeeps(s, ok);
    case Timer(ok) => if !s.finished { FlushKeeps(s, ok); }
  }

  /** In every interleaving of requests, Close and the consumer, with any answers of the sink. */
  lemma {:induction false} RunKeepsInv(bufferSize: int, es: seq<Event>)
    ensures Inv(Run(Initial(bufferSize), es))
    decreases |es|
  {
    if es != [] {
      RunKeepsInv(bufferSize, es[..|es| - 1]);
      StepKeepsInv(Run(Initial(bufferSize), es[..|es| - 1]), es[|es| - 1]);
    }
  }

  /** Some run of a new queue leads here. */
  ghost predicate Reached(s: System) {
    exists bufferSize: int, es: seq<Event> :: s == Run(Initial(bufferSize), es)
  }

  lemma StepReaches(s: System, e: Event)
    requires Reached(s)
    ensures Reached(Step(s, e))
  {
    var bufferSize: int, es: seq<Event> :| s == Run(Initial(bufferSize), es);
    assert (es + [e])[..|es|] == es;
    assert Step(s, e) == Run(Initial(bufferSize), es + [e]);
  }

  /** Once the consumer has finished, everything that was let in has been handed over, in order. */
  lemma {:induction false} FinishedMeansHandedOver(bufferSize: int, es: seq<Event>)
    ensures var s := Run(Initial(bufferSize), es);
      s.finished ==> HandedOver(s.written) == LetIn(s.offered)
  {
    var s := Run(Initial(bufferSize), es);
    RunKeepsInv(bufferSize, es);
    assert s.finished ==> HandedOver(s.written) + [] + [] == HandedOver(s.written);
  }

  /** Until Close, and while the timer does not fire, only full batches are written. */
  lemma {:induction false} OnlyFullBatches(bufferSize: int, es: seq<Event>)
    requires forall e :: e in es ==> e.Check? || e.Send? || e.Receive?
    ensures var s := Run(Initial(bufferSize), es);
      !s.closed && forall i :: 0 <= i < |s.written| ==> |s.written[i].entries| == 100
    decreases |es|
  {
    if es != [] {
      var before := es[..|es| - 1];
      OnlyFullBatches(bufferSize, before);
      RunKeepsInv(bufferSize, before);
      assert BatchesFit(Run(Initial(bufferSize), before));
      assert es[|es| - 1] in es;
    }
  }

  function Receives(es: seq<Event>): nat {
    if es == [] then 0 else Receives(es[..|es| - 1]) + if es[|es| - 1].Receive? then 1 else 0
  }

  lemma ClosedStep(s: System, e: Event)
    requires s.closed
    ensures var t := Step(s, e);
      && t.closed && LetIn(t.offered) == LetIn(s.offered)
      && (s.finished ==> t.finished)
      && (t.finished || |t.channel| + (if e.Receive? then 1 else 0) == |s.channel|)
  {
    if e.Check? { OfferedSnoc(s.offered, e.entry, false); }
    assert LetIn(s.offered) + [] == LetIn(s.offered);
  }

  /** After Close the consumer finishes as soon as it has looked at the channel once more than there were
      entries in it, whatever else happens; and nothing more is let in. */
  lemma {:induction false} CloseDrains(s: System, es: seq<Event>)
    requires Inv(s) && s.closed
    ensures var t := Run(s, es);
      && t.closed && LetIn(t.offered) == LetIn(s.offered)
      && (t.finished || |t.channel| + Receives(es) == |s.channel|)
      && (Receives(es) > |s.channel| ==> t.finished)
    decreases |es|
  {
    if es != [] {
      CloseDrains(s, es[..|es| - 1]);
      ClosedStep(Run(s, es[..|es| - 1]), es[|es| - 1]);
    }
  }

  // ---------- What each step does ----------

  /** Who is let in: a caller that sends while the queue is open and not full.  Nobody else is, and whoever is
      turned away is counted. */
  lemma LetInIffOpenAndRoom(s: System, caller: nat)
    requires caller < |s.entering|
    ensures var t, entry := Step(s, Send(caller)), s.entering[caller];
      && LetIn(t.offered) == LetIn(s.offered) + (if !s.closed && |s.channel| < s.capacity then [entry] else [])
      && t.channel == s.channel + (if !s.closed && |s.channel| < s.capacity then [entry] else [])
      && t.dropped == s.dropped + (if !s.closed && |s.channel| >= s.capacity then 1 else 0)
      && t.panicked == s.panicked + (if s.closed then [entry] else [])
      && |t.entering| == |s.entering| - 1
  {
    OfferedSnoc(s.offered, s.entering[caller], |s.channel| < s.capacity);
    assert LetIn(s.offered) + [] == LetIn(s.offered) && s.channel + [] == s.channel && s.panicked + [] == s.panicked;
  }

  /** A caller that checks goes on when the queue is open, and is turned away and counted when it is closed. */
  lemma ChecksIffOpen(s: System, entry: Entry)
    ensures var t := Step(s, Check(entry));
      && t.entering == s.entering + (if s.closed then [] else [entry])
      && t.dropped == s.dropped + (if s.closed then 1 else 0)
      && LetIn(t.offered) == LetIn(s.offered) && t.channel == s.channel
  {
    OfferedSnoc(s.offered, entry, false);
    assert LetIn(s.offered) + [] == LetIn(s.offered) && s.entering + [] == s.entering;
  }

  /** While the consumer runs: it takes the oldest entry of the channel; a hundredth entry, the timer, and the end
      of a closed channel hand over everything taken so far, and nothing else does. */
  lemma ConsumerTakesAndHandsOver(s: System, ok: bool)
    requires Inv(s) && !s.finished
    ensures var t, taken := Step(s, Receive(ok)), if s.channel == [] then [] else [s.channel[0]];
      && t.channel == s.channel[|taken|..]
      && HandedOver(t.written) + t.batch == HandedOver(s.written) + s.batch + taken
      && (t.batch == [] <==> s.batch + taken == [] || |s.batch + taken| == 100 || (s.channel == [] && s.closed))
      && (t.finished <==> s.channel == [] && s.closed)
    ensures var t := Step(s, Timer(ok));
      t.batch == [] && HandedOver(t.written) == HandedOver(s.written) + s.batch && t.channel == s.channel && !t.finished
  {
    var taken := if s.channel == [] then [] else [s.channel[0]];
    var all := s.batch + taken;
    WrittenSnoc(s.written, Batch(s.batch, ok));
    WrittenSnoc(s.written, Batch(all, ok));
    assert HandedOver(s.written) + s.batch + taken == HandedOver(s.written) + all;
    assert all + [] == all && HandedOver(s.written) + [] == HandedOver(s.written);
    assert s.channel[0..] == s.channel;
  }

  // ---------- Callers that overlap Close ----------

  /** The entries given to Enqueue. */
  function Given(es: seq<Event>): multiset<Entry> {
    if es == [] then multiset{}
    else Given(es[..|es| - 1]) + if es[|es| - 1].Check? then multiset{es[|es| - 1].entry} else multiset{}
  }

  function Entries(offered: seq<(Entry, bool)>): multiset<Entry> {
    if offered == [] then multiset{}
    else Entries(offered[..|offered| - 1]) + multiset{offered[|offered| - 1].0}
  }

  function Accounted(s: System): multiset<Entry> {
    Entries(s.offered) + multiset(s.entering) + multiset(s.panicked)
  }

  lemma {:induction false} EntriesSnoc(offered: seq<(Entry, bool)>, entry: Entry, taken: bool)
    ensures Entries(offered + [(entry, taken)]) == Entries(offered) + multiset{entry}
  {
    assert (offered + [(entry, taken)])[..|offered|] == offered;
  }

  lemma TakenOut(entries: seq<Entry>, k: nat)
    requires k < |entries|
    ensures multiset(entries) == multiset(entries[..k] + entries[k + 1..]) + multiset{entries[k]}
  {
    assert entries == entries[..k] + [entries[k]] + entries[k + 1..];
  }

  lemma Regroup(a: multiset<Entry>, b: multiset<Entry>, c: multiset<Entry>, x: multiset<Entry>)
    ensures (a + x) + b + c == a + (b + x) + c == a + b + (c + x) == (a + b + c) + x
  {
  }

  lemma SendAccounts(s: System, caller: nat)
    requires caller < |s.entering|
    ensures Accounted(SendStep(s, caller)) == Accounted(s)
  {
    var entry, rest := s.entering[caller], s.entering[..caller] + s.entering[caller + 1..];
    TakenOut(s.entering, caller);
    Regroup(Entries(s.offered), multiset(rest), multiset(s.panicked), multiset{entry});
    if s.closed {
      assert multiset(s.panicked + [entry]) == multiset(s.panicked) + multiset{entry};
    } else {
      EntriesSnoc(s.offered, entry, |s.channel| < s.capacity);
    }
  }

  lemma CheckAccounts(s: System, entry: Entry)
    ensures Accounted(CheckStep(s, entry)) == Accounted(s) + multiset{entry}
  {
    if s.closed {
      EntriesSnoc(s.offered, entry, false);
    } else {
      assert multiset(s.entering + [entry]) == multiset(s.entering) + multiset{entry};
    }
    Regroup(Entries(s.offered), multiset(s.entering), multiset(s.panicked), multiset{entry});
  }

  lemma StepAccounts(s: System, e: Event)
    ensures Accounted(Step(s, e)) == Accounted(s) + if e.Check? then multiset{e.entry} else multiset{}
  {
    match e
    case Check(entry) => CheckAccounts(s, entry);
    case Send(caller) => if caller < |s.entering| { SendAccounts(s, caller); }
    case Close =>
    case Receive(ok) =>
    case Timer(ok) =>
  }

  /** Every entry given to Enqueue was let in, was turned away, is on its way, or made its caller panic. */
  lemma {:induction false} EveryEntryIsAccounted(bufferSize: int, es: seq<Event>)
    ensures Accounted(Run(Initial(bufferSize), es)) == Given(es)
    decreases |es|
  {
    if es != [] {
      EveryEntryIsAccounted(bufferSize, es[..|es| - 1]);
      StepAccounts(Run(Initial(bufferSize), es[..|es| - 1]), es[|es| - 1]);
    }
  }

  lemma {:induction false} NobodyEntersClosed(s: System, es: seq<Event>)
    requires s.closed && s.entering == []
    ensures var t := Run(s, es); t.closed && t.entering == [] && t.panicked == s.panicked
    decreases |es|
  {
    if es != [] {
      NobodyEntersClosed(s, es[..|es| - 1]);
    }
  }

  /** Close is safe exactly when no caller stands between its check and its send: otherwise one can panic. */
  lemma CloseIsSafeIffNobodyEnters(s: System)
    ensures (exists es :: Run(Step(s, Close), es).panicked != s.panicked) <==> s.entering != []
  {
    var closed := Step(s, Close);
    if s.entering == [] {
      forall es ensures Run(closed, es).panicked == s.panicked {
        NobodyEntersClosed(closed, es);
      }
    } else {
      assert [Send(0)][..0] == [];
      assert Run(closed, [Send(0)]) == Step(Run(closed, []), Send(0));
      assert |Run(closed, [Send(0)]).panicked| == |s.panicked| + 1;
    }
  }

  // ---------- The queue ----------

  class Queue {
    const capacity: nat
    const buffer: array<Entry>
    var channel: seq<Entry>
    var closed: bool
    var count: nat
    var finished: bool
    var dropped: nat
    var failed: nat
    ghost var view: System

    ghost predicate Shows()
      reads this, buffer
    {
      && buffer.Length == MAX_BATCH && count < MAX_BATCH
      && capacity == view.capacity && channel == view.channel && closed == view.closed
      && buffer[..count] == view.batch && finished == view.finished
      && dropped == view.dropped && failed == view.failed
    }

    ghost predicate Valid()
      reads this, buffer
    {
      Shows() && Reached(view)
    }

    constructor (bufferSize: int)
      ensures Valid() && view == Initial(bufferSize) && fresh(buffer)
      ensures capacity == (if bufferSize <= 0 then 1024 else bufferSize) && channel == [] && !closed
    {
      capacity := if bufferSize <= 0 then 1024 else bufferSize;
      buffer := new Entry[MAX_BATCH](_ => Entry("", ""));
      channel, closed, count, finished, dropped, failed := [], false, 0, false, 0, 0;
      view := Initial(bufferSize);
      assert Initial(bufferSize) == Run(Initial(bufferSize), []);
    }

    /** Enqueue, with nothing between its two steps: it cannot panic. */
    method Enqueue(entry: Entry)
      requires Valid()
      modifies this
      ensures Valid()
      ensures var checked := Step(old(view), Check(entry));
        view == if old(view).closed then checked else Step(checked, Send(|old(view).entering|))
      ensures view.panicked == old(view).panicked
    {
      var open := IsOpen(entry);
      if open {
        var panicked := SendEntry(entry, |view.entering| - 1);
      }
    }

    /** The first step: a caller that finds the queue closed is turned away. */
    method IsOpen(entry: Entry) returns (open: bool)
      requires Valid()
      modifies this
      ensures Valid() && view == Step(old(view), Check(entry)) && open == !old(view).closed && closed == old(closed)
    {
      StepReaches(view, Check(entry));
      open := !closed;
      if closed { dropped := dropped + 1; }
      view := CheckStep(view, entry);
    }

    /** The second step, of a caller that found it open before. */
    method SendEntry(entry: Entry, ghost caller: nat) returns (panicked: bool)
      requires Valid() && caller < |view.entering| && view.entering[caller] == entry
      modifies this
      ensures Valid() && view == Step(old(view), Send(caller)) && panicked == old(view).closed
    {
      StepReaches(view, Send(caller));
      panicked := closed;
      if !closed {
        if |channel| >= capacity {
          dropped := dropped + 1;
        } else {
          channel := channel + [entry];
        }
      }
      view := SendStep(view, caller);
    }

    method Close()
      requires Valid()
      modifies this
      ensures Valid() && view == Step(old(view), Event.Close)
    {
      if closed {
        StepReaches(view, Event.Close);
        return;
      }
      StepReaches(view, Event.Close);
      closed := true;
      view := view.(closed := true);
    }

    /** Hands the buffered entries to the sink, which answers `ok`, and starts the buffer again. */
    method WriteBatch(n: nat, ok: bool)
      requires buffer.Length == MAX_BATCH && n <= MAX_BATCH
      requires view.batch == buffer[..n] && failed == view.failed
      modifies this`count, this`failed, this`view
      ensures view == Flush(old(view), ok) && failed == view.failed && count == 0
    {
      count := 0;
      if n == 0 { return; }
      if !ok { failed := failed + n; }
      view := Flush(view, ok);
    }

    /** One case of the consumer's select: an entry, or the end of the channel. */
    method ReceiveOne(ok: bool)
      requires Valid()
      modifies this, buffer
      ensures Valid() && view == Step(old(view), Receive(ok))
    {
      if finished { return; }
      if channel != [] {
        TakeEntry(ok);
      } else if closed {
        StepReaches(view, Receive(ok));
        WriteBatch(count, ok);
        finished := true;
        view := view.(finished := true);
      }
    }

    method TakeEntry(ok: bool)
      requires Valid() && !finished && channel != []
      modifies this, buffer
      ensures Valid() && view == ReceiveStep(old(view), ok)
    {
      StepReaches(view, Receive(ok));
      var entry, n := channel[0], count + 1;
      buffer[count] := entry;
      assert buffer[..n] == view.batch + [entry];
      view := view.(channel := channel[1..], batch := view.batch + [entry]);
      channel := channel[1..];
      if n >= MAX_BATCH {
        WriteBatch(n, ok);
      } else {
        count := n;
      }
    }

    /** The other case: nothing came for a while. */
    method TimerFires(ok: bool)
      requires Valid()
      modifies this
      ensures Valid() && view == Step(old(view), Timer(ok))
    {
      StepReaches(view, Timer(ok));
      if finished { return; }
      WriteBatch(count, ok);
    }

    /** The consumer, in an arbitrary schedule of its own selects and of what requests and Close do between
        them; `waiting` holds the entries of the requests that have found it open and not sent yet. */
    method Consume(schedule: seq<Event>, waiting: seq<Entry>)
      requires Valid() && waiting == view.entering
      modifies this, buffer
      ensures Valid() && view == Run(old(view), schedule)
    {
      var callers := waiting;
      for i := 0 to |schedule|
        invariant Valid() && callers == view.entering && view == Run(old(view), schedule[..i])
      {
        assert schedule[..i + 1][..i] == schedule[..i];
        callers := Happens(schedule[i], callers);
      }
      assert schedule[..|schedule|] == schedule;
    }

    method Happens(e: Event, callers: seq<Entry>) returns (callers': seq<Entry>)
      requires Valid() && callers == view.entering
      modifies this, buffer
      ensures Valid() && view == Step(old(view), e) && callers' == view.entering
    {
      callers' := callers;
      match e
      case Check(entry) =>
        var open := IsOpen(entry);
        if open { callers' := callers + [entry]; }
      case Send(caller) =>
        if caller < |callers| {
          var panicked := SendEntry(callers[caller], caller);
          callers' := callers[..caller] + callers[caller + 1..];
        } else {
          StepReaches(view, e);
        }
      case Close => Close();
      case Receive(ok) => ReceiveOne(ok);
      case Timer(ok) => TimerFires(ok);
    }
  }
}
