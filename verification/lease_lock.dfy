/** The distributed lock of framework/cache/lock.go: a token under a key with a deadline, taken by
    SETNX, released and renewed by scripts that compare the token first.

    Any number of clients take steps in any order; time passes between steps and never goes back.
    Times are in milliseconds on the Redis server, durations in nanoseconds as in the source. */
module LeaseLock {
  import opened Wrappers

  type Token = nat

  datatype Lease = Lease(token: Token, deadline: int)

  datatype State = State(now: int, store: map<string, Lease>)

  const MILLISECOND: int := 1_000_000
  const DEFAULT_TTL: int := 30_000 * MILLISECOND

  /** The lease Redis holds under a key, unless its deadline has come. */
  function Held(s: State, key: string): Option<Lease> {
    if key in s.store && s.now < s.store[key].deadline then Some(s.store[key]) else None
  }

  /** The time to live a lock records for itself. */
  function EffectiveTtl(ttl: int): int {
    if ttl <= 0 then DEFAULT_TTL else ttl
  }

  /** The milliseconds a new lease lasts; an expiry below one millisecond is sent as one. */
  function LeaseMs(ttl: int): int {
    var ms := EffectiveTtl(ttl) / MILLISECOND;
    if ms < 1 then 1 else ms
  }

  /** The milliseconds a renewal asks for, rounded down; `own` is the lock's recorded time to live. */
  function RenewMs(ttl: int, own: int): int {
    (if ttl <= 0 then own else ttl) / MILLISECOND
  }

  datatype Event =
    | Tick(ms: nat)
    | TryLock(key: string, token: Token, ttl: int)
    | Unlock(key: string, token: Token)
    | Renew(key: string, token: Token, ttl: int, own: int)

  function Acquires(s: State, e: Event): bool {
    e.TryLock? && Held(s, e.key).None?
  }

  function Apply(s: State, e: Event): State {
    match e
    case Tick(ms) => s.(now := s.now + ms)
    case TryLock(key, token, ttl) =>
      if Held(s, key).None? then s.(store := s.store[key := Lease(token, s.now + LeaseMs(ttl))]) else s
    case Unlock(key, token) =>
      if Held(s, key).Some? && Held(s, key).value.token == token then s.(store := s.store - {key}) else s
    case Renew(key, token, ttl, own) =>
      if Held(s, key).Some? && Held(s, key).value.token == token then
        // PEXPIRE with zero milliseconds deletes the key.
        if RenewMs(ttl, own) <= 0 then s.(store := s.store - {key})
        else s.(store := s.store[key := Lease(token, s.now + RenewMs(ttl, own))])
      else s
  }

  function Run(s: State, es: seq<Event>): State
    decreases |es|
  {
    if es == [] then s else Run(Apply(s, es[0]), es[1..])
  }

  // ---------- Stale tokens ----------

  /** Releasing or renewing with a token that is not the holder's changes nothing at all. */
  lemma StaleTokenIsPowerless(s: State, e: Event)
    requires e.Unlock? || e.Renew?
    requires Held(s, e.key) == None || Held(s, e.key).value.token != e.token
    ensures Apply(s, e) == s
  {
  }

  /** A renewal by the holder extends the lease from now on, if and only if it asks for at least
      one millisecond; a shorter one gives the lock up, and the caller is told nothing. */
  lemma RenewExtendsIffMillisecond(s: State, key: string, token: Token, ttl: int, own: int)
    requires Held(s, key).Some? && Held(s, key).value.token == token && own > 0
    ensures var after := Held(Apply(s, Renew(key, token, ttl, own)), key);
      && (after.Some? <==> (if ttl <= 0 then own else ttl) >= 1_000_000)
      && (after.Some? ==> after.value == Lease(token, s.now + (if ttl <= 0 then own else ttl) / 1_000_000))
  {
  }

  /** The holder's release frees the key, and no step about another key touches this one. */
  lemma ReleaseFreesKey(s: State, key: string, token: Token, e: Event)
    requires Held(s, key).Some? && Held(s, key).value.token == token
    ensures Held(Apply(s, Unlock(key, token)), key) == None
    ensures !e.Tick? && e.key != key ==> Held(Apply(s, e), key) == Held(s, key)
  {
  }

  // ---------- Mutual exclusion ----------

  /** Steps that other clients, and the owner short of releasing, may take: no release of `key` by
      `token`, and no other acquisition that happens to draw the same token. */
  ghost predicate KeepsToken(key: string, token: Token, es: seq<Event>) {
    forall e :: e in es ==>
      !(e.Unlock? && e.key == key && e.token == token) && !(e.TryLock? && e.token == token)
  }

  /** When the lease that ends at `end` ends after the given steps, computed from the owner's
      renewals alone: a renewal counts when it comes before the end it would move. */
  function LeaseEnd(key: string, token: Token, now: int, end: int, es: seq<Event>): int
    decreases |es|
  {
    if es == [] then end
    else match es[0]
      case Tick(ms) => LeaseEnd(key, token, now + ms, end, es[1..])
      case Renew(k, t, ttl, own) =>
        var next := if k == key && t == token && now < end
                    then now + (if RenewMs(ttl, own) <= 0 then 0 else RenewMs(ttl, own)) else end;
        LeaseEnd(key, token, now, next, es[1..])
      case _ => LeaseEnd(key, token, now, end, es[1..])
  }

  /** The lease is in force, or its end has come. */
  predicate InForce(s: State, key: string, token: Token, end: int) {
    s.now >= end || Held(s, key) == Some(Lease(token, end))
  }

  lemma {:induction false} TimePasses(s: State, es: seq<Event>)
    ensures Run(s, es).now >= s.now
    decreases |es|
  {
    if es != [] { TimePasses(Apply(s, es[0]), es[1..]); }
  }

  lemma {:induction false} LeaseStaysInForce(s: State, key: string, token: Token, end: int, es: seq<Event>)
    requires InForce(s, key, token, end) && KeepsToken(key, token, es)
    ensures InForce(Run(s, es), key, token, LeaseEnd(key, token, s.now, end, es))
    decreases |es|
  {
    if es != [] {
      var e := es[0];
      assert e in es;
      var next := if e.Renew? && e.key == key && e.token == token && s.now < end
                  then s.now + (if RenewMs(e.ttl, e.own) <= 0 then 0 else RenewMs(e.ttl, e.own)) else end;
      assert InForce(Apply(s, e), key, token, next);
      LeaseStaysInForce(Apply(s, e), key, token, next, es[1..]);
    }
  }

  /** Between a successful acquisition and the next successful one of the same key, with no release
      by the owner in between, at least the whole lease passes, as extended by its renewals. */
  lemma {:induction false} AcquisitionsAreALeaseApart(
    s: State, key: string, token: Token, ttl: int, es: seq<Event>, other: Event)
    requires Acquires(s, TryLock(key, token, ttl)) && KeepsToken(key, token, es)
    requires var t := Run(Apply(s, TryLock(key, token, ttl)), es);
      other.TryLock? && other.key == key && Acquires(t, other)
    ensures var t := Run(Apply(s, TryLock(key, token, ttl)), es);
      t.now >= LeaseEnd(key, token, s.now, s.now + LeaseMs(ttl), es)
  {
    LeaseStaysInForce(Apply(s, TryLock(key, token, ttl)), key, token, s.now + LeaseMs(ttl), es);
  }

  /** Without renewals that is the lease asked for. */
  lemma {:induction false} UnrenewedLease(key: string, token: Token, now: int, end: int, es: seq<Event>)
    requires forall e :: e in es ==> !(e.Renew? && e.key == key && e.token == token)
    ensures LeaseEnd(key, token, now, end, es) == end
    decreases |es|
  {
    if es != [] {
      assert es[0] in es;
      UnrenewedLease(key, token, if es[0].Tick? then now + es[0].ms else now, end, es[1..]);
    }
  }

  /** And the next one does succeed as soon as the lease has ended: nobody is locked out for longer. */
  lemma AcquirableAfterLease(s: State, key: string, token: Token, ttl: int)
    ensures Acquires(s, TryLock(key, token, ttl)) <==>
      !(key in s.store) || s.now >= s.store[key].deadline
    ensures Acquires(s, TryLock(key, token, ttl)) ==>
      Held(Apply(s, TryLock(key, token, ttl)), key) == Some(Lease(token, s.now + LeaseMs(ttl)))
  {
  }

  /** A new lease lasts the whole milliseconds of the time asked for, but at least one, and 30 s when none is
      asked for. */
  lemma LeaseLastsItsTime(ttl: int)
    ensures ttl <= 0 ==> LeaseMs(ttl) == 30_000
    ensures 0 < ttl < 1_000_000 ==> LeaseMs(ttl) == 1
    ensures ttl >= 1_000_000 ==> LeaseMs(ttl) * 1_000_000 <= ttl < (LeaseMs(ttl) + 1) * 1_000_000
  {
  }

  /** While nobody uses its token, a lease that was acquired is held exactly until its time is over. */
  lemma {:induction false} HeldExactlyForItsTime(s: State, key: string, token: Token, ttl: int, es: seq<Event>)
    requires Acquires(s, TryLock(key, token, ttl)) && KeepsToken(key, token, es)
    requires forall e :: e in es ==> !(e.Renew? && e.key == key && e.token == token)
    ensures var t, end := Run(Apply(s, TryLock(key, token, ttl)), es), s.now + LeaseMs(ttl);
      && t.now == s.now + Elapsed(es)
      && (Held(t, key) == Some(Lease(token, end)) <==> Elapsed(es) < LeaseMs(ttl))
  {
    var acquired := Apply(s, TryLock(key, token, ttl));
    ClockIsElapsed(acquired, es);
    LeaseStaysInForce(acquired, key, token, s.now + LeaseMs(ttl), es);
    UnrenewedLease(key, token, s.now, s.now + LeaseMs(ttl), es);
  }

  /** The milliseconds that pass. */
  function Elapsed(es: seq<Event>): int {
    if es == [] then 0 else (if es[0].Tick? then es[0].ms else 0) + Elapsed(es[1..])
  }

  lemma {:induction false} ClockIsElapsed(s: State, es: seq<Event>)
    ensures Run(s, es).now == s.now + Elapsed(es)
    decreases |es|
  {
    if es != [] { ClockIsElapsed(Apply(s, es[0]), es[1..]); }
  }

  // ---------- The client's objects ----------

  /** The server, shared by all clients. */
  class Redis {
    var now: int
    var store: map<string, Lease>

    function View(): State
      reads this
    {
      State(now, store)
    }

    constructor (start: int)
      ensures View() == State(start, map[])
    {
      now, store := start, map[];
    }

    /** A step of some other client, or the passing of time. */
    method Take(e: Event)
      modifies this
      ensures View() == Apply(old(View()), e)
    {
      now, store := Apply(View(), e).now, Apply(View(), e).store;
    }

    method TakeAll(es: seq<Event>)
      modifies this
      ensures View() == Run(old(View()), es)
    {
      for i := 0 to |es|
        invariant Run(old(View()), es) == Run(View(), es[i..])
      {
        assert es[i..][0] == es[i] && es[i..][1..] == es[i + 1..];
        Take(es[i]);
      }
    }
  }

  const PREFIX: string := "lock:"

  /** A lock that was acquired. */
  class Lock {
    const rdb: Redis
    const key: string
    const token: Token
    const ttl: int

    constructor (rdb: Redis, key: string, token: Token, ttl: int)
      ensures this.rdb == rdb && this.key == key && this.token == token && this.ttl == ttl
    {
      this.rdb, this.key, this.token, this.ttl := rdb, key, token, ttl;
    }

    method Release()
      modifies rdb
      ensures rdb.View() == Apply(old(rdb.View()), Unlock(key, token))
    {
      if key in rdb.store && rdb.now < rdb.store[key].deadline && rdb.store[key].token == token {
        rdb.store := rdb.store - {key};
      }
    }

    method Extend(requested: int)
      modifies rdb
      ensures rdb.View() == Apply(old(rdb.View()), Renew(key, token, requested, ttl))
    {
      var ms := (if requested <= 0 then ttl else requested) / MILLISECOND;
      if key in rdb.store && rdb.now < rdb.store[key].deadline && rdb.store[key].token == token {
        if ms <= 0 {
          rdb.store := rdb.store - {key};
        } else {
          rdb.store := rdb.store[key := Lease(token, rdb.now + ms)];
        }
      }
    }
  }

  /** TryLock; `token` is the random token drawn for this attempt. */
  method Acquire(rdb: Redis, name: string, token: Token, ttl: int) returns (lock: Lock?)
    modifies rdb
    ensures rdb.View() == Apply(old(rdb.View()), TryLock("lock:" + name, token, ttl))
    ensures lock != null <==> Acquires(old(rdb.View()), TryLock("lock:" + name, token, ttl))
    ensures lock != null ==>
      && fresh(lock) && lock.rdb == rdb && lock.key == "lock:" + name && lock.token == token
      && lock.ttl == if ttl <= 0 then 30_000_000_000 else ttl
  {
    var effective := if ttl <= 0 then DEFAULT_TTL else ttl;
    var key := PREFIX + name;
    if key in rdb.store && rdb.now < rdb.store[key].deadline { return null; }
    rdb.store := rdb.store[key := Lease(token, rdb.now + LeaseMs(ttl))];
    lock := new Lock(rdb, key, token, effective);
  }

  datatype Waited = Acquired(attempt: nat) | TimedOut(attempt: nat) | Waiting

  /** One round of the waiting loop: the token drawn for the attempt, and the steps the rest of the
      world takes while the caller sleeps after it has failed. */
  datatype Round = Round(token: Token, others: seq<Event>)

  /** The state in which attempt `k` is made. */
  function BeforeAttempt(s: State, key: string, ttl: int, rounds: seq<Round>, k: nat): State
    requires k <= |rounds|
  {
    if k == 0 then s
    else
      var r := rounds[k - 1];
      Run(Apply(BeforeAttempt(s, key, ttl, rounds, k - 1), TryLock(key, r.token, ttl)), r.others)
  }

  /** Everything that happens up to attempt `k`: the attempts before it, each followed by what others do while the
      caller sleeps. */
  function Happened(key: string, ttl: int, rounds: seq<Round>, k: nat): seq<Event>
    requires k <= |rounds|
  {
    if k == 0 then []
    else Happened(key, ttl, rounds, k - 1) + [TryLock(key, rounds[k - 1].token, ttl)] + rounds[k - 1].others
  }

  lemma {:induction false} RunConcat(s: State, es: seq<Event>, more: seq<Event>)
    ensures Run(s, es + more) == Run(Run(s, es), more)
    decreases |es|
  {
    if es == [] {
      assert es + more == more;
    } else {
      assert (es + more)[1..] == es[1..] + more;
      RunConcat(Apply(s, es[0]), es[1..], more);
    }
  }

  lemma {:induction false} AttemptComesAfterThat(s: State, key: string, ttl: int, rounds: seq<Round>, k: nat)
    requires k <= |rounds|
    ensures BeforeAttempt(s, key, ttl, rounds, k) == Run(s, Happened(key, ttl, rounds, k))
  {
    if k > 0 {
      var before, attempt := Happened(key, ttl, rounds, k - 1), [TryLock(key, rounds[k - 1].token, ttl)];
      AttemptComesAfterThat(s, key, ttl, rounds, k - 1);
      RunConcat(s, before + attempt, rounds[k - 1].others);
      RunConcat(s, before, attempt);
      var there := Run(s, before);
      assert attempt[1..] == [] && Run(Apply(there, attempt[0]), []) == Apply(there, attempt[0]);
    }
  }

  ghost predicate Succeeds(s: State, key: string, ttl: int, rounds: seq<Round>, k: nat)
    requires k < |rounds|
  {
    Acquires(BeforeAttempt(s, key, ttl, rounds, k), TryLock(key, rounds[k].token, ttl))
  }

  /** The first `n` attempts all found the key held, no later than the deadline. */
  ghost predicate FailedInTime(s: State, key: string, ttl: int, rounds: seq<Round>, deadline: int, n: nat)
    requires n <= |rounds|
  {
    forall k :: 0 <= k < n ==>
      !Succeeds(s, key, ttl, rounds, k) && BeforeAttempt(s, key, ttl, rounds, k).now <= deadline
  }

  /** What waiting for a lock comes to: it ends with the first attempt that succeeds, or with the
      first one that fails after the deadline. */
  ghost predicate WaitEnds(s: State, key: string, ttl: int, rounds: seq<Round>, deadline: int, waited: Waited) {
    match waited
    case Acquired(n) =>
      n < |rounds| && FailedInTime(s, key, ttl, rounds, deadline, n) && Succeeds(s, key, ttl, rounds, n)
    case TimedOut(n) =>
      n < |rounds| && FailedInTime(s, key, ttl, rounds, deadline, n) && !Succeeds(s, key, ttl, rounds, n)
      && BeforeAttempt(s, key, ttl, rounds, n).now > deadline
    case Waiting =>
      FailedInTime(s, key, ttl, rounds, deadline, |rounds|)
  }

  /** A wait comes to exactly one of these ends.  It is timed out only when its last attempt failed later than the
      deadline, and it is not yet over only while no attempt succeeded or was that late. */
  lemma WaitEndsInOneWay(s: State, key: string, ttl: int, rounds: seq<Round>, deadline: int)
    returns (waited: Waited)
    ensures forall w :: WaitEnds(s, key, ttl, rounds, deadline, w) <==> w == waited
    ensures var n := if waited.Waiting? then |rounds| else waited.attempt;
      && n <= |rounds|
      && (forall k :: 0 <= k < n ==>
            !Succeeds(s, key, ttl, rounds, k) && BeforeAttempt(s, key, ttl, rounds, k).now <= deadline)
      && (waited.Acquired? ==> n < |rounds| && Succeeds(s, key, ttl, rounds, n))
      && (waited.TimedOut? ==>
            n < |rounds| && !Succeeds(s, key, ttl, rounds, n) && BeforeAttempt(s, key, ttl, rounds, n).now > deadline)
  {
    var n := 0;
    while n < |rounds| && !Succeeds(s, key, ttl, rounds, n) && BeforeAttempt(s, key, ttl, rounds, n).now <= deadline
      invariant n <= |rounds| && FailedInTime(s, key, ttl, rounds, deadline, n)
    {
      n := n + 1;
    }
    waited := if n == |rounds| then Waiting else if Succeeds(s, key, ttl, rounds, n) then Acquired(n) else TimedOut(n);
  }

  /** The Lock function. */
  method AcquireWithin(rdb: Redis, name: string, ttl: int, waitMs: int, rounds: seq<Round>)
    returns (lock: Lock?, waited: Waited)
    modifies rdb
    ensures WaitEnds(old(rdb.View()), "lock:" + name, ttl, rounds,
                     old(rdb.now) + (if waitMs <= 0 then 5000 else waitMs), waited)
    ensures var n := if waited.Waiting? then |rounds| else waited.attempt;
      var last := BeforeAttempt(old(rdb.View()), "lock:" + name, ttl, rounds, n);
      rdb.View() == if waited.Acquired? then Apply(last, TryLock("lock:" + name, rounds[n].token, ttl)) else last
    ensures lock != null <==> waited.Acquired?
    ensures waited.Acquired? ==> lock.key == "lock:" + name && lock.token == rounds[waited.attempt].token
  {
    var deadline := rdb.now + if waitMs <= 0 then 5000 else waitMs;
    ghost var s, key := rdb.View(), PREFIX + name;
    for k := 0 to |rounds|
      invariant rdb.View() == BeforeAttempt(s, key, ttl, rounds, k)
      invariant FailedInTime(s, key, ttl, rounds, deadline, k)
    {
      lock := Acquire(rdb, name, rounds[k].token, ttl);
      if lock != null { return lock, Acquired(k); }
      if rdb.now > deadline { return null, TimedOut(k); }
      rdb.TakeAll(rounds[k].others);
    }
    return null, Waiting;
  }
}
