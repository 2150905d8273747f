/** The limiter of framework/notify/ratelimit.go with its histories filtered in place. */
module RateLimiterImpl {
  import opened SlidingWindow

  /** The accepted times of one key: a buffer of which the first `len` entries are in use. */
  class History {
    var data: array<int>
    var len: nat

    ghost predicate Valid()
      reads this
    {
      len <= data.Length
    }

    ghost function Times(): seq<int>
      reads this, data
      requires Valid()
    {
      data[..len]
    }

    constructor ()
      ensures Valid() && Times() == [] && fresh(data)
    {
      data, len := new int[0], 0;
    }

    /** Keeps the times later than the cutoff, moved to the front of the same buffer. */
    method Prune(cutoff: int)
      requires Valid()
      modifies this`len, data
      ensures Valid() && Times() == Recent(old(Times()), cutoff)
    {
      var kept := 0;
      for i := 0 to len
        invariant kept <= i
        invariant data[..kept] == Recent(old(data[..i]), cutoff)
        invariant forall k :: i <= k < data.Length ==> data[k] == old(data[k])
      {
        TakeOneMore(old(data[..]), i, cutoff);
        if data[i] > cutoff {
          data[kept] := data[i];
          kept := kept + 1;
        }
      }
      len := kept;
    }

    static lemma {:induction false} TakeOneMore(s: seq<int>, i: nat, cutoff: int)
      requires i < |s|
      ensures Recent(s[..i + 1], cutoff) == Recent(s[..i], cutoff) + (if s[i] > cutoff then [s[i]] else [])
    {
      assert s[..i + 1][..i] == s[..i];
    }

    /** Adds a time, in the buffer when there is room and in a larger copy otherwise. */
    method Append(now: int)
      requires Valid()
      modifies this, data
      ensures Valid() && Times() == old(Times()) + [now]
      ensures data == old(data) || fresh(data)
    {
      if len == data.Length {
        var larger := new int[2 * len + 1];
        forall i | 0 <= i < len { larger[i] := data[i]; }
        assert larger[..len] == data[..len];
        data := larger;
      }
      data[len] := now;
      len := len + 1;
    }
  }

  /** The view after looking at one key. */
  ghost function Looked(was: Hits, key: Key, cutoff: int): Hits {
    was[key := Recent(At(was, key), cutoff)]
  }

  /** Looking and, when there is room, appending add up to the step of an Allow. */
  lemma StepInParts(c: Config, was: Hits, key: Key, now: int)
    requires Enabled(c)
    ensures var looked := Looked(was, key, now - c.window);
      Step(c, was, Op.Allow(key, now)) ==
        if |looked[key]| >= c.max then (looked, [false]) else (looked[key := looked[key] + [now]], [true])
  {
    var kept := Recent(At(was, key), now - c.window);
    assert was[key := kept][key := kept + [now]] == was[key := kept + [now]];
  }

  lemma {:induction false} LookInParts(was: Hits, key: Key, cutoff: int)
    ensures var began := was[key := At(was, key)];
      began[key := Recent(began[key], cutoff)] == Looked(was, key, cutoff)
  {
  }

  /** `view` is what is left of `was` when every key but those of `todo` has been cleaned. */
  ghost predicate CleanedBut(was: Hits, todo: set<Key>, cutoff: int, view: Hits) {
    && (forall k :: k in view <==> k in was && (k in todo || Recent(was[k], cutoff) != []))
    && (forall k :: k in view ==> view[k] == if k in todo then was[k] else Recent(was[k], cutoff))
  }

  /** When no key is left to clean, that is what Clean does. */
  lemma CleanedIsStep(c: Config, was: Hits, now: int, view: Hits)
    requires CleanedBut(was, {}, now - c.window, view)
    ensures view == Step(c, was, Op.Clean(now)).0
  {
    var after := Step(c, was, Op.Clean(now)).0;
    assert forall k :: k in view <==> k in after;
    assert forall k :: k in view ==> view[k] == after[k];
  }

  /** Cleaning one key, first pruned and then dropped when nothing is left. */
  lemma {:induction false} CleanedStep(was: Hits, todo: set<Key>, cutoff: int, view: Hits, key: Key)
    requires CleanedBut(was, todo, cutoff, view) && key in todo && todo <= was.Keys
    ensures key in view
    ensures var kept := Recent(view[key], cutoff);
      CleanedBut(was, todo - {key}, cutoff, if |kept| == 0 then view - {key} else view[key := kept])
  {
  }

  lemma PrunedThenDropped(view: Hits, key: Key, kept: seq<int>)
    ensures view[key := kept] - {key} == view - {key}
  {
  }

  class RateLimiter {
    const config: Config
    var hits: map<Key, History>
    ghost var view: Hits
    ghost var owner: map<object, Key>  // the key each history and each buffer belongs to

    ghost predicate Owns(key: Key)
      requires key in hits && key in view
      reads this, owner.Keys
    {
      var h := hits[key];
      && h in owner && owner[h] == key
      && (h.data as object) in owner && owner[h.data] == key
      && h.Valid() && h.Times() == view[key]
    }

    ghost predicate Valid()
      reads this, owner.Keys
    {
      && this !in owner && view.Keys == hits.Keys
      && (forall k :: k in hits ==> Owns(k))
    }

    constructor (window: int, max: int)
      ensures Valid() && fresh(owner.Keys) && config == Config(window, max) && view == map[]
    {
      config, hits, view, owner := Config(window, max), map[], map[], map[];
    }

    method Allow(key: Key, now: int) returns (allowed: bool)
      requires Valid()
      modifies this, owner.Keys
      ensures Valid() && fresh(owner.Keys - old(owner.Keys))
      ensures (view, [allowed]) == Step(config, old(view), Op.Allow(key, now))
    {
      if config.window <= 0 || config.max <= 0 { return true; }
      allowed := AllowWithin(key, now);
    }

    method AllowWithin(key: Key, now: int) returns (allowed: bool)
      requires Valid() && Enabled(config)
      modifies this, owner.Keys
      ensures Valid() && fresh(owner.Keys - old(owner.Keys))
      ensures (view, [allowed]) == Step(config, old(view), Op.Allow(key, now))
    {
      StepInParts(config, view, key, now);
      var history := Look(key, now - config.window);
      if history.len >= config.max { return false; }
      AppendKey(key, history, now);
      return true;
    }

    /** The history of the key, with what has left the window removed. */
    method Look(key: Key, cutoff: int) returns (history: History)
      requires Valid()
      modifies this`hits, this`view, this`owner, owner.Keys
      ensures Valid() && fresh(owner.Keys - old(owner.Keys)) && old(owner.Keys) <= owner.Keys
      ensures key in hits && hits[key] == history && view == Looked(old(view), key, cutoff)
      ensures history.len == |view[key]|
    {
      LookInParts(view, key, cutoff);
      history := Open(key);
      PruneKey(key, history, cutoff);
      assert |history.Times()| == history.len;
    }

    /** The history of the key, made empty if there is none. */
    method Open(key: Key) returns (history: History)
      requires Valid()
      modifies this`hits, this`view, this`owner
      ensures Valid() && fresh(owner.Keys - old(owner.Keys)) && old(owner.Keys) <= owner.Keys
      ensures key in hits && hits[key] == history && view == old(view)[key := At(old(view), key)]
    {
      if key in hits { return hits[key]; }
      history := new History();
      hits := hits[key := history];
      view := view[key := []];
      owner := owner[history := key][history.data := key];
      forall k | k in hits && k != key ensures Owns(k) {
        assert old(Owns(k));
      }
    }

    method PruneKey(key: Key, history: History, cutoff: int)
      requires Valid() && key in hits && hits[key] == history
      modifies this`view, history`len, history.data
      ensures Valid() && view == old(view)[key := Recent(old(view)[key], cutoff)]
      ensures history.len == |Recent(old(view)[key], cutoff)|
    {
      history.Prune(cutoff);
      view := view[key := Recent(view[key], cutoff)];
      assert |history.Times()| == history.len;
      forall k | k in hits && k != key ensures Owns(k) {
        assert old(Owns(k));
      }
    }

    method AppendKey(key: Key, history: History, now: int)
      requires Valid() && key in hits && hits[key] == history
      modifies this`view, this`owner, history, history.data
      ensures Valid() && fresh(owner.Keys - old(owner.Keys)) && old(owner.Keys) <= owner.Keys
      ensures view == old(view)[key := old(view)[key] + [now]]
    {
      history.Append(now);
      view := view[key := view[key] + [now]];
      owner := owner[history.data := key];
      forall k | k in hits && k != key ensures Owns(k) {
        assert old(Owns(k));
      }
    }

    /** Drops what has left the window under every key, and keys with nothing left. */
    method Clean(now: int)
      requires Valid()
      modifies this`hits, this`view, owner.Keys
      ensures Valid() && CleanedBut(old(view), {}, now - config.window, view)
    {
      var cutoff, keys := now - config.window, hits.Keys;
      ghost var was := view;
      while keys != {}
        invariant Valid() && keys <= was.Keys && CleanedBut(was, keys, cutoff, view)
        decreases keys
      {
        var key :| key in keys;
        CleanedStep(was, keys, cutoff, view, key);
        CleanKey(key, cutoff);
        keys := keys - {key};
      }
    }

    method CleanKey(key: Key, cutoff: int)
      requires Valid() && key in hits
      modifies this`hits, this`view, owner.Keys
      ensures Valid()
      ensures var kept := Recent(old(view)[key], cutoff);
        view == if |kept| == 0 then old(view) - {key} else old(view)[key := kept]
    {
      var history := hits[key];
      ghost var kept := Recent(view[key], cutoff);
      PrunedThenDropped(view, key, kept);
      PruneKey(key, history, cutoff);
      if history.len == 0 { DropKey(key); }
    }

    method DropKey(key: Key)
      requires Valid() && key in hits
      modifies this`hits, this`view
      ensures Valid() && view == old(view) - {key}
    {
      hits := hits - {key};
      view := view - {key};
    }
  }
}
