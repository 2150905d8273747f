/** The layered settings of framework/config/load.go: nested tables, a layer of higher priority merged over
    a layer of lower priority key by key. */
module ConfigMerge {
  import opened Wrappers

  /** A setting is a table or anything else. */
  datatype Value = Leaf(data: int) | Table(entries: map<string, Value>)

  // ---------- Merging ----------

  /** `src` over `base`. */
  function Over(base: Value, src: Value): Value
    decreases src
  {
    if base.Leaf? || src.Leaf? then src
    else Table(map k | k in base.entries.Keys + src.entries.Keys ::
                 if k !in src.entries then base.entries[k]
                 else if k !in base.entries then src.entries[k]
                 else Over(base.entries[k], src.entries[k]))
  }

  /** What stands at a path. */
  function Get(v: Value, path: seq<string>): Option<Value>
    decreases |path|
  {
    if path == [] then Some(v)
    else if v.Leaf? || path[0] !in v.entries then None
    else Get(v.entries[path[0]], path[1..])
  }

  /** Something that is not a table stands above the path. */
  predicate LeafAbove(v: Value, path: seq<string>)
    decreases |path|
  {
    path != [] && (v.Leaf? || (path[0] in v.entries && LeafAbove(v.entries[path[0]], path[1..])))
  }

  predicate HasTable(v: Value, path: seq<string>) {
    Get(v, path).Some? && Get(v, path).value.Table?
  }

  /** Path by path, the source wins wherever it has something, unless both have tables, which stay tables; the
      base shows through elsewhere, unless the source has put a plain setting above. */
  lemma {:induction false} SourceWinsPathByPath(base: Value, src: Value, path: seq<string>)
    ensures Get(src, path).Some? && !(HasTable(base, path) && HasTable(src, path)) ==>
      Get(Over(base, src), path) == Get(src, path)
    ensures HasTable(base, path) && HasTable(src, path) ==> HasTable(Over(base, src), path)
    ensures Get(Over(base, src), path) ==
      if Get(src, path).Some? then
        (if Get(base, path).Some? then Some(Over(Get(base, path).value, Get(src, path).value)) else Get(src, path))
      else if LeafAbove(src, path) then None
      else Get(base, path)
    decreases |path|
  {
    if path != [] && base.Table? && src.Table? && path[0] in base.entries && path[0] in src.entries {
      SourceWinsPathByPath(base.entries[path[0]], src.entries[path[0]], path[1..]);
    }
  }

  /** A value is determined by what stands at its paths, so the lemma above fixes the merge. */
  lemma {:induction false} PathsDetermineValue(a: Value, b: Value)
    requires forall path :: Get(a, path).Some? == Get(b, path).Some?
    requires forall path :: Get(a, path).Some? ==>
      Get(a, path).value.Leaf? == Get(b, path).value.Leaf?
      && (Get(a, path).value.Leaf? ==> Get(a, path) == Get(b, path))
    ensures a == b
    decreases a
  {
    assert Get(a, []) == Some(a) && Get(b, []) == Some(b);
    if a.Table? {
      forall k ensures (k in a.entries) == (k in b.entries) {
        FirstStep(a, k, []);
        FirstStep(b, k, []);
        assert Get(a, [k] + []).Some? == Get(b, [k] + []).Some?;
      }
      forall k | k in a.entries ensures a.entries[k] == b.entries[k] {
        forall path
          ensures Get(a.entries[k], path) == Get(a, [k] + path) && Get(b.entries[k], path) == Get(b, [k] + path)
        {
          FirstStep(a, k, path);
          FirstStep(b, k, path);
        }
        PathsDetermineValue(a.entries[k], b.entries[k]);
      }
      assert a.entries == b.entries;
    }
  }

  lemma {:induction false} FirstStep(v: Value, k: string, path: seq<string>)
    requires v.Table?
    ensures Get(v, [k] + path) == if k in v.entries then Get(v.entries[k], path) else None
  {
    assert ([k] + path)[1..] == path;
  }

  // ---------- Laws ----------

  lemma {:induction false} MergeWithItself(v: Value)
    ensures Over(v, v) == v
    decreases v
  {
    if v.Table? {
      forall k | k in v.entries ensures Over(v.entries[k], v.entries[k]) == v.entries[k] {
        MergeWithItself(v.entries[k]);
      }
      assert Over(v, v).entries == v.entries;
    }
  }

  lemma {:induction false} EmptyTableIsNeutral(v: Value)
    requires v.Table?
    ensures Over(v, Table(map[])) == v && Over(Table(map[]), v) == v
  {
    assert Over(v, Table(map[])).entries == v.entries;
    assert Over(Table(map[]), v).entries == v.entries;
  }

  /** Everything the base says is already said by `v`, or hidden in it by a plain setting. */
  predicate Covers(v: Value, base: Value)
    decreases v
  {
    v.Table? && base.Table? ==>
      forall k :: k in base.entries ==> k in v.entries && Covers(v.entries[k], base.entries[k])
  }

  /** Merging over a base changes nothing exactly when the base is covered. */
  lemma {:induction false} AbsorbsIffCovers(base: Value, v: Value)
    ensures Over(base, v) == v <==> Covers(v, base)
    decreases v
  {
    if base.Table? && v.Table? {
      forall k | k in base.entries && k in v.entries
        ensures Over(base.entries[k], v.entries[k]) == v.entries[k] <==> Covers(v.entries[k], base.entries[k])
      {
        AbsorbsIffCovers(base.entries[k], v.entries[k]);
      }
      var merged := Over(base, v).entries;
      if Covers(v, base) {
        assert merged == v.entries;
      }
      if merged == v.entries {
        forall k | k in base.entries ensures k in v.entries && Covers(v.entries[k], base.entries[k]) {
          assert k in merged;
          assert merged[k] == Over(base.entries[k], v.entries[k]);
        }
      }
    }
  }

  lemma {:induction false} MergeCovers(base: Value, src: Value)
    ensures Covers(Over(base, src), base)
    decreases src
  {
    if base.Table? && src.Table? {
      forall k | k in base.entries ensures Covers(Over(base, src).entries[k], base.entries[k]) {
        if k in src.entries {
          MergeCovers(base.entries[k], src.entries[k]);
        } else {
          MergeWithItself(base.entries[k]);
          AbsorbsIffCovers(base.entries[k], base.entries[k]);
        }
      }
    }
  }

  /** Loading the base again under a merged result changes nothing. */
  lemma {:induction false} MergeAgainChangesNothing(base: Value, src: Value)
    ensures Over(base, Over(base, src)) == Over(base, src)
  {
    MergeCovers(base, src);
    AbsorbsIffCovers(base, Over(base, src));
  }

  /** Wherever `a` and `c` have tables and `b` a plain setting between them, `c` covers `a`. */
  predicate Aligned(a: Value, b: Value, c: Value)
    decreases c
  {
    a.Table? && c.Table? ==>
      if b.Leaf? then Covers(c, a)
      else forall k :: k in a.entries && k in b.entries && k in c.entries ==>
             Aligned(a.entries[k], b.entries[k], c.entries[k])
  }

  /** Three layers may be merged in either grouping exactly when they are aligned, in particular when no
      path is a table in the outer layers and a plain setting in the middle one. */
  lemma {:induction false} AssociativeIffAligned(a: Value, b: Value, c: Value)
    ensures Over(Over(a, b), c) == Over(a, Over(b, c)) <==> Aligned(a, b, c)
    decreases c
  {
    if a.Leaf? || c.Leaf? {
    } else if b.Leaf? {
      AbsorbsIffCovers(a, c);
    } else {
      forall k | k in a.entries && k in b.entries && k in c.entries
        ensures AgreesAt(a, b, c, k) == Aligned(a.entries[k], b.entries[k], c.entries[k])
      {
        AssociativeIffAligned(a.entries[k], b.entries[k], c.entries[k]);
      }
      TablesAgreeIffEntriesAgree(a, b, c);
    }
  }

  function Entry(v: Value, k: string): Option<Value> {
    if v.Table? && k in v.entries then Some(v.entries[k]) else None
  }

  function Combined(x: Option<Value>, y: Option<Value>): Option<Value> {
    if x.Some? && y.Some? then Some(Over(x.value, y.value)) else if y.Some? then y else x
  }

  lemma {:induction false} EntryOfMerge(base: Value, src: Value, k: string)
    requires base.Table? && src.Table?
    ensures Over(base, src).Table? && Entry(Over(base, src), k) == Combined(Entry(base, k), Entry(src, k))
  {
  }

  lemma SameEntriesSameTable(a: Value, b: Value)
    requires a.Table? && b.Table?
    ensures a == b <==> forall k :: Entry(a, k) == Entry(b, k)
  {
    if forall k :: Entry(a, k) == Entry(b, k) {
      forall k ensures (k in a.entries) == (k in b.entries) && (k in a.entries ==> a.entries[k] == b.entries[k]) {
        assert Entry(a, k) == Entry(b, k);
      }
      assert a.entries == b.entries;
    }
  }

  /** The groupings agree at a key. */
  ghost predicate AgreesAt(a: Value, b: Value, c: Value, k: string)
    requires a.Table? && b.Table? && c.Table?
  {
    k in a.entries && k in b.entries && k in c.entries ==>
      Over(Over(a.entries[k], b.entries[k]), c.entries[k]) == Over(a.entries[k], Over(b.entries[k], c.entries[k]))
  }

  lemma {:induction false} TablesAgreeIffEntriesAgree(a: Value, b: Value, c: Value)
    requires a.Table? && b.Table? && c.Table?
    ensures Over(Over(a, b), c) == Over(a, Over(b, c)) <==> forall k :: AgreesAt(a, b, c, k)
  {
    var left, right := Over(Over(a, b), c), Over(a, Over(b, c));
    forall k ensures (Entry(left, k) == Entry(right, k)) == AgreesAt(a, b, c, k) {
      GroupingsAt(a, b, c, k);
    }
    SameEntriesSameTable(left, right);
  }

  lemma {:induction false} GroupingsAt(a: Value, b: Value, c: Value, k: string)
    requires a.Table? && b.Table? && c.Table?
    ensures (Entry(Over(Over(a, b), c), k) == Entry(Over(a, Over(b, c)), k)) == AgreesAt(a, b, c, k)
  {
    EntryOfMerge(a, b, k);
    EntryOfMerge(Over(a, b), c, k);
    EntryOfMerge(b, c, k);
    EntryOfMerge(a, Over(b, c), k);
  }

  /** A table, a plain setting and a table at one path: the grouping decides whether the first shows. */
  lemma GroupingMatters()
    ensures var a := Table(map["db" := Table(map["host" := Leaf(1)])]);
      var b := Table(map["db" := Leaf(2)]);
      var c := Table(map["db" := Table(map["port" := Leaf(3)])]);
      Get(Over(Over(a, b), c), ["db", "host"]) == None
      && Get(Over(a, Over(b, c)), ["db", "host"]) == Some(Leaf(1))
  {
    var a := Table(map["host" := Leaf(1)]);
    var c := Table(map["port" := Leaf(3)]);
    var left := Over(Over(Table(map["db" := a]), Table(map["db" := Leaf(2)])), Table(map["db" := c]));
    var right := Over(Table(map["db" := a]), Over(Table(map["db" := Leaf(2)]), Table(map["db" := c])));
    assert ["db", "host"][1..] == ["host"];
    assert ["host"][1..] == [];
    assert left.entries["db"] == Over(Over(a, Leaf(2)), c);
    assert right.entries["db"] == Over(a, Over(Leaf(2), c));
    assert Get(left, ["db", "host"]) == Get(c, ["host"]);
    assert Get(right, ["db", "host"]) == Get(Over(a, c), ["host"]);
    assert Over(a, c).entries["host"] == Leaf(1);
  }

  // ---------- The loops ----------

  /** The base with the source's keys in `done` merged in. */
  function Filled(base: map<string, Value>, src: map<string, Value>, done: set<string>): map<string, Value>
    requires done <= src.Keys
  {
    map k | k in base.Keys + done ::
      if k !in done then base[k] else if k in base then Over(base[k], src[k]) else src[k]
  }

  lemma FilledOneMore(base: map<string, Value>, src: map<string, Value>, todo: set<string>, key: string)
    requires todo <= src.Keys && key in todo
    ensures var result := Filled(base, src, src.Keys - todo);
      && (key in result <==> key in base) && (key in base ==> result[key] == base[key])
      && Filled(base, src, src.Keys - (todo - {key}))
         == result[key := if key in base then Over(base[key], src[key]) else src[key]]
  {
    assert src.Keys - (todo - {key}) == src.Keys - todo + {key};
  }

  lemma FilledAll(base: map<string, Value>, src: map<string, Value>)
    ensures Table(Filled(base, src, src.Keys)) == Over(Table(base), Table(src))
  {
    assert Filled(base, src, src.Keys) == Over(Table(base), Table(src)).entries;
  }

  method Copy(base: map<string, Value>) returns (result: map<string, Value>)
    ensures result == base
  {
    result := map[];
    var todo := base.Keys;
    while todo != {}
      invariant todo <= base.Keys && result.Keys == base.Keys - todo
      invariant forall k :: k in result ==> result[k] == base[k]
      decreases todo
    {
      var key :| key in todo;
      result := result[key := base[key]];
      todo := todo - {key};
    }
  }

  /** Fills a fresh map: first the base, then the source over it. */
  method MergeConfigMaps(base: map<string, Value>, src: map<string, Value>) returns (result: map<string, Value>)
    ensures Table(result) == Over(Table(base), Table(src))
    decreases Table(src)
  {
    result := Copy(base);
    var todo := src.Keys;
    assert result == Filled(base, src, {});
    while todo != {}
      invariant todo <= src.Keys && result == Filled(base, src, src.Keys - todo)
      decreases todo
    {
      var key :| key in todo;
      FilledOneMore(base, src, todo, key);
      todo := todo - {key};
      if key in result && result[key].Table? && src[key].Table? {
        assert src[key] < Table(src);
        var merged := MergeConfigMaps(result[key].entries, src[key].entries);
        result := result[key := Table(merged)];
      } else {
        result := result[key := src[key]];
      }
    }
    FilledAll(base, src);
  }
}
