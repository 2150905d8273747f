/** The filter of framework/sensitive/filter.go: a trie grown in place, and index loops over the
    characters of a text, proved against the hits of SensitiveText. */
module SensitiveFilter {
  import opened SensitiveText

  class Node {
    ghost const path: string
    var children: map<char, Node>
    var isEnd: bool

    constructor (ghost path: string)
      ensures this.path == path && children == map[] && !isEnd
    {
      this.path, children, isEnd := path, map[], false;
    }
  }

  /** The added words, and the trie nodes by the prefix they stand for. */
  datatype Trie = Trie(words: set<string>, nodes: map<string, Node>)

  ghost function Extend(path: string, c: char): string {
    path + [c]
  }

  ghost predicate PrefixClosed(trie: Trie) {
    && "" in trie.nodes && "" !in trie.words && trie.words <= trie.nodes.Keys
    && (forall p :: p in trie.nodes ==> trie.nodes[p].path == p)
    && (forall p, c :: Extend(p, c) in trie.nodes ==> p in trie.nodes)
  }

  /** What the node for `path` holds: exactly its one-character extensions, and whether it ends a word. */
  ghost predicate Holds(path: string, children: map<char, Node>, isEnd: bool, trie: Trie) {
    && (forall c :: c in children <==> Extend(path, c) in trie.nodes)
    && (forall c :: c in children ==> children[c] == trie.nodes[Extend(path, c)])
    && (isEnd <==> path in trie.words)
  }

  ghost predicate Linked(n: Node, trie: Trie)
    reads n
  {
    Holds(n.path, n.children, n.isEnd, trie)
  }

  lemma PrefixSnoc(word: string, i: nat)
    requires i < |word|
    ensures word[..i + 1] == Extend(word[..i], word[i])
  {
  }

  lemma PrefixAll(word: string)
    ensures word[..|word|] == word
  {
  }

  lemma OneParent(p: string, x: char, q: string, c: char)
    ensures Extend(p, x) == Extend(q, c) <==> p == q && x == c
  {
    if Extend(p, x) == Extend(q, c) {
      assert (p + [x])[..|p|] == p && (q + [c])[..|q|] == q && (p + [x])[|p|] == x && (q + [c])[|q|] == c;
    }
  }

  /** Adding a node for `Extend(parent, c)` touches what the parent holds and nothing else. */
  lemma HoldsAfterNode(path: string, children: map<char, Node>, isEnd: bool, trie: Trie, parent: string, c: char, next: Node)
    requires Holds(path, children, isEnd, trie) && Extend(parent, c) !in trie.nodes
    ensures Holds(path, if path == parent then children[c := next] else children, isEnd,
                  trie.(nodes := trie.nodes[Extend(parent, c) := next]))
  {
    forall x ensures Extend(path, x) == Extend(parent, c) <==> path == parent && x == c {
      OneParent(path, x, parent, c);
    }
  }

  lemma ClosedAfterNode(trie: Trie, parent: string, c: char, next: Node)
    requires PrefixClosed(trie) && parent in trie.nodes && Extend(parent, c) !in trie.nodes && next.path == Extend(parent, c)
    ensures PrefixClosed(trie.(nodes := trie.nodes[Extend(parent, c) := next]))
    ensures Holds(Extend(parent, c), map[], false, trie.(nodes := trie.nodes[Extend(parent, c) := next]))
  {
    forall p: string, x: char ensures Extend(p, x) == Extend(parent, c) <==> p == parent && x == c {
      OneParent(p, x, parent, c);
    }
    assert |Extend(parent, c)| == |parent| + 1;
  }

  /** The words afterwards are those before and the word inside the white space, unless that is empty. */
  ghost predicate AddsInside(before: set<string>, after: set<string>, word: string) {
    forall w :: w in after <==> w in before || (w != "" && IsInside(word, w))
  }

  /** The set of words after adding a trimmed word. */
  ghost function WithWord(words: set<string>, word: string): set<string> {
    if word == "" then words else words + {word}
  }

  /** `w` is what stands inside the white space at the ends of one of the first `n` words of the list. */
  ghost predicate IsTrimmed(w: string, list: seq<string>, n: nat)
    requires n <= |list|
  {
    exists i :: 0 <= i < n && IsInside(list[i], w)
  }

  lemma TrimmedIsInside(before: set<string>, word: string)
    ensures AddsInside(before, WithWord(before, TrimSpace(word)), word)
  {
    forall w ensures IsInside(word, w) <==> w == TrimSpace(word) {
      TrimSpaceIsInside(word, w);
    }
  }

  /** A list whose words neither begin nor end with white space is taken as it is, the empty word aside. */
  lemma PlainListIsTaken(words: set<string>, list: seq<string>)
    requires Collected(words, list, |list|) && forall w :: w in list ==> NoSpaceAtEnds(w)
    ensures forall w :: w in words <==> w != "" && w in list
  {
    forall i, w | 0 <= i < |list| ensures IsInside(list[i], w) <==> w == list[i] {
      assert list[i] in list;
      TrimSpaceIsInside(list[i], w);
    }
    forall w | w in list ensures IsTrimmed(w, list, |list|) {
      var i :| 0 <= i < |list| && list[i] == w;
      assert IsInside(list[i], w);
    }
  }

  /** These are the non-empty trimmed words among the first `n` of the list. */
  ghost predicate Collected(words: set<string>, list: seq<string>, n: nat)
    requires n <= |list|
  {
    forall w :: w in words <==> w != "" && IsTrimmed(w, list, n)
  }

  lemma CollectedNext(before: set<string>, words: set<string>, list: seq<string>, n: nat)
    requires n < |list| && Collected(before, list, n) && AddsInside(before, words, list[n])
    ensures Collected(words, list, n + 1)
  {
    forall w ensures w in words <==> w != "" && IsTrimmed(w, list, n + 1) {
      assert IsTrimmed(w, list, n + 1) <==> IsTrimmed(w, list, n) || IsInside(list[n], w);
    }
  }

  lemma {:induction false} PrefixIsNode(trie: Trie, p: string, q: string)
    requires PrefixClosed(trie) && q in trie.nodes && p <= q
    ensures p in trie.nodes
    decreases |q|
  {
    if |p| < |q| {
      assert q == Extend(q[..|q| - 1], q[|q| - 1]);
      PrefixIsNode(trie, p, q[..|q| - 1]);
    } else {
      assert p == q;
    }
  }

  /** When the trie has no way on from position `i`, no hit at `s` ends behind it. */
  lemma {:induction false} NoHitBehind(trie: Trie, t: string, s: nat, i: nat)
    requires PrefixClosed(trie) && s <= i < |t|
    requires Strip(t[s..i + 1]) !in trie.nodes
    ensures Longest(trie.words, t, s) == LongestWithin(trie.words, t, s, i)
  {
    forall x: nat | i < x <= |t| ensures !Hit(trie.words, t, s, x) {
      assert t[s..x] == t[s..i + 1] + t[i + 1..x];
      StripConcat(t[s..i + 1], t[i + 1..x]);
      if Strip(t[s..x]) in trie.nodes {
        PrefixIsNode(trie, Strip(t[s..i + 1]), Strip(t[s..x]));
      }
    }
    LongestIsWithin(trie.words, t, s, i, |t|);
  }

  /** One more character: what has been matched, and the longest hit so far. */
  lemma MatchGoesOn(words: set<string>, t: string, s: nat, i: nat)
    requires s <= i < |t|
    ensures Strip(t[s..i + 1]) == if IsSpace(t[i]) then Strip(t[s..i]) else Extend(Strip(t[s..i]), t[i])
    ensures LongestWithin(words, t, s, i + 1)
         == if !IsSpace(t[i]) && Strip(t[s..i + 1]) in words then i + 1 else LongestWithin(words, t, s, i)
  {
    StripSnoc(t, s, i);
    assert Strip(t[s..i]) + [] == Strip(t[s..i]);
  }

  class Filter {
    var root: Node
    var size: nat
    ghost var trie: Trie
    ghost var repr: set<Node>

    ghost predicate Valid()
      reads this, repr
    {
      && PrefixClosed(trie) && root == trie.nodes[""] && size == |trie.words|
      && (forall p {:trigger trie.nodes[p]} :: p in trie.nodes ==> trie.nodes[p] in repr && Linked(trie.nodes[p], trie))
    }

    /** `add`, called with a trimmed word. */
    method AddTrimmed(word: string)
      requires Valid()
      modifies this, repr
      ensures Valid() && fresh(repr - old(repr))
      ensures trie.words == WithWord(old(trie.words), word)
    {
      if word == "" { return; }
      var current := Walk(word);
      MarkEnd(current);
    }

    /** The walk down `word` has come to the node for its first `i` characters. */
    ghost predicate At(current: Node, word: string, i: nat)
      reads this, repr
    {
      i <= |word| && Valid() && word[..i] in trie.nodes && current == trie.nodes[word[..i]]
    }

    method Walk(word: string) returns (current: Node)
      requires Valid()
      modifies this`trie, this`repr, repr
      ensures Valid() && fresh(repr - old(repr))
      ensures trie.words == old(trie.words)
      ensures word in trie.nodes && current == trie.nodes[word]
    {
      current := root;
      ghost var before := repr;
      for i := 0 to |word|
        invariant At(current, word, i) && trie.words == old(trie.words)
        invariant forall n :: n in repr ==> n in before || fresh(n)
      {
        current := Advance(current, word, i);
      }
      PrefixAll(word);
    }

    method Advance(current: Node, word: string, i: nat) returns (next: Node)
      requires i < |word| && At(current, word, i)
      modifies this`trie, this`repr, repr
      ensures fresh(repr - old(repr)) && trie.words == old(trie.words)
      ensures At(next, word, i + 1)
    {
      PrefixSnoc(word, i);
      next := Descend(current, word[i]);
    }

    /** The child for `c`, made when missing. */
    method Descend(parent: Node, c: char) returns (next: Node)
      requires Valid() && parent.path in trie.nodes && trie.nodes[parent.path] == parent
      modifies this`trie, this`repr, parent
      ensures Valid() && fresh(repr - old(repr)) && old(repr) <= repr
      ensures trie.words == old(trie.words)
      ensures next.path == Extend(parent.path, c) && next.path in trie.nodes && next == trie.nodes[next.path]
    {
      assert Linked(parent, trie);
      if c in parent.children { return parent.children[c]; }
      next := Grow(parent, c);
    }

    method Grow(parent: Node, c: char) returns (next: Node)
      requires Valid() && parent.path in trie.nodes && trie.nodes[parent.path] == parent
      requires Extend(parent.path, c) !in trie.nodes
      modifies this`trie, this`repr, parent
      ensures Valid() && fresh(repr - old(repr)) && old(repr) <= repr
      ensures trie.words == old(trie.words)
      ensures next.path == Extend(parent.path, c) && next.path in trie.nodes && next == trie.nodes[next.path]
    {
      next := new Node(Extend(parent.path, c));
      parent.children := parent.children[c := next];
      trie := trie.(nodes := trie.nodes[next.path := next]);
      repr := repr + {next};
      forall p | p in old(trie).nodes ensures Linked(trie.nodes[p], trie) {
        ghost var n := trie.nodes[p];
        assert old(Linked(n, trie));
        HoldsAfterNode(p, old(n.children), n.isEnd, old(trie), parent.path, c, next);
      }
      ClosedAfterNode(old(trie), parent.path, c, next);
    }

    method MarkEnd(current: Node)
      requires Valid() && current.path in trie.nodes && trie.nodes[current.path] == current && current.path != ""
      modifies this`size, this`trie, current
      ensures Valid() && trie.words == old(trie.words) + {current.path}
    {
      assert Linked(current, trie);
      if current.isEnd { return; }
      current.isEnd := true;
      size := size + 1;
      trie := trie.(words := trie.words + {current.path});
      forall p | p in trie.nodes ensures Linked(trie.nodes[p], trie) {
        assert old(Linked(trie.nodes[p], trie));
      }
    }

    /** Its words are those of the beginning of the list, trimmed. */
    ghost predicate HoldsUpTo(list: seq<string>, n: nat)
      reads this, repr
    {
      n <= |list| && Valid() && Collected(trie.words, list, n)
    }

    /** NewFilter. */
    constructor (list: seq<string>)
      ensures Valid() && fresh(repr)
      ensures Collected(trie.words, list, |list|)
    {
      var n := new Node("");
      root, size, trie, repr := n, 0, Trie({}, map["" := n]), {n};
      new;
      for i := 0 to |list|
        invariant HoldsUpTo(list, i)
        invariant forall n :: n in repr ==> fresh(n)
      {
        AddNext(list, i);
      }
    }

    method AddNext(list: seq<string>, i: nat)
      requires i < |list| && HoldsUpTo(list, i)
      modifies this, repr
      ensures fresh(repr - old(repr)) && HoldsUpTo(list, i + 1)
    {
      ghost var before := trie.words;
      Add(list[i]);
      CollectedNext(before, trie.words, list, i);
    }

    method Add(word: string)
      requires Valid()
      modifies this, repr
      ensures Valid() && fresh(repr - old(repr))
      ensures AddsInside(old(trie.words), trie.words, word)
    {
      ghost var before := trie.words;
      AddTrimmed(TrimSpace(word));
      TrimmedIsInside(before, word);
    }

    // ---------- Queries ----------

    method Child(n: Node, c: char) returns (next: Node?)
      requires Valid() && n.path in trie.nodes && trie.nodes[n.path] == n
      ensures next == null <==> Extend(n.path, c) !in trie.nodes
      ensures next != null ==> next.path == Extend(n.path, c) && trie.nodes[next.path] == next
    {
      assert Linked(n, trie);
      return if c in n.children then n.children[c] else null;
    }

    method EndsWord(n: Node) returns (ends: bool)
      requires Valid() && n.path in trie.nodes && trie.nodes[n.path] == n
      ensures ends <==> n.path in trie.words
    {
      assert Linked(n, trie);
      return n.isEnd;
    }

    method MatchEnd(runes: string, start: nat) returns (end: nat)
      requires Valid() && start <= |runes|
      ensures end == Longest(trie.words, runes, start)
    {
      var current: Node := root;
      end := start;
      var i := start;
      while i < |runes|
        invariant start <= i <= |runes|
        invariant current.path == Strip(runes[start..i])
        invariant current.path in trie.nodes && trie.nodes[current.path] == current
        invariant end == LongestWithin(trie.words, runes, start, i)
      {
        MatchGoesOn(trie.words, runes, start, i);
        if !IsSpace(runes[i]) {
          var next := Child(current, runes[i]);
          if next == null {
            NoHitBehind(trie, runes, start, i);
            return end;
          }
          current := next;
          var ends := EndsWord(current);
          if ends { end := i + 1; }
        }
        i := i + 1;
      }
    }

    /** The texts of the hits taken, in order of position, and whether there were any. */
    method Scan(text: string) returns (hits: seq<string>, matched: bool)
      requires Valid()
      ensures Spells(text, Taken(trie.words, text, 0), hits)
      ensures matched <==> Taken(trie.words, text, 0) != []
    {
      hits, matched := [], false;
      var i := 0;
      ghost var words, done: seq<(nat, nat)> := trie.words, [];
      while i < |text|
        modifies {}
        invariant ScanState(words, text, done, i, hits, matched)
      {
        var end := MatchEnd(text, i);
        ScanTakes(words, text, done, i, end, hits, matched);
        if end > i {
          hits, matched := hits + [text[i..end]], true;
          done := Added(done, i, end);
          i := end;
        } else {
          i := i + 1;
        }
      }
      ScanEnds(words, text, done);
    }

    /** The number of distinct words, trimmed and not empty, that were added. */
    method Size() returns (n: nat)
      requires Valid()
      ensures n == |trie.words|
    {
      n := size;
    }

    method Contains(text: string) returns (found: bool)
      requires Valid()
      ensures found <==> HasHit(trie.words, text)
    {
      var hits, matched := Scan(text);
      ContainsIffTaken(trie.words, text);
      found := matched;
    }

    /** The hits in order of position; none is removed. */
    method Find(text: string) returns (hits: seq<string>)
      requires Valid()
      ensures Spells(text, Taken(trie.words, text, 0), hits)
    {
      var found, matched := Scan(text);
      hits := found;
    }

    method Validate(text: string) returns (ok: bool, hits: seq<string>)
      requires Valid()
      ensures ok <==> forall s: nat, e: nat :: !Hit(trie.words, text, s, e)
      ensures if ok then hits == [] else Spells(text, Taken(trie.words, text, 0), hits)
    {
      var matched;
      hits, matched := Scan(text);
      ContainsIffTaken(trie.words, text);
      ok := |hits| == 0;
    }

    /** Masks in place on a copy of the text; the zero character stands for '*'. */
    method Replace(text: string, maskRune: char) returns (r: string)
      requires Valid()
      ensures r == Masked(trie.words, text, if maskRune == '\0' then '*' else maskRune)
    {
      var mask := if maskRune == '\0' then '*' else maskRune;
      var positions := MarkPositions(text);
      var runes := new char[|text|](k requires 0 <= k < |text| => text[k]);
      for i := 0 to |text|
        invariant ShowsMarked(positions, trie.words, text)
        invariant forall k :: 0 <= k < i ==> runes[k] == if Marked(trie.words, text, k) then mask else text[k]
        invariant forall k :: i <= k < |text| ==> runes[k] == text[k]
      {
        if positions[i] { runes[i] := mask; }
      }
      r := runes[..];
    }

    method MarkPositions(text: string) returns (positions: array<bool>)
      requires Valid()
      ensures fresh(positions) && ShowsMarked(positions, trie.words, text)
    {
      positions := new bool[|text|](_ => false);
      var i := 0;
      ghost var done: seq<(nat, nat)> := [];
      while i < |text|
        modifies positions
        invariant Scanned(trie.words, text, done, i) && MarksOf(positions, text, done)
      {
        i, done := MarkNext(positions, text, i, done);
      }
      ScanEnds(trie.words, text, done);
      MarksAreMarked(positions, trie.words, text, done);
    }

    /** One turn of the scan: marks the hit at `i` and moves behind it, or moves on by one character. */
    method MarkNext(positions: array<bool>, text: string, i: nat, ghost done: seq<(nat, nat)>)
      returns (next: nat, ghost done': seq<(nat, nat)>)
      requires Valid() && i < |text| && Scanned(trie.words, text, done, i) && MarksOf(positions, text, done)
      modifies positions
      ensures i < next && Scanned(trie.words, text, done', next) && MarksOf(positions, text, done')
    {
      var end := MatchEnd(text, i);
      ScanMovesOn(trie.words, text, done, i);
      if end > i {
        MarkHit(positions, text, done, i, end);
        next, done' := end, Added(done, i, end);
      } else {
        next, done' := i + 1, done;
      }
    }

    static method MarkHit(positions: array<bool>, text: string, ghost done: seq<(nat, nat)>, i: nat, end: nat)
      requires MarksOf(positions, text, done) && i <= end <= |text|
      modifies positions
      ensures MarksOf(positions, text, Added(done, i, end))
    {
      for j := i to end
        invariant forall k :: 0 <= k < |text| ==>
          (positions[k] <==> MarkedBy(text, done, k) || (i <= k < j && !IsSpace(text[k])))
      {
        if !IsSpace(text[j]) { positions[j] := true; }
      }
      forall k | 0 <= k < |text|
        ensures MarkedBy(text, done + [(i, end)], k) <==> MarkedBy(text, done, k) || (i <= k < end && !IsSpace(text[k]))
      {
        MarkedBySnoc(text, done, (i, end), k);
      }
    }
  }

  lemma MarkedBySnoc(text: string, segments: seq<(nat, nat)>, segment: (nat, nat), k: nat)
    requires k < |text|
    ensures MarkedBy(text, segments + [segment], k)
       <==> MarkedBy(text, segments, k) || (Inside(segment, k) && !IsSpace(text[k]))
  {
    assert forall hit :: hit in segments + [segment] <==> hit in segments || hit == segment;
  }

  /** A scan that stands at position `i` has taken the hits `done` and will take the rest. */
  ghost function Added(done: seq<(nat, nat)>, i: nat, e: nat): seq<(nat, nat)> {
    done + [(i, e)]
  }

  ghost predicate Scanned(words: set<string>, t: string, done: seq<(nat, nat)>, i: nat) {
    i <= |t| && Taken(words, t, 0) == done + Taken(words, t, i)
  }

  lemma ScanMovesOn(words: set<string>, t: string, done: seq<(nat, nat)>, i: nat)
    requires i < |t| && Scanned(words, t, done, i)
    ensures var e := Longest(words, t, i);
      if e > i then Scanned(words, t, Added(done, i, e), e) else Scanned(words, t, done, i + 1)
  {
  }

  /** Where the scan stands before position `i`. */
  ghost predicate ScanState(words: set<string>, t: string, done: seq<(nat, nat)>, i: nat, hits: seq<string>, matched: bool) {
    Scanned(words, t, done, i) && Spells(t, done, hits) && (matched <==> done != [])
  }

  lemma ScanTakes(words: set<string>, t: string, done: seq<(nat, nat)>, i: nat, e: nat, hits: seq<string>, matched: bool)
    requires i < |t| && ScanState(words, t, done, i, hits, matched) && e == Longest(words, t, i)
    ensures if e > i then ScanState(words, t, Added(done, i, e), e, hits + [t[i..e]], true)
            else ScanState(words, t, done, i + 1, hits, matched)
  {
    ScanMovesOn(words, t, done, i);
    if e > i { SpellsSnoc(t, done, hits, (i, e)); }
  }

  lemma {:induction false} ScanEnds(words: set<string>, t: string, done: seq<(nat, nat)>)
    requires Scanned(words, t, done, |t|)
    ensures done == Taken(words, t, 0)
  {
  }

  ghost predicate MarksOf(positions: array<bool>, text: string, segments: seq<(nat, nat)>)
    reads positions
  {
    positions.Length == |text| && forall k :: 0 <= k < |text| ==> (positions[k] <==> MarkedBy(text, segments, k))
  }

  ghost predicate ShowsMarked(positions: array<bool>, words: set<string>, text: string)
    reads positions
  {
    positions.Length == |text| && forall k :: 0 <= k < |text| ==> (positions[k] <==> Marked(words, text, k))
  }

  lemma {:induction false} MarksAreMarked(
    positions: array<bool>, words: set<string>, text: string, done: seq<(nat, nat)>)
    requires MarksOf(positions, text, done) && done == Taken(words, text, 0)
    ensures ShowsMarked(positions, words, text)
  {
  }

  ghost predicate Spells(text: string, segments: seq<(nat, nat)>, hits: seq<string>) {
    && |hits| == |segments|
    && forall k :: 0 <= k < |hits| ==>
         segments[k].0 <= segments[k].1 <= |text| && hits[k] == text[segments[k].0..segments[k].1]
  }

  lemma SpellsSnoc(text: string, segments: seq<(nat, nat)>, hits: seq<string>, segment: (nat, nat))
    requires Spells(text, segments, hits) && segment.0 <= segment.1 <= |text|
    ensures Spells(text, segments + [segment], hits + [text[segment.0..segment.1]])
  {
  }

  /** Find never returns a word twice. */
  ghost predicate FindIsDistinct(words: set<string>) {
    forall t: string, hits: seq<string> :: Spells(t, Taken(words, t, 0), hits) ==>
      forall i, j :: 0 <= i < j < |hits| ==> hits[i] != hits[j]
  }

  /** Find is documented to remove duplicates.  It returns no text twice, whatever it is given, exactly for
      filters that find nothing: as soon as one added word has no white space inside, some text makes it
      return a word twice. */
  lemma FindIsDistinctIffNothingFindable(words: set<string>)
    requires "" !in words
    ensures FindIsDistinct(words) <==> forall w :: w in words ==> !NoSpace(w)
  {
    if forall w :: w in words ==> !NoSpace(w) {
      forall t: string, hits: seq<string> | Spells(t, Taken(words, t, 0), hits) ensures hits == [] {
        NothingFindable(words, t);
      }
    } else {
      var v :| v in words && NoSpace(v);
      var w := LongestFindable(words, v);
      DoubledWordIsTakenTwice(words, w);
      var t, hits := w + w, [w, w];
      assert t[0..|w|] == w && t[|w|..|t|] == w;
      assert Spells(t, Taken(words, t, 0), hits);
      assert hits[0] == hits[1];
    }
  }

  /** The shortest example. */
  lemma FindKeepsDuplicates(hits: seq<string>)
    requires Spells("aa", Taken({"a"}, "aa", 0), hits)
    ensures hits == ["a", "a"]
  {
    DoubledWordIsTakenTwice({"a"}, "a");
    assert "a" + "a" == "aa" && "aa"[0..1] == "a" && "aa"[1..2] == "a";
  }

  ghost predicate MarkedBy(text: string, segments: seq<(nat, nat)>, k: nat)
    requires k < |text|
  {
    !IsSpace(text[k]) && exists hit :: hit in segments && Inside(hit, k)
  }
}
