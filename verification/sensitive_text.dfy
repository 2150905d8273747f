/** What framework/sensitive/filter.go promises about texts, in terms of the set of words alone.

    A hit is a stretch of text that ends in a non-space character and spells an added word
    once its white space is removed.  The filter scans from the left, takes the longest hit at
    each position and continues behind it; masking overwrites the non-space characters of the
    hits taken. */
module SensitiveText {

  /** unicode.IsSpace. */
  predicate IsSpace(c: char) {
    || '\U{0009}' <= c <= '\U{000D}'
    || c == ' ' || c == '\U{0085}' || c == '\U{00A0}' || c == '\U{1680}'
    || '\U{2000}' <= c <= '\U{200A}'
    || c == '\U{2028}' || c == '\U{2029}' || c == '\U{202F}' || c == '\U{205F}' || c == '\U{3000}'
  }

  /** The 25 characters of White_Space. */
  const SPACES :=
    "\U{0009}\U{000A}\U{000B}\U{000C}\U{000D}\U{0020}\U{0085}\U{00A0}\U{1680}\U{2000}\U{2001}\U{2002}\U{2003}"
    + "\U{2004}\U{2005}\U{2006}\U{2007}\U{2008}\U{2009}\U{200A}\U{2028}\U{2029}\U{202F}\U{205F}\U{3000}"

  lemma SpacesAre(c: char)
    ensures IsSpace(c) <==> c in SPACES
  {
  }

  function Strip(t: string): string {
    if t == "" then "" else (if IsSpace(t[0]) then [] else [t[0]]) + Strip(t[1..])
  }

  ghost predicate AllSpace(t: string) {
    forall i :: 0 <= i < |t| ==> IsSpace(t[i])
  }

  ghost predicate NoSpaceAtEnds(t: string) {
    t != "" ==> !IsSpace(t[0]) && !IsSpace(t[|t| - 1])
  }

  function TrimLeft(t: string): (r: string)
    ensures |r| <= |t| && (r != "" ==> !IsSpace(r[0]))
  {
    if t != "" && IsSpace(t[0]) then TrimLeft(t[1..]) else t
  }

  function TrimRight(t: string): (r: string)
    ensures r <= t && (r != "" ==> !IsSpace(r[|r| - 1]))
  {
    if t != "" && IsSpace(t[|t| - 1]) then TrimRight(t[..|t| - 1]) else t
  }

  lemma {:induction false} TrimLeftTakesSpace(t: string)
    ensures var n := |t| - |TrimLeft(t)|; t[n..] == TrimLeft(t) && AllSpace(t[..n])
  {
    if t != "" && IsSpace(t[0]) {
      TrimLeftTakesSpace(t[1..]);
      var n := |t| - |TrimLeft(t)|;
      assert t[n..] == t[1..][n - 1..] && t[..n] == [t[0]] + t[1..][..n - 1];
    }
  }

  lemma {:induction false} TrimRightTakesSpace(t: string)
    ensures AllSpace(t[|TrimRight(t)|..])
  {
    if t != "" && IsSpace(t[|t| - 1]) {
      var r, init := TrimRight(t), t[..|t| - 1];
      TrimRightTakesSpace(init);
      assert t[|r|..] == init[|r|..] + [t[|t| - 1]];
    }
  }

  function TrimSpace(t: string): (r: string)
    ensures NoSpaceAtEnds(r)
    ensures NoSpaceAtEnds(t) ==> r == t
  {
    TrimRight(TrimLeft(t))
  }

  /** `w` is what stands between the white space at the two ends of the text. */
  ghost predicate IsInside(t: string, w: string) {
    exists a: string, b: string :: AllSpace(a) && AllSpace(b) && t == a + w + b && NoSpaceAtEnds(w)
  }

  /** Trimming finds the text inside the white space at the ends, and there is only one. */
  lemma TrimSpaceIsInside(t: string, w: string)
    ensures IsInside(t, w) <==> w == TrimSpace(t)
  {
    var a, b := TrimmedOff(t);
    if IsInside(t, w) {
      var c: string, d: string :| AllSpace(c) && AllSpace(d) && t == c + w + d && NoSpaceAtEnds(w);
      InsideIsUnique(a, TrimSpace(t), b, c, w, d);
    }
  }

  /** What trimming takes off at the two ends. */
  lemma TrimmedOff(t: string) returns (a: string, b: string)
    ensures AllSpace(a) && AllSpace(b) && t == a + TrimSpace(t) + b
  {
    var left, r := TrimLeft(t), TrimSpace(t);
    a, b := t[..|t| - |left|], left[|r|..];
    TrimLeftTakesSpace(t);
    TrimRightTakesSpace(left);
    Pieces(t, left, r);
  }

  lemma Pieces(t: string, left: string, r: string)
    requires |r| <= |left| <= |t| && t[|t| - |left|..] == left && left[..|r|] == r
    ensures t == t[..|t| - |left|] + r + left[|r|..]
  {
    assert left == left[..|r|] + left[|r|..];
  }

  lemma Around(a: string, w: string, b: string, t: string)
    requires t == a + w + b && AllSpace(a) && AllSpace(b) && NoSpaceAtEnds(w)
    ensures forall i :: 0 <= i < |t| && (i < |a| || i >= |a| + |w|) ==> IsSpace(t[i])
    ensures w != "" ==> !IsSpace(t[|a|]) && !IsSpace(t[|a| + |w| - 1])
    ensures t[|a|..|a| + |w|] == w
  {
  }

  lemma InsideIsUnique(a: string, w: string, b: string, c: string, v: string, d: string)
    requires AllSpace(a) && AllSpace(b) && AllSpace(c) && AllSpace(d) && NoSpaceAtEnds(w) && NoSpaceAtEnds(v)
    requires a + w + b == c + v + d
    ensures w == v
  {
    var t := a + w + b;
    Around(a, w, b, t);
    Around(c, v, d, t);
    if w != "" && v != "" {
      assert |a| == |c| && |a| + |w| == |c| + |v|;
    }
  }

  ghost predicate NoSpace(t: string) {
    forall i :: 0 <= i < |t| ==> !IsSpace(t[i])
  }

  lemma {:induction false} StripConcat(a: string, b: string)
    ensures Strip(a + b) == Strip(a) + Strip(b)
    decreases |a|
  {
    if a == "" {
      assert a + b == b;
    } else {
      assert (a + b)[0] == a[0] && (a + b)[1..] == a[1..] + b;
      StripConcat(a[1..], b);
    }
  }

  lemma StripSnoc(t: string, s: nat, i: nat)
    requires s <= i < |t|
    ensures Strip(t[s..i + 1]) == Strip(t[s..i]) + (if IsSpace(t[i]) then [] else [t[i]])
  {
    assert t[s..i + 1] == t[s..i] + [t[i]];
    StripConcat(t[s..i], [t[i]]);
  }

  lemma {:induction false} StripHasNoSpace(t: string)
    ensures NoSpace(Strip(t))
    ensures NoSpace(t) ==> Strip(t) == t
    ensures forall i :: 0 <= i < |t| && !IsSpace(t[i]) ==> t[i] in Strip(t)
    ensures forall c :: c in Strip(t) ==> c in t
    decreases |t|
  {
    if t != "" {
      StripHasNoSpace(t[1..]);
    }
  }

  // ---------- Hits ----------

  ghost predicate Hit(words: set<string>, t: string, s: nat, e: nat) {
    s < e <= |t| && !IsSpace(t[e - 1]) && Strip(t[s..e]) in words
  }

  ghost predicate HasHit(words: set<string>, t: string) {
    exists s: nat, e: nat :: Hit(words, t, s, e)
  }

  /** The stretch spells the word, when white space is passed over. */
  predicate Matches(t: string, s: nat, e: nat, w: string)
    requires s <= e <= |t|
    decreases e - s
  {
    if s == e then w == ""
    else if IsSpace(t[s]) then Matches(t, s + 1, e, w)
    else w != "" && w[0] == t[s] && Matches(t, s + 1, e, w[1..])
  }

  lemma {:induction false} MatchesIffStripped(t: string, s: nat, e: nat, w: string)
    requires s <= e <= |t|
    ensures Matches(t, s, e, w) <==> w == Strip(t[s..e])
    decreases e - s
  {
    if s < e {
      assert t[s..e][1..] == t[s + 1..e];
      if IsSpace(t[s]) {
        MatchesIffStripped(t, s + 1, e, w);
      } else if w != "" && w[0] == t[s] {
        MatchesIffStripped(t, s + 1, e, w[1..]);
        assert w == [w[0]] + w[1..];
      }
    }
  }

  /** A hit is a stretch that spells a word and does not end in white space; it may begin with white space. */
  lemma {:induction false} HitIffMatches(words: set<string>, t: string, s: nat, e: nat)
    ensures Hit(words, t, s, e) <==>
      s < e <= |t| && !IsSpace(t[e - 1]) && exists w :: w in words && Matches(t, s, e, w)
  {
    if s < e <= |t| {
      forall w ensures Matches(t, s, e, w) <==> w == Strip(t[s..e]) {
        MatchesIffStripped(t, s, e, w);
      }
    }
  }

  /** The end of the longest hit at `s` that ends by `bound`, or `s` when there is none. */
  ghost function LongestWithin(words: set<string>, t: string, s: nat, bound: nat): (e: nat)
    requires s <= bound <= |t|
    ensures s <= e <= bound
    ensures e == s || Hit(words, t, s, e)
    ensures forall x :: e < x <= bound ==> !Hit(words, t, s, x)
  {
    if bound == s then s
    else if Hit(words, t, s, bound) then bound
    else LongestWithin(words, t, s, bound - 1)
  }

  ghost function Longest(words: set<string>, t: string, s: nat): (e: nat)
    requires s <= |t|
    ensures s <= e <= |t|
    ensures e == s || Hit(words, t, s, e)
    ensures forall x: nat :: Hit(words, t, s, x) ==> x <= e
  {
    LongestWithin(words, t, s, |t|)
  }

  lemma {:induction false} LongestIsWithin(words: set<string>, t: string, s: nat, i: nat, bound: nat)
    requires s <= i <= bound <= |t|
    requires forall x: nat :: i < x <= bound ==> !Hit(words, t, s, x)
    ensures LongestWithin(words, t, s, bound) == LongestWithin(words, t, s, i)
    decreases bound - i
  {
    if i < bound {
      LongestIsWithin(words, t, s, i, bound - 1);
    }
  }

  /** The hits taken by a scan from position `i`. */
  ghost function Taken(words: set<string>, t: string, i: nat): (hits: seq<(nat, nat)>)
    requires i <= |t|
    decreases |t| - i
  {
    if i == |t| then []
    else
      var e := Longest(words, t, i);
      if e > i then [(i, e)] + Taken(words, t, e) else Taken(words, t, i + 1)
  }

  ghost predicate LongestHit(words: set<string>, t: string, hit: (nat, nat)) {
    Hit(words, t, hit.0, hit.1) && hit.1 == Longest(words, t, hit.0)
  }

  /** The hits taken are hits, each the longest at its start. */
  lemma {:induction false} TakenAreHits(words: set<string>, t: string, i: nat)
    requires i <= |t|
    ensures forall hit :: hit in Taken(words, t, i) ==> i <= hit.0 && LongestHit(words, t, hit)
    decreases |t| - i
  {
    if i < |t| {
      var e := Longest(words, t, i);
      if e > i {
        TakenAreHits(words, t, e);
      } else {
        TakenAreHits(words, t, i + 1);
      }
    }
  }

  ghost predicate InOrder(hits: seq<(nat, nat)>) {
    forall a, b :: 0 <= a < b < |hits| ==> hits[a].1 <= hits[b].0
  }

  lemma InOrderCons(hit: (nat, nat), rest: seq<(nat, nat)>)
    requires InOrder(rest) && forall r :: r in rest ==> hit.1 <= r.0
    ensures InOrder([hit] + rest)
  {
    var hits := [hit] + rest;
    forall a, b | 0 <= a < b < |hits| ensures hits[a].1 <= hits[b].0 {
      assert hits[b] == rest[b - 1] && rest[b - 1] in rest;
      if a > 0 { assert hits[a] == rest[a - 1]; }
    }
  }

  /** The hits taken follow one another without overlap. */
  lemma {:induction false} TakenInOrder(words: set<string>, t: string, i: nat)
    requires i <= |t|
    ensures InOrder(Taken(words, t, i))
    decreases |t| - i
  {
    if i < |t| {
      var e := Longest(words, t, i);
      if e > i {
        TakenInOrder(words, t, e);
        TakenAreHits(words, t, e);
        InOrderCons((i, e), Taken(words, t, e));
      } else {
        TakenInOrder(words, t, i + 1);
      }
    }
  }

  ghost predicate Inside(hit: (nat, nat), k: nat) {
    hit.0 <= k < hit.1
  }

  /** Position `k` is overwritten when the text is masked. */
  ghost predicate Marked(words: set<string>, t: string, k: nat)
    requires k < |t|
  {
    !IsSpace(t[k]) && exists hit :: hit in Taken(words, t, 0) && Inside(hit, k)
  }

  /** A scan from the left: it takes longest hits that follow one another, and no hit starts outside of them. */
  ghost predicate IsScan(words: set<string>, t: string, i: nat, hits: seq<(nat, nat)>) {
    && InOrder(hits)
    && (forall hit :: hit in hits ==> i <= hit.0 && LongestHit(words, t, hit))
    && (forall s: nat, e: nat :: i <= s && Hit(words, t, s, e) ==> StartsInside(hits, s))
  }

  ghost predicate StartsInside(hits: seq<(nat, nat)>, s: nat) {
    exists hit :: hit in hits && Inside(hit, s)
  }

  lemma {:induction false} TakenStartInside(words: set<string>, t: string, i: nat, s: nat, e: nat)
    requires i <= s && Hit(words, t, s, e)
    ensures StartsInside(Taken(words, t, i), s)
    decreases |t| - i
  {
    var f := Longest(words, t, i);
    if f == i {
      TakenStartInside(words, t, i + 1, s, e);
    } else if f <= s {
      TakenStartInside(words, t, f, s, e);
      var hit :| hit in Taken(words, t, f) && Inside(hit, s);
      assert hit in Taken(words, t, i);
    } else {
      assert Inside((i, f), s) && (i, f) in Taken(words, t, i);
    }
  }

  /** The hits taken are such a scan, and there is only one. */
  lemma {:induction false} TakenIffScan(words: set<string>, t: string, i: nat, hits: seq<(nat, nat)>)
    requires i <= |t|
    ensures hits == Taken(words, t, i) <==> IsScan(words, t, i, hits)
  {
    TakenAreHits(words, t, i);
    TakenInOrder(words, t, i);
    forall s: nat, e: nat | i <= s && Hit(words, t, s, e) ensures StartsInside(Taken(words, t, i), s) {
      TakenStartInside(words, t, i, s, e);
    }
    if IsScan(words, t, i, hits) { ScanIsUnique(words, t, i, hits); }
  }

  lemma {:induction false} ScanIsUnique(words: set<string>, t: string, i: nat, hits: seq<(nat, nat)>)
    requires i <= |t| && IsScan(words, t, i, hits)
    ensures hits == Taken(words, t, i)
    decreases |t| - i
  {
    assert hits != [] ==> hits[0] in hits;
    if i == |t| {
    } else if Longest(words, t, i) == i {
      NothingStartsHere(words, t, i, hits);
      ScanIsUnique(words, t, i + 1, hits);
    } else {
      var f := Longest(words, t, i);
      FirstIsTaken(words, t, i, hits);
      ScanGoesOn(words, t, i, hits);
      ScanIsUnique(words, t, f, hits[1..]);
      HeadAndRest(hits, (i, f), Taken(words, t, f));
    }
  }

  lemma HeadAndRest(hits: seq<(nat, nat)>, head: (nat, nat), rest: seq<(nat, nat)>)
    requires hits != [] && hits[0] == head && hits[1..] == rest
    ensures hits == [head] + rest
  {
  }

  lemma NothingStartsHere(words: set<string>, t: string, i: nat, hits: seq<(nat, nat)>)
    requires i < |t| && IsScan(words, t, i, hits) && Longest(words, t, i) == i
    ensures IsScan(words, t, i + 1, hits)
  {
    forall hit | hit in hits ensures i + 1 <= hit.0 {
      assert LongestHit(words, t, hit);
    }
  }

  lemma FirstIsTaken(words: set<string>, t: string, i: nat, hits: seq<(nat, nat)>)
    requires i < |t| && IsScan(words, t, i, hits) && Longest(words, t, i) > i
    ensures hits != [] && hits[0] == (i, Longest(words, t, i))
  {
    assert Hit(words, t, i, Longest(words, t, i));
    var hit :| hit in hits && Inside(hit, i);
    var k :| 0 <= k < |hits| && hits[k] == hit;
    assert hits[0] in hits && LongestHit(words, t, hits[0]);
    if k > 0 { assert hits[0].1 <= hits[k].0; }
  }

  lemma ScanGoesOn(words: set<string>, t: string, i: nat, hits: seq<(nat, nat)>)
    requires IsScan(words, t, i, hits) && hits != []
    ensures IsScan(words, t, hits[0].1, hits[1..])
  {
    var rest := hits[1..];
    RestAreHits(words, t, i, hits);
    forall s: nat, e: nat | hits[0].1 <= s && Hit(words, t, s, e) ensures StartsInside(rest, s) {
      StartsInsideRest(hits, s);
    }
  }

  lemma RestAreHits(words: set<string>, t: string, i: nat, hits: seq<(nat, nat)>)
    requires IsScan(words, t, i, hits) && hits != []
    ensures InOrder(hits[1..])
    ensures forall hit :: hit in hits[1..] ==> hits[0].1 <= hit.0 && LongestHit(words, t, hit)
  {
    var rest := hits[1..];
    forall k | 0 <= k < |rest| ensures hits[0].1 <= rest[k].0 && LongestHit(words, t, rest[k]) {
      assert rest[k] == hits[k + 1] && hits[k + 1] in hits;
    }
  }

  lemma StartsInsideRest(hits: seq<(nat, nat)>, s: nat)
    requires hits != [] && hits[0].1 <= s && StartsInside(hits, s)
    ensures StartsInside(hits[1..], s)
  {
    var hit :| hit in hits && Inside(hit, s);
    var k :| 0 <= k < |hits| && hits[k] == hit;
    assert hits[1..][k - 1] == hit;
  }

  /** Every hit of the text, taken or not, loses a character to some hit that is taken: the earlier of the two ends
      is inside both. */
  lemma EveryHitIsCut(words: set<string>, t: string, i: nat, s: nat, e: nat) returns (hit: (nat, nat), k: nat)
    requires i <= s && Hit(words, t, s, e)
    ensures hit in Taken(words, t, i) && Inside(hit, k)
    ensures s <= k < e && !IsSpace(t[k])
  {
    TakenStartInside(words, t, i, s, e);
    hit :| hit in Taken(words, t, i) && Inside(hit, s);
    TakenAreHits(words, t, i);
    assert LongestHit(words, t, hit);
    k := if e <= hit.1 then e - 1 else hit.1 - 1;
  }

  /** A text contains a word exactly when the scan takes something. */
  lemma {:induction false} ContainsIffTaken(words: set<string>, t: string)
    requires "" !in words
    ensures Taken(words, t, 0) != [] <==> HasHit(words, t)
  {
    TakenAreHits(words, t, 0);
    if s: nat, e: nat :| Hit(words, t, s, e) {
      var hit, k := EveryHitIsCut(words, t, 0, s, e);
    }
    if Taken(words, t, 0) != [] {
      var hit := Taken(words, t, 0)[0];
      assert LongestHit(words, t, hit);
    }
  }

  /** Some word stands in the text, character by character. */
  ghost predicate ContainsWord(words: set<string>, t: string) {
    exists a: nat, b: nat :: a < b <= |t| && t[a..b] in words
  }

  /** The shortest beginning of a text that has the first `n` of its characters that are not white space. */
  lemma {:induction false} CutAt(t: string, n: nat) returns (p: nat)
    requires n <= |Strip(t)|
    ensures p <= |t| && Strip(t[..p]) == Strip(t)[..n]
    ensures p > 0 ==> !IsSpace(t[p - 1])
    decreases |t|
  {
    if n == 0 {
      p := 0;
    } else {
      var last := |t| - 1;
      StripSnoc(t, 0, last);
      assert t[0..last] == t[..last] && t[0..last + 1] == t;
      if n == |Strip(t)| && !IsSpace(t[last]) {
        p := |t|;
        assert t[..p] == t && Strip(t)[..n] == Strip(t);
      } else {
        p := CutAt(t[..last], n);
        assert t[..last][..p] == t[..p];
      }
    }
  }

  /** A text has a hit exactly when a word stands in what its white space leaves. */
  lemma {:induction false} HasHitIffStripped(words: set<string>, t: string)
    requires "" !in words
    ensures HasHit(words, t) <==> ContainsWord(words, Strip(t))
  {
    if s: nat, e: nat :| Hit(words, t, s, e) {
      assert t == t[..s] + t[s..e] + t[e..];
      StripConcat(t[..s] + t[s..e], t[e..]);
      StripConcat(t[..s], t[s..e]);
      var a := |Strip(t[..s])|;
      var b := a + |Strip(t[s..e])|;
      assert Strip(t)[a..b] == Strip(t[s..e]);
    }
    if a: nat, b: nat :| a < b <= |Strip(t)| && Strip(t)[a..b] in words {
      HitBetween(words, t, a, b);
    }
  }

  lemma {:induction false} HitBetween(words: set<string>, t: string, a: nat, b: nat)
    requires a < b <= |Strip(t)| && Strip(t)[a..b] in words
    ensures HasHit(words, t)
  {
    var s := CutAt(t, a);
    var e := CutAt(t, b);
    if e <= s {
      assert t[..s] == t[..e] + t[e..s];
      StripConcat(t[..e], t[e..s]);
      assert false;
    }
    assert t[..e] == t[..s] + t[s..e];
    StripConcat(t[..s], t[s..e]);
    assert Strip(t[s..e]) == Strip(t)[a..b];
    assert Hit(words, t, s, e);
  }

  // ---------- Masking ----------

  ghost function Masked(words: set<string>, t: string, mask: char): (r: string)
    ensures |r| == |t|
  {
    seq(|t|, k requires 0 <= k < |t| => if Marked(words, t, k) then mask else t[k])
  }

  ghost predicate Neutral(words: set<string>, mask: char) {
    !IsSpace(mask) && forall w :: w in words ==> mask !in w
  }

  /** Masking keeps the length and all white space, and changes to the mask exactly the other characters that lie
      in a hit that is taken. */
  lemma {:induction false} MaskedKeeps(words: set<string>, t: string, mask: char)
    requires !IsSpace(mask)
    ensures var r := Masked(words, t, mask);
      |r| == |t| && forall k :: 0 <= k < |t| ==>
        && (IsSpace(r[k]) <==> IsSpace(t[k])) && (IsSpace(t[k]) ==> r[k] == t[k])
        && (!IsSpace(t[k]) ==> r[k] == if StartsInside(Taken(words, t, 0), k) then mask else t[k])
  {
  }

  /** A hit of the masked text stands on characters that masking left alone. */
  lemma {:induction false} HitOfMaskedIsUnmarked(words: set<string>, t: string, mask: char, s: nat, e: nat)
    requires Neutral(words, mask) && Hit(words, Masked(words, t, mask), s, e)
    ensures Hit(words, t, s, e)
    ensures forall k, hit :: s <= k < e && !IsSpace(t[k]) && hit in Taken(words, t, 0) ==> !Inside(hit, k)
  {
    var r := Masked(words, t, mask);
    HitAvoidsMask(words, r, mask, s, e);
    forall k | s <= k < e ensures r[k] == t[k] && !Marked(words, t, k) {
      assert r[k] != mask;
    }
    assert r[s..e] == t[s..e];
  }

  lemma HitAvoidsMask(words: set<string>, r: string, mask: char, s: nat, e: nat)
    requires Neutral(words, mask) && Hit(words, r, s, e)
    ensures forall k :: s <= k < e ==> r[k] != mask
  {
    StripHasNoSpace(r[s..e]);
    forall k | s <= k < e ensures r[k] != mask {
      assert r[s..e][k - s] == r[k];
    }
  }

  /** A masked text contains no word, when the mask is not white space and occurs in no word. */
  lemma {:induction false} MaskedIsClean(words: set<string>, t: string, mask: char)
    requires "" !in words && Neutral(words, mask)
    ensures forall s: nat, e: nat :: !Hit(words, Masked(words, t, mask), s, e)
    ensures Taken(words, Masked(words, t, mask), 0) == []
  {
    if s: nat, e: nat :| Hit(words, Masked(words, t, mask), s, e) {
      HitOfMaskedIsUnmarked(words, t, mask, s, e);
      var hit, k := EveryHitIsCut(words, t, 0, s, e);
      assert false;
    }
    ContainsIffTaken(words, Masked(words, t, mask));
  }

  /** Masking a masked text changes nothing. */
  lemma MaskingIsIdempotent(words: set<string>, t: string, mask: char)
    requires "" !in words && Neutral(words, mask)
    ensures Masked(words, Masked(words, t, mask), mask) == Masked(words, t, mask)
  {
    MaskedIsClean(words, t, mask);
  }

  /** Both halves of Neutral are needed.  With a mask that is itself a word, a masked text contains a word
      whenever the text did. */
  lemma MaskWordIsNeverClean(words: set<string>, t: string, mask: char)
    requires "" !in words && [mask] in words && !IsSpace(mask)
    ensures HasHit(words, Masked(words, t, mask)) <==> HasHit(words, t)
  {
    var r := Masked(words, t, mask);
    ContainsIffTaken(words, t);
    if Taken(words, t, 0) == [] {
      assert forall k: nat :: k < |t| ==> !Marked(words, t, k);
      assert r == t;
    } else {
      var hit := Taken(words, t, 0)[0];
      assert hit in Taken(words, t, 0);
      TakenAreHits(words, t, 0);
      var k := hit.1 - 1;
      assert Inside(hit, k) && Marked(words, t, k);
      assert r[k..k + 1] == [mask] && Strip([mask]) == [mask] by { StripHasNoSpace([mask]); }
      assert Hit(words, r, k, k + 1);
    }
  }

  /** The shortest example. */
  lemma MaskInWordLeavesHit()
    ensures Masked({"*"}, "*", '*') == "*" && Hit({"*"}, "*", 0, 1)
  {
    assert "*"[0..1] == "*";
    assert Strip("*") == "*";
  }

  /** The characters among the first `n` that masking leaves, white space aside. */
  ghost function Left(words: set<string>, t: string, n: nat): string
    requires n <= |t|
  {
    if n == 0 then ""
    else Left(words, t, n - 1) + (if IsSpace(t[n - 1]) || Marked(words, t, n - 1) then [] else [t[n - 1]])
  }

  lemma {:induction false} StrippedMaskedIsLeft(words: set<string>, t: string, mask: char, n: nat)
    requires IsSpace(mask) && n <= |t|
    ensures Strip(Masked(words, t, mask)[0..n]) == Left(words, t, n)
    decreases n
  {
    if n > 0 {
      StrippedMaskedIsLeft(words, t, mask, n - 1);
      StripSnoc(Masked(words, t, mask), 0, n - 1);
    }
  }

  /** Masking with white space is deleting: it leaves a word exactly when one stands in the characters left. */
  lemma {:induction false} SpaceMaskDeletes(words: set<string>, t: string, mask: char)
    requires "" !in words && IsSpace(mask)
    ensures HasHit(words, Masked(words, t, mask)) <==> ContainsWord(words, Left(words, t, |t|))
  {
    var r := Masked(words, t, mask);
    StrippedMaskedIsLeft(words, t, mask, |t|);
    assert r[0..|t|] == r;
    HasHitIffStripped(words, r);
  }

  /** So it can join what stood on two sides of a hit into a word. */
  lemma SpaceMaskMakesHit()
    ensures var words := {"x", "ab"};
      Masked(words, "axb", ' ') == "a b" && Hit(words, "a b", 0, 3)
  {
    var words, t := {"x", "ab"}, "axb";
    OnlyXIsMarked();
    assert Masked(words, t, ' ') == [t[0], ' ', t[2]];
    assert "a b"[0..3] == "a" + " b" && " b" == " " + "b";
    StripConcat("a", " b");
    StripConcat(" ", "b");
    assert Strip("a") == "a" && Strip(" ") == "" && Strip("b") == "b";
    assert Strip("a b") == "ab";
  }

  lemma OnlyXIsMarked()
    ensures forall k: nat :: k < 3 ==> (Marked({"x", "ab"}, "axb", k) <==> k == 1)
  {
    var words, t := {"x", "ab"}, "axb";
    assert t[1..2] == "x" && Strip("x") == "x";
    var hit, k := EveryHitIsCut(words, t, 0, 1, 2);
    TakenAreHits(words, t, 0);
    forall hit | hit in Taken(words, t, 0) ensures hit == (1, 2) {
      OnlyHitOfExample(hit.0, hit.1);
    }
  }

  lemma OnlyHitOfExample(s: nat, e: nat)
    requires Hit({"x", "ab"}, "axb", s, e)
    ensures s == 1 && e == 2
  {
    var t := "axb";
    assert NoSpace(t[s..e]);
    StripHasNoSpace(t[s..e]);
    assert t[s..e][0] == t[s];
  }

  // ---------- Words that can never be found ----------

  /** A word is found in some text exactly when it has no white space inside. */
  lemma FindableIffNoSpace(words: set<string>, w: string)
    requires w in words && w != ""
    ensures NoSpace(w) <==> exists t: string, s: nat, e: nat :: Hit(words, t, s, e) && Strip(t[s..e]) == w
  {
    StripHasNoSpace(w);
    if NoSpace(w) {
      assert w[0..|w|] == w;
      assert Hit(words, w, 0, |w|);
    }
    if t: string, s: nat, e: nat :| Hit(words, t, s, e) && Strip(t[s..e]) == w {
      StripHasNoSpace(t[s..e]);
    }
  }

  /** Hence words with white space inside may be dropped without changing any hit. */
  lemma SpacedWordsAreDead(words: set<string>, t: string, s: nat, e: nat)
    ensures Hit(words, t, s, e) <==> Hit((set w | w in words && NoSpace(w)), t, s, e)
  {
    if s < e <= |t| {
      StripHasNoSpace(t[s..e]);
    }
  }

  // ---------- Words found twice ----------

  ghost predicate Findable(words: set<string>, w: string) {
    w in words && NoSpace(w)
  }

  lemma {:induction false} LongestFindable(words: set<string>, v: string) returns (w: string)
    requires Findable(words, v)
    ensures Findable(words, w) && forall u :: Findable(words, u) ==> |u| <= |w|
    decreases |words|
  {
    var rest := words - {v};
    w := v;
    if u :| Findable(rest, u) {
      var longest := LongestFindable(rest, u);
      if |longest| > |v| { w := longest; }
      forall x | Findable(words, x) ensures |x| <= |w| {
        assert x == v || Findable(rest, x);
      }
    } else {
      forall x | Findable(words, x) ensures |x| <= |w| {
        assert x == v || Findable(rest, x);
      }
    }
  }

  /** In a text without white space, a hit that starts at `s` ends after the word that stands there, when that
      word is a longest one. */
  lemma LongestStandsThere(words: set<string>, w: string, t: string, s: nat)
    requires Findable(words, w) && w != "" && forall u :: Findable(words, u) ==> |u| <= |w|
    requires NoSpace(t) && s + |w| <= |t| && t[s..s + |w|] == w
    ensures Longest(words, t, s) == s + |w|
  {
    StripHasNoSpace(w);
    assert Hit(words, t, s, s + |w|);
    var e := Longest(words, t, s);
    var found := t[s..e];
    StripHasNoSpace(found);
    assert NoSpace(found);
    assert Findable(words, found);
  }

  /** A longest word, written twice, is taken twice. */
  lemma {:induction false} DoubledWordIsTakenTwice(words: set<string>, w: string)
    requires Findable(words, w) && w != "" && forall u :: Findable(words, u) ==> |u| <= |w|
    ensures Taken(words, w + w, 0) == [(0, |w|), (|w|, |w + w|)]
  {
    var t, n := w + w, |w|;
    assert t[0..n] == w && t[n..n + n] == w;
    LongestStandsThere(words, w, t, 0);
    LongestStandsThere(words, w, t, n);
    assert Taken(words, t, n + n) == [];
    assert Taken(words, t, n) == [(n, n + n)] + [];
    assert Taken(words, t, 0) == [(0, n)] + Taken(words, t, n);
  }

  /** Where no word can be found, nothing is taken. */
  lemma {:induction false} NothingFindable(words: set<string>, t: string)
    requires "" !in words && forall w :: !Findable(words, w)
    ensures Taken(words, t, 0) == []
  {
    ContainsIffTaken(words, t);
    if s: nat, e: nat :| Hit(words, t, s, e) {
      HitIsFindable(words, t, s, e);
      assert false;
    }
  }

  lemma HitIsFindable(words: set<string>, t: string, s: nat, e: nat)
    requires Hit(words, t, s, e)
    ensures Findable(words, Strip(t[s..e]))
  {
    StripHasNoSpace(t[s..e]);
  }
}
