/** Escaping and unescaping of component/util/util.go: a backslash before every quote and backslash. Strings
    are sequences of runes. */
module Slashes {

  predicate IsSpecial(c: char) {
    c == '\'' || c == '"' || c == '\\'
  }

  function Escape(c: char): string {
    if IsSpecial(c) then ['\\', c] else [c]
  }

  function Added(s: string): string {
    if s == [] then [] else Escape(s[0]) + Added(s[1..])
  }

  /** Of two backslashes the second stays; any other backslash goes, whatever follows. */
  function Stripped(t: string): string {
    if t == [] then []
    else if t[0] != '\\' then [t[0]] + Stripped(t[1..])
    else if |t| > 1 && t[1] == '\\' then ['\\'] + Stripped(t[2..])
    else Stripped(t[1..])
  }

  // ---------- Laws ----------

  /** Unescaping what was escaped gives it back, for every string. */
  lemma {:induction false} StripUndoesAdd(s: string)
    ensures Stripped(Added(s)) == s
    decreases |s|
  {
    if s != [] {
      StripUndoesAdd(s[1..]);
      var t := Added(s);
      if IsSpecial(s[0]) {
        assert t[0] == '\\' && t[1] == s[0] && t[1..][1..] == t[2..] == Added(s[1..]);
      } else {
        assert t[1..] == Added(s[1..]);
      }
    }
  }

  /** Every backslash is followed by the special character it belongs to, and there is no other special
      character. */
  predicate IsEscaped(t: string) {
    t == []
    || (t[0] == '\\' && |t| > 1 && IsSpecial(t[1]) && IsEscaped(t[2..]))
    || (!IsSpecial(t[0]) && IsEscaped(t[1..]))
  }

  lemma {:induction false} AddedIsEscaped(s: string)
    ensures IsEscaped(Added(s))
    decreases |s|
  {
    if s != [] {
      AddedIsEscaped(s[1..]);
      var t := Added(s);
      if IsSpecial(s[0]) {
        assert t[0] == '\\' && t[1] == s[0] && t[2..] == Added(s[1..]);
      } else {
        assert t[0] == s[0] && t[1..] == Added(s[1..]);
      }
    }
  }

  lemma {:induction false} EscapedIsRestored(t: string)
    requires IsEscaped(t)
    ensures Added(Stripped(t)) == t
    decreases |t|
  {
    if t == [] {
    } else if t[0] == '\\' {
      EscapedIsRestored(t[2..]);
      assert Stripped(t) == [t[1]] + Stripped(t[2..]) by {
        assert t[1..][1..] == t[2..];
      }
      assert Added(Stripped(t)) == Escape(t[1]) + Added(Stripped(t[2..]));
    } else {
      EscapedIsRestored(t[1..]);
      assert Added(Stripped(t)) == Escape(t[0]) + Added(Stripped(t[1..]));
    }
  }

  /** Escaping what was unescaped gives it back exactly for escaped strings. */
  lemma {:induction false} AddUndoesStripIffEscaped(t: string)
    ensures Added(Stripped(t)) == t <==> IsEscaped(t)
  {
    if IsEscaped(t) { EscapedIsRestored(t); }
    AddedIsEscaped(Stripped(t));
  }

  /** Different strings stay different. */
  lemma {:induction false} AddIsInjective(a: string, b: string)
    requires Added(a) == Added(b)
    ensures a == b
  {
    StripUndoesAdd(a);
    StripUndoesAdd(b);
  }

  /** How many backslashes stand directly before position `i`. */
  function Backslashes(t: string, i: nat): nat
    requires i <= |t|
  {
    if i == 0 || t[i - 1] != '\\' then 0 else Backslashes(t, i - 1) + 1
  }

  lemma {:induction false} BackslashesOfPrefix(a: string, b: string, i: nat)
    requires i <= |a|
    ensures Backslashes(a + b, i) == Backslashes(a, i)
  {
    if i > 0 { BackslashesOfPrefix(a, b, i - 1); }
  }

  lemma {:induction false} AddedSnoc(s: string, c: char)
    ensures Added(s + [c]) == Added(s) + Escape(c)
    decreases |s|
  {
    if s == [] {
      assert s + [c] == [c];
    } else {
      AddedSnoc(s[1..], c);
      assert (s + [c])[1..] == s[1..] + [c];
      assert Escape(s[0]) + (Added(s[1..]) + Escape(c)) == Escape(s[0]) + Added(s[1..]) + Escape(c);
    }
  }

  /** Escaping goes character by character: a quote or a backslash gets a backslash before it, and any other
      character stays as it is. */
  lemma {:induction false} AddedByCharacter(a: string, b: string, c: char)
    ensures Added(a + b) == Added(a) + Added(b)
    ensures Added([c]) == if c == '\'' || c == '"' || c == '\\' then ['\\', c] else [c]
    decreases |a|
  {
    assert [c][1..] == [];
    if a == [] {
      assert a + b == b;
    } else {
      AddedByCharacter(a[1..], b, c);
      assert (a + b)[1..] == a[1..] + b;
      assert Escape(a[0]) + (Added(a[1..]) + Added(b)) == Escape(a[0]) + Added(a[1..]) + Added(b);
    }
  }

  /** Before every quote stands an odd number of backslashes. */
  ghost predicate QuotesHeld(t: string) {
    forall i :: 0 <= i < |t| && t[i] in {'\'', '"'} ==> Backslashes(t, i) % 2 == 1
  }

  lemma {:induction false} QuotesStayHeld(a: string, b: string)
    requires QuotesHeld(a)
    ensures forall i :: 0 <= i < |a| && (a + b)[i] in {'\'', '"'} ==> Backslashes(a + b, i) % 2 == 1
  {
    forall i | 0 <= i < |a| && (a + b)[i] in {'\'', '"'} ensures Backslashes(a + b, i) % 2 == 1 {
      assert a[i] in {'\'', '"'};
      BackslashesOfPrefix(a, b, i);
    }
  }

  lemma {:induction false} QuotesHeldByEscape(a: string, c: char)
    requires QuotesHeld(a) && Backslashes(a, |a|) % 2 == 0
    ensures QuotesHeld(a + Escape(c)) && Backslashes(a + Escape(c), |a + Escape(c)|) % 2 == 0
  {
    var t := a + Escape(c);
    QuotesStayHeld(a, Escape(c));
    BackslashesOfPrefix(a, Escape(c), |a|);
    if IsSpecial(c) {
      assert t[|a|] == '\\' && t[|a| + 1] == c && |t| == |a| + 2;
      assert Backslashes(t, |a| + 1) == Backslashes(t, |a|) + 1;
    } else {
      assert t[|a|] == c && |t| == |a| + 1;
    }
  }

  /** No quote of an escaped string ends a quotation, and its end leaves nothing escaped. */
  lemma {:induction false} QuotesAreEscaped(s: string)
    ensures QuotesHeld(Added(s)) && Backslashes(Added(s), |Added(s)|) % 2 == 0
    decreases |s|
  {
    if s != [] {
      var p, c := s[..|s| - 1], s[|s| - 1];
      QuotesAreEscaped(p);
      AddedSnoc(p, c);
      assert s == p + [c];
      QuotesHeldByEscape(Added(p), c);
    }
  }

  // ---------- The loops ----------

  method AddSlashes(s: string) returns (builder: string)
    ensures builder == Added(s)
  {
    builder := "";
    for i := 0 to |s|
      invariant builder == Added(s[..i])
    {
      var ch := s[i];
      AddedSnoc(s[..i], ch);
      assert s[..i + 1] == s[..i] + [ch];
      if ch == '\'' || ch == '"' || ch == '\\' {
        builder := builder + ['\\', ch];
      } else {
        builder := builder + [ch];
      }
    }
    assert s[..|s|] == s;
  }

  /** What the loop still has to write from position `i`; `skip` keeps the character there. */
  function Rest(s: string, i: nat, skip: bool): string
    requires i <= |s| && (skip ==> i < |s|)
  {
    if skip then [s[i]] + Stripped(s[i + 1..]) else Stripped(s[i..])
  }

  predicate StartsPair(s: string, i: nat)
    requires i < |s|
  {
    s[i] == '\\' && i + 1 < |s| && s[i + 1] == '\\'
  }

  /** The character at `i` is kept because it is the second of a pair. */
  predicate Skips(s: string, i: nat)
    requires i <= |s|
  {
    i > 0 && !Skips(s, i - 1) && StartsPair(s, i - 1)
  }

  /** What is written for the character at `i`. */
  function Kept(s: string, i: nat, skip: bool): string
    requires i < |s|
  {
    if skip || s[i] != '\\' then [s[i]] else ""
  }

  lemma RestStep(s: string, i: nat, skip: bool)
    requires i < |s|
    ensures Rest(s, i, skip) == Kept(s, i, skip) + Rest(s, i + 1, !skip && StartsPair(s, i))
  {
    var t := s[i..];
    assert t[1..] == s[i + 1..];
    if |t| > 1 { assert t[2..] == s[i + 2..]; }
  }

  function Written(s: string, i: nat): string
    requires i <= |s|
  {
    if i == 0 then "" else Written(s, i - 1) + Kept(s, i - 1, Skips(s, i - 1))
  }

  lemma MoveOver(whole: string, written: string, next: string, rest: string)
    requires whole == written + (next + rest)
    ensures whole == written + next + rest
  {
  }

  /** What the loop has written by `i`, with what is still to come, is the unescaped string. */
  lemma {:induction false} WrittenAndRest(s: string, i: nat)
    requires i <= |s|
    ensures Skips(s, i) ==> i < |s|
    ensures Stripped(s) == Written(s, i) + Rest(s, i, Skips(s, i))
  {
    if i == 0 {
      assert s[0..] == s;
    } else {
      var skip := Skips(s, i - 1);
      WrittenAndRest(s, i - 1);
      RestStep(s, i - 1, skip);
      MoveOver(Stripped(s), Written(s, i - 1), Kept(s, i - 1, skip), Rest(s, i, Skips(s, i)));
    }
  }

  lemma {:induction false} SkipsSecondOfPair(s: string, i: nat)
    requires i < |s| && s[i] == '\\'
    ensures Skips(s, i) <==> Backslashes(s, i) % 2 == 1
  {
    if i > 0 && s[i - 1] == '\\' { SkipsSecondOfPair(s, i - 1); }
  }

  /** The characters among the first `n`, without the backslashes that an even number of backslashes stands before. */
  function Unpaired(s: string, n: nat): string
    requires n <= |s|
  {
    if n == 0 then ""
    else Unpaired(s, n - 1) + (if s[n - 1] == '\\' && Backslashes(s, n - 1) % 2 == 0 then "" else [s[n - 1]])
  }

  lemma {:induction false} WrittenIsUnpaired(s: string, n: nat)
    requires n <= |s|
    ensures Written(s, n) == Unpaired(s, n)
  {
    if n > 0 {
      WrittenIsUnpaired(s, n - 1);
      if s[n - 1] == '\\' { SkipsSecondOfPair(s, n - 1); }
    }
  }

  /** Unescaping drops the backslashes that are not the second of a pair, on every string, and nothing else. */
  lemma {:induction false} StrippedIsUnpaired(s: string)
    ensures Stripped(s) == Unpaired(s, |s|)
  {
    WrittenAndRest(s, |s|);
    WrittenIsUnpaired(s, |s|);
    assert s[|s|..] == [] && Written(s, |s|) + [] == Written(s, |s|);
  }

  method StripSlashes(s: string) returns (builder: string)
    ensures builder == Stripped(s)
  {
    builder := "";
    var skip := false;
    for i := 0 to |s|
      invariant skip == Skips(s, i) && builder == Written(s, i)
    {
      var ch := s[i];
      if skip {
        builder := builder + [ch];
        skip := false;
        continue;
      }
      if ch == '\\' {
        if i + 1 < |s| && s[i + 1] == '\\' { skip := true; }
        assert builder + "" == builder;
        continue;
      }
      builder := builder + [ch];
    }
    WrittenAndRest(s, |s|);
  }
}
