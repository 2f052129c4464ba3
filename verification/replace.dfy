/**
 * `cleaned.replace(new RegExp(escapeRegExp(from), 'g'), to)` (script.js:131):
 * a global replacement of a literal key.
 *
 * The scan goes left to right; at each position where the key occurs the
 * match is replaced and the scan resumes after it, so matches never overlap.
 * An empty key matches at every position 0..|s| (the regular expression that
 * matches the empty string advances by one character after each empty
 * match). The replacement is a template: `$$`, `$&`, `` $` `` and `$'`
 * expand to a dollar, the matched text, the text before the match and the
 * text after it; the pattern has no capture groups, so every other `$` is
 * copied as it stands.
 */
module Replace {

  /** The key occurs in s starting at index i. */
  predicate OccursAt(s: string, key: string, i: nat) {
    i + |key| <= |s| && s[i..i + |key|] == key
  }

  predicate Occurs(s: string, key: string) {
    exists i: nat | i <= |s| :: OccursAt(s, key, i)
  }

  /** A template with no `$` is copied literally. */
  predicate NoDollar(t: string) {
    '$' !in t
  }

  /** Expansion of template t for the match s[b..e]. */
  function Expand(t: string, s: string, b: nat, e: nat): string
    requires b <= e <= |s|
  {
    if t == [] then []
    else if t[0] == '$' && |t| >= 2 && t[1] in {'$', '&', '`', '\''} then
      (match t[1]
       case '$' => "$"
       case '&' => s[b..e]
       case '`' => s[..b]
       case _ => s[e..])
      + Expand(t[2..], s, b, e)
    else [t[0]] + Expand(t[1..], s, b, e)
  }

  /** The replaced text of s[i..], scanning from index i of the whole string s. */
  function ReplaceFrom(s: string, key: string, t: string, i: nat): string
    requires i <= |s|
    decreases |s| - i
  {
    if key == [] then
      Expand(t, s, i, i) + (if i == |s| then [] else [s[i]] + ReplaceFrom(s, key, t, i + 1))
    else if OccursAt(s, key, i) then
      Expand(t, s, i, i + |key|) + ReplaceFrom(s, key, t, i + |key|)
    else if i == |s| then []
    else [s[i]] + ReplaceFrom(s, key, t, i + 1)
  }

  /** Every occurrence of key in s replaced by template t. */
  function ReplaceAll(s: string, key: string, t: string): string {
    ReplaceFrom(s, key, t, 0)
  }

  /** The same scan with t inserted as plain text. */
  function ReplaceLiteral(s: string, key: string, t: string): string
    decreases |s|
  {
    if key == [] then t + (if s == [] then [] else [s[0]] + ReplaceLiteral(s[1..], key, t))
    else if |key| <= |s| && s[..|key|] == key then t + ReplaceLiteral(s[|key|..], key, t)
    else if s == [] then []
    else [s[0]] + ReplaceLiteral(s[1..], key, t)
  }

  /** Each occurrence of the character c replaced by t, every other character kept. */
  function Subst(s: string, c: char, t: string): string {
    if s == [] then [] else (if s[0] == c then t else [s[0]]) + Subst(s[1..], c, t)
  }

  lemma {:induction false} ExpandNoDollar(t: string, s: string, b: nat, e: nat)
    requires b <= e <= |s|
    requires NoDollar(t)
    ensures Expand(t, s, b, e) == t
  {
    if t != [] {
      assert t[0] != '$';
      ExpandNoDollar(t[1..], s, b, e);
      assert t == [t[0]] + t[1..];
    }
  }

  lemma {:induction false} ReplaceFromLiteral(s: string, key: string, t: string, i: nat)
    requires i <= |s|
    requires NoDollar(t)
    ensures ReplaceFrom(s, key, t, i) == ReplaceLiteral(s[i..], key, t)
    decreases |s| - i
  {
    if key == [] {
      ExpandNoDollar(t, s, i, i);
      if i < |s| {
        ReplaceFromLiteral(s, key, t, i + 1);
        LiteralStepEmpty(s, t, i);
      } else {
        assert s[i..] == [];
      }
    } else if OccursAt(s, key, i) {
      var e := i + |key|;
      assert ReplaceFrom(s, key, t, i) == Expand(t, s, i, e) + ReplaceFrom(s, key, t, e);
      ExpandNoDollar(t, s, i, e);
      ReplaceFromLiteral(s, key, t, e);
      LiteralStepMatch(s, key, t, i);
    } else if i < |s| {
      ReplaceFromLiteral(s, key, t, i + 1);
      LiteralStepSkip(s, key, t, i);
    } else {
      assert s[i..] == [];
    }
  }

  lemma LiteralStepEmpty(s: string, t: string, i: nat)
    requires i < |s|
    ensures ReplaceLiteral(s[i..], [], t) == t + [s[i]] + ReplaceLiteral(s[i + 1..], [], t)
  {
  }

  lemma LiteralStepMatch(s: string, key: string, t: string, i: nat)
    requires key != [] && OccursAt(s, key, i)
    ensures ReplaceLiteral(s[i..], key, t) == t + ReplaceLiteral(s[i + |key|..], key, t)
  {
  }

  lemma LiteralStepSkip(s: string, key: string, t: string, i: nat)
    requires key != [] && !OccursAt(s, key, i) && i < |s|
    ensures ReplaceLiteral(s[i..], key, t) == [s[i]] + ReplaceLiteral(s[i + 1..], key, t)
  {
    var r := s[i..];
    assert !(|key| <= |r| && r[..|key|] == key) by {
      if |key| <= |r| {
        assert r[..|key|] == s[i..i + |key|];
      }
    }
    assert r[0] == s[i] && r[1..] == s[i + 1..];
  }

  /** With a `$`-free target the template is inserted as plain text. */
  lemma ReplaceAllLiteral(s: string, key: string, t: string)
    requires NoDollar(t)
    ensures ReplaceAll(s, key, t) == ReplaceLiteral(s, key, t)
  {
    ReplaceFromLiteral(s, key, t, 0);
    assert s[0..] == s;
  }

  lemma {:induction false} ReplaceFromNoOccurrence(s: string, key: string, t: string, i: nat)
    requires i <= |s|
    requires forall j: nat :: i <= j ==> !OccursAt(s, key, j)
    ensures ReplaceFrom(s, key, t, i) == s[i..]
    decreases |s| - i
  {
    assert !OccursAt(s, key, i);
    if i < |s| {
      ReplaceFromNoOccurrence(s, key, t, i + 1);
      assert s[i..] == [s[i]] + s[i + 1..];
    }
  }

  /** A key that does not occur leaves the text unchanged, whatever the target. */
  lemma ReplaceAllNoOccurrence(s: string, key: string, t: string)
    requires !Occurs(s, key)
    ensures ReplaceAll(s, key, t) == s
  {
    ReplaceFromNoOccurrence(s, key, t, 0);
  }

  lemma {:induction false} ReplaceFromMatch(s: string, key: string, i: nat)
    requires i <= |s|
    ensures ReplaceFrom(s, key, "$&", i) == s[i..]
    decreases |s| - i
  {
    if key == [] {
      assert Expand("$&", s, i, i) == [];
      if i < |s| {
        ReplaceFromMatch(s, key, i + 1);
        assert s[i..] == [s[i]] + s[i + 1..];
      }
    } else if OccursAt(s, key, i) {
      ReplaceFromMatch(s, key, i + |key|);
      assert Expand("$&"[2..], s, i, i + |key|) == [];
      assert s[i..] == s[i..i + |key|] + s[i + |key|..];
    } else if i < |s| {
      ReplaceFromMatch(s, key, i + 1);
      assert s[i..] == [s[i]] + s[i + 1..];
    }
  }

  /**
   * The template `$&` puts every match back: the text is unchanged. This
   * includes the empty key, whose matches are all empty.
   */
  lemma ReplaceAllMatchTemplate(s: string, key: string)
    ensures ReplaceAll(s, key, "$&") == s
  {
    ReplaceFromMatch(s, key, 0);
  }

  lemma {:induction false} ReplaceLiteralSingleChar(s: string, c: char, t: string)
    ensures ReplaceLiteral(s, [c], t) == Subst(s, c, t)
  {
    if s != [] {
      ReplaceLiteralSingleChar(s[1..], c, t);
      assert s[..1] == [s[0]];
      assert s[1..] == s[|[c]|..];
    }
  }

  /** A one-character key with a `$`-free target is replaced character by character. */
  lemma ReplaceAllSingleChar(s: string, c: char, t: string)
    requires NoDollar(t)
    ensures ReplaceAll(s, [c], t) == Subst(s, c, t)
  {
    ReplaceAllLiteral(s, [c], t);
    ReplaceLiteralSingleChar(s, c, t);
  }

  /** Substitution of a character absent from t removes it completely. */
  lemma {:induction false} SubstRemoves(s: string, c: char, t: string)
    requires c !in t
    ensures c !in Subst(s, c, t)
  {
    if s != [] {
      SubstRemoves(s[1..], c, t);
    }
  }

  /** Substitution of a character that does not occur changes nothing. */
  lemma {:induction false} SubstAbsent(s: string, c: char, t: string)
    requires c !in s
    ensures Subst(s, c, t) == s
  {
    if s != [] {
      SubstAbsent(s[1..], c, t);
      assert s == [s[0]] + s[1..];
    }
  }

  /** Substitution distributes over concatenation. */
  lemma {:induction false} SubstAppend(a: string, b: string, c: char, t: string)
    ensures Subst(a + b, c, t) == Subst(a, c, t) + Subst(b, c, t)
  {
    if a != [] {
      SubstAppend(a[1..], b, c, t);
      assert (a + b)[0] == a[0] && (a + b)[1..] == a[1..] + b;
    } else {
      assert a + b == b;
    }
  }

  /** A one-character key occurs exactly when its character does. */
  lemma OccursSingleChar(s: string, c: char)
    ensures Occurs(s, [c]) <==> c in s
  {
    if c in s {
      var i :| 0 <= i < |s| && s[i] == c;
      assert OccursAt(s, [c], i);
    }
    if Occurs(s, [c]) {
      var i: nat :| i <= |s| && OccursAt(s, [c], i);
      assert |[c]| == 1 && i < |s|;
      assert s[i] == s[i..i + 1][0];
    }
  }
}
