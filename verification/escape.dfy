/**
 * escapeRegExp (script.js:137-139) and the reading of the pattern it builds.
 *
 * The cleaner turns every rule key into a regular expression with
 * `new RegExp(escapeRegExp(key), 'g')`. Escaping puts a backslash in front of
 * each regular-expression syntax character so that the pattern matches the
 * key literally. `LiteralPattern` is the part of regular-expression syntax
 * that such patterns use: plain characters, and a backslash followed by a
 * syntax character, each matching that one character.
 */
module Escape {
  import opened Wrappers

  /** The characters escapeRegExp escapes: . * + ? ^ $ { } ( ) | [ ] and the backslash. */
  predicate IsSyntaxChar(c: char) {
    c in {'.', '*', '+', '?', '^', '$', '{', '}', '(', ')', '|', '[', ']', '\\'}
  }

  /** Number of syntax characters in s, counted with multiplicity. */
  function SyntaxCount(s: string): nat {
    if s == [] then 0 else (if IsSyntaxChar(s[0]) then 1 else 0) + SyntaxCount(s[1..])
  }

  /** The escaped pattern: every syntax character gets a backslash in front. */
  function EscapeRegExp(s: string): (r: string)
    ensures |s| <= |r| <= 2 * |s|
  {
    if s == [] then []
    else (if IsSyntaxChar(s[0]) then ['\\', s[0]] else [s[0]]) + EscapeRegExp(s[1..])
  }

  /**
   * The literal text a pattern matches, when the pattern is made only of
   * characters that stand for themselves and backslash-escaped syntax
   * characters; None for any other pattern (a bare syntax character, a
   * trailing backslash, or a backslash before an ordinary character, which
   * in a regular expression may denote a class or a control escape).
   * Every pattern it accepts is exactly the escaped form of the text it reads.
   */
  function LiteralPattern(p: string): (r: Option<string>)
    ensures r.Some? ==> |r.value| <= |p| && EscapeRegExp(r.value) == p
  {
    if p == [] then Some([])
    else if p[0] == '\\' then
      if |p| >= 2 && IsSyntaxChar(p[1]) then
        match LiteralPattern(p[2..])
        case Some(rest) =>
          assert ([p[1]] + rest)[1..] == rest;
          assert p == ['\\', p[1]] + p[2..];
          Some([p[1]] + rest)
        case None => None
      else None
    else if IsSyntaxChar(p[0]) then None
    else
      match LiteralPattern(p[1..])
      case Some(rest) =>
        assert ([p[0]] + rest)[1..] == rest;
        assert p == [p[0]] + p[1..];
        Some([p[0]] + rest)
      case None => None
  }

  /** Escaping adds exactly one character per syntax character. */
  lemma {:induction false} EscapeLength(s: string)
    ensures |EscapeRegExp(s)| == |s| + SyntaxCount(s)
  {
    if s != [] {
      EscapeLength(s[1..]);
    }
  }

  /** SyntaxCount is zero exactly when s holds no syntax character. */
  lemma {:induction false} SyntaxCountZero(s: string)
    ensures SyntaxCount(s) == 0 <==> forall i :: 0 <= i < |s| ==> !IsSyntaxChar(s[i])
  {
    if s != [] {
      SyntaxCountZero(s[1..]);
      assert forall i :: 1 <= i < |s| ==> s[i] == s[1..][i - 1];
    }
  }

  /**
   * Round trip: the escaped pattern is a literal pattern, and removing the
   * inserted backslashes gives back the original key.
   */
  lemma {:induction false} EscapeRoundTrip(s: string)
    ensures LiteralPattern(EscapeRegExp(s)) == Some(s)
  {
    if s != [] {
      EscapeRoundTrip(s[1..]);
      var e := EscapeRegExp(s);
      if IsSyntaxChar(s[0]) {
        assert e == ['\\', s[0]] + EscapeRegExp(s[1..]);
        assert e[2..] == EscapeRegExp(s[1..]);
      } else {
        assert e == [s[0]] + EscapeRegExp(s[1..]);
        assert e[0] == s[0] && e[1..] == EscapeRegExp(s[1..]);
      }
      assert s == [s[0]] + s[1..];
    }
  }

  /** Escaping changes nothing exactly when the key has no syntax character. */
  lemma EscapeUnchangedIff(s: string)
    ensures EscapeRegExp(s) == s <==> forall i :: 0 <= i < |s| ==> !IsSyntaxChar(s[i])
  {
    EscapeLength(s);
    SyntaxCountZero(s);
    if forall i :: 0 <= i < |s| ==> !IsSyntaxChar(s[i]) {
      EscapeIdentity(s);
    }
  }

  lemma {:induction false} EscapeIdentity(s: string)
    requires forall i :: 0 <= i < |s| ==> !IsSyntaxChar(s[i])
    ensures EscapeRegExp(s) == s
  {
    if s != [] {
      assert !IsSyntaxChar(s[0]);
      EscapeIdentity(s[1..]);
    }
  }
}
