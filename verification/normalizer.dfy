/**
 * cleanText (script.js:126-134): the rules are applied one after another, in
 * rule order, each to the text the previous one produced.
 */
module Normalizer {
  import opened Wrappers
  import opened Escape
  import opened Replace
  import opened Rules

  /**
   * The text after applying the rules in order: the last rule's global
   * replacement applied to the text the earlier rules produced.
   */
  function ApplyRules(rules: RuleSet, s: string): string
    decreases |rules|
  {
    if rules == [] then s
    else
      var n := |rules| - 1;
      ReplaceAll(ApplyRules(rules[..n], s), rules[n].0, rules[n].1)
  }

  /**
   * The loop of cleanText. Each key is escaped into a pattern; the pattern is
   * read back as the literal text it matches, and every match in the current
   * text is replaced.
   */
  method CleanText(rules: RuleSet, text: string) returns (cleaned: string)
    ensures cleaned == ApplyRules(rules, text)
    ensures rules == [] ==> cleaned == text
  {
    cleaned := text;
    for i := 0 to |rules|
      invariant cleaned == ApplyRules(rules[..i], text)
    {
      var (from, to) := rules[i];
      EscapeRoundTrip(from);
      var pattern := EscapeRegExp(from);
      var literal := LiteralPattern(pattern).value;
      cleaned := ReplaceAll(cleaned, literal, to);
      assert rules[..i + 1][..i] == rules[..i];
    }
    assert rules[..|rules|] == rules;
  }

  /** Applying a + b is applying a, then b to the result. */
  lemma {:induction false} ApplyRulesAppend(a: RuleSet, b: RuleSet, s: string)
    ensures ApplyRules(a + b, s) == ApplyRules(b, ApplyRules(a, s))
    decreases |b|
  {
    if b == [] {
      assert a + b == a;
    } else {
      var n := |b| - 1;
      ApplyRulesAppend(a, b[..n], s);
      assert (a + b)[..|a + b| - 1] == a + b[..n];
      assert (a + b)[|a + b| - 1] == b[n];
    }
  }

  /** Left fold in rule order: the first rule is applied first, the rest to its result. */
  lemma ApplyRulesFirst(r: Rule, rest: RuleSet, s: string)
    ensures ApplyRules([r] + rest, s) == ApplyRules(rest, ReplaceAll(s, r.0, r.1))
  {
    ApplyRulesAppend([r], rest, s);
    assert [r][..0] == [];
  }

  /** When no key occurs in the text, cleaning returns it unchanged. */
  lemma {:induction false} NoMatchIdentity(rules: RuleSet, s: string)
    requires forall i :: 0 <= i < |rules| ==> !Occurs(s, rules[i].0)
    ensures ApplyRules(rules, s) == s
    decreases |rules|
  {
    if rules != [] {
      var n := |rules| - 1;
      NoMatchIdentity(rules[..n], s);
      ReplaceAllNoOccurrence(s, rules[n].0, rules[n].1);
    }
  }

  /** The target of the first rule whose key is the character c; c itself if there is none. */
  function Lookup(rules: RuleSet, c: char): string {
    if rules == [] then [c]
    else if rules[0].0 == [c] then rules[0].1
    else Lookup(rules[1..], c)
  }

  /** Single-pass cleaning: every character mapped independently through Lookup. */
  function Translate(rules: RuleSet, s: string): string {
    if s == [] then [] else Lookup(rules, s[0]) + Translate(rules, s[1..])
  }

  predicate IsKey(rules: RuleSet, c: char) {
    exists i :: 0 <= i < |rules| && rules[i].0 == [c]
  }

  /** Lookup gives c back for a non-key, and some rule's target for a key. */
  lemma {:induction false} LookupCases(rules: RuleSet, c: char)
    ensures !IsKey(rules, c) ==> Lookup(rules, c) == [c]
    ensures IsKey(rules, c) ==> exists j :: 0 <= j < |rules| && rules[j].0 == [c] && Lookup(rules, c) == rules[j].1
  {
    if rules != [] {
      LookupCases(rules[1..], c);
      if rules[0].0 != [c] {
        if IsKey(rules, c) {
          var i :| 0 <= i < |rules| && rules[i].0 == [c];
          assert rules[1..][i - 1] == rules[i];
          var j :| 0 <= j < |rules[1..]| && rules[1..][j].0 == [c] && Lookup(rules[1..], c) == rules[1..][j].1;
          assert rules[j + 1] == rules[1..][j];
        } else {
          assert forall i :: 0 <= i < |rules[1..]| ==> rules[1..][i] == rules[i + 1];
        }
      }
    }
  }

  /** Adding a rule at the end changes the lookup only of characters no earlier rule has. */
  lemma {:induction false} LookupSnoc(rules: RuleSet, r: Rule, c: char)
    ensures Lookup(rules + [r], c) ==
      if IsKey(rules, c) then Lookup(rules, c) else if r.0 == [c] then r.1 else [c]
  {
    if rules == [] {
      assert rules + [r] == [r];
      assert [r][1..] == [];
    } else {
      assert (rules + [r])[1..] == rules[1..] + [r];
      LookupSnoc(rules[1..], r, c);
      if rules[0].0 != [c] {
        if IsKey(rules, c) {
          var i :| 0 <= i < |rules| && rules[i].0 == [c];
          assert rules[1..][i - 1] == rules[i];
        } else {
          assert forall i :: 0 <= i < |rules[1..]| ==> rules[1..][i] == rules[i + 1];
        }
      }
    }
  }

  lemma SubstLookup(rules: RuleSet, r: Rule, c: char)
    requires |r.0| == 1 && NoDollar(r.1)
    requires forall j :: 0 <= j < |rules| ==> r.0[0] !in rules[j].1
    ensures Subst(Lookup(rules, c), r.0[0], r.1) == Lookup(rules + [r], c)
  {
    LookupCases(rules, c);
    LookupSnoc(rules, r, c);
    if IsKey(rules, c) {
      var j :| 0 <= j < |rules| && rules[j].0 == [c] && Lookup(rules, c) == rules[j].1;
      SubstAbsent(rules[j].1, r.0[0], r.1);
    } else {
      assert [c][1..] == [];
      assert r.0 == [r.0[0]];
    }
  }

  lemma {:induction false} SubstTranslate(rules: RuleSet, r: Rule, s: string)
    requires |r.0| == 1 && NoDollar(r.1)
    requires forall j :: 0 <= j < |rules| ==> r.0[0] !in rules[j].1
    ensures Subst(Translate(rules, s), r.0[0], r.1) == Translate(rules + [r], s)
  {
    if s != [] {
      SubstTranslate(rules, r, s[1..]);
      SubstAppend(Lookup(rules, s[0]), Translate(rules, s[1..]), r.0[0], r.1);
      SubstLookup(rules, r, s[0]);
    }
  }

  /**
   * Without cascades, applying the rules one after another equals one pass
   * that maps each character through its rule independently.
   */
  lemma {:induction false} SinglePass(rules: RuleSet, s: string)
    requires NoCascade(rules) && PlainTargets(rules)
    ensures ApplyRules(rules, s) == Translate(rules, s)
    decreases |rules|
  {
    if rules == [] {
      TranslateIdentity(rules, s);
    } else {
      var n := |rules| - 1;
      var p, r := rules[..n], rules[n];
      assert NoCascade(p) && PlainTargets(p);
      SinglePass(p, s);
      assert |r.0| == 1;
      assert r.0 == [r.0[0]];
      ReplaceAllSingleChar(Translate(p, s), r.0[0], r.1);
      SubstTranslate(p, r, s);
      assert p + [r] == rules;
    }
  }

  /** Text without key characters is its own single-pass translation. */
  lemma {:induction false} TranslateIdentity(rules: RuleSet, s: string)
    requires forall k :: 0 <= k < |s| ==> !IsKey(rules, s[k])
    ensures Translate(rules, s) == s
  {
    if s != [] {
      LookupCases(rules, s[0]);
      TranslateIdentity(rules, s[1..]);
      assert s == [s[0]] + s[1..];
    }
  }

  lemma {:induction false} TranslateAppend(rules: RuleSet, a: string, b: string)
    ensures Translate(rules, a + b) == Translate(rules, a) + Translate(rules, b)
  {
    if a == [] {
      assert a + b == b;
    } else {
      TranslateAppend(rules, a[1..], b);
      assert (a + b)[0] == a[0] && (a + b)[1..] == a[1..] + b;
    }
  }

  /** When no target holds a key character, no key character survives a single pass. */
  lemma {:induction false} TranslateAvoidsKeys(rules: RuleSet, s: string, i: nat)
    requires TargetsAvoidKeys(rules) && i < |rules|
    ensures rules[i].0[0] !in Translate(rules, s)
  {
    if s != [] {
      TranslateAvoidsKeys(rules, s[1..], i);
      LookupCases(rules, s[0]);
      if !IsKey(rules, s[0]) {
        assert rules[i].0 == [rules[i].0[0]];
      }
    }
  }

  /**
   * With one-character keys, no target holding a key character and no `$`
   * in any target, the cleaned text holds no key character.
   */
  lemma NoKeysLeft(rules: RuleSet, s: string)
    requires TargetsAvoidKeys(rules) && PlainTargets(rules)
    ensures forall i :: 0 <= i < |rules| ==> rules[i].0[0] !in ApplyRules(rules, s)
  {
    SinglePass(rules, s);
    forall i | 0 <= i < |rules|
      ensures rules[i].0[0] !in ApplyRules(rules, s)
    {
      TranslateAvoidsKeys(rules, s, i);
    }
  }

  /** Cleaning twice equals cleaning once, under the conditions of `NoKeysLeft`. */
  lemma Idempotent(rules: RuleSet, s: string)
    requires TargetsAvoidKeys(rules) && PlainTargets(rules)
    ensures ApplyRules(rules, ApplyRules(rules, s)) == ApplyRules(rules, s)
  {
    var once := ApplyRules(rules, s);
    NoKeysLeft(rules, s);
    forall i | 0 <= i < |rules|
      ensures !Occurs(once, rules[i].0)
    {
      assert rules[i].0 == [rules[i].0[0]];
      OccursSingleChar(once, rules[i].0[0]);
    }
    NoMatchIdentity(rules, once);
  }

  /**
   * With keys longer than one character, "no target contains a key" does not
   * make cleaning idempotent: a replacement can complete a key with its
   * neighbour.
   */
  lemma MultiCharKeysNotIdempotent()
    ensures var rules := [("aa", "b"), ("c", "a")];
      ApplyRules(rules, "ac") == "aa" && ApplyRules(rules, "aa") == "b"
  {
  }

  /** The built-in table cleans in a single pass, character by character. */
  lemma DefaultSinglePass(s: string)
    ensures ApplyRules(DefaultRules, s) == Translate(DefaultRules, s)
  {
    DefaultRulesShape();
    AsciiTableAvoidsKeys(DefaultRules);
    SinglePass(DefaultRules, s);
  }

  /** With the built-in table the output holds none of its keys, and cleaning is idempotent. */
  lemma DefaultClean(s: string)
    ensures forall i :: 0 <= i < |DefaultRules| ==> DefaultRules[i].0[0] !in ApplyRules(DefaultRules, s)
    ensures ApplyRules(DefaultRules, ApplyRules(DefaultRules, s)) == ApplyRules(DefaultRules, s)
  {
    DefaultRulesShape();
    AsciiTableAvoidsKeys(DefaultRules);
    NoKeysLeft(DefaultRules, s);
    Idempotent(DefaultRules, s);
  }

  /** ASCII text is left as it is by the built-in table. */
  lemma DefaultKeepsAscii(s: string)
    requires forall k :: 0 <= k < |s| ==> IsAscii(s[k])
    ensures ApplyRules(DefaultRules, s) == s
  {
    DefaultRulesShape();
    DefaultSinglePass(s);
    AsciiTranslate(DefaultRules, s);
  }

  /** ASCII text is its own single-pass translation under an ASCII table. */
  lemma AsciiTranslate(rules: RuleSet, s: string)
    requires AsciiTable(rules)
    requires forall k :: 0 <= k < |s| ==> IsAscii(s[k])
    ensures Translate(rules, s) == s
  {
    assert forall k :: 0 <= k < |s| ==> !IsKey(rules, s[k]);
    TranslateIdentity(rules, s);
  }

  lemma {:induction false} LookupFirst(rules: RuleSet, c: char, j: nat)
    requires j < |rules| && rules[j].0 == [c]
    requires forall i :: 0 <= i < j ==> rules[i].0 != [c]
    ensures Lookup(rules, c) == rules[j].1
  {
    if j > 0 {
      LookupFirst(rules[1..], c, j - 1);
    }
  }

  /** The rules an ASCII table starting like the built-in one applies to the example sentence. */
  predicate StartsLikeDefault(rules: RuleSet) {
    AsciiTable(rules) && |rules| >= 4 &&
    rules[0] == ("\U{2014}", "... ") && rules[1].0 == "\U{2013}" &&
    rules[2] == ("\U{201C}", "\"") && rules[3] == ("\U{201D}", "\"")
  }

  lemma ExamplePieces(rules: RuleSet)
    requires StartsLikeDefault(rules)
    ensures Translate(rules, "It's a ") == "It's a " && Translate(rules, "great") == "great"
    ensures Translate(rules, " day") == " day" && Translate(rules, "truly.") == "truly."
    ensures Translate(rules, ['\U{2014}']) == "... "
    ensures Translate(rules, ['\U{201C}']) == "\"" && Translate(rules, ['\U{201D}']) == "\""
  {
    AsciiTranslate(rules, "It's a ");
    AsciiTranslate(rules, "great");
    AsciiTranslate(rules, " day");
    AsciiTranslate(rules, "truly.");
    LookupFirst(rules, '\U{2014}', 0);
    LookupFirst(rules, '\U{201C}', 2);
    LookupFirst(rules, '\U{201D}', 3);
  }

  /**
   * The example sentence under any ASCII table that begins like the
   * built-in one: em dash, en dash, then the two double quotation marks.
   */
  lemma ExampleTranslation(rules: RuleSet, s: string)
    requires StartsLikeDefault(rules)
    requires s == "It's a \U{201C}great\U{201D} day\U{2014}truly."
    ensures Translate(rules, s) == "It's a \"great\" day... truly."
  {
    TranslateSplit(rules, s, "It's a ", "great", " day", "truly.", '\U{201C}', '\U{201D}', '\U{2014}');
    ExamplePieces(rules);
    ExampleAssembly(Translate(rules, s));
  }

  lemma ExampleAssembly(x: string)
    requires x == "It's a " + "\"" + "great" + "\"" + " day" + "... " + "truly."
    ensures x == "It's a \"great\" day... truly."
  {
  }

  /** The first four entries of the built-in table. */
  lemma DefaultStart()
    ensures StartsLikeDefault(DefaultRules)
  {
    DefaultRulesShape();
  }

  lemma TranslateSplit(rules: RuleSet, s: string, a: string, b: string, c: string, d: string,
                       x: char, y: char, z: char)
    requires s == a + [x] + b + [y] + c + [z] + d
    ensures Translate(rules, s) == Translate(rules, a) + Translate(rules, [x]) + Translate(rules, b)
      + Translate(rules, [y]) + Translate(rules, c) + Translate(rules, [z]) + Translate(rules, d)
  {
    TranslateAppend(rules, a + [x] + b + [y] + c + [z], d);
    TranslateAppend(rules, a + [x] + b + [y] + c, [z]);
    TranslateAppend(rules, a + [x] + b + [y], c);
    TranslateAppend(rules, a + [x] + b, [y]);
    TranslateAppend(rules, a + [x], b);
    TranslateAppend(rules, a, [x]);
  }

  /** `It's a “great” day—truly.` becomes `It's a "great" day... truly.` */
  lemma DefaultExample(s: string)
    requires s == "It's a \U{201C}great\U{201D} day\U{2014}truly."
    ensures ApplyRules(DefaultRules, s) == "It's a \"great\" day... truly."
  {
    DefaultStart();
    DefaultSinglePass(s);
    ExampleTranslation(DefaultRules, s);
  }
}
