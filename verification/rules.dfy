/**
 * Rule sets and the built-in table `defaultRules` (script.js:2-46).
 *
 * A rule set is the list of `Object.entries(this.rules)`: (key, target)
 * pairs in the order they are applied.
 */
module Rules {
  import opened Replace

  type Rule = (string, string)
  type RuleSet = seq<Rule>

  /** The 43 built-in rules, in the order of the object literal. */
  const DefaultRules: RuleSet := [
    ("\U{2014}", "... "),        // em dash
    ("\U{2013}", "-"),           // en dash
    ("\U{201C}", "\""),          // left double quotation mark
    ("\U{201D}", "\""),          // right double quotation mark
    ("\U{2018}", "'"),           // left single quotation mark
    ("\U{2019}", "'"),           // right single quotation mark
    ("\U{2026}", "..."),         // horizontal ellipsis
    ("\U{2022}", "-"),           // bullet
    ("\U{2192}", "->"),          // rightwards arrow
    ("\U{2190}", "<-"),          // leftwards arrow
    ("\U{21D2}", "=>"),          // rightwards double arrow
    ("\U{21D0}", "<="),          // leftwards double arrow
    ("\U{00B1}", "+/-"),         // plus-minus sign
    ("\U{00D7}", "x"),           // multiplication sign
    ("\U{00F7}", "/"),           // division sign
    ("\U{00B0}", " degrees"),    // degree sign
    ("\U{00A9}", "(c)"),         // copyright sign
    ("\U{00AE}", "(R)"),         // registered sign
    ("\U{2122}", "(TM)"),        // trade mark sign
    ("\U{00A5}", "JPY"),         // yen sign
    ("\U{00A2}", "cents"),       // cent sign
    ("\U{221E}", "infinity"),    // infinity
    ("\U{221A}", "sqrt"),        // square root
    ("\U{00B2}", "^2"),          // superscript two
    ("\U{00B3}", "^3"),          // superscript three
    ("\U{00BC}", "1/4"),         // vulgar fraction one quarter
    ("\U{00BD}", "1/2"),         // vulgar fraction one half
    ("\U{00BE}", "3/4"),         // vulgar fraction three quarters
    ("\U{03B1}", "alpha"),       // Greek small letter alpha
    ("\U{03B2}", "beta"),        // Greek small letter beta
    ("\U{03B3}", "gamma"),       // Greek small letter gamma
    ("\U{03C0}", "pi"),          // Greek small letter pi
    ("\U{03BC}", "mu"),          // Greek small letter mu
    ("\U{03C3}", "sigma"),       // Greek small letter sigma
    ("\U{2264}", "<="),          // less-than or equal to
    ("\U{2265}", ">="),          // greater-than or equal to
    ("\U{2260}", "!="),          // not equal to
    ("\U{2248}", "~"),           // almost equal to
    ("\U{2261}", "=="),          // identical to
    ("\U{2282}", "subset"),      // subset of
    ("\U{2283}", "superset"),    // superset of
    ("\U{222A}", "union"),       // union
    ("\U{2229}", "intersection") // intersection
  ]

  predicate IsAscii(c: char) {
    c as int < 0x80
  }

  /** Every key is one character. */
  predicate SingleCharKeys(rules: RuleSet) {
    forall i :: 0 <= i < |rules| ==> |rules[i].0| == 1
  }

  /** No target contains a `$`, so every target is inserted as plain text. */
  predicate PlainTargets(rules: RuleSet) {
    forall i :: 0 <= i < |rules| ==> NoDollar(rules[i].1)
  }

  /**
   * Single-character keys, and no target contains the key character of a
   * LATER rule: no replacement is ever re-processed by a later rule.
   */
  predicate NoCascade(rules: RuleSet) {
    SingleCharKeys(rules) &&
    forall i, j :: 0 <= j < i < |rules| ==> rules[i].0[0] !in rules[j].1
  }

  /** Single-character keys, and no target contains any key character. */
  predicate TargetsAvoidKeys(rules: RuleSet) {
    SingleCharKeys(rules) &&
    forall i, j :: 0 <= i < |rules| && 0 <= j < |rules| ==> rules[i].0[0] !in rules[j].1
  }

  /** Every key is one non-ASCII character; every target is ASCII text without `$`. */
  predicate AsciiTable(rules: RuleSet) {
    SingleCharKeys(rules) &&
    (forall i :: 0 <= i < |rules| ==> !IsAscii(rules[i].0[0])) &&
    (forall i, k :: 0 <= i < |rules| && 0 <= k < |rules[i].1| ==> IsAscii(rules[i].1[k])) &&
    PlainTargets(rules)
  }

  /** An ASCII table cannot cascade: ASCII targets never contain a non-ASCII key. */
  lemma AsciiTableAvoidsKeys(rules: RuleSet)
    requires AsciiTable(rules)
    ensures TargetsAvoidKeys(rules) && NoCascade(rules)
  {
  }

  /**
   * The built-in table has 43 rules, all of the ASCII-table shape; each key
   * is a single character of the Basic Multilingual Plane (one UTF-16 code
   * unit), and no two rules share a key.
   */
  lemma DefaultRulesShape()
    ensures |DefaultRules| == 43
    ensures AsciiTable(DefaultRules)
    ensures forall i :: 0 <= i < |DefaultRules| ==> DefaultRules[i].0[0] as int < 0x10000
    ensures forall i, j :: 0 <= i < j < |DefaultRules| ==> DefaultRules[i].0 != DefaultRules[j].0
  {
    DefaultRulesAscii();
    DefaultKeysIndexed();
    forall i, j | 0 <= i < j < |DefaultRules|
      ensures DefaultRules[i].0 != DefaultRules[j].0
    {
    }
  }

  /** Where a character stands among the keys of the built-in table; -1 if it is no key. */
  function DefaultKeyIndex(c: char): int {
    match c
    case '\U{2014}' => 0
    case '\U{2013}' => 1
    case '\U{201C}' => 2
    case '\U{201D}' => 3
    case '\U{2018}' => 4
    case '\U{2019}' => 5
    case '\U{2026}' => 6
    case '\U{2022}' => 7
    case '\U{2192}' => 8
    case '\U{2190}' => 9
    case '\U{21D2}' => 10
    case '\U{21D0}' => 11
    case '\U{00B1}' => 12
    case '\U{00D7}' => 13
    case '\U{00F7}' => 14
    case '\U{00B0}' => 15
    case '\U{00A9}' => 16
    case '\U{00AE}' => 17
    case '\U{2122}' => 18
    case '\U{00A5}' => 19
    case '\U{00A2}' => 20
    case '\U{221E}' => 21
    case '\U{221A}' => 22
    case '\U{00B2}' => 23
    case '\U{00B3}' => 24
    case '\U{00BC}' => 25
    case '\U{00BD}' => 26
    case '\U{00BE}' => 27
    case '\U{03B1}' => 28
    case '\U{03B2}' => 29
    case '\U{03B3}' => 30
    case '\U{03C0}' => 31
    case '\U{03BC}' => 32
    case '\U{03C3}' => 33
    case '\U{2264}' => 34
    case '\U{2265}' => 35
    case '\U{2260}' => 36
    case '\U{2248}' => 37
    case '\U{2261}' => 38
    case '\U{2282}' => 39
    case '\U{2283}' => 40
    case '\U{222A}' => 41
    case '\U{2229}' => 42
    case _ => -1
  }

  /** Each key of the built-in table is found at its own index, so no two keys are equal. */
  lemma DefaultKeysIndexed()
    ensures forall i :: 0 <= i < |DefaultRules| ==> DefaultKeyIndex(DefaultRules[i].0[0]) == i
  {
  }

  /** The shape of every rule of the built-in table. */
  lemma DefaultRulesAscii()
    ensures |DefaultRules| == 43
    ensures AsciiTable(DefaultRules)
    ensures forall i :: 0 <= i < |DefaultRules| ==> DefaultRules[i].0[0] as int < 0x10000
  {
    forall i | 0 <= i < |DefaultRules|
      ensures |DefaultRules[i].0| == 1 && !IsAscii(DefaultRules[i].0[0])
      ensures DefaultRules[i].0[0] as int < 0x10000
      ensures NoDollar(DefaultRules[i].1)
      ensures forall k :: 0 <= k < |DefaultRules[i].1| ==> IsAscii(DefaultRules[i].1[k])
    {
    }
  }
}
