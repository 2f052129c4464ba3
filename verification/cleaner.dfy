/**
 * The TextCleaner object (script.js:48-274) reduced to its state and logic:
 * the rule set it holds, the text it shows in the output box, the choice
 * between an empty output and the cleaned input (updateOutput), and the three
 * ways the rule set is replaced (loadRules, updateRulesFromInput,
 * resetRules). Page elements, storage and JSON parsing are outside the model:
 * the current input text and the outcome of parsing are parameters.
 */
module Cleaner {
  import opened Rules
  import opened Normalizer

  /** White space and line terminators, the characters String.prototype.trim removes. */
  predicate IsJsWhitespace(c: char) {
    c in {'\t', '\n', '\U{000B}', '\U{000C}', '\r', ' ', '\U{00A0}', '\U{1680}',
          '\U{2028}', '\U{2029}', '\U{202F}', '\U{205F}', '\U{3000}', '\U{FEFF}'}
    || ('\U{2000}' <= c <= '\U{200A}')
  }

  predicate AllWhitespace(s: string) {
    forall i :: 0 <= i < |s| ==> IsJsWhitespace(s[i])
  }

  /** s without its leading white space. */
  function TrimStart(s: string): (r: string)
    ensures |r| <= |s| && r == s[|s| - |r|..]
    ensures AllWhitespace(s[..|s| - |r|])
    ensures r == [] || !IsJsWhitespace(r[0])
  {
    if s != [] && IsJsWhitespace(s[0]) then
      var r := TrimStart(s[1..]);
      assert s[..|s| - |r|] == [s[0]] + s[1..][..|s| - 1 - |r|];
      r
    else s
  }

  /** s without its trailing white space. */
  function TrimEnd(s: string): (r: string)
    ensures |r| <= |s| && r == s[..|r|]
    ensures AllWhitespace(s[|r|..])
    ensures r == [] || !IsJsWhitespace(r[|r| - 1])
  {
    if s != [] && IsJsWhitespace(s[|s| - 1]) then
      var r := TrimEnd(s[..|s| - 1]);
      assert s[|r|..] == s[..|s| - 1][|r|..] + [s[|s| - 1]];
      r
    else s
  }

  /** String.prototype.trim. */
  function Trim(s: string): (r: string)
    ensures |r| <= |s|
    ensures r == [] || (!IsJsWhitespace(r[0]) && !IsJsWhitespace(r[|r| - 1]))
    ensures exists a, b :: 0 <= a <= b <= |s| && r == s[a..b] && AllWhitespace(s[..a]) && AllWhitespace(s[b..])
  {
    var t := TrimStart(s);
    var r := TrimEnd(t);
    var a := |s| - |t|;
    assert r == s[a..a + |r|];
    assert s[a + |r|..] == t[|r|..];
    r
  }

  /** A string trims to nothing exactly when it is all white space. */
  lemma TrimEmptyIff(s: string)
    ensures Trim(s) == [] <==> AllWhitespace(s)
  {
  }

  /**
   * What updateOutput writes to the output box: nothing for input that is
   * empty or white space only, the cleaned input otherwise.
   */
  function Output(rules: RuleSet, input: string): (r: string)
    ensures AllWhitespace(input) ==> r == []
    ensures !AllWhitespace(input) ==> r == ApplyRules(rules, input)
  {
    TrimEmptyIff(input);
    if Trim(input) == [] then [] else ApplyRules(rules, input)
  }

  /** The value localStorage holds for the rules, as loadRules sees it. */
  datatype Saved =
    | NothingSaved           // no entry, or an empty one
    | Unparsable             // JSON.parse throws
    | SavedRules(entries: RuleSet)

  /**
   * The outcome of JSON.parse on the trimmed text of the rules editor, as the
   * `typeof ... === 'object'` test sees it. An array passes that test, so it
   * arrives as AnObject with the keys "0", "1", ... of Object.entries.
   */
  datatype Parsed =
    | SyntaxError
    | NotAnObject            // a number, string, boolean or null
    | AnObject(entries: RuleSet)  // a JSON object or array

  /** The success or error mark the editor shows after an action. */
  datatype Feedback = NoFeedback | Success | Error

  class TextCleaner {
    var rules: RuleSet
    var output: string

    /** constructor and init: a copy of the defaults, then the saved rules, then the output. */
    constructor (saved: Saved, input: string)
      ensures rules == (match saved
                        case NothingSaved => DefaultRules
                        case Unparsable => DefaultRules
                        case SavedRules(entries) => entries)
      ensures output == Output(rules, input)
    {
      rules := DefaultRules;
      output := [];
      new;
      LoadRules(saved);
      UpdateOutput(input);
    }

    /** Saved rules replace the current ones; unparsable ones restore the defaults. */
    method LoadRules(saved: Saved)
      modifies this`rules
      ensures rules == (match saved
                        case NothingSaved => old(rules)
                        case Unparsable => DefaultRules
                        case SavedRules(entries) => entries)
    {
      match saved {
        case NothingSaved =>
        case Unparsable => rules := DefaultRules;
        case SavedRules(entries) => rules := entries;
      }
    }

    /** The output box shows nothing for blank input and the cleaned input otherwise. */
    method UpdateOutput(input: string)
      modifies this`output
      ensures output == Output(rules, input)
    {
      if Trim(input) == [] {
        output := [];
        return;
      }
      var cleaned := CleanText(rules, input);
      output := cleaned;
    }

    /**
     * An edit of the rules editor: blank text is ignored; an object replaces
     * the rule set wholesale and refreshes the output; anything else is an
     * error and leaves everything as it was.
     */
    method UpdateRulesFromInput(json: string, parsed: Parsed, input: string) returns (feedback: Feedback)
      modifies this
      ensures Trim(json) == [] ==>
        feedback == NoFeedback && rules == old(rules) && output == old(output)
      ensures Trim(json) != [] && parsed.AnObject? ==>
        feedback == Success && rules == parsed.entries && output == Output(rules, input)
      ensures Trim(json) != [] && !parsed.AnObject? ==>
        feedback == Error && rules == old(rules) && output == old(output)
    {
      if Trim(json) == [] {
        return NoFeedback;
      }
      match parsed {
        case AnObject(entries) =>
          rules := entries;
          UpdateOutput(input);
          feedback := Success;
        case _ =>
          feedback := Error;
      }
    }

    /** The defaults come back, whatever the rules were, and the output is refreshed. */
    method ResetRules(input: string) returns (feedback: Feedback)
      modifies this
      ensures rules == DefaultRules && output == Output(DefaultRules, input)
      ensures feedback == Success
    {
      rules := DefaultRules;
      UpdateOutput(input);
      feedback := Success;
    }
  }
}
