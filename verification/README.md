# ai-cleaner text normaliser, modelled in Dafny

ai-cleaner is a browser page that rewrites typographic and mathematical
characters (em dashes, curly quotes, arrows, Greek letters, comparison and
set symbols, ...) into plain ASCII. A rule set maps each key to its
replacement. `cleanText` applies the rules one after another: each rule
globally replaces its key, matched literally through an escaped regular
expression, in the text the previous rule produced. The `TextCleaner`
object holds the current rule set. Loading, editing and resetting the rules
replace the set wholesale. The output box shows nothing for blank input
and the cleaned input otherwise.

Modules:

- `Escape` (escape.dfy): `escapeRegExp` and the literal patterns it produces.
- `Replace` (replace.dfy): `String.prototype.replace` with a global, literal
  pattern. This covers the left-to-right non-overlapping scan, the empty key,
  and the `$$`, `$&`, `` $` ``, `$'` replacement templates.
- `Rules` (rules.dfy): rule sets and the 43-entry built-in table.
- `Normalizer` (normalizer.dfy): `cleanText` as a loop method, proved
  against the fold `ApplyRules`. Also single-pass equivalence, idempotence
  and the worked example.
- `Cleaner` (cleaner.dfy): `trim`, the output decision, and the
  `TextCleaner` class with its `rules` and `output` state.

Facts about the code that the model keeps:

- The comment at script.js:3 speaks of a regular dash, but the code maps the
  em dash to `"... "`.
- Rule order matters: later rules re-process the targets of earlier ones.
- Cleaning is idempotent when every key is one character, no target
  contains a key character and no target contains `$`
  (`Normalizer.Idempotent`); a `$` in a target is a replacement pattern, so
  `("a", "$'")` re-inserts the text after each match and `aa` becomes `a`. That condition is not
  enough with two-character keys, because a replacement can complete a key
  together with its neighbour (`Normalizer.MultiCharKeysNotIdempotent`).

## Model

| member | source | states |
|---|---|---|
| `Escape.EscapeRegExp` | script.js:137-139 | the key with a backslash put in front of each of the characters `.*+?^${}()\|[]\`; at most twice as long as the key |
| `Escape.LiteralPattern` | script.js:131 | the text matched by a pattern made of plain characters and backslash-escaped syntax characters; None for any other pattern; every pattern it accepts is the escaped form of the text it reads, which is no longer than the pattern |
| `Escape.EscapeLength` | script.js:137-139 | the escaped key is longer by exactly the number of syntax characters `.*+?^${}()\|[]\` it contains |
| `Escape.EscapeRoundTrip` | script.js:137-139 | the escaped key is a purely literal pattern, and dropping the inserted backslashes gives back the key |
| `Escape.EscapeUnchangedIff` | script.js:137-139 | escaping leaves a key unchanged if and only if it contains no syntax character |
| `Replace.Expand` | script.js:131 | the replacement text for one match: `$$` gives `$`, `$&` the match, `` $` `` the text before it, `$'` the text after it; any other `$` is kept |
| `Replace.ReplaceAll` | script.js:131 | the text with every match of the key replaced, scanning left to right and resuming after each match; an empty key matches before every character and at the end |
| `Replace.ExpandNoDollar` | script.js:131 | a replacement text with no `$` is inserted as it stands |
| `Replace.ReplaceAllLiteral` | script.js:131 | with a `$`-free target, the global replace equals the plain left-to-right scan that inserts the target |
| `Replace.ReplaceAllNoOccurrence` | script.js:131 | a key that does not occur leaves the text unchanged, whatever the target |
| `Replace.ReplaceAllMatchTemplate` | script.js:131 | the template `$&` re-inserts every match, so the text is unchanged |
| `Replace.ReplaceAllSingleChar` | script.js:131 | with a `$`-free target, a one-character key is replaced at each of its positions; every other character is kept, in order |
| `Replace.SubstRemoves` | script.js:131 | after replacing a character by a `$`-free target that lacks it (the per-character map `Subst`, which is the global replace by `ReplaceAllSingleChar`), the character no longer occurs |
| `Replace.OccursSingleChar` | script.js:131 | a one-character key occurs exactly when its character is in the text |
| `Rules.DefaultRules` | script.js:2-46 | the 43 (key, target) pairs of the built-in table, in the order of the object literal |
| `Rules.DefaultRulesShape` | script.js:2-46 | the built-in table has 43 rules; each key is one non-ASCII character of the Basic Multilingual Plane; no two keys are equal; each target is ASCII with no `$` |
| `Rules.AsciiTableAvoidsKeys` | script.js:2-46 | in such a table no target contains any key, so no rule cascades into another |
| `Normalizer.ApplyRules` | script.js:127-133 | the text after each rule's global replacement has been applied, in rule order, to the previous rule's output |
| `Normalizer.CleanText` | script.js:126-134 | the loop returns the fold `ApplyRules` of the rules over the text; with no rules it returns the text |
| `Normalizer.ApplyRulesAppend` | script.js:127-133 | applying `a + b` is applying `a`, then `b` to the result |
| `Normalizer.ApplyRulesFirst` | script.js:130-133 | the first rule is applied first, and the rest see its output |
| `Normalizer.NoMatchIdentity` | script.js:130-131 | if no key occurs in the text, cleaning returns it unchanged |
| `Normalizer.SinglePass` | script.js:130-131 | with one-character keys, `$`-free targets and no later key in an earlier target, cleaning equals mapping each character through its first rule |
| `Normalizer.NoKeysLeft` | script.js:130-131 | when every key is one character, no target contains a key character and no target contains `$`, the output contains no key character |
| `Normalizer.Idempotent` | script.js:126-134 | when every key is one character, no target contains a key character and no target contains `$`, cleaning twice equals cleaning once |
| `Normalizer.MultiCharKeysNotIdempotent` | script.js:126-134 | with two-character keys that condition is not enough: `[("aa","b"),("c","a")]` takes `ac` to `aa`, then to `b` |
| `Normalizer.DefaultSinglePass` | script.js:2-46 | with the built-in table, cleaning maps each character independently: a key goes to its target, any other character is kept |
| `Normalizer.DefaultClean` | script.js:2-46 | with the built-in table the output contains none of its keys, and cleaning is idempotent |
| `Normalizer.DefaultKeepsAscii` | script.js:2-46 | the built-in table leaves ASCII text unchanged |
| `Normalizer.DefaultExample` | script.js:3-6 | `It's a “great” day—truly.` becomes `It's a "great" day... truly.` |
| `Cleaner.TrimStart` | script.js:117 | the result is a suffix of the input; all removed characters are white space; the result does not start with white space |
| `Cleaner.TrimEnd` | script.js:117 | the result is a prefix of the input; all removed characters are white space; the result does not end with white space |
| `Cleaner.Trim` | script.js:117 | the input without its leading and trailing white space and line terminators: a slice `s[a..b]` of the input with only white space before `a` and after `b`; the result neither starts nor ends with white space |
| `Cleaner.TrimEmptyIff` | script.js:117 | the input trims to `''` if and only if every character is white space or a line terminator |
| `Cleaner.Output` | script.js:117-122 | white-space-only or empty input gives `''`; any other input gives the cleaned input, not the trimmed one |
| `Cleaner.TextCleaner.constructor` | script.js:49-58 | starts from the defaults, then loads: nothing saved or unparsable keeps the defaults, saved rules replace them; the output matches the input |
| `Cleaner.TextCleaner.LoadRules` | script.js:60-75 | saved rules replace the set; unparsable ones restore the defaults; with nothing saved the set is unchanged |
| `Cleaner.TextCleaner.UpdateOutput` | script.js:112-124 | the output becomes `Output(rules, input)`; the rules are unchanged |
| `Cleaner.TextCleaner.UpdateRulesFromInput` | script.js:141-160 | blank editor text changes nothing; a parsed object becomes exactly the new rule set and the output is refreshed; anything else is an error and changes nothing |
| `Cleaner.TextCleaner.ResetRules` | script.js:175-183 | the rules become exactly the defaults, the output is refreshed, and success is reported |

## Left out

- Page elements, event listeners, success and error classes, and their `setTimeout` removal (script.js:77-110, 206-224). These are user interface. The model returns the feedback kind instead.
- `saveRules` and `updateRulesDisplay` (script.js:162-173). These are storage and `JSON.stringify` output.
- `JSON.parse` and `localStorage.getItem`. Their outcome is a parameter (`Saved`, `Parsed`), and a parsed object arrives as its `Object.entries` list.
- `loadRules` does not check that the stored value is an object. A stored `null` would make `cleanText` throw. The model takes the stored value's entries.
- `validateJSON` (script.js:185-204). It only marks the editor and changes no state.
- `copyToClipboard` (script.js:226-261). This is asynchronous browser I/O.
- `debounce` (script.js:263-273). This is timer scheduling.
- Conversion of non-string JSON values to strings. Rule targets are strings in the model. `replace` turns most values into text (a number becomes its decimal text). An object whose `toString` and `valueOf` are unusable makes it throw, and `updateRulesFromInput` then reports an error after it has already replaced and saved the rules (script.js:150-152, 157-158); the model's error branch keeps the rules, so it does not capture this case.
- JavaScript object key order, where integer-like keys come first. The rule order is the explicit sequence.
- UTF-16. Text is a sequence of Unicode scalar values, so lone surrogates cannot be written. For an empty key, JavaScript also inserts the target between the two halves of a surrogate pair, and the model does not.
- Regular expressions beyond literal patterns. `Escape.LiteralPattern` reads only the patterns `escapeRegExp` produces: plain characters and backslash-escaped syntax characters.
- The AI-likelihood score. No scoring code is present in `script.js`.
