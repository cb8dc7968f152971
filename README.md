# Rule engine model

A Dafny model of the rule engine of the rule-engine application. The engine turns an
eligibility rule such as `(age > 30 AND department = 'Sales')` into a tree of
comparisons joined by `AND`/`OR`. It then evaluates that tree against a record of
field values. The `RuleNode` schema says what a stored tree node must look like.

The model follows the code in `ruleEngine.js` and `RuleNode.js` stage by stage:

- `whitespace.dfy` (module `Whitespace`) is the normalisation in `parseRule`.
  Every run of whitespace becomes one space, then the ends are trimmed. Whitespace
  is the JavaScript `\s` set, which is also the set `trim` removes.
- `lexer.dfy` (module `Lexer`) is `tokenize`, the global scan
  `ruleString.match(regex)`. `MatchLength` tries the alternatives of the pattern
  in order, and `MatchTable` records its result at every position. `Scan` moves
  left to right over that table, skips characters where nothing matches, and
  records each match. `Tokenize` is `None` (JavaScript `null`) when there is
  no match at all.
- `ast.dfy` (module `RuleAst`) holds the tree that `buildAST` returns and quote
  stripping (`value.replace(/'/g, '')`). It also holds `Print`, the fully
  parenthesised token sequence of a tree, which the round-trip lemmas use.
- `parser.dfy` (module `RuleParser`) covers `buildAST`/`parseExpression` and `parseRule`.
  - `ParseAt` is the parse from a cursor position as a function.
  - `Derives` is the grammar the code accepts, written as a relation. It serves
    as the reference definition that `ParseAt` is proved sound and complete against.
  - Class `AstBuilder` is the closure itself: a token list and a mutable `position`
    cursor advanced by the recursive method `ParseExpression`, proved to compute `ParseAt`.
  - A JavaScript exception (indexing a `null` token list, or `undefined.replace`
    when the tokens run out under an operand's value) is `None`.
- `evaluate.dfy` (module `RuleEvaluator`) is `evaluateRule`.
  - Record values are integers or strings in a `map`; a missing key is `undefined`.
  - `Number(...)` is modelled on integer literals, with NaN as `None`.
  - `Trace` lists the comparisons the short-circuiting evaluation visits.
  - Evaluation is a pair of pure functions, so it changes neither the tree nor the record.
- `rule_node.dfy` (module `RuleNodeModel`) is `ruleNodeSchema`.
  - A stored node is a record whose paths may be absent and whose children are ids.
  - `SchemaValid` is the Mongoose validation: `required` on a string path rejects
    a missing value and `''`; `required` on the `Mixed` value path rejects only a
    missing value; `enum` accepts a missing value.
- `wrappers.dfy` holds the `Option` type.

The code reports no errors of its own:

- Characters that match no alternative are dropped, not reported.
- The parser checks no token except the `(` that opens a group. The token after
  a group's right part is skipped without being looked at.
- Tokens left over after the top-level expression are ignored.
- A missing field, a non-numeric value, and an unknown comparator or combinator
  all evaluate to `false` rather than raising an error.
- No depth limit or cycle check exists.

Some behaviour of the code is worth knowing when reading the model:

- On a successful parse the cursor can stop past the end of the token list.
  This happens when the closing `)` tokens are missing, because the final skip of
  each group reads nothing.
- The `\d+` alternative of the token pattern can never match, because `\w+`
  comes before it and covers every digit.

## Model

| member | source | states |
|---|---|---|
| Whitespace.CollapseRuns | rule-engine-app/backend/src/services/ruleEngine.js:3 | `replace(/\s+/g, ' ')`: the result is empty iff the input is, starts with whitespace iff the input does, its only whitespace is `' '`, and no two whitespace characters are adjacent |
| Whitespace.TrimStart | rule-engine-app/backend/src/services/ruleEngine.js:3 | the result is the suffix of the input left after removing every leading whitespace character; it does not start with whitespace |
| Whitespace.TrimEnd | rule-engine-app/backend/src/services/ruleEngine.js:3 | the result is the prefix left after removing every trailing whitespace character; it does not end with whitespace |
| Whitespace.LoneSpacesSlice | rule-engine-app/backend/src/services/ruleEngine.js:3 | any stretch of a string whose whitespace is lone `' '` characters has only lone `' '` characters as whitespace |
| Whitespace.LoneSpacesInsideNormalized | rule-engine-app/backend/src/services/ruleEngine.js:3 | such a string, when it neither starts nor ends with whitespace, has the normalised shape |
| Whitespace.TrimStartKeepsLoneSpaces | rule-engine-app/backend/src/services/ruleEngine.js:3 | removing leading whitespace keeps the whitespace lone `' '` characters |
| Whitespace.TrimEndKeepsLoneSpaces | rule-engine-app/backend/src/services/ruleEngine.js:3 | removing trailing whitespace keeps the whitespace lone `' '` characters |
| Whitespace.TrimmedIsNormalized | rule-engine-app/backend/src/services/ruleEngine.js:3 | trimming a string whose whitespace is lone `' '` characters gives the normalised shape |
| Whitespace.Normalize | rule-engine-app/backend/src/services/ruleEngine.js:3 | after normalising, the only whitespace is a single `' '` standing between two non-whitespace characters |
| Whitespace.Words | rule-engine-app/backend/src/services/ruleEngine.js:3 | reference meaning of normalisation: the maximal whitespace-free runs, each non-empty and without whitespace |
| Whitespace.WordsOfCollapseRuns | rule-engine-app/backend/src/services/ruleEngine.js:3 | collapsing whitespace runs keeps the words |
| Whitespace.WordsOfTrimStart | rule-engine-app/backend/src/services/ruleEngine.js:3 | trimming the start keeps the words |
| Whitespace.WordsSnocSpace | rule-engine-app/backend/src/services/ruleEngine.js:3 | appending a whitespace character keeps the words |
| Whitespace.WordsOfTrimEnd | rule-engine-app/backend/src/services/ruleEngine.js:3 | trimming the end keeps the words |
| Whitespace.NormalizedIsJoin | rule-engine-app/backend/src/services/ruleEngine.js:3 | a normalised string is exactly its words joined by single spaces |
| Whitespace.WordsOfNormalize | rule-engine-app/backend/src/services/ruleEngine.js:3 | normalisation keeps exactly the words of the input, in order |
| Whitespace.NormalizeIsJoinOfWords | rule-engine-app/backend/src/services/ruleEngine.js:3 | `Normalize(s)` equals the words of `s` joined by single spaces |
| Whitespace.NormalizeIdempotent | rule-engine-app/backend/src/services/ruleEngine.js:3 | normalising twice is normalising once |
| Lexer.WordRunEnd | rule-engine-app/backend/src/services/ruleEngine.js:9 | `\w+` is greedy: every character up to the returned end is a word character and the one at the end is not |
| Lexer.NextQuote | rule-engine-app/backend/src/services/ruleEngine.js:9 | the position of the first quote at or after `i`, with no quote before it; `None` when there is none |
| Lexer.MatchLength | rule-engine-app/backend/src/services/ruleEngine.js:9 | the match at `p` never runs past the end of the string |
| Lexer.MatchNoneIffSkippable | rule-engine-app/backend/src/services/ruleEngine.js:9 | nothing matches at `p` exactly when the character is no bracket, comparator or word character, and is not a quote with a later quote |
| Lexer.MatchShape | rule-engine-app/backend/src/services/ruleEngine.js:9 | every match is a bracket, a `[<>=]=?` comparator, a `\w+` run or a quoted literal |
| Lexer.MatchEndsAtBoundary | rule-engine-app/backend/src/services/ruleEngine.js:9 | a match ends at a word boundary; one that starts with a word character is the whole word run |
| Lexer.MatchComparatorGreedy | rule-engine-app/backend/src/services/ruleEngine.js:9 | a one-character comparator match is never followed by `=` |
| Lexer.MatchQuotedToNextQuote | rule-engine-app/backend/src/services/ruleEngine.js:9 | a match starting with a quote ends at the very next quote |
| Lexer.MatchTableFits | rule-engine-app/backend/src/services/ruleEngine.js:9 | no match recorded in the table runs past the end of the string |
| Lexer.Scan | rule-engine-app/backend/src/services/ruleEngine.js:9-10 | the global scan over the match table finds at most one lexeme per remaining character; ScanLexeme, CoveringLexeme, ScanOfNoMatch and ScanWordsStartAtBoundary state what it finds |
| Lexer.ScanLexeme | rule-engine-app/backend/src/services/ruleEngine.js:9-10 | each lexeme of the global scan from `p` starts at or after `p`, is the non-empty match recorded at its own start with the input's text, and ends before the next lexeme begins |
| Lexer.Texts | rule-engine-app/backend/src/services/ruleEngine.js:10 | the token list holds the text of each lexeme, in order |
| Lexer.Lexemes | rule-engine-app/backend/src/services/ruleEngine.js:9-10 | the lexemes of `ruleString.match(regex)`, at most one per character; LexemeMatched, ScanDropsOnlySkippable and TokenizeNullIff state what they are |
| Lexer.LexemeMatched | rule-engine-app/backend/src/services/ruleEngine.js:9-10 | each lexeme of `match` is the pattern's match at its own start, and lexemes are in order without overlap |
| Lexer.Tokenize | rule-engine-app/backend/src/services/ruleEngine.js:8-11 | when not `null`, the token list is non-empty and token `j` is the text of lexeme `j`, so the lexeme lemmas speak about the tokens |
| Lexer.CoveringLexeme | rule-engine-app/backend/src/services/ruleEngine.js:9-10 | every position where a match is recorded lies inside a lexeme of the scan, and the lemma names that lexeme |
| Lexer.ScanDropsOnlySkippable | rule-engine-app/backend/src/services/ruleEngine.js:9-10 | the only characters not covered by a token are those where no alternative matches |
| Lexer.ScanOfNoMatch | rule-engine-app/backend/src/services/ruleEngine.js:9-10 | where no match is recorded from `p` on, the scan finds no lexeme |
| Lexer.TokenizeNullIff | rule-engine-app/backend/src/services/ruleEngine.js:10 | `match` returns `null` exactly when no character can start a match |
| Lexer.ScanWordsStartAtBoundary | rule-engine-app/backend/src/services/ruleEngine.js:9 | when no word character is skipped and every match ends at a word boundary, every lexeme of a scan started at a boundary begins at a word boundary |
| Lexer.MatchTableBoundarySafe | rule-engine-app/backend/src/services/ruleEngine.js:9 | the pattern never skips a word character, and each of its matches ends at a word boundary |
| Lexer.WordTokensAreWholeWords | rule-engine-app/backend/src/services/ruleEngine.js:9 | `AND`, `OR` and every other word token are whole words: no word character touches either end |
| Lexer.TokensHaveShape | rule-engine-app/backend/src/services/ruleEngine.js:9-10 | every token has one of the shapes of the pattern's alternatives |
| Lexer.TokensNonEmpty | rule-engine-app/backend/src/services/ruleEngine.js:8-11 | every token of `tokenize` has at least one character |
| Lexer.ComparatorsAreMaximal | rule-engine-app/backend/src/services/ruleEngine.js:9 | `>=` and `<=` are never split into `>`/`<` and `=` |
| Lexer.QuotedLiteralsAreWhole | rule-engine-app/backend/src/services/ruleEngine.js:9 | a token starting with a quote is a whole quoted literal, spaces included, that keeps both quotes and ends at the next quote of the input |
| Lexer.DigitRunEnd | rule-engine-app/backend/src/services/ruleEngine.js:9 | `\d+` is greedy: every character up to the returned end is a digit and the one at the end is not |
| Lexer.DigitAlternativeUnreachable | rule-engine-app/backend/src/services/ruleEngine.js:9 | at a digit the `\d+` alternative would match a non-empty run, yet the match is the `\w+` run, so `\d+` never decides a match |
| RuleAst.Leaves | rule-engine-app/backend/src/services/ruleEngine.js:16-40 | every tree has at least one comparison |
| RuleAst.StripQuotes | rule-engine-app/backend/src/services/ruleEngine.js:37 | the stored value has no quote, is no longer than the token, and equals it when the token had no quote |
| RuleAst.StripQuotesOfLiteral | rule-engine-app/backend/src/services/ruleEngine.js:37 | stripping a quoted literal gives back what was between the quotes |
| RuleAst.StripQuotesAppend | rule-engine-app/backend/src/services/ruleEngine.js:37 | quote stripping distributes over concatenation |
| RuleAst.Print | rule-engine-app/backend/src/services/ruleEngine.js:17-38 | a fully parenthesised tree of n comparisons has 6n - 3 tokens |
| RuleParser.ParseAt | rule-engine-app/backend/src/services/ruleEngine.js:16-40 | a successful parse leaves the cursor strictly after where it started |
| RuleParser.Derives | rule-engine-app/backend/src/services/ruleEngine.js:16-40 | the grammar the parser accepts, as a relation; no contract of its own, ParseAtIffDerives ties it to `ParseAt` and PrintedDerives to `Print` |
| RuleParser.ReadEndWithinSpan | rule-engine-app/backend/src/services/ruleEngine.js:17-38 | a parse reads at least its first comparison and no further than its span, and stops short of the span's end exactly when it has closing tokens to skip |
| RuleParser.ParseAtSound | rule-engine-app/backend/src/services/ruleEngine.js:16-40 | what the parser returns is derived by the grammar, and the cursor stops right after the tree's 6n - 3 tokens |
| RuleParser.ParseAtComplete | rule-engine-app/backend/src/services/ruleEngine.js:16-40 | whatever the grammar derives, the parser returns, with the cursor 6n - 3 tokens on |
| RuleParser.ParseAtIffDerives | rule-engine-app/backend/src/services/ruleEngine.js:16-40 | the parser's result is `(n, q)` if and only if the grammar derives `n` and `q` is the end of its span |
| RuleParser.DerivesFacts | rule-engine-app/backend/src/services/ruleEngine.js:17-38 | a parsed tree has no quote in any value, is a group exactly when its first token is `(`, and reads no token past the end |
| RuleParser.DerivesReadsOnly | rule-engine-app/backend/src/services/ruleEngine.js:17-38 | a derivation depends only on the tokens it reads |
| RuleParser.Parse | rule-engine-app/backend/src/services/ruleEngine.js:42 | `buildAST` succeeds exactly when the parse from the first token does, and its tree is derived by the grammar from the first token |
| RuleParser.ParseRule | rule-engine-app/backend/src/services/ruleEngine.js:2-6 | a tree returned by `parseRule` carries no quote in any value; ParseRuleOfNormalized and ParsedRuleConforms state more |
| RuleParser.AstBuilder.constructor | rule-engine-app/backend/src/services/ruleEngine.js:13-14 | a builder holds the tokens with the cursor at 0 |
| RuleParser.AstBuilder.ParseExpression | rule-engine-app/backend/src/services/ruleEngine.js:16-40 | the cursor only moves forward; the method fails exactly when `ParseAt` does, and otherwise returns its tree and leaves the cursor where `ParseAt` says |
| RuleParser.BuildAst | rule-engine-app/backend/src/services/ruleEngine.js:13-43 | `buildAST` run from a fresh cursor computes `Parse` |
| RuleParser.ParseReadsOnly | rule-engine-app/backend/src/services/ruleEngine.js:16-40 | two token lists that agree on the tokens a parse reads parse alike |
| RuleParser.ParseIgnoresLeftover | rule-engine-app/backend/src/services/ruleEngine.js:42 | tokens after the top-level expression change nothing |
| RuleParser.ClosingTokenUnchecked | rule-engine-app/backend/src/services/ruleEngine.js:22 | the token that should close a group can be anything, or be missing altogether, without changing the tree or the cursor |
| RuleParser.PrintedAtLeft | rule-engine-app/backend/src/services/ruleEngine.js:17-19 | the printed tokens of a group start with `(` and the printed left part |
| RuleParser.PrintedAtRight | rule-engine-app/backend/src/services/ruleEngine.js:20-21 | after the left part, the printed tokens of a group hold the combinator and the printed right part |
| RuleParser.PrintedDerives | rule-engine-app/backend/src/services/ruleEngine.js:16-40 | the printed tokens of a printable tree derive that tree |
| RuleParser.ParseOfPrint | rule-engine-app/backend/src/services/ruleEngine.js:13-43 | round trip: parsing the 6n - 3 printed tokens of a tree, followed by anything, gives the tree back |
| RuleParser.ParseRuleOfNormalized | rule-engine-app/backend/src/services/ruleEngine.js:2-6 | `parseRule` gives the same tree for a string and for its normal form |
| RuleEvaluator.StringToNumber | rule-engine-app/backend/src/services/ruleEngine.js:49-53 | `Number` of a string: after trimming, a blank string reads as 0, a string of digits (leading zeros included) as its decimal value, and `+` or `-` followed by digits as that value with the sign; every other string is NaN, since a number is read only from a blank string or a sign or digit followed by digits; NumberOfNumeral and BlankComparesAsZero give its values |
| RuleEvaluator.ToNumber | rule-engine-app/backend/src/services/ruleEngine.js:49-53 | the coercion of `data[field]` for a relational comparison: `undefined` is NaN, a number is itself, a string goes through `Number`; no contract of its own, RelationalFalseOnNaN, NumeralComparesAsNumber and BlankComparesAsZero state its cases |
| RuleEvaluator.Holds | rule-engine-app/backend/src/services/ruleEngine.js:48-55 | a comparison holds only for a field present in the record and one of the five known comparators; RelationalOnNumbers, RelationalFalseOnNaN and EqualsIsStrict give each case |
| RuleEvaluator.Eval | rule-engine-app/backend/src/services/ruleEngine.js:45-66 | a rule holds only when one of its comparisons holds; EvalReadsOnlyTrace, AndShortCircuits and OrShortCircuits state the short-circuiting |
| RuleEvaluator.Operands | rule-engine-app/backend/src/services/ruleEngine.js:45-66 | a tree has one comparison per leaf, all of them operand nodes |
| RuleEvaluator.Trace | rule-engine-app/backend/src/services/ruleEngine.js:58-63 | the comparisons visited are comparisons of the tree |
| RuleEvaluator.SameFieldsSplit | rule-engine-app/backend/src/services/ruleEngine.js:58-63 | agreement on a concatenated visit is agreement on each part |
| RuleEvaluator.EvalReadsOnlyTrace | rule-engine-app/backend/src/services/ruleEngine.js:45-66 | the result and the visit depend only on the fields of the comparisons visited, so the right side of a decided `AND`/`OR` has no influence |
| RuleEvaluator.AndShortCircuits | rule-engine-app/backend/src/services/ruleEngine.js:58-60 | `AND` with a false left side is false and visits only the left side |
| RuleEvaluator.OrShortCircuits | rule-engine-app/backend/src/services/ruleEngine.js:61-63 | `OR` with a true left side is true and visits only the left side |
| RuleEvaluator.UnknownOperatorIsFalse | rule-engine-app/backend/src/services/ruleEngine.js:54-65 | an unknown combinator or comparator gives `false` |
| RuleEvaluator.RelationalFalseOnNaN | rule-engine-app/backend/src/services/ruleEngine.js:49-53 | `>`, `<`, `>=`, `<=` are false when the field is missing or either side is not a number |
| RuleEvaluator.RelationalOnNumbers | rule-engine-app/backend/src/services/ruleEngine.js:49-53 | on numbers the four relational comparators are the integer orderings and are pairwise complements |
| RuleEvaluator.EqualsIsStrict | rule-engine-app/backend/src/services/ruleEngine.js:51 | `=` holds exactly for a string field equal to the literal; a number never equals |
| RuleEvaluator.DigitChar | rule-engine-app/backend/src/services/ruleEngine.js:49 | the digit character of a value below ten has that value |
| RuleEvaluator.NatToString | rule-engine-app/backend/src/services/ruleEngine.js:49 | the numeral of a natural number is a non-empty digit string whose value is that number |
| RuleEvaluator.TrimOfUnpadded | rule-engine-app/backend/src/services/ruleEngine.js:49 | `Number` ignores no character of a string that neither starts nor ends with whitespace |
| RuleEvaluator.NumberOfNumeral | rule-engine-app/backend/src/services/ruleEngine.js:49 | `Number` reads every integer numeral back as its integer |
| RuleEvaluator.NumeralComparesAsNumber | rule-engine-app/backend/src/services/ruleEngine.js:49-53 | a field holding a numeral string compares like the number itself under every relational comparator |
| RuleEvaluator.BlankComparesAsZero | rule-engine-app/backend/src/services/ruleEngine.js:49-53 | a blank string field compares as 0 under every relational comparator |
| RuleNodeModel.SchemaValid | rule-engine-app/backend/src/models/RuleNode.js:3-30 | the schema's validation; no contract of its own, ValidKind, SchemaLeavesOpen, Store and ConformsIffListed state what it accepts |
| RuleNodeModel.ValidKind | rule-engine-app/backend/src/models/RuleNode.js:4-13 | a valid node is an operator or an operand node, and an operator node carries a listed operator |
| RuleNodeModel.SchemaLeavesOpen | rule-engine-app/backend/src/models/RuleNode.js:9-29 | an operand without a comparator, an operand with an empty value, and an operator node with or without children all validate |
| RuleNodeModel.Store | rule-engine-app/backend/src/models/RuleNode.js:3-30 | the document stored for a parsed node passes the schema exactly when its combinator or comparator is one of the seven listed and, for a comparison, its field is non-empty |
| RuleNodeModel.ValidityIgnoresChildIds | rule-engine-app/backend/src/models/RuleNode.js:22-29 | `left` and `right` play no part in validation |
| RuleNodeModel.ConformsIffListed | rule-engine-app/backend/src/models/RuleNode.js:3-30 | a tree with non-empty fields validates at every node exactly when all its operators are among the seven listed |
| RuleNodeModel.DerivedFieldsNonEmpty | rule-engine-app/backend/src/models/RuleNode.js:14-17 | a tree parsed from non-empty tokens names a non-empty field in every comparison |
| RuleNodeModel.ParsedRuleConforms | rule-engine-app/backend/src/models/RuleNode.js:3-30 | a tree from `parseRule` validates at every node exactly when all its combinators and comparators are among the seven listed |

## Left out

- Persistence: storing and loading nodes, and the controller that hands the nested tree to `RuleNode.create`. Mongoose casting of a nested object to an id is not modelled; `Store` builds one document per node from given child ids.
- HTTP routes, controllers, the weather application and the frontends are not part of this model.
- Strings are sequences of Unicode code points; UTF-16 surrogate pairs are not modelled.
- RuleEvaluator.StringToNumber: only optionally signed decimal integers (and the blank string, which is 0) are numbers. Fractions, exponents, `Infinity` and hexadecimal, octal or binary literals, which `Number` accepts, are NaN here. JavaScript numbers are IEEE-754 doubles, but the model reads numerals and record numbers as exact unbounded integers. Above 2^53 a JavaScript numeral is rounded, so `n > 9007199254740992` is false for the string `"9007199254740993"`, while the model says true. Numerals beyond about 1.8e308 become `Infinity` in JavaScript, which the model does not capture either.
- RuleEvaluator.Val: record values are integers or strings only. JSON booleans, `null`, fractions, arrays and objects are not modelled.
- RuleEvaluator.Lookup: a field name that is an inherited JavaScript property (such as `constructor`) is treated as missing. In JavaScript it yields a function or object, which compares as NaN and is never `===` a string, so every comparison is false as well.
- RuleNodeModel.StoredNode: the `value` path is `Mixed` but holds a string here, the only kind of value the parser produces.
- The text-level round trip (printing a tree as a string, then tokenising and parsing it) is not stated. The round trip is proved at the token level by `ParseOfPrint`.
