# boolparse in Dafny

A model of `boolparse`, a small Python library that evaluates boolean expressions
written as text, such as `"not (alice and bob)"`. The library resolves each operand
through a caller-supplied callback and never evaluates the caller's text directly.
`evaluate(expression, callback)` works in four steps:

1. `boolexpr` strips the expression and splits it on whitespace.
2. `tokenize` cuts every word at each `(` and `)`. Empty pieces are dropped.
3. The keywords `and`, `or`, `not` and the two parentheses pass through unchanged.
   Every other piece is an operand. `bool_val` hands it to the callback and writes
   down `True` or `False`. If the callback answers with anything but a `bool`, the
   library raises `SecurityError`.
4. The resolved tokens are joined with spaces and handed to Python's `eval`.

The default callback is true exactly when the operand, case-folded, is `true`.

The Dafny project has five modules:

- `Tokens` (`tokens.dfy`) holds the shared vocabulary: the fixed `PARENTHESES` and
  `KEYWORDS` sets, the literals `str(True)` and `str(False)`, and a `Result` type.
  `Result` has two errors: `SecurityError`, and `Malformed` for a stream the model's
  evaluator does not accept (a `SyntaxError` in Python, or a call such as `True ()` or
  `True ( False )`, which the model rejects even where Python would never evaluate it).
- `Lexer` (`lexer.dfy`) models `str.strip`, `str.split()`, `tokenize` and `filter(None, ...)`.
  - `Pieces` is the recursive definition of what `tokenize` yields.
  - `Tokenize` is the indexed loop with its `break`/`else` and the recursive call,
    proved equal to `Pieces`.
  - `Scan` gives the raw token stream of a list of words.
  - `RawTokens` gives the raw token stream of an expression.

  `Pieces`, `Scan` and `RawTokens` are plain definitions without contracts of their own.
  The lemmas about them in the table state their properties.
- `Evaluator` (`evaluator.dfy`) takes the place of Python's `eval` with a recursive-descent
  parser over the resolved tokens:
  - `expr := term ("or" term)*`
  - `term := factor ("and" factor)*`
  - `factor := "not" factor | "(" ")" | "(" expr ")" | "True" | "False"`

  The module also holds a reference semantics: a `Formula` datatype, its standard
  `Value`, and `Render`, which prints a formula with the parentheses precedence needs.
  A formula may also carry redundant groups (`Paren`) and the empty tuple `()`
  (`EmptyTuple`), which `Render` prints as written. Three results connect the parser
  to this semantics. Every printed formula parses back to its value (`EvalRender`).
  Conversely, every stream the parser accepts is the print of a formula, and the
  parser's answer is that formula's value (`EvalAccepts`). Every stream the parser
  accepts has balanced parentheses (`EvalBalanced`).
- `BoolParse` (`boolparse.dfy`) holds the library's public functions:
  - `BoolVal` models `bool_val`.
  - `ResolveAll` and `Stream` give what `boolexpr` yields.
  - `BoolExpr` is the nested loop of `boolexpr`, proved equal to `Stream`.
  - `DefaultCallback` models the default callback.
  - `Evaluate` models `evaluate`. It is a plain definition; `EvaluateRender`,
    `EvaluateAccepts` and `EvaluateErrors` state what it returns.
  - `EvaluateRender` is the end-to-end theorem. A formula over operand names, printed
    with spaces, evaluates to the formula's value under the callback's answers.
- `Scenarios` (`scenarios.dfy`) proves concrete behaviours as lemmas. Most are stated
  for symbolic operands and any callback; the documented inputs are also proved as
  literal strings.
  It covers precedence, nested and attached parentheses, whitespace variants, keyword
  look-alikes, the strict callback, the absence of short-circuiting, and malformed input.

A callback is a function from `string` to `Returned`, which is `Boolean(b)` or `Other`.
`Other` stands for any Python object that is not a `bool`.

Two behaviours of the code are easy to miss, and the model keeps both.

- `()` is Python's empty tuple, and every operator reads it as false. `evaluate("()")`
  is `False`, and `not ()` is `True`. The parser reads `(` directly followed by `)` as a
  false factor (`Scenarios.EmptyGroup`). A group right after a factor, empty as in
  `() ()` or `True ()` or with arguments as in `True ( False )`, is a call. Python
  raises `TypeError` for it only if it evaluates it, and `and`/`or` may short-circuit
  past it. The model reads every such call as `Malformed` (see `Eval` under "Left out").
- `evaluate` runs the whole generator before it evaluates anything, so every operand
  reaches the callback until one of them raises `SecurityError`. `x or y` raises
  `SecurityError` whenever `y`'s answer is not a `bool`, even if `x` is true
  (`Scenarios.NoShortCircuit`).

`evaluate("not (true and (false or true))")` is `False`: the inner group is true, so the
conjunction is true and its negation false (`Scenarios.NestedExample`).

## Model

| member | source | states |
|---|---|---|
| Lexer.Tokenize | boolparse.py:30-40 | the loop with `break`/`else` and the recursive call yields exactly `Pieces(word)` |
| Lexer.PiecesConcat | boolparse.py:30-40 | the pieces of a word, concatenated in order, are the word again (before empty pieces are dropped) |
| Lexer.PiecesAlternate | boolparse.py:33-37 | the pieces alternate between parenthesis-free text and a lone `(` or `)`, starting and ending with text |
| Lexer.PiecesUnique | boolparse.py:30-40 | any alternating sequence of pieces that concatenates to the word is the split itself |
| Lexer.PiecesOfPlainWord | boolparse.py:39-40 | a word yields the single piece `[word]` if and only if it has no parenthesis |
| Lexer.ParenSeparates | boolparse.py:33-37 | a parenthesis inside a word cuts it exactly as whitespace around the parenthesis would |
| Lexer.PiecesNoSpace | boolparse.py:33-37 | the pieces of a word without whitespace have no whitespace either |
| Lexer.IsSpaceAscii | boolparse.py:46 | within ASCII, the whitespace `strip` and `split` use is exactly space, tab, line feed, vertical tab, form feed, carriage return and the separators 0x1C to 0x1F |
| Lexer.TrimLeft | boolparse.py:46 | `lstrip`: the result is no longer than the input and does not start with whitespace |
| Lexer.TrimLeftSplits | boolparse.py:46 | `lstrip` cuts only a run of whitespace: the input is that run followed by the result |
| Lexer.TrimRight | boolparse.py:46 | `rstrip`: the result is a prefix of the input, what was cut is all whitespace, and the result does not end with whitespace |
| Lexer.Strip | boolparse.py:46 | `strip`: the result is no longer than the input and neither starts nor ends with whitespace |
| Lexer.Words | boolparse.py:46 | `str.split()` yields only non-empty words without whitespace |
| Lexer.WordsKeepVisible | boolparse.py:46 | the words, concatenated, are exactly the non-whitespace characters of the input, in order |
| Lexer.WordsOfStrip | boolparse.py:46 | stripping before the split changes nothing |
| Lexer.WordsOfJoin | boolparse.py:46 | splitting undoes joining non-empty whitespace-free words with any non-empty whitespace separator |
| Lexer.WordsOfJoinWith | boolparse.py:46 | splitting undoes joining such words with a separate non-empty run of whitespace in each gap, so no gap's amount or kind of whitespace matters |
| Lexer.NonEmpty | boolparse.py:47 | `filter(None, ...)` yields no empty piece |
| Lexer.NonEmptyMembers | boolparse.py:47 | `filter(None, ...)` keeps exactly the non-empty pieces |
| Lexer.NonEmptyAppend | boolparse.py:47 | filtering distributes over concatenation, so order is kept |
| Lexer.ScanAppend | boolparse.py:46-47 | the raw tokens of a list of words are the raw tokens of its parts, concatenated |
| Lexer.RawTokensShape | boolparse.py:46-47 | every raw token is non-empty and is either a lone parenthesis or free of whitespace and parentheses |
| Lexer.ScanOfWordLike | boolparse.py:46-47 | words that are already tokens scan to themselves |
| Lexer.ScanDropsEmpty | boolparse.py:47 | an empty word contributes no token |
| Lexer.RawTokensOfJoin | boolparse.py:46-47 | tokens joined with whitespace scan back to the same tokens |
| Lexer.RawTokensOfPadded | boolparse.py:46 | whitespace before and after the expression does not change its tokens |
| Lexer.RawTokensOfSeparator | boolparse.py:46 | the amount and kind of whitespace between words does not change the tokens |
| Lexer.RawTokensOfGaps | boolparse.py:46-47 | an expression whose words are separated by any whitespace, gap by gap, and padded with any whitespace, has the raw tokens of its words |
| BoolParse.BoolVal | boolparse.py:19-27 | succeeds exactly when the callback answers with a bool, then gives `str` of that answer, `True` or `False`; otherwise SecurityError |
| BoolParse.LiteralReadsBack | boolparse.py:25 | `str(b)` evaluated on its own is `b` |
| BoolParse.ResolveTokenCases | boolparse.py:48-51 | a keyword or parenthesis passes through unchanged; an operand is resolved exactly when the callback answers it with a bool and raises SecurityError otherwise; whatever is yielded is one of the seven resolved tokens |
| BoolParse.ResolveAll | boolparse.py:47-51 | resolving a raw stream fails only with SecurityError |
| BoolParse.ResolveAllPositions | boolparse.py:47-51 | resolution succeeds exactly when every operand gets a bool; then the output has the input's length, each operator unchanged at its place and each operand replaced by the literal of its answer |
| BoolParse.ResolveAllAppend | boolparse.py:47-51 | resolution works token by token, so it distributes over concatenation |
| BoolParse.ResolveAllFails | boolparse.py:51 | once a prefix raises SecurityError, the whole stream does |
| BoolParse.ResolvedTokens | boolparse.py:48-51 | every resolved token is one of `and`, `or`, `not`, `(`, `)`, `True`, `False`, and none is empty |
| BoolParse.Stream | boolparse.py:43-51 | what `boolexpr` yields for an expression, or raises: the only exception is SecurityError |
| BoolParse.StreamResolved | boolparse.py:46-51 | every element `boolexpr` yields for an expression is one of the seven resolved tokens |
| BoolParse.ResolvePieces | boolparse.py:47-51 | the inner loop appends exactly the resolution of the word's non-empty pieces, or stops at the first SecurityError |
| BoolParse.BoolExpr | boolparse.py:43-51 | the nested loop yields exactly `Stream(expression, callback)`, that is, the raw tokens resolved, or the SecurityError raised on the way |
| BoolParse.CaseFold | boolparse.py:57 | `casefold` on ASCII keeps the length, maps each of `A`-`Z` to its lower-case letter, keeps every other character, and leaves no upper-case letter |
| BoolParse.DefaultCallback | boolparse.py:57 | the default callback always answers with a bool, so it never causes SecurityError |
| BoolParse.DefaultCallbackTruth | boolparse.py:57 | the default callback always answers with a bool, and it is true exactly for the four-letter spellings of `true` in any case |
| BoolParse.DefaultCallbackExamples | boolparse.py:57 | `true`, `TRUE`, `True` are true; `false`, `yes`, the empty string, `truee` and `1` are false |
| BoolParse.DefaultCallbackIsSafe | boolparse.py:57-61 | with the default callback, `evaluate` never raises SecurityError |
| BoolParse.EvaluateErrors | boolparse.py:22-27 | `evaluate` raises SecurityError if and only if some operand gets an answer that is not a bool; it is Malformed if and only if `boolexpr` succeeds and the evaluator rejects its stream |
| BoolParse.EvaluateAccepts | boolparse.py:54-61 | `evaluate` returns `v` if and only if `boolexpr` succeeds and its stream is the print of a formula over the literals, redundant groups and `()` allowed, whose value is `v` |
| BoolParse.ResolvedValue | boolparse.py:48-51 | resolving the atoms of a formula gives a formula over literals with the same value |
| BoolParse.RenderResolves | boolparse.py:47-51 | resolving the printed tokens of a formula over names gives the printed tokens of its resolution |
| BoolParse.RenderScansBack | boolparse.py:46-47 | a formula over names, printed with spaces, scans back to its own tokens |
| BoolParse.EvaluateRender | boolparse.py:54-61 | a formula over names, redundant groups and `()` allowed, printed with spaces, evaluates to its standard value when each name means the callback's answer |
| BoolParse.EvaluateSpacing | boolparse.py:46 | whitespace is not significant beyond separating words: any whitespace around the expression and any non-empty whitespace in each gap gives the value of the words joined by single spaces |
| Evaluator.Eval | boolparse.py:61 | every failure of the evaluator is Malformed |
| Evaluator.EvalRender | boolparse.py:61 | every printed ground formula, redundant groups and `()` included, parses to that formula with its implicit parentheses written out and evaluates to its value: `not` > `and` > `or`, parentheses override, `and`/`or` group to the left, `()` is false |
| Evaluator.ExplicitPreserves | boolparse.py:61 | writing out the parentheses precedence implies changes neither a formula's value nor its print |
| Evaluator.EvalAccepts | boolparse.py:61 | the evaluator returns `v` on a stream if and only if the stream is the print of some ground formula whose value is `v` |
| Evaluator.EvalBalanced | boolparse.py:61 | every stream the evaluator accepts has balanced parentheses |
| Evaluator.LiteralOfIsValue | boolparse.py:61 | the first-order value of a ground formula is its standard value with atoms read as literals |
| Scenarios.Conjunction | boolparse.py:54-61 | `evaluate("true and false")` is false |
| Scenarios.AndBindsTighter | boolparse.py:54-61 | `evaluate("true or false and false")` is true |
| Scenarios.NotBindsTighter | boolparse.py:54-61 | `evaluate("not false and false")` is false |
| Scenarios.NegatedGroup | boolparse.py:54-61 | `not (a or b)` with parentheses attached to the names evaluates to the negated disjunction of their answers |
| Scenarios.NegatedGroupExample | boolparse.py:54-61 | `evaluate("not (true or false)")` is false |
| Scenarios.NestedGroups | boolparse.py:54-61 | `not (a and (b or c))` evaluates to the negation of `a and (b or c)` under the answers |
| Scenarios.NestedExample | boolparse.py:54-61 | `evaluate("not (true and (false or true))")` is false |
| Scenarios.RedundantGroup | boolparse.py:54-61 | `( a and b ) or c` evaluates to the disjunction of the conjunction with `c`'s answer |
| Scenarios.SingleGroup | boolparse.py:54-61 | `( a )` evaluates to `a`'s answer |
| Scenarios.ParenSpacing | boolparse.py:33-37 | `a and (b)` and `a and ( b )` give the same raw tokens and the same stream |
| Scenarios.ParenSpacingExample | boolparse.py:46-51 | `"true and (false)"` and `"true and ( false )"` give the same stream under any callback |
| Scenarios.PaddedConjunction | boolparse.py:46 | any leading, trailing and separating whitespace around `a and b` gives the conjunction of the answers |
| Scenarios.PaddedExample | boolparse.py:46 | `evaluate("  true   and\tfalse ")` is false, like `"true and false"` |
| Scenarios.OperandsResolved | boolparse.py:47-51 | in `a op b`, both names go to the callback; the stream is resolved exactly when both answers are bools, and is then `[str(a'), op, str(b')]` |
| Scenarios.KeywordLookalikes | boolparse.py:48 | `sandbox` and `AND` are not keywords: in `"sandbox and AND"` both go to the callback |
| Scenarios.NoShortCircuit | boolparse.py:61 | a non-bool answer for the right operand of `or` raises SecurityError, whatever the left operand is |
| Scenarios.RejectsUnbalanced | boolparse.py:61 | an expression whose resolved stream has unbalanced parentheses (such as `) (`) is Malformed |
| Scenarios.Unclosed | boolparse.py:61 | `(a and b` is Malformed |
| Scenarios.Unopened | boolparse.py:61 | `a)` is Malformed |
| Scenarios.Adjacent | boolparse.py:61 | two operands with no operator between them are Malformed |
| Scenarios.Blank | boolparse.py:46-61 | an expression of whitespace only, the empty one included, is Malformed |
| Scenarios.EvalEmpty | boolparse.py:61 | the empty stream is Malformed, as `eval("")` is a SyntaxError |
| Scenarios.MalformedExamples | boolparse.py:61 | `"(true and false"`, `"true)"`, `"true false"` and `""` are Malformed |
| Scenarios.EmptyGroup | boolparse.py:61 | `evaluate("()")` is false, as `bool(())` is |

## Left out

- Python's `eval` itself is not modelled. The explicit parser in `Evaluator` stands in
  for it on the seven tokens `boolexpr` can yield.
- Python's `SyntaxError` and `TypeError` are not told apart. Both become `Malformed`.
- Eval: a call, that is `(` … `)` with or without arguments right after a factor, as
  in `True ()`, `() ()` or `True ( False )`, is `Malformed` even where Python
  short-circuits past it and returns a value: `evaluate("true or true()")` and
  `evaluate("true or true (false)")` are `True` in Python, and `false and ()()` and
  `false and false (true or x)` are `False`. Python only warns about such a call at
  compile time, and raises `TypeError` only when it evaluates it. Modelling this needs Python's call semantics on literals, which the
  seven-token grammar does not have.
- CaseFold: `str.casefold` is modelled as ASCII lower-casing, and so is the default
  callback built on it. Unicode case folding, such as `ſ` folding to `s` or `K` (the
  Kelvin sign) folding to `k`, is not modelled. In Unicode's case-folding table no
  non-ASCII character folds to `t`, `r`, `u`, `e` or a string made only of them, so no
  non-ASCII string casefolds to `"true"`, and `DefaultCallbackTruth` holds for Python's
  `str.casefold` as well.
- Generators and exceptions are not modelled as such. Streams are finite sequences and
  raised exceptions are `Result` errors. The order of callback calls, and whether the
  callback is called again after an earlier operand failed, is not modelled.
- Callback side effects are not modelled. A callback is a pure function from the
  operand to its answer.
- A callback that raises is not modelled. Python's `evaluate` propagates whatever the
  callback raises; a model callback always returns a `Returned`, so the model has no
  such outcome.
- Python's recursion limit and parser nesting limit are not modelled. This concerns
  deeply nested input, and also flat words: `tokenize` recurses once per parenthesis in
  a word (boolparse.py:37), so a single word such as `()()…()` with about a thousand
  parentheses exceeds Python's recursion limit, while the model tokenizes it.
- `IsSpace` lists the code points for which CPython's `str.isspace` is true. It does not
  model other Python versions' Unicode tables.
- `setup.py` holds only packaging metadata and is not part of this model.
- The code has no statement-count limit and no configurable keyword set. The keyword
  and parenthesis sets are the fixed `KEYWORDS` and `PARENTHESES` (boolparse.py:9-10),
  so the model has neither.
