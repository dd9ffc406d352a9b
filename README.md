# Wildcard matcher, verified model

This project models a wildcard matcher. In a pattern, `?` matches any one
character, `*` matches any run of characters (including none), and `\` escapes
the next character. The repository has two generations of code. The model covers
both and proves each matcher against one reference meaning.

- **Tokens and the tokenizer.** A pattern is compiled into `Token`s: a literal
  run, any-character, any-sequence, or a 256-entry character set. `Parser::parse`
  makes one pass over the pattern. It collects literal runs, merges consecutive
  stars, decodes escapes, and reports diagnostics as `ParseEvent`s with a 1-based
  position. In the model, `Parser.Parse` is a method. It is proved equal to a
  step function, `Parser.Tokenize`. Then it is proved to have these properties:
  - its tokens are well formed. No literal is empty, no two literals or two
    stars are adjacent, and there is no character set;
  - its events are sound and strictly ordered;
  - its tokens mean exactly the decoded pattern.
- **Token-level matchers.** Each takes a text and a token list:
  - a memoized recursion (`TokenMemo`);
  - two bottom-up tables, a bool table (`TokenDp`) and a two-state table
    (`TokenDpState`);
  - two greedy scans with one backtrack point, visit-based (`TokenGreedy`) and
    switch-based (`TokenGreedySwitch`).

  The memo class writes its table and its maximum depth in place. The tables are
  `array2`s filled row by row. The greedy scans mutate three locals in a `while`
  loop.
- **Character-level matchers.** These work on the raw pattern, where `\` is an
  ordinary character:
  - index recursion (`CharRecursive`);
  - slice recursion with star collapsing (`CharSliceRecursive`);
  - a memo table valued -1/0/1 (`CharMemo`);
  - a 2D table (`CharDp`);
  - a single rolling row (`CharNfa`);
  - a four-pointer greedy scan over NUL-terminated strings (`CharGreedy`).
- **Input scanners** (`Validator`). These find the first multi-byte byte or the
  first wildcard in the text.

The reference semantics:

- `TokenSpec.MatchTokensAt` is the recurrence of the memoized token solver.
- `CharSpec.MatchCharsAt` is the recurrence of the index-recursive character solver.
- `Atoms.MatchAtoms` is a finer, character-by-character meaning on
  sequences of `Star`, `One` and `Ch(c)`. It carries the split and
  prefix lemmas that the table and tokenizer proofs need.
  - `TokenSpec.TokensMatchAtoms` links the token semantics to it.
  - `CharSpec.CharsMatchTokens` links the character semantics to the token
    semantics, through one token per pattern character.

The table matchers are proved equal to `TokenTable.DpTable`, a function that
describes the table cell by cell. The greedy matchers are proved equal to
`Backtracking.GreedyRun`, a function that runs the scan step by step. So the two
revisions of the token table agree on every token list without a character set
(the two-state revision reaches an unreachable marker on one), and the two
revisions of the token greedy scan agree on every input. Their equality with the reference semantics is then proved
once, about each of these functions.

Each matcher's `run`/`runAndProfile` returns a `Profiling.SolverProfile`: the
match result and the estimated extra space in bytes. The byte counts use the
`sizeof` values of an LP64 target. They are named constants in `Profiling`.

## Model

| member | source | states |
|---|---|---|
| Tokens.Ordinal | include/utils/token.hpp:70 | each `TokenTypeIndex` enumerator has one of the four positions 0..3 |
| Tokens.FromOrdinal | include/utils/token.hpp:70-75 | casting a position below 4 back to `TokenTypeIndex` gives the enumerator at that position |
| Tokens.VariantIndex | include/utils/token.hpp:75 | the `index()` of a token is one of the four alternatives' positions |
| Tokens.KindOf | include/utils/token.hpp:70-75 | the enumerator cast from `index()` names exactly the alternative held, for each of the four kinds (both directions) |
| Tokens.ClosedSum | include/utils/token.hpp:12-16 | every token is one of exactly four alternatives, and the enumerator round-trips through its position |
| Tokens.StructuralEquality | include/utils/token.hpp:25-59 | two literals are equal iff their strings are; two character sets are equal iff all 256 membership bits agree; any-sequence and any-char differ |
| Issues.TypeName | include/utils/issues.hpp:26-41 | the formatter renders `Error` as "Error" and `Warning` as "Warning", and never yields the empty name of the unreachable branch |
| Issues.IsErrorExactly | include/utils/issues.hpp:60-67 | `isError()` holds iff the issue's type is `Error`, and fails iff it is `Warning`; the two names differ |
| Issues.ExactlyFourCodes | include/utils/issues.hpp:47-55 | every issue code is one of four pairwise distinct codes |
| Parser.Step | include/utils/parser.hpp:62-105 | one pass of the loop consumes one character, or two for an escape, and never passes the end of the pattern |
| Parser.Parse | include/utils/parser.hpp:41-111 | the result is the step function's; tokens are well formed; event positions lie in 1..\|p\| and strictly increase; every event says what is at its position; for every text the tokens match iff the decoded pattern does |
| Parser.TokenizeProperties | include/utils/parser.hpp:41-111 | the same properties of the step function on every pattern, including that the tokens expand to the decoded pattern with star runs collapsed |
| Parser.FlushWellFormed | include/utils/parser.hpp:55-60 | flushing the literal buffer after a non-literal token keeps the token list well formed (no empty literal, no adjacent literals) |
| Parser.ExpandFlush | include/utils/parser.hpp:55-60 | flushing appends exactly the buffered characters to the pattern's meaning |
| Parser.AnyCharKeepsScanInv | include/utils/parser.hpp:66-69 | `?` flushes the buffer and then appends one `AnyChar`, keeping the loop invariant |
| Parser.StarKeepsScanInv | include/utils/parser.hpp:71-80 | a star after a star appends nothing and reports a merge at position i+1; otherwise it flushes and appends one `AnySequence`; the loop invariant holds either way |
| Parser.EscapeKeepsScanInv | include/utils/parser.hpp:82-93 | `\c` appends c to the buffer, consumes two characters, and reports an undefined escape at the backslash's position iff c is not `*`, `?` or `\` |
| Parser.TrailingKeepsScanInv | include/utils/parser.hpp:94-97 | a final lone backslash appends nothing and reports a trailing backslash at its 1-based position |
| Parser.StepKeepsScanInv | include/utils/parser.hpp:62-105 | every pass of the loop keeps the well-formedness and event invariant |
| Parser.StepKeepsMeaning | include/utils/parser.hpp:62-105 | every pass of the loop keeps the invariant "tokens and buffer mean the scanned prefix of the decoded pattern" |
| Parser.ScanFromKeeps | include/utils/parser.hpp:62-108 | the whole loop and the final flush keep both invariants |
| Parser.EventsAppend | include/utils/parser.hpp:62-98 | appending an event at a later position keeps the events strictly ordered |
| Parser.CollapseSound | include/utils/parser.hpp:71-80 | merging adjacent stars does not change which texts match |
| Parser.StarRun | include/utils/parser.hpp:71-80 | a run of k stars yields one `AnySequence` and k-1 merge events at positions 2..k |
| Parser.PlainPatternMatches | include/solvers/memo.hpp:26-30 | for a pattern without `\`, matching the parsed tokens decides the same as the character-level semantics |
| Parser.DecodePlain | include/utils/parser.hpp:100-103 | without escapes, every pattern character decodes to itself as a wildcard or a literal character |
| Atoms.DoubleStar | include/utils/parser.hpp:71-80 | two adjacent stars match exactly what one star matches, anywhere in the pattern |
| TokenSpec.TokensMatchAtoms | include/solvers/memo.hpp:121-148 | the token recurrence decides the same as the character-by-character meaning of the expanded tokens |
| TokenSpec.AtomsStep | include/solvers/memo.hpp:121-148 | the recurrence's star, any-char and literal cases are sound steps of the character-by-character meaning |
| TokenSpec.PrefixRowZero | include/solvers/dp.hpp:89-96 | with non-empty literals, the empty text matches the first j tokens iff they are all stars |
| TokenSpec.PrefixStar | include/solvers/dp.hpp:103-107 | a prefix ending in a star matches iff the prefix without it matches, or the text minus its last character matches the prefix |
| TokenSpec.PrefixAnyChar | include/solvers/dp.hpp:109-113 | a prefix ending in any-char matches iff the text is non-empty and both shortened prefixes match |
| TokenSpec.PrefixLiteral | include/solvers/dp.hpp:115-127 | a prefix ending in literal L matches iff the text ends in L and the text without L matches the shorter prefix |
| TokenSpec.PrefixColumnZero | include/solvers/dp.hpp:86-100 | no tokens match only the empty text |
| TokenTable.TableRowZero | src/solvers/dp.cpp:62-72 | the first row of the table is true at j iff the first j tokens are all stars |
| TokenTable.TableCorrect | include/solvers/dp.hpp:99-131 | with no character set and no empty literal, cell (i, j) holds iff the first i characters match the first j tokens |
| TokenTable.TableDecides | include/solvers/dp.hpp:133 | under the same conditions, the last cell is the reference answer |
| TokenTable.EmptyLiteralRowZero | include/solvers/dp.hpp:92-96 | an empty literal matches the empty text, but the table's first row leaves that cell false |
| TokenMemo.MemoSolver.constructor | include/solvers/memo.hpp:58-65 | a fresh (m+1) x (n+1) table with every cell empty, and depth zero |
| TokenMemo.MemoSolver.IsMatch | include/solvers/memo.hpp:108-157 | returns the reference answer for (i, j) and leaves it cached; every cached cell stays equal to its reference answer; the recorded maximum depth grows monotonically to at least `depth`, and by at most the characters and tokens still to consume |
| TokenMemo.MemoSolver.Compute | include/solvers/memo.hpp:121-150 | the empty-tokens base case, the two star branches, any-char and the exact literal fit give the reference answer |
| TokenMemo.MemoSolver.Run | include/solvers/memo.hpp:71-95 | the result is the reference match; space is the table of optional bools plus one frame of two indices and a return address per level of maximum depth |
| TokenMemo.RunAndProfile | include/solvers/memo.hpp:38-42 | the reference match; space lies between the table alone and the table plus m+n frames |
| TokenMemo.RunAndProfilePattern | include/solvers/memo.hpp:26-30 | parsing and then matching decides the decoded pattern |
| Profiling.Max | include/solvers/memo.hpp:110 | the maximum is at least each argument and is one of them |
| TokenDp.IsMatch | include/solvers/dp.hpp:84-134 | the result is the table function's last cell; with no character set and no empty literal it is the reference answer |
| TokenDp.FillRow | include/solvers/dp.hpp:99-131 | row i becomes row i of the table function; no other row changes |
| TokenDp.Run | include/solvers/dp.hpp:59-74 | the match as above, and space (m+1)(n+1) bools |
| TokenDp.RunAndProfilePattern | include/solvers/dp.hpp:22-26 | parsing and then filling the table decides the decoded pattern, since the parser never yields an empty literal |
| TokenDpState.IsMatch | src/solvers/dp.cpp:60-117 | the result is the same table function's last cell as the bool revision, so the two revisions agree on every input without a character set; with no empty literal it is the reference answer |
| TokenDpState.FillRow | src/solvers/dp.cpp:75-114 | row i becomes row i of the table function; no other row changes |
| TokenDpState.Cell | src/solvers/dp.cpp:78-112 | the cell computed from the row above and the cells to its left is `Match` iff the table function holds there |
| TokenDpState.Run | src/solvers/dp.cpp:36-50 | the match as above, and space (m+1)(n+1) `DpState` cells |
| Backtracking.GreedyStep | include/solvers/greedy.hpp:98-144 | one step of the scan keeps the indices within bounds and decreases the termination measure: the start of the star's match strictly grows on a backtrack and never passes the end of the text |
| Backtracking.SkipStars | include/solvers/greedy.hpp:148-153 | the trailing loop stops at the first token that is not a star, and passes only stars |
| Backtracking.EndOfText | include/solvers/greedy.hpp:148-153 | once the text is used up, the rest of the tokens match iff they are all stars |
| Backtracking.GreedyFromCorrect | include/solvers/greedy.hpp:93-154 | from any scan state that has not skipped past a match, the scan decides the reference answer |
| Backtracking.GreedyRunCorrect | include/solvers/greedy.hpp:93-154 | with no character set and no empty literal, the scan from the start decides the reference answer |
| TokenGreedy.IsMatch | include/solvers/greedy.hpp:93-154 | the loop computes the functional scan; with no character set and no empty literal it is the reference answer |
| TokenGreedy.Run | include/solvers/greedy.hpp:70-86 | the match as above, and space two size_t plus one optional backtrack point |
| TokenGreedy.RunPattern | include/solvers/greedy.hpp:25-29 | parsing then scanning decides the decoded pattern, and for a pattern without `\` the character-level answer |
| TokenGreedySwitch.IsMatch | src/solvers/greedy.cpp:58-117 | computes the same functional scan as the visit-based revision, so the two agree on every input; with no character set and no empty literal it is the reference answer |
| TokenGreedySwitch.Run | src/solvers/greedy.cpp:36-51 | the match as above, and the same constant space |
| CharSpec.CharsMatchTokens | include/solvers/recursive.hpp:83-100 | the character recurrence decides the same as the token recurrence on one token per pattern character |
| CharSpec.CharsSuffix | include/recursive_solver.hpp:72-101 | the index recursion at (i, j) decides the same as the slice recursion on s[i..] and p[j..] |
| CharSpec.SliceStep | include/recursive_solver.hpp:77-100 | an empty pattern matches only the empty text; a leading star either drops itself or drops one text character; any other leading character must be `?` or equal to the first text character |
| CharSpec.LeadingStars | include/recursive_solver.hpp:82-85 | collapsing a leading `**` to `*` does not change the result |
| CharSpec.CharsPrefixStep | include/dp_solver.hpp:64-84 | the prefix-matching relation obeys the table's recurrence: column zero, the star cell, and the `?`/equal cell |
| CharSpec.CharsRowZero | include/dp_solver.hpp:64-68 | the empty text matches p[0..j) iff it is all stars |
| CharRecursive.RecursiveSolver.constructor | include/solvers/recursive.hpp:41-42 | the context holds s, p and their lengths, with depth zero |
| CharRecursive.RecursiveSolver.IsMatch | include/solvers/recursive.hpp:78-101 | the reference character answer at (i, j); the maximum depth grows monotonically to at least `depth`, and by at most what is left to consume |
| CharRecursive.RecursiveSolver.Run | include/solvers/recursive.hpp:48-66 | the reference match, and space equal to the maximum depth times two ints and a return address |
| CharRecursive.RunAndProfile | include/solvers/recursive.hpp:21-26 | the reference match, with space at most m+n frames |
| CharSliceRecursive.IsMatch | include/recursive_solver.hpp:72-101 | collapsing the leading stars and then recursing on slices gives the reference answer; the depth bounds as above |
| CharSliceRecursive.RunAndProfile | include/recursive_solver.hpp:38-59 | the reference match, with space at most m+n frames of one state and a return address |
| CharMemo.Encode | include/memo_solver.hpp:104-106 | cell value 1 stands for a match and 0 for none, and those are the only answers stored |
| CharMemo.IsMatch | include/memo_solver.hpp:98-139 | the reference answer for (i, j), stored in its cell; every cell holds -1 or its encoded reference answer; the depth bounds as above |
| CharMemo.RunAndProfile | include/memo_solver.hpp:45-84 | the reference match; space lies between the int table and the table plus m+n frames |
| CharDp.IsMatch | include/dp_solver.hpp:56-89 | the filled table's last cell is the reference answer |
| CharDp.RunAndProfile | include/dp_solver.hpp:20-41 | the reference match, and space (m+1)(n+1) bools |
| CharNfa.IsMatch | include/nfa_solver.hpp:59-103 | after each text character the single row is that row of the 2D table, so the last cell is the reference answer |
| CharNfa.RunAndProfile | include/nfa_solver.hpp:22-42 | the reference match, and space n+1 bools |
| CharGreedy.At | include/greedy_solver.hpp:57-62 | a pointer reads its character, or the terminator at the end of the string |
| CharGreedy.CharStep | include/greedy_solver.hpp:57-79 | on a text without `*`, one pass of the loop is one step of the token scan on the per-character tokens |
| CharGreedy.IsMatch | include/greedy_solver.hpp:52-88 | for a text without `*`, the four-pointer loop computes the token scan, and so the reference answer |
| CharGreedy.RunAndProfile | include/greedy_solver.hpp:19-37 | for a text without `*`, the reference match; space four pointers |
| CharGreedy.RunValidated | src/main.cpp:104-111 | a text holding a wildcard is refused, any other text is matched, and then the result is the reference answer |
| Validator.FindMultiByteChar | include/validator.hpp:17-25 | the least index of a byte above 127, or none iff every byte is at most 127 |
| Validator.FindWildcard | include/validator.hpp:33-40 | the least index of `?` or `*`, or none iff there is no wildcard |
| Cases.BasicCases | test/include/test_cases.hpp:20-31 | the exact-match, length and empty-string rows hold for the reference semantics |
| Cases.QuestionMarkCases | test/include/test_cases.hpp:34-38 | the `?` rows hold |
| Cases.StarCases | test/include/test_cases.hpp:42-49 | the `*` rows hold |
| Cases.BacktrackingCases | test/include/test_cases.hpp:52-62 | the backtracking rows hold |
| Cases.MixedCases | test/include/test_cases.hpp:65-74 | the mixed-wildcard rows hold |
| Cases.TrapCases | test/include/test_cases.hpp:77-88 | the near-miss rows fail |
| Cases.MissingCharacter | test/include/test_cases.hpp:108-121 | a plain pattern character that the text never holds cannot be matched |
| Cases.DeepFailureCase | test/include/test_cases.hpp:108-121 | thirty `a` against nine `a*` and then `ab` fails |
| Cases.FastFailureCase | test/include/test_cases.hpp:136-138 | a thousand `b` against `a*` fails |
| Cases.ParseEmpty | test/include/test_parser_cases.hpp:18 | the empty pattern gives no tokens and no events |
| Cases.ParsePlainLiteral | test/include/test_parser_cases.hpp:19 | "abc" gives one literal |
| Cases.ParseAnyChar | test/include/test_parser_cases.hpp:20-22 | "a?c" gives literal, any-char, literal |
| Cases.ParseStar | test/include/test_parser_cases.hpp:23-25 | "a*c" gives literal, star, literal |
| Cases.ParseTwoStars | test/include/test_parser_cases.hpp:26-29 | "a**c" gives one star and a merge event at 3 |
| Cases.ParseThreeStars | test/include/test_parser_cases.hpp:30-34 | "a***c" gives one star and merge events at 3 and 4 |
| Cases.ParseEscapedStar | test/include/test_parser_cases.hpp:35 | an escaped star is part of the literal |
| Cases.ParseEscapedQuestionMark | test/include/test_parser_cases.hpp:36 | an escaped question mark is part of the literal |
| Cases.ParseEscapedBackslash | test/include/test_parser_cases.hpp:37 | an escaped backslash is part of the literal |
| Cases.ParseTrailingBackslash | test/include/test_parser_cases.hpp:38-40 | a final backslash gives a trailing-backslash event at 4 |
| Cases.ParseUndefinedEscape | test/include/test_parser_cases.hpp:41-43 | `\n` keeps `n` in the literal and reports an undefined escape at 2 with detail "n" |
| Cases.ComplexPatternPrefix | test/include/test_parser_cases.hpp:44-46 | the loop state after the first six characters of `*a?b\*c**d\` |
| Cases.ParseComplexPattern | test/include/test_parser_cases.hpp:44-49 | `*a?b\*c**d\` gives star, "a", any-char, "b*c", star, "d", with a merge event at 9 and a trailing-backslash event at 11 |

## Left out

- Wall-clock timing. Every `run`/`runAndProfile` also reports a duration from `std::chrono`. This is nondeterministic, so a profile holds only the result and the space.
- The command-line driver in src/main.cpp: option parsing, prompts, console output and the solver registry. Only its wildcard check on the text is modelled (`CharGreedy.RunValidated`). Its multi-byte check appears only as `Validator.FindMultiByteChar`.
- include/utils/validator.hpp holds only declarations, with no bodies, so it is not part of this model. include/wildcard_matcher.h and include/wildcard_matcher.hpp are compile-time selection and a concept, so they are not part of this model either.
- include/utils/compiler.hpp's unreachable marker becomes the precondition "no character set" (`NoCharacterSet`) of the reference token semantics and of the memo and two-state table matchers. The bool table and the greedy scans are total: a character-set token leaves its cells false, or fails to match and backtracks, as in the source.
- Matching a `CharacterSet` token: no solver implements it and the parser never produces one.
- Integer widths: indices, lengths and byte counts are unbounded naturals. The `int` lengths of the character solvers and the `size_t` arithmetic of the space formulas are not checked for overflow.
- `sizeof` values are those of an LP64 target. `DpState` is taken to occupy one byte, and `std::optional<BacktrackPoint>` 24 bytes.
- Bytes are modelled as characters. The character solvers take C strings. Their text and pattern are modelled as the characters before the terminator, and the terminator itself is required to be absent from them.
- include/solvers/dp.hpp reads tokens through an older `type`/`value` interface that include/utils/token.hpp no longer has. The model reads the same kinds and literal values from the `Token` datatype.
- The test rows with generated inputs are not instantiated as lemmas: test/include/test_cases.hpp:91-107, 122-135 and 139-159. They are matches on texts of 31 to 1000 characters. The general theorems cover them, but their concrete verdicts are not computed.
- TokenGreedy.IsMatch: equality with the reference semantics is stated only for token lists without an empty literal. The parser never produces one. On `[LiteralSequence("")]` with an empty text, the trailing loop skips only stars and answers false, where the reference semantics answers true.
- TokenGreedySwitch.IsMatch: the same condition and the same example as the visit-based scan.
- TokenDp.IsMatch: equality with the reference semantics is stated only for token lists without a character set or an empty literal. `TokenTable.EmptyLiteralRowZero` shows that the first row is false for `[LiteralSequence("")]`, while the reference semantics matches the empty text.
- TokenDpState.IsMatch: the same condition as the bool table, for the same reason.
- CharGreedy.IsMatch: equality with the reference semantics is stated only for a text without `*`; nothing is stated for a text containing `*`. The `?`/equal-character test comes before the star test, so a `*` in the text meets a pattern `*` as an equal character. For the text `*a` and the pattern `*`, the scan answers false while the reference semantics answers true. The driver refuses such texts (`CharGreedy.RunValidated`).
- CharGreedy.RunAndProfile: the same condition as CharGreedy.IsMatch. Its result is stated only for a text without `*`, and nothing is stated for a text containing `*`, such as `*a` against `*`.
- TokenMemo.RunAndProfile: the reported space is stated as bounds, not as the exact maximum depth reached. The same holds for CharRecursive.RunAndProfile, CharSliceRecursive.RunAndProfile and CharMemo.RunAndProfile. The methods on the solver state give the exact formula in terms of the depth they record.
