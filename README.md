# Step-by-step math bot: a verified model of its core

The bot (`matsstepbystep.py`) answers chat messages that hold a math problem:
a system of two equations joined by `and` or `&`, a single equation, or an
expression to simplify. This project models, in Dafny, the part of the bot
that decides what happens to the text before the algebra library does any
solving:

- **`preprocess_input`** (module `Normalizer`). This is the four-step text
  normaliser:
  1. Connectors (`and` in any case, or `&`) become ` & `.
  2. Whitespace is collapsed and the text is stripped.
  3. The glyph table is applied (`×`, `÷`, `^`, `−`, `—` and the padded
     parentheses).
  4. A `*` goes between a digit and a letter.

  Each regular-expression substitution is a function. `PreprocessInput` is a
  method that reassigns the text step by step, as `preprocess_input` does, with its
  loop over the replacement table (`ReplaceAll`).
- **`validate_expression`** (module `Algebra`). The algebra library is an
  abstract `Engine` value: a deterministic parser whose outcome is `Parsed`,
  `SympifyError` or another exception, the same three outcomes for building
  `Eq` from two parsed sides, plus the solvers and the simplifier.
  These stand for the transcript-producing code that runs after validation.
- **The structural checks of the two solution paths** (module `Validation`).
  - The single-equation path checks its left side before its right side.
  - The system path loops over the two fragments, collecting errors and
    equations. It runs as an imperative method `GenerateSystemSolutionSteps`,
    proved equal to a functional specification `SystemSolutionSteps`.
  - The exact reply texts are modelled: "Invalid left side", "Validation
    errors", "Solving error", "System solution error".
- **`handle_math_problem`** (module `Dispatch`):
  - choosing the problem text and rejecting empty input;
  - routing on `&` and `=`;
  - expression evaluation, including the replies when an exception escapes;
  - the cut of the reply to 4000 characters.
- **Module `Text`** holds the Python string operations the code relies on:
  - `str.isspace`, using CPython's whitespace table, which is also what `\s`
    matches;
  - `strip`, `count`, `split(sep)`, `split(sep, 1)`, `join`, and `str(n)`.

Main results:

- After step 1 no `and` is left in any letter case and every `&` has a
  space on each side. After step 2 whitespace is in normal form (single
  plain spaces, none at the ends) with the same words. Later steps may undo
  some of this: the strip of step 2 removes the padding of an `&` at either
  end, and the padding of step 3 leaves spaces at the ends of the text.
- After the whole pipeline every parenthesis has a space on each side.
- The pipeline removes the glyphs, turns `^` into `**`, and only inserts `*`, so that
  no digit is followed by a letter.
- It keeps the count of `=`. It keeps the count of `&` when the input has no
  `and`.
- The route taken therefore follows the raw input's own `&` and `=` counts.
- The sequential `replace` loop equals a one-pass translation of each
  character, because no replacement produces a later key.
- In the system path, equation 1 is checked before equation 2. An exception
  ends the loop. Any error withholds the solver. Otherwise the solver
  receives both equations, each cut at its first `=`.
- Every reply fits the 4000-character limit, except a critical error.

## Model

| member | source | states |
|---|---|---|
| `Text.IsSpace` | matsstepbystep.py:54-55 | the whitespace class: what `\s` matches in the two substitutions and what `strip()` removes here and at lines 262-263 and 269, i.e. Python's `str.isspace` (the control characters 0x09-0x0D and 0x1C-0x1F, the space, NEL, NO-BREAK SPACE and the Unicode space separators) |
| `Text.IsDigit` | matsstepbystep.py:66 | the `\d` of the look-behind, read as `0`-`9` |
| `Text.IsAsciiLetter` | matsstepbystep.py:66 | the `[a-zA-Z]` of the look-ahead |
| `Text.LeadingSpaces` | matsstepbystep.py:55 | the count is within the text, everything before it is whitespace and the next character is not |
| `Text.TrailingSpaces` | matsstepbystep.py:55 | the same at the end of the text |
| `Text.Strip` | matsstepbystep.py:55 | `str.strip()`: the result is the slice right after the leading whitespace, neither end of it is whitespace, and only whitespace follows it |
| `Text.StripParts` | matsstepbystep.py:55 | a text is its leading whitespace, its stripped text and its trailing whitespace, concatenated |
| `Text.StripAfterSpaces` | matsstepbystep.py:55 | whitespace put in front of a text does not change what `strip()` gives |
| `Text.StripBeforeSpaces` | matsstepbystep.py:55 | whitespace put after a text does not change what `strip()` gives |
| `Text.Count` | matsstepbystep.py:266 | `str.count` is at most the length and is zero exactly when the character is absent |
| `Text.CountConcat` | matsstepbystep.py:266 | counting is additive over concatenation |
| `Text.Split` | matsstepbystep.py:257 | `str.split(c)` gives one more piece than there are separators, no piece holds the separator, and joining the pieces with it gives the text back |
| `Text.SplitFirst` | matsstepbystep.py:268 | `split(c, 1)` cuts at the first separator: the text is left + separator + right, and the left has no separator |
| `Text.SplitOnce` | matsstepbystep.py:257-269 | a text with exactly one separator splits into exactly its two sides, both by `split(c)` and by `split(c, 1)` |
| `Text.JoinWith` | matsstepbystep.py:177 | `sep.join(parts)`; its properties are stated by `SplitJoin` and by `Split`'s round trip |
| `Text.SplitJoin` | matsstepbystep.py:177 | joining separator-free pieces with a separator is undone by `split` on it: the pieces come back exactly; with `Split`'s own contract this makes `join` and `split` inverse |
| `Text.Decimal` | matsstepbystep.py:159 | `str(n)` for the equation number: decimal digits only, no leading zero, and their value is `n` |
| `Algebra.ValidateExpression` | matsstepbystep.py:69-75 | valid exactly when parsing succeeds, invalid exactly when it raises `SympifyError`, and any other exception escapes with its message |
| `Normalizer.ReplaceConnectors` | matsstepbystep.py:54 | the left-to-right scan of the case-insensitive substitution of `and` or `&`, with the whitespace around it, by ` & `; its properties are stated by `ReplaceJoined`, `ReplaceConnectorsLeavesNoAnd`, `ReplaceConnectorsPadsAmpersands`, `ReplaceConnectorsIdentity`, `ReplaceConnectorsKeepsCount` and `ReplaceConnectorsKeepsAmpersands` |
| `Normalizer.ReplaceConnectorsLeavesNoAnd` | matsstepbystep.py:54 | after step 1 no `and` remains in any letter case, not even inside a word |
| `Normalizer.ReplaceConnectorsPadsAmpersands` | matsstepbystep.py:54 | after step 1 every `&` has a space on each side |
| `Normalizer.ReplaceConnectorsIdentity` | matsstepbystep.py:54 | text without `and` or `&` passes step 1 unchanged |
| `Normalizer.MatchCount` | matsstepbystep.py:54 | a match consumes only whitespace besides its connector, so a character other than whitespace is counted in the connector or after the match |
| `Normalizer.ReplaceConnectorsKeepsCount` | matsstepbystep.py:54 | step 1 keeps the count of every character that is neither whitespace, `&`, a letter of `and` nor one the later steps touch |
| `Normalizer.ReplaceConnectorsKeepsAmpersands` | matsstepbystep.py:54 | without any `and`, step 1 keeps the number of `&` |
| `Normalizer.ReplaceJoined` | matsstepbystep.py:54 | a connector (`and` in any letter case, or `&`) between two connector-free texts is a single match: step 1 gives the left text without its trailing whitespace, then ` & `, then the right text without its leading whitespace |
| `Normalizer.ReplaceJoinedCount` | matsstepbystep.py:54 | so step 1 turns such a joined text into one with exactly one `&` |
| `Normalizer.SquashSpaces` | matsstepbystep.py:55 | `re.sub(r'\s+', ' ', text)`; its properties are stated by `SquashSpacesRuns`, `SquashSpacesIdentity`, `SquashSpacesKeepsWords` and `SquashSpacesKeepsCount` |
| `Normalizer.CollapseWhitespace` | matsstepbystep.py:55 | squashing followed by `strip()`; its properties are stated by `CollapseWhitespaceNormalises`, `StripKeepsWords` and `StripKeepsCount` |
| `Normalizer.SquashSpacesRuns` | matsstepbystep.py:55 | after squashing, every whitespace character is a plain space and no two are adjacent |
| `Normalizer.SquashSpacesIdentity` | matsstepbystep.py:55 | text whose whitespace is already single spaces is unchanged by squashing |
| `Normalizer.SquashSpacesKeepsWords` | matsstepbystep.py:55 | squashing keeps the words (`str.split()`) in order |
| `Normalizer.SquashSpacesKeepsCount` | matsstepbystep.py:55 | squashing keeps the count of every character that is not whitespace |
| `Normalizer.StripKeepsWords` | matsstepbystep.py:55 | stripping keeps the words |
| `Normalizer.StripKeepsCount` | matsstepbystep.py:55 | stripping keeps the count of every character that is not whitespace |
| `Normalizer.CollapseWhitespaceNormalises` | matsstepbystep.py:55 | step 2 leaves whitespace in normal form (no whitespace at the ends, single plain spaces) with exactly the input's words |
| `Normalizer.GlyphOf` | matsstepbystep.py:58-61 | the replacement dict read as a per-character map: which glyph becomes which text, and every other character is kept |
| `Normalizer.ReplacementsNonInterfering` | matsstepbystep.py:58-61 | no replacement text holds the key of a later entry |
| `Normalizer.ReplaceChar` | matsstepbystep.py:63 | one `str.replace(key, value)`; `SequentialIsTranslate` relates its repeated use to `Translate` |
| `Normalizer.ApplyReplacements` | matsstepbystep.py:62-63 | the `replace` calls of the loop applied in dict order; `ReplaceAll` computes it and `SequentialIsTranslate` equates it with `Translate` |
| `Normalizer.Translate` | matsstepbystep.py:58-63 | every character replaced at once by its dict entry; its properties are stated by `TranslateShape`, `CaretBecomesPower`, `TranslateKeepsOthers` and `TranslateKeepsCount` |
| `Normalizer.SequentialIsTranslate` | matsstepbystep.py:62-63 | applying the `replace` calls one after another equals replacing each character at once by its dictionary entry |
| `Normalizer.ReplaceAll` | matsstepbystep.py:62-63 | the loop over the dict gives the sequential application of all its entries |
| `Normalizer.TranslateShape` | matsstepbystep.py:57-63 | after step 3 none of the five glyphs is left and every parenthesis has a space on both sides |
| `Normalizer.CaretBecomesPower` | matsstepbystep.py:59 | every `^` becomes `**`, and the text around it is translated on its own |
| `Normalizer.TranslateKeepsOthers` | matsstepbystep.py:62-63 | text with no glyph and no parenthesis is unchanged by step 3 |
| `Normalizer.TranslateKeepsCount` | matsstepbystep.py:62-63 | step 3 keeps the count of every character it neither rewrites nor inserts |
| `Normalizer.InsertStars` | matsstepbystep.py:66 | the zero-width substitution inserting `*` between a digit and an ASCII letter; its properties are stated by `InsertStarsOnlyInserts`, `InsertStarsCount`, `InsertStarsSeparates`, `InsertStarsIdentity`, `InsertStarsChars` and `InsertStarsKeepsPadding` |
| `Normalizer.InsertStarsOnlyInserts` | matsstepbystep.py:66 | deleting every `*` from step 4's output gives the same as deleting them from its input |
| `Normalizer.InsertStarsCount` | matsstepbystep.py:66 | step 4 adds exactly one `*` per digit-to-letter boundary |
| `Normalizer.InsertStarsSeparates` | matsstepbystep.py:66 | after step 4 no digit is directly followed by an ASCII letter |
| `Normalizer.InsertStarsIdentity` | matsstepbystep.py:66 | text without a digit-to-letter boundary is unchanged by step 4 |
| `Normalizer.InsertStarsChars` | matsstepbystep.py:66 | step 4 brings in no character except `*` |
| `Normalizer.InsertStarsKeepsPadding` | matsstepbystep.py:66 | parentheses padded before step 4 stay padded |
| `Normalizer.InsertStarsExample` | matsstepbystep.py:66 | `x2y` becomes `x2*y`: a letter-to-digit boundary gets no star |
| `Normalizer.Normalize` | matsstepbystep.py:51-67 | the four steps composed; its properties are stated by `NormalizeShape`, `NormalizeKeepsCount`, `NormalizeKeepsEquals`, `NormalizeKeepsAmpersands` and `NormalizeNotIdempotent`, and `PreprocessInput` computes it |
| `Normalizer.PreprocessInput` | matsstepbystep.py:51-67 | the method's step-by-step reassignment gives the composed pipeline `Normalize` |
| `Normalizer.NormalizeShape` | matsstepbystep.py:51-67 | normalised text has no glyph, padded parentheses and no digit directly followed by a letter |
| `Normalizer.NormalizeKeepsCount` | matsstepbystep.py:51-67 | the whole pipeline keeps the count of every character that no step rewrites, inserts or consumes |
| `Normalizer.NormalizeKeepsEquals` | matsstepbystep.py:51-67 | the pipeline keeps the number of `=` |
| `Normalizer.NormalizeKeepsAmpersands` | matsstepbystep.py:51-67 | with no `and` in the input, the pipeline keeps the number of `&` |
| `Normalizer.NormalizeJoinedCount` | matsstepbystep.py:51-67 | two connector-free texts joined by a connector normalise to a text with exactly one `&` |
| `Normalizer.NormalizeJoinedSides` | matsstepbystep.py:51-67 | splitting that normalised text at `&` gives two pieces, which once stripped are the two texts each normalised on its own and stripped |
| `Normalizer.ExampleLeftSide` | matsstepbystep.py:51-67 | `2x+y=7 ` normalises to `2*x+y=7` once stripped |
| `Normalizer.ExampleRightSide` | matsstepbystep.py:51-67 | ` x-y=2` normalises to `x-y=2` once stripped |
| `Normalizer.NormalizeParenthesised` | matsstepbystep.py:51-67 | `(x)` normalises to ` ( x ) ` |
| `Normalizer.NormalizePadded` | matsstepbystep.py:51-67 | ` ( x ) ` normalises to ` (  x  ) ` |
| `Normalizer.NormalizeLoneConnector` | matsstepbystep.py:51-67 | the bare word `and` normalises to a lone `&`: step 2's strip removes the padding step 1 put around it |
| `Normalizer.NormalizeNotIdempotent` | matsstepbystep.py:51-67 | normalising `(x)` twice differs from normalising it once |
| `Validation.SingleEquationSteps` | matsstepbystep.py:104-149 | left side first: an unparsable left side is reported whatever the right side is; an escaping exception gives "Solving error"; the solver runs only when both sides parse |
| `Validation.LeftSideDecidesFirst` | matsstepbystep.py:108-111 | once the left side fails, neither the right side nor the solver affects the reply |
| `Validation.CheckFragment` | matsstepbystep.py:158-174 | an exception escapes only from a fragment with `=`; a checked fragment yields an equation exactly when it records no error, and that equation is its text cut at the first `=` |
| `Validation.CheckSides` | matsstepbystep.py:162-174 | the same for the two sides of one equation; when both sides parse, building `Eq` decides alone: the equation is kept exactly when it builds, a `SympifyError` from it is the one error "Equation n error", and any other exception escapes |
| `Validation.CheckFragments` | matsstepbystep.py:157-174 | the loop over the fragments, numbered from 1; its properties are stated by `SystemChecksInOrder`, `AbortedStaysAborted` and `ExtendChecks` |
| `Validation.MissingEquals` | matsstepbystep.py:159 | the error text `Equation n missing '=': fragment`, with `n` in decimal |
| `Validation.InvalidLeftIn` | matsstepbystep.py:164 | the error text `Invalid left side in equation n: side` |
| `Validation.InvalidRightIn` | matsstepbystep.py:166 | the error text `Invalid right side in equation n: side` |
| `Validation.EquationError` | matsstepbystep.py:174 | the error text `Equation n error: message` for a `SympifyError` while building the equation |
| `Validation.SystemSolutionSteps` | matsstepbystep.py:150-177 | two fragments without `=` give the "Validation errors" block with both "missing '='" lines in order |
| `Validation.AbortedStaysAborted` | matsstepbystep.py:157-174 | once an exception escapes the checks, later fragments are never looked at |
| `Validation.SystemChecksInOrder` | matsstepbystep.py:157-174 | equation 1 is checked before equation 2: its exception ends the loop, and its errors and equation come first |
| `Validation.BothSidesInvalid` | matsstepbystep.py:163-174 | with both sides invalid, the errors are left, then right, then the parse error of the left side |
| `Validation.MissingEqualsSkipsSideChecks` | matsstepbystep.py:158-160 | a fragment without `=` records exactly one error, whatever the parser says |
| `Validation.SolverSeesBothEquations` | matsstepbystep.py:168-177 | when no error is recorded, both fragments held `=` and the solver gets both equations in order |
| `Validation.CleanSystemIsSolved` | matsstepbystep.py:162-177 | when all four sides parse and both equations build, the solver is called with both equations |
| `Validation.UnbuildableEquationReported` | matsstepbystep.py:168-177 | sides that parse are not enough: when equation 1 does not build and equation 2 is clean, the reply is the "Validation errors" block with the one "Equation 1 error" line |
| `Validation.ErrorsWithholdSolver` | matsstepbystep.py:176-177 | any recorded error gives the "Validation errors" header followed by the errors, one per line, equation 1's before equation 2's; the reply does not depend on the solver |
| `Validation.ExceptionEndsSystem` | matsstepbystep.py:244-245 | an exception escaping the checks makes the reply "System solution error" with its message: equation 1's whatever equation 2 is, otherwise equation 2's |
| `Validation.ExtendChecks` | matsstepbystep.py:157-174 | one more round of the loop adds the next fragment's errors and equation, or ends with its exception |
| `Validation.CheckEquation` | matsstepbystep.py:158-174 | the loop body appends exactly the fragment's errors and equation, or reports the escaping exception |
| `Validation.CheckEquationSides` | matsstepbystep.py:162-174 | the same for a fragment that holds `=`, including the building of `Eq` |
| `Validation.GenerateSystemSolutionSteps` | matsstepbystep.py:150-177 | the imperative loop over the two fragments gives the reply `SystemSolutionSteps` |
| `Dispatch.Problem` | matsstepbystep.py:250-251 | the problem is empty exactly when both texts are missing or empty; a non-empty handed-over text wins over the message text |
| `Dispatch.Classify` | matsstepbystep.py:256-270 | one `&` gives the system route, two or more the rejection; with no `&`, one `=` gives the single-equation route, two or more the rejection, none the expression route with the text unchanged |
| `Dispatch.SystemFragments` | matsstepbystep.py:256-264 | the system path receives the stripped text on each side of the single `&` |
| `Dispatch.SingleSides` | matsstepbystep.py:265-269 | the single-equation path receives the stripped sides of the single `=` |
| `Dispatch.BlankFragmentsAccepted` | matsstepbystep.py:257-264 | any whitespace-only (or empty) fragments around a single `&` are not rejected; they reach the system path as empty equations |
| `Dispatch.LoneConnectorRoute` | matsstepbystep.py:254-264 | the bare word `and` takes the system route with two empty fragments |
| `Dispatch.LoneConnectorIsBlankSystem` | matsstepbystep.py:249-281 | the bare word `and` is answered with the "Validation errors" block reporting both equations as missing `=` |
| `Dispatch.RouteByCounts` | matsstepbystep.py:256-270 | texts with equal `&` and `=` counts take the same branch |
| `Dispatch.RouteFollowsRawCounts` | matsstepbystep.py:254-270 | without `and` in the raw input, the branch taken follows the raw input's own `&` and `=` counts |
| `Dispatch.RawSystemRoutes` | matsstepbystep.py:254-264 | a raw input with one `&` and no `and` is answered by the system path on the normalised fragments |
| `Dispatch.JoinedSystemRoutes` | matsstepbystep.py:254-264 | two connector-free texts joined by `and` (any letter case) or `&` take the system route, and the fragments it receives are the two texts, each normalised on its own and stripped; the reply is the system path's on them |
| `Dispatch.AndExampleRoutes` | matsstepbystep.py:43 | the help text's example `2x+y=7 and x-y=2` is answered as the system of `2*x+y=7` and `x-y=2` |
| `Dispatch.RawSingleRoutes` | matsstepbystep.py:254-269 | a raw input with one `=`, no `&` and no `and` is answered by the single-equation path on the normalised sides, cut to the limit |
| `Dispatch.RawExpressionRoutes` | matsstepbystep.py:254-278 | a raw input with no `=`, no `&` and no `and` is answered by expression evaluation of its normalised text; a `SympifyError` from the validator gives "Invalid expression syntax" |
| `Dispatch.Truncate` | matsstepbystep.py:281 | `solution[:4000]` is a prefix of at most 4000 characters, the whole reply when it is shorter, and exactly 4000 characters otherwise |
| `Dispatch.ExpressionReply` | matsstepbystep.py:270-285 | an invalid expression is rejected; an escaping exception becomes "Critical error"; otherwise the evaluation or the `SympifyError` report, cut to the limit |
| `Dispatch.Respond` | matsstepbystep.py:249-285 | empty input and the two count rejections get their fixed replies, and every reply fits the limit unless it is a critical error |
| `Dispatch.HandleMathProblem` | matsstepbystep.py:247-285 | the handler, built from the imperative normaliser and system path, sends the reply `Respond` |

## Left out

- Telegram transport is not modelled: the bot commands, `reply_chat_action`, logging, `CONFIG`, `main` and the `atexit` cleanup. A failure of a Telegram call, which would also end in the "Critical error" reply, is not modelled either.
- `handle_image` (OCR, image files, its own character filtering and its extra call to `preprocess_input`) is not part of this model.
- SymPy is abstract. Parsing, building `Eq`, solving and simplifying are the fields of `Engine`. The transcripts built after validation (lines 113-143 and 179-240) are `solveSingle` and `solveSystem`. These two fields also stand for the handlers of the exceptions those lines raise: lines 113-143 catch nothing themselves, and their exceptions become the "Equation parsing error" and "Solving error" replies of lines 145-148; an exception escaping lines 179-240 becomes the "System solution error" reply of lines 244-245.
- `\d` is read as the ASCII digits `0`-`9`. Python matches every Unicode decimal digit for `\d` in a `str` pattern.
- Dispatch.Respond: its own contract names only the empty input, the two count rejections and the length bound. The system, single-equation and expression replies are stated by `RawSystemRoutes`, `RawSingleRoutes` and `RawExpressionRoutes` for raw inputs without `and`, and by `JoinedSystemRoutes` for two texts joined by one `and` or `&`.
- The normaliser is not idempotent: the padding around a parenthesis is padded again on a second pass (`NormalizeNotIdempotent`).
- Blank fragments around `&` are not rejected. They reach the system path as empty equations, where each is reported as missing `=` (`BlankFragmentsAccepted`, `LoneConnectorIsBlankSystem`).
- The system path collects every error of both equations; it does not stop at the first failing fragment. A side that fails validation is reported a second time by the parse that builds the equation (`BothSidesInvalid`).
- No contract states that the final output of the pipeline is free of `and`; that is proved for step 1 only (`ReplaceConnectorsLeavesNoAnd`).
