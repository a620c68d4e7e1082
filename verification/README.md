# Movement-script validation engine, in Dafny

This project models the core of the language server for the movement-script
language: the `server/src/server.ts` file. The model covers:

- **The command registry.** This is the `completions` table of nine keys:
  `AUTO`, `MOVETO`, `ATSPEED`, `WITHHDOP`, `WITHSATELLITES`, `WITHALTITUDE`,
  `WITHPARAM`, `WAIT` and `ATDIRECTION`. Each key has a label, a detail text
  and a `data` index.
- **The line-by-line validation of a document** (`validateTextDocument`
  without the publishing step):
  - Split the text on `\n`.
  - Skip empty lines and `#` comments.
  - Flag a line that mentions both `MOVETO` and `WAIT`.
  - For every key but `AUTO`, in declaration order:
    - count its occurrences;
    - cut out each invocation `NAME(...)` from a working copy of the line that
      all keys share;
    - hand the invocation to the key's validator.
- **The eight validators** `evalMoveTo` … `evalAtDirection`. Each strips
  `NAME(` and the first `)` and checks the argument. The arity message sits at
  column 0. Where the other messages sit depends on the validator:
  - ATSPEED, WITHHDOP, WITHSATELLITES, WITHALTITUDE, WAIT and ATDIRECTION put
    their value message over the trimmed value, counted from the scan offset
    plus the length of `NAME(`.
  - MOVETO puts its "should be numbers" message at column 0, like the arity
    message.
  - WITHPARAM puts its name message over the untrimmed name, from the scan
    offset plus the length of `NAME(`. Its empty-value message is an empty
    range at the character just after the comma.
- **The hover lookup.**
  1. Split the text on `\r?\n`.
  2. Take the first run of `\w` characters whose span, end included, holds the
     cursor.
  3. Read that word as a property of the `completions` object.

The JavaScript built-ins this code relies on are modelled over `seq<char>`, in
modules of their own:

- `JsString`: `trim`, `indexOf`, `includes`, `startsWith`, `endsWith`,
  `replace` with a string pattern, `split` on one character, and the match
  count of a global regular expression made of letters.
- `JsNumber`: `Number()` applied to a string, as the StringToNumber operation
  of ECMA-262 defines it (section 7.1.4.1.1), over exact reals. This covers
  white space, the empty string, a sign, `Infinity`, a decimal point, an
  exponent, and `0x`/`0o`/`0b` literals.

The model keeps the following behaviours of the code exactly as it is:

- **The working copy shrinks as the scan goes on.** It is shared by all keys,
  so every scan offset is an offset into the shrunken copy, not into the line.
  - A key whose label has vanished from the copy is looked up at -1.
  - `substring(-1)` then starts from 0.
- **`Number('')` is 0.** So `MOVETO(,)` and `ATSPEED( )` pass.
- **`WITHHDOP(AUTO)` is refused** with the message that says AUTO is allowed.
- **The "below zero" checks of WITHSATELLITES and WITHALTITUDE can never
  fire,** because the value has already passed `/^[0-9]+$/`.
- **WAIT accepts 1,** although its message speaks of "greater than 1".
- **An empty WITHPARAM value reuses the "name should not be empty" text.**
- **The hover treats names every plain object inherits** (`toString`,
  `constructor`, `__proto__`, …) as hits with an empty text.
- **A hover past the last line scans the text `undefined`.**

Modules:

- `Wrappers`: the option type.
- `JsString` and `JsNumber`: the built-ins.
- `Registry`: the keys.
- `Diagnostics`: positions, ranges and the message wordings.
- `Validators`: the eight validators and their dispatch.
- `Scanner`: the working-copy scan of one line.
- `Validation`: the line and document level.
- `Hover`: the hover lookup.
- `Scenarios`: families of invocations, and single invocations such as
  `MOVETO(1,2)`, `MOVETO(,)`, `ATSPEED(AUTO)`, `ATSPEED(-5)`, `WITHHDOP(0.5)`,
  `WITHHDOP(1.5)`, `WAIT(0)` and `WAIT(abc)`.

## Model

| member | source | states |
|---|---|---|
| Registry.KeysInDeclarationOrder | server/src/server.ts:41-96 | `Object.keys(completions)` lists all nine keys, each once, at the position its `data` index (1 to 9) names |
| Registry.NamesDistinct | server/src/server.ts:41-96 | no two keys share a label |
| Registry.LookupIn | server/src/server.ts:130-137 | a lookup that finds a key finds one whose label is the word; a lookup that fails means no key in the list has that label |
| Registry.LookupName | server/src/server.ts:130-137 | looking up a word finds key `k` exactly when `k`'s label is the word |
| JsString.Trim | server/src/server.ts:182 | the trimmed text has no white space at either end and is no longer than the input |
| JsString.TrimOffset | server/src/server.ts:182 | the trimmed text is a slice of the input with only white space cut off before and after it |
| JsString.TrimmedIsFixed | server/src/server.ts:274 | trimming a text that has no white space at either end changes nothing |
| JsString.TrimIdempotent | server/src/server.ts:274 | trimming twice gives the same text as trimming once |
| JsString.TrimEmptyIffAllWhite | server/src/server.ts:274 | a text trims to nothing exactly when it is all white space |
| JsString.IndexFrom | server/src/server.ts:176 | the result is the first occurrence at or after the start index, or -1 when there is none |
| JsString.IndexOf | server/src/server.ts:176 | `indexOf` is -1 exactly when the pattern is absent; otherwise the pattern occurs there and at no earlier index |
| JsString.OccursAtChar | server/src/server.ts:178 | a one-character pattern occurs exactly at the indices holding that character |
| JsString.NotContainsChar | server/src/server.ts:178 | a text without the character has no occurrence of it, and `indexOf` gives -1 |
| JsString.CountFromPositive | server/src/server.ts:173 | the count of matches from an index is positive exactly when the pattern occurs at or after it |
| JsString.CountOccurrences | server/src/server.ts:173 | the match count of a label is positive exactly when the line contains it |
| JsString.CountFromNaive | server/src/server.ts:173 | for a pattern whose first letter does not come back in it, the leftmost non-overlapping matches from an index are all the indices from there on where the pattern occurs |
| JsString.CountOccurrencesNaive | server/src/server.ts:173 | for such a pattern, the length of `match` with the global expression is the number of indices where the pattern occurs |
| JsString.ReplaceFirst | server/src/server.ts:182 | `replace` leaves a text without the pattern unchanged; otherwise it removes exactly one pattern's length |
| JsString.ReplaceFirstRestores | server/src/server.ts:182 | putting the pattern back at its first occurrence restores the original text |
| JsString.IndexOfFront | server/src/server.ts:220 | a pattern that begins the text is found at index 0 |
| JsString.ReplaceFront | server/src/server.ts:220 | replacing the leading pattern leaves exactly the rest |
| JsString.ReplaceAfter | server/src/server.ts:220 | replacing the first `)` cuts the one that follows a `)`-free prefix |
| JsString.Split | server/src/server.ts:232 | `split` yields one more piece than there are separators, and no piece holds a separator |
| JsString.JoinSplit | server/src/server.ts:148 | joining the pieces of a split with the separator gives back the text |
| JsString.SplitAtOnlySeparator | server/src/server.ts:232 | a text with exactly one separator splits into the text before it and the text after it |
| JsNumber.ToNumber | server/src/server.ts:276-287 | `Number()` of a blank text is 0, and a finite value below zero comes only from a text whose trimmed form opens with `-` |
| JsNumber.ToNumberTrim | server/src/server.ts:276 | white space around the literal never changes `Number()`, and an all-white text is 0 |
| JsNumber.RadixLiteral | server/src/server.ts:319-330 | `0x`, `0o` and `0b` literals, either case, are the digits after the prefix read in base 16, 8 or 2; without digits, or with a digit outside the base, they are NaN |
| JsNumber.Pow10Add | server/src/server.ts:319-330 | powers of ten multiply by adding their exponents, as the decimal exponent of a literal scales its mantissa |
| JsNumber.Exponent | server/src/server.ts:319-330 | digits, `e` and digits: the first digits' value times ten to the power of the second |
| JsNumber.NegativeExponent | server/src/server.ts:319-330 | digits, `e-` and digits: the first digits' value times ten to the power minus the second |
| JsNumber.InfinitySpellings | server/src/server.ts:276-287 | `Number()` is infinite exactly for `Infinity`, `+Infinity` and `-Infinity` after trimming, and negative exactly for `-Infinity` |
| JsNumber.DigitsAreNumbers | server/src/server.ts:362-373 | what `/^[0-9]+$/` accepts, `Number` reads as the natural number it spells: never NaN, never negative |
| JsNumber.DigitsDecimal | server/src/server.ts:362-373 | a run of digits is an unsigned decimal literal worth its digit value |
| JsNumber.AutoIsNaN | server/src/server.ts:276 | `Number('AUTO')` is NaN |
| JsNumber.WordIsNaN | server/src/server.ts:245 | a word without digits, signs or points (other than `Infinity`) is NaN |
| JsNumber.NegatedDigits | server/src/server.ts:287 | a minus sign before digits gives the negated value |
| JsNumber.Negated | server/src/server.ts:287 | a minus sign before an unsigned decimal literal negates its value |
| JsNumber.DecimalPoint | server/src/server.ts:330 | `d.f` with single digits is read as d + f/10 |
| JsNumber.ValueZeroIffAllZeros | server/src/server.ts:524 | a digit string is worth 0 exactly when all its digits are `0` |
| JsNumber.NatToString | server/src/server.ts:241 | the decimal rendering of a count is digits, has no leading zero, and is worth the count |
| JsNumber.NatToStringRoundTrip | server/src/server.ts:241 | `Number` of a rendered count gives the count back |
| Validators.ArgumentOf | server/src/server.ts:220 | stripping `NAME(` and `)` from `NAME(x)` gives `x` back when `x` has no `)` |
| Validators.EvalMoveTo | server/src/server.ts:218-257 | at most one diagnostic, at column 0, an arity or a "numbers" message; none exactly when the argument is two numbers around one comma; an empty argument draws "received 0" |
| Validators.MoveToPieces | server/src/server.ts:232-243 | an argument with other than one comma draws the arity message with the number of pieces |
| Validators.MoveToMessages | server/src/server.ts:245-255 | a refused argument with one comma is refused with both of its pieces quoted |
| Validators.NotCoordinatePair | server/src/server.ts:245 | a piece that is not a number makes the argument no coordinate pair |
| Validators.MoveToRefused | server/src/server.ts:245-255 | one comma and a piece that is not a number draw exactly the "numbers" diagnostic |
| Validators.EvalAtSpeed | server/src/server.ts:259-300 | at most one diagnostic, over the trimmed value, or "received 0" for an empty argument; none exactly when the value is `AUTO` or a number not below zero |
| Validators.AtSpeedMessages | server/src/server.ts:276-297 | "positive number" exactly for a number below zero; "number or AUTO" for anything that is neither |
| Validators.EvalWithHdop | server/src/server.ts:302-343 | the same shape as ATSPEED; none exactly when the value is a number from 0 to 1 |
| Validators.WithHdopMessages | server/src/server.ts:319-340 | "between 0 and 1" exactly for a number outside the range; "number or AUTO" for anything else refused, `AUTO` included |
| Validators.EvalDigitsOnly | server/src/server.ts:345-429 | WITHSATELLITES and WITHALTITUDE: none exactly when the value is digits only; otherwise "should be a number"; the "greater than 0" message never appears |
| Validators.EvalWithParam | server/src/server.ts:431-494 | at most two diagnostics on the line; "received 0" for an empty argument; the arity message with the piece count for other than one comma |
| Validators.WithParamDiagnostics | server/src/server.ts:445-492 | around the only comma: a diagnostic over the name when it is not quoted (the "empty" text for an empty name), one at the character after the comma for an empty value, nothing else |
| Validators.ParamPair | server/src/server.ts:457-492 | the name and value checks together: their count, their ranges and messages, all on the line |
| Validators.CheckName | server/src/server.ts:457-480 | a name is refused exactly when it is not wrapped in double quotes, over the name's span |
| Validators.EvalWait | server/src/server.ts:496-537 | the one-value shape; none exactly when the value is digits not all `0` |
| Validators.WaitMessages | server/src/server.ts:513-535 | "should be a number" for anything but digits; "greater than 1" exactly for digits that are all `0` |
| Validators.EvalAtDirection | server/src/server.ts:539-580 | the one-value shape; none exactly when the value is `AUTO` or a number from 0 to 359 |
| Validators.AtDirectionMessages | server/src/server.ts:556-577 | "between 0 and 359" exactly for a number outside the range; "number or AUTO" for anything that is neither |
| Validators.Validate | server/src/server.ts:184-200 | the dispatch: no more diagnostics than the key takes values, none for `AUTO`, all on the line once the offset is at least -1 |
| Validators.ValidateMessages | server/src/server.ts:184-200 | every validator answers an empty argument with "received 0" and never gives the MOVETO-and-WAIT message |
| Validators.OnlyComma | server/src/server.ts:232 | a text with one comma has it at a place with no comma before or after |
| Validators.SplitPair | server/src/server.ts:232-234 | one comma splits the argument into the text before and after it; other counts leave no only comma |
| Scanner.NoParenInName | server/src/server.ts:41-96 | no label holds a `)` |
| Scanner.CallText | server/src/server.ts:176-180 | the cut text stands in the working copy at the scan offset, or at 0 for offset -1 |
| Scanner.Cut | server/src/server.ts:176-182 | the offset is -1 exactly when the label is gone; otherwise it is the first index where the label stands; the copy left is the old copy with the first occurrence of the cut text removed, then trimmed, so it is shorter by at least that text |
| Scanner.CallTextShape | server/src/server.ts:177-180 | the cut text is empty exactly when no `)` follows; otherwise it ends with its only `)` |
| Scanner.CallTextLabel | server/src/server.ts:177-180 | a non-empty cut text at a found label begins with the label |
| Scanner.CutText | server/src/server.ts:176-182 | every turn's text is empty exactly when no `)` follows, ends with its only `)`, and begins with the key's label when the key was found |
| Scanner.Scan | server/src/server.ts:175-182 | `n` turns give `n` calls of the key, each at offset -1 or more, and never lengthen the working copy |
| Scanner.CallsFrom | server/src/server.ts:169-182 | the calls skip `AUTO`, are at offset -1 or more, and come in registry order |
| Scanner.Turn | server/src/server.ts:169-182 | one key's turn: every call it finds is of that key, there are as many as the label occurs in the working copy (none for `AUTO`), and the copy does not grow |
| Scanner.CallsSplitAt | server/src/server.ts:169-182 | the calls of a line are those the keys before a given key find, then those the remaining keys find in the working copy the earlier keys left |
| Scanner.KeyCalls | server/src/server.ts:169-182 | the calls handed to a key's validator are exactly its scan turns, as many as its label occurs in the working copy the keys before it left, not in the line |
| Scanner.MoveToCalls | server/src/server.ts:169-182 | MOVETO, scanned first, is validated once per occurrence of its label in the line itself, that is once per index where `MOVETO` stands |
| Scanner.LabelNoSelfOverlap | server/src/server.ts:41-96 | no label's first letter comes back later in it, so occurrences of a label never overlap |
| Scanner.KeyCallsPerOccurrence | server/src/server.ts:169-182 | a key is validated once for every index where its label stands in the working copy the keys before it left |
| Scanner.CopyShrinks | server/src/server.ts:169-182 | the working copy never grows from one key's turn to a later one |
| Scanner.NoLabelsNoCalls | server/src/server.ts:169-182 | a line in which no label occurs yields no calls |
| Validation.Report | server/src/server.ts:184-200 | at most two diagnostics per call, never the MOVETO-and-WAIT one, all on the line |
| Validation.ValidateLine | server/src/server.ts:150-202 | an empty or comment line gets nothing; every diagnostic lies on the line |
| Validation.ExclusiveFirst | server/src/server.ts:150-167 | a line's diagnostics open with the MOVETO-and-WAIT one exactly when the line is looked at and holds both labels |
| Validation.ExclusiveOnlyFirst | server/src/server.ts:156-200 | the MOVETO-and-WAIT diagnostic can only come first |
| Validation.LineWithoutLabels | server/src/server.ts:150-202 | a line in which no label occurs draws no diagnostic |
| Validation.LinesFrom | server/src/server.ts:148-203 | every diagnostic lies on one line of the document, at or after the first line looked at |
| Validation.LinesFromOnLine | server/src/server.ts:148-203 | what the document reports on line `j` is what line `j` alone gives |
| Validation.LinesBelowNotOn | server/src/server.ts:148-203 | later lines report nothing on an earlier line |
| Validation.DocumentByLine | server/src/server.ts:148-203 | the document's diagnostics lie on its lines, and those on line `j` are the validation of that line alone |
| Validation.OnlyCommentsFrom | server/src/server.ts:151-152 | a document of empty lines and comments draws no diagnostic |
| Hover.RunEnd | server/src/server.ts:115-121 | the end of a run of word characters: all word characters up to it, none at it |
| Hover.RunUnique | server/src/server.ts:115-121 | two runs that start together end together |
| Hover.FirstHit | server/src/server.ts:118-127 | the `exec` loop's hit is a run holding the cursor, and no earlier run holds it |
| Hover.WordAt | server/src/server.ts:115-127 | the word is empty exactly when no run holds the cursor; otherwise it is a run that holds it |
| Hover.WordAtRun | server/src/server.ts:118-127 | the word under the cursor is the run that holds it |
| Hover.DropReturn | server/src/server.ts:112 | a line that ends with a carriage return loses exactly that one; any other line is kept |
| Hover.SplitLines | server/src/server.ts:112 | one more line than there are line feeds, none holding a line feed |
| Hover.SplitLinesWithoutReturns | server/src/server.ts:112 | without carriage returns, splitting on `\r?\n` is splitting on `\n` |
| Hover.SplitLinesNormalize | server/src/server.ts:112 | splitting on `\r?\n` is splitting on `\n` after every `\r\n` has become `\n`: a carriage return goes exactly when a line feed follows it |
| Hover.SplitLinesStep | server/src/server.ts:112 | the lines of a text up to its first line feed and beyond: that first line without a trailing carriage return, then the lines of the rest |
| Hover.BreakNormalized | server/src/server.ts:112 | turning `\r\n` into `\n` takes the carriage return from before the first line feed, if there is one, and converts the rest on its own |
| Hover.Content | server/src/server.ts:129-139 | a key's label shows the key's detail; any other word shows an empty text exactly when an object inherits that name, and no hover otherwise |
| Hover.LineAt | server/src/server.ts:111-113 | line `n` of the document, the text split on `\n` once every `\r\n` is `\n`; it holds no line feed; past the last line the text scanned is `undefined` |
| Hover.HoverAt | server/src/server.ts:109-140 | the hover over a key's label is its detail; for any other word there is a hover only for inherited names |
| Hover.HoverOnLabel | server/src/server.ts:109-140 | hovering anywhere from a label's first character to just past its last shows the key's detail |
| Hover.LabelContent | server/src/server.ts:118-137 | a run that spells a key's label shows that key's detail |
| Hover.LabelDetail | server/src/server.ts:129-137 | a key's label shows that key's detail |
| Hover.HoverPastLastLine | server/src/server.ts:113-139 | past the last line there is no hover |
| Hover.NoHoverFor | server/src/server.ts:129-139 | the empty word and `undefined` show nothing |
| Hover.HoverWithoutDocument | server/src/server.ts:110-111 | without a document there is no hover |
| Scenarios.EmptyInvocation | server/src/server.ts:218-580 | `NAME()` draws "received 0" from every validator |
| Scenarios.MissingParenthesis | server/src/server.ts:177-180 | with no `)` after the key, the empty text draws "received 0" |
| Scenarios.MoveToNumbers | server/src/server.ts:218-257 | MOVETO with two numbers around one comma is accepted |
| Scenarios.MoveToNotNumbers | server/src/server.ts:245-255 | MOVETO with a piece that is not a number is refused, quoting both pieces |
| Scenarios.MoveToCommas | server/src/server.ts:232-243 | MOVETO with other than one comma is refused with the number of pieces |
| Scenarios.SpeedBelowZero | server/src/server.ts:287-297 | ATSPEED refuses a number below zero as not positive |
| Scenarios.SpeedNotNumber | server/src/server.ts:276-286 | ATSPEED refuses what is neither a number nor `AUTO` |
| Scenarios.SpeedAccepted | server/src/server.ts:259-300 | ATSPEED accepts `AUTO` and numbers not below zero |
| Scenarios.HdopAccepted | server/src/server.ts:302-343 | WITHHDOP accepts numbers from 0 to 1 |
| Scenarios.HdopOutOfRange | server/src/server.ts:330-340 | WITHHDOP refuses numbers outside 0 to 1 |
| Scenarios.WaitAccepted | server/src/server.ts:496-537 | WAIT accepts digits that are not all `0` |
| Scenarios.WaitAllZeros | server/src/server.ts:524-534 | WAIT refuses a run of zeros with the "greater than 1" message |
| Scenarios.WaitNotDigits | server/src/server.ts:513-523 | WAIT refuses anything but digits |
| Scenarios.MoveToOneTwo | server/src/server.ts:218-257 | `MOVETO(1,2)` is accepted |
| Scenarios.MoveToBlanks | server/src/server.ts:245 | `MOVETO(,)` is accepted, because `Number('')` is 0 |
| Scenarios.MoveToNothing | server/src/server.ts:221-230 | `MOVETO()` draws "should have 2 values (received 0)" |
| Scenarios.MoveToThreeValues | server/src/server.ts:232-243 | `MOVETO(1,2,3)` draws "received 3" |
| Scenarios.MoveToLetter | server/src/server.ts:245-255 | `MOVETO(a,2)` is refused, quoting `a` and `2` |
| Scenarios.AtSpeedAuto | server/src/server.ts:276 | `ATSPEED(AUTO)` is accepted |
| Scenarios.AtSpeedMinusFive | server/src/server.ts:287-297 | `ATSPEED(-5)` is refused as not positive |
| Scenarios.AtSpeedFoo | server/src/server.ts:276-286 | `ATSPEED(foo)` is refused as neither a number nor AUTO |
| Scenarios.WithHdopHalf | server/src/server.ts:319-341 | `WITHHDOP(0.5)` is accepted |
| Scenarios.WithHdopOneAndAHalf | server/src/server.ts:330-340 | `WITHHDOP(1.5)` is refused as not between 0 and 1 |
| Scenarios.HdopPoint | server/src/server.ts:319-341 | `WITHHDOP(d.f)` with single digits is accepted when d + f/10 is at most 1 |
| Scenarios.HdopPointOutOfRange | server/src/server.ts:330-340 | `WITHHDOP(d.f)` with single digits is refused as not between 0 and 1 when d + f/10 is above 1 |
| Scenarios.WaitFive | server/src/server.ts:496-537 | `WAIT(5)` is accepted |
| Scenarios.WaitZero | server/src/server.ts:524-534 | `WAIT(0)` is refused as not greater than 1 |
| Scenarios.WaitAbc | server/src/server.ts:513-523 | `WAIT(abc)` is refused as not a number |
| Scenarios.MoveToAndWait | server/src/server.ts:156-167 | any line of the form `MOVETO…WAIT…` opens with the MOVETO-and-WAIT diagnostic spanning the whole line, whatever the rest of the line holds |
| Scenarios.OpensWithMoveTo | server/src/server.ts:151-167 | a line starting with `MOVETO` is not a comment, so when it also holds `WAIT` its diagnostics open with the whole-line MOVETO-and-WAIT diagnostic |

## Left out

- **The language-server plumbing** is not modelled: the connection, `onInitialize`, the document store, change events and `sendDiagnostics`. These are I/O around the validation engine. The document text is a parameter.
- **The completion handlers** (`onCompletion`, `onCompletionResolve`) are not modelled. They return the registry unchanged, so there is nothing to state beyond the registry itself.
- **The severity of a diagnostic** is not modelled, because it is always error (1). A message is a datatype; `Diagnostics.Text` gives its wording.
- **The `end` argument of the validators** is not modelled, because no validator reads it.
- **The `problems` counter** is not modelled, because it is never read.
- **IEEE-754 rounding and overflow** are not modelled. `Number()` is computed over exact reals, so a literal too large or too precise for a double is read exactly, not rounded.
- **Unicode case folding and normalisation** play no part.
- **Columns are counted in characters, not in UTF-16 code units.** A Dafny `char` is a Unicode scalar value, so a character outside the Basic Multilingual Plane counts once here, where JavaScript's `length`, `indexOf` and `position.character` count it twice. On a line holding such a character, the end column of the MOVETO-and-WAIT diagnostic, every value column after that character and the hover column differ from the server's by one per such character. Lines of Basic Multilingual Plane characters are counted the same way in both.
- **Hover.HoverAt does not state that the details of different keys differ.** It states the result per key ("the hover over a key's label is that key's detail"), which is all the server relies on.
- **Registry.LookupIn reads only the table's own entries.** The names every object inherits are handled one level up, in `Hover.Content`.
- **Validation.ValidateDocument has no row.** Its properties are stated through `Validation.DocumentByLine` and `Validation.LinesFrom`.
