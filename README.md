# CalculatorEngine in Dafny

This project models `CalculatorEngine`, the calculation core of a small SwiftUI
calculator. The engine has two parts:

- **An input buffer.** The private `expression` string is edited in place by
  `clear()`, `append(_:)` and `appendOperator(_:)`.
- **An evaluator front end.** `evaluateExpression(_:)` first canonicalises the
  keypad glyphs `÷` and `×` and trims the text. It then rejects any character
  outside `0123456789.+-*/ `. It short-cuts a two-operand division and
  reports a zero divisor as `"Error"`. In every other case it wraps each
  numeric token in parentheses and hands the text to `NSExpression`.

The project has three modules, one per file:

- `string_ops.dfy` (`StringOps`) holds the Foundation string operations the
  engine uses, over strings taken as sequences of Unicode scalars:
  - `components(separatedBy:)`, which keeps empty pieces;
  - `split(separator:)`, which drops empty pieces;
  - `joined(separator:)`;
  - `replacingOccurrences(of:with:)`;
  - `trimmingCharacters(in: .whitespacesAndNewlines)`.
- `evaluator.dfy` (`Evaluator`) holds the pure front end of
  `evaluateExpression`. Its result is an `Evaluation`, which is one of three
  outcomes:
  - `Failed(cause)`: the call returns `"Error"`;
  - `Quotient(numerator, denominator)`: the shortcut divides these two numbers;
  - `Delegated(text)`: the platform evaluator receives this text.
- `engine.dfy` (`Engine`) holds the class `CalculatorEngine`. Its field
  `expression: string` is changed by `Clear`, `Append` and `AppendOperator`
  (each with `modifies this`). Each of these methods is proved against a
  function of the old buffer (`AfterAppend`, `AfterOperator`). The lemmas
  about those functions state the following:
  - pressing `.` twice has the same effect as pressing it once;
  - the `hasSuffix(".")` test is redundant;
  - every space-separated token keeps at most one decimal point;
  - two operator keys in a row both stay in the buffer;
  - a buffer built only from digits, the point, spaces and the four operator
    glyphs passes validation. This entry alphabet is the model's own choice:
    the app's keypad also has `%`, `+/-`, `AC` and `=`, and no key is wired to
    the engine.

`append` and `appendOperator` read the field to decide what to change, but
no method returns it. `evaluateExpression` never reads it: its parameter
shadows the field, so `EvaluateExpression` depends only on its argument.

`Double(_:)` is modelled by `IsNumber`: an optional sign, then digits with at
most one point and at least one digit. "Is zero" (`IsZero`) means every digit
is `0`. On text that has passed validation, this agrees with Swift's parser,
except where noted under "Left out".

`appendOperator` always ends the buffer with a space. So the removal of a
pending operator never fires on two consecutive operator keys:
`3`, `+`, `-` yields `"3 +  - "`, not `"3 - "`. The model follows the code
(`ConsecutiveOperatorsBothKept`, `OperatorTypingExample`).

`Engine.DotTypingExample` and `Engine.OperatorTypingExample` replay two
sessions on a fresh engine. They have no contract of their own.

## Model

| member | source | states |
|---|---|---|
| Engine.CalculatorEngine.constructor | CalculatorEngine.swift:20 | a new engine starts with an empty expression |
| Engine.CalculatorEngine.Clear | CalculatorEngine.swift:25-27 | the expression is empty afterwards, whatever it held |
| Engine.CalculatorEngine.Append | CalculatorEngine.swift:31-38 | the new expression is `AfterAppend` of the old one and the value |
| Engine.CalculatorEngine.AppendOperator | CalculatorEngine.swift:43-48 | the new expression is `AfterOperator` of the old one and the operator |
| Engine.CalculatorEngine.EvaluateExpression | CalculatorEngine.swift:56-109 | the outcome is `Evaluate` of the argument, independent of the stored expression; it is "Error" for an invalid character exactly when the formatted text has one |
| Engine.AfterAppend | CalculatorEngine.swift:31-38 | the buffer either grows by exactly the value or is unchanged, and it grows exactly when the value is not `.` or the last space-separated token has no `.` |
| Engine.AfterOperator | CalculatorEngine.swift:43-48 | the result ends with space, operator, space; what precedes is a prefix of the old buffer, the whole buffer exactly when it does not end in `+ - × ÷`, and otherwise one character shorter |
| Engine.WithoutTrailingOperator | CalculatorEngine.swift:44-46 | a prefix of the buffer at most one character shorter, equal to it exactly when the buffer does not end in an operator glyph |
| Engine.DotEndInLastComponent | CalculatorEngine.swift:33 | a buffer ending in `.` has a `.` in its last space-separated token, so `hasSuffix(".")` adds nothing to the token test |
| Engine.AppendDotIdempotent | CalculatorEngine.swift:31-38 | appending `.` twice equals appending it once |
| Engine.AppendKeepsDotsSeparated | CalculatorEngine.swift:31-38 | typing any single character keeps every space-separated token to at most one decimal point |
| Engine.DropLastKeepsDotsSeparated | CalculatorEngine.swift:45 | removing a last character that is not a space keeps every token to at most one decimal point |
| Engine.OperatorKeepsDotsSeparated | CalculatorEngine.swift:43-48 | an operator key `+ - × ÷` keeps every token to at most one decimal point |
| Engine.ConsecutiveOperatorsBothKept | CalculatorEngine.swift:44-47 | a second operator right after a first is appended without removing the first |
| Engine.OperatorAfterDigit | CalculatorEngine.swift:44-47 | after a digit, an operator key keeps the digit and appends ` op ` |
| Engine.EndsWith | CalculatorEngine.swift:33 | `hasSuffix` for a one-character suffix: the text is non-empty and its last character is that one |
| Engine.AppendKeepsEntryAlphabet | CalculatorEngine.swift:31-38 | appending text over the entry alphabet (digits, point, space, `+ - × ÷`) to a buffer over it leaves a buffer over it |
| Engine.OperatorKeepsEntryAlphabet | CalculatorEngine.swift:43-48 | an operator over the entry alphabet keeps the buffer over it |
| Engine.CanonicalEntryIsValid | CalculatorEngine.swift:58-68 | canonicalising text over the entry alphabet yields only characters of the validated alphabet |
| Engine.EntryBufferPassesValidation | CalculatorEngine.swift:58-72 | a buffer over the entry alphabet is never rejected for an invalid character |
| Evaluator.CanonicalGlyphs | CalculatorEngine.swift:58-62 | the length is kept, `÷` and `×` disappear, each character maps by `CanonicalGlyph` (`÷`→`/`, `×`→`*`, all else unchanged) |
| Evaluator.ReplaceGlyphs | CalculatorEngine.swift:58-62 | the source's four `replacingOccurrences` calls, in order, equal character-wise canonicalisation |
| Evaluator.CanonicalGlyphsFixed | CalculatorEngine.swift:58-62 | text without `÷` and `×` is left unchanged |
| Evaluator.CanonicalGlyphsConcat | CalculatorEngine.swift:58-62 | canonicalisation distributes over concatenation |
| Evaluator.CanonicalGlyphsKeepsWhitespace | CalculatorEngine.swift:58-63 | whitespace is left unchanged by canonicalisation |
| Evaluator.CanonicalKeepsNonWhitespace | CalculatorEngine.swift:58-63 | canonicalisation never turns a non-whitespace character into whitespace |
| Evaluator.Formatted | CalculatorEngine.swift:58-63 | the formatted text has no `÷` or `×` and neither starts nor ends with whitespace or a newline |
| Evaluator.FormattedIdempotent | CalculatorEngine.swift:58-63 | formatting formatted text changes nothing |
| Evaluator.FormattedIgnoresSurroundingWhitespace | CalculatorEngine.swift:58-63 | whitespace and newlines around an expression do not change its formatted form |
| Evaluator.FormattedPlain | CalculatorEngine.swift:58-63 | glyph-free text that is already trimmed formats as itself |
| Evaluator.InvalidCharacterRejected | CalculatorEngine.swift:67-72 | a character outside the alphabet, other than `÷` and `×` (which become `/` and `*`), yields "Error" wherever it stands, including interior whitespace such as a tab, unless it is whitespace that trimming removes |
| Evaluator.SurvivesFormatting | CalculatorEngine.swift:58-63 | a character other than `÷` and `×` is still present after formatting when it is not whitespace, or when non-whitespace text stands on both sides of it |
| Evaluator.RejectedWhenKept | CalculatorEngine.swift:67-72 | an out-of-alphabet character that survives formatting yields "Error" |
| Evaluator.HasInvalidCharacter | CalculatorEngine.swift:68-69 | some character lies outside `0123456789.+-*/ ` |
| Evaluator.IsNumber | CalculatorEngine.swift:78-79 | `Double(_:)` succeeds: an optional sign, then digits with at most one point and at least one digit |
| Evaluator.IsZero | CalculatorEngine.swift:80 | the parsed value is zero: every digit is `0` |
| Evaluator.DivisionOperands | CalculatorEngine.swift:76 | the non-empty `/`-separated pieces, in order, each trimmed |
| Evaluator.TakesDivisionShortcut | CalculatorEngine.swift:75-79 | the text has a `/`, exactly two operands, and both parse as numbers |
| Evaluator.TrimEach | CalculatorEngine.swift:76 | one trimmed piece per piece, in order |
| Evaluator.OperandsOfOneSlash | CalculatorEngine.swift:76 | text with a single `/` and non-empty sides splits into the two sides, trimmed |
| Evaluator.ShortcutNeedsSlash | CalculatorEngine.swift:75-77 | without `/` there is at most one operand, so the shortcut never applies |
| Evaluator.NumberShape | CalculatorEngine.swift:77-79 | a parsed number is non-empty, uses only digits, signs and the point, and is trimmed |
| Evaluator.UnsignedShape | CalculatorEngine.swift:77-79 | an unsigned decimal is non-empty and uses only digits and the point |
| Evaluator.SpacedDivisionFormatted | CalculatorEngine.swift:58-72 | `p / q` for two numbers formats as itself and passes validation |
| Evaluator.SpacedDivisionOperands | CalculatorEngine.swift:76 | the operands of `p / q` are `p` and `q` |
| Evaluator.NumberDivision | CalculatorEngine.swift:74-83 | `p / q` for two numbers is "Error" when `q` is zero and the quotient of `p` by `q` otherwise |
| Evaluator.EvaluateOnShortcut | CalculatorEngine.swift:75-83 | on formatted, valid text whose operands are two numbers, the outcome is the zero-divisor error or the quotient |
| Evaluator.DigitNumber | CalculatorEngine.swift:77-80 | one digit is a number, and it is zero exactly when it is `0` |
| Evaluator.DivisionExamples | CalculatorEngine.swift:74-83 | `6 / 0` is "Error" and `6 / 3` divides 6 by 3 |
| Evaluator.Cast | CalculatorEngine.swift:90-94 | a component that parses as a number is wrapped in parentheses; any other is unchanged |
| Evaluator.WithCasts | CalculatorEngine.swift:88-96 | the space-separated components, empty ones included, each cast, joined with single spaces |
| Evaluator.CastEach | CalculatorEngine.swift:88-95 | one component per component, each wrapped exactly when it parses as a number |
| Evaluator.UncastEach | CalculatorEngine.swift:92 | one component per component, each with one enclosing pair of parentheses removed |
| Evaluator.WithCastsComponents | CalculatorEngine.swift:88-96 | the rewritten text has the same components as the original, numeric ones wrapped and all others, empty ones included, unchanged |
| Evaluator.WithCastsRoundTrip | CalculatorEngine.swift:88-96 | unwrapping every component of the rewrite and rejoining with spaces gives back the text, for text without `(` |
| Evaluator.ComponentOfStringWithout | CalculatorEngine.swift:89 | a character absent from the text is absent from each of its components |
| Evaluator.Evaluate | CalculatorEngine.swift:56-109 | "Error" for an invalid character exactly when the formatted text has one; a quotient only of the two operands of the formatted text, both numbers, with a non-zero divisor; delegation only for valid text off the shortcut, with text whose components are the formatted text's components cast one by one and whose unwrapped components rejoin to the formatted text |
| Evaluator.EvaluateFormatted | CalculatorEngine.swift:56-109 | the outcome depends only on the formatted text |
| Evaluator.EvaluateIgnoresSurroundingWhitespace | CalculatorEngine.swift:58-63 | surrounding whitespace and newlines never change the outcome |
| Evaluator.DivisionByZeroOnlyOnShortcut | CalculatorEngine.swift:74-80 | a zero-divisor error happens exactly on valid text that takes the shortcut with a zero divisor; a zero divisor in a longer expression is delegated |
| StringOps.Components | CalculatorEngine.swift:33 | there is always at least one component, so `.last!` cannot trap |
| StringOps.ComponentsSnoc | CalculatorEngine.swift:33 | appending a separator opens an empty last component; any other character extends the last component |
| StringOps.ComponentsExcludeSeparator | CalculatorEngine.swift:89 | no component contains the separator |
| StringOps.ComponentsWithoutSeparator | CalculatorEngine.swift:89 | text without the separator is its own only component |
| StringOps.ComponentsConcat | CalculatorEngine.swift:89 | the components of `a sep b` are those of `a` followed by those of `b` |
| StringOps.ComponentsSeparatedChar | CalculatorEngine.swift:47 | appending ` g ` adds the components `g` and an empty one |
| StringOps.JoinComponents | CalculatorEngine.swift:89-96 | joining the components with the separator gives back the text |
| StringOps.ComponentsOfJoin | CalculatorEngine.swift:89-96 | splitting a join of separator-free pieces gives back the pieces |
| StringOps.LastComponent | CalculatorEngine.swift:33 | the last of the components, which always exist |
| StringOps.Join | CalculatorEngine.swift:96 | the pieces with one separator between neighbours |
| StringOps.NonEmptyConcat | CalculatorEngine.swift:76 | dropping empty pieces distributes over concatenation, so kept pieces stay in order with repeats kept |
| StringOps.SplitConcat | CalculatorEngine.swift:76 | the pieces of `a / b` are the pieces of `a` followed by those of `b` |
| StringOps.SplitWithout | CalculatorEngine.swift:76 | text without the separator is its own only piece, or no piece when empty |
| StringOps.NonEmpty | CalculatorEngine.swift:76 | the non-empty pieces, no more than before, none lost |
| StringOps.Split | CalculatorEngine.swift:76 | every piece is non-empty and free of the separator |
| StringOps.ReplaceAll | CalculatorEngine.swift:59-62 | the length is kept, each occurrence is replaced and nothing else changes, and none remains |
| StringOps.TrimStart | CalculatorEngine.swift:63 | the result is empty or starts outside the trimmed set |
| StringOps.TrimEnd | CalculatorEngine.swift:63 | the result is a prefix, empty or ending outside the trimmed set |
| StringOps.Trim | CalculatorEngine.swift:63 | the result neither starts nor ends with a trimmed character |
| StringOps.TrimStartDropsPrefix | CalculatorEngine.swift:63 | only a prefix of trimmed characters is removed at the front |
| StringOps.TrimEndDropsSuffix | CalculatorEngine.swift:63 | only a suffix of trimmed characters is removed at the back |
| StringOps.TrimIsCore | CalculatorEngine.swift:63 | the result is a slice of the input with only trimmed characters outside it |
| StringOps.TrimKeepsAlphabet | CalculatorEngine.swift:63 | trimming keeps text within any alphabet it was in |
| StringOps.TrimKeepsInterior | CalculatorEngine.swift:63 | everything between two non-trimmed characters survives trimming |
| StringOps.TrimTrimmed | CalculatorEngine.swift:63 | trimming trimmed text changes nothing |
| StringOps.TrimPadded | CalculatorEngine.swift:76 | one trimmed character on either side of trimmed text is removed |
| StringOps.TrimAbsorbs | CalculatorEngine.swift:63 | trimmed characters around text do not change its trimmed form |
| StringOps.TrimStartSkips | CalculatorEngine.swift:63 | leading trimmed characters are skipped |
| StringOps.TrimStartAppend | CalculatorEngine.swift:63 | trailing trimmed characters do not change the trimmed form |
| StringOps.TrimEndAppend | CalculatorEngine.swift:63 | trailing trimmed characters are removed at the back |

## Left out

- The `NSExpression` evaluation (CalculatorEngine.swift:101-108) is a platform evaluator outside the program. The model stops at `Delegated(text)`.
- Evaluator.Evaluate: a `Delegated` outcome does not say the call returns. Text that passes validation but that `NSExpression(format:)` cannot parse raises an Objective-C exception that Swift cannot catch, so the program stops. For example, `5 +` is delegated as `(5) +`.
- The floating-point division and `String(format: "%.12g", …)` formatting (CalculatorEngine.swift:81-83, 104) are not modelled. The model stops at `Quotient(numerator, denominator)`.
- The `print` calls are debugging output only.
- The three commented-out earlier versions of `evaluateExpression` (CalculatorEngine.swift:111-214) are dead code.
- `formatResult` (CalculatorEngine.swift:221-227) is private, never called and floating-point based.
- `BasicCalculator-2/ContentView.swift` is not part of this model. It is layout and never calls the engine.
- Evaluator.IsNumber: it is stated over the characters that validation lets through, so exponents, `inf` and `nan` never arise. It takes any digit string as a number, so it does not model a decimal that overflows to infinity.
- Evaluator.IsZero: a non-zero decimal so small that `Double` rounds it to zero counts as non-zero here, while the source would report a division by zero.
- Strings are sequences of Unicode scalars. Swift's `String` works on grapheme clusters for `last`, `removeLast`, `hasSuffix` and `contains`, and the model does not capture that difference. For example, an operator glyph followed by a combining mark forms one cluster.
- StringOps.WhitespacesAndNewlines: `CharacterSet.whitespacesAndNewlines` is modelled as the Unicode White_Space characters. The platform's exact table is not available here.
