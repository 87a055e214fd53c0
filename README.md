# Sound-intensity (NIS) calculator: the input pipeline

The calculator (`script.js`) reads a linear sound intensity I from a text
field and shows either an error message or the level `10·log10(I / I_REF)` in
decibels, with I_REF = 1e-12. This project models the part of the script that
decides what the page shows:

- `parseInput`: trim, turn the first decimal comma into a point, convert with
  `Number()`, and map every non-finite result to NaN;
- the early-return ladder of `validateAndCalculate`: empty, then invalid, then
  below `MIN_I = 1e-12`, then above `MAX_I = 1`, and otherwise success;
- the display helpers `clearMessages`, `showError` and `showResult`, which
  write the text and CSS class of the message and result elements;
- the live `input` handler with its character filter `/^[0-9eE+\-.,\s]*$/`.

Modules, in dependency order:

- `Wrappers`/`Sequences` (`wrappers.dfy`): an `Option` type and small sequence lemmas.
- `Text` (`text.dfy`): the ECMAScript whitespace set, `String.prototype.trim` and
  `replace` with a one-character pattern, which replaces the first match only.
- `NumericLiteral` (`numeric_literal.dfy`): the StringNumericLiteral grammar
  that `Number()` accepts once it has trimmed its argument (ECMA-262 section
  7.1.4.1). `Parse` builds a `Literal` tree and `Render` prints it back. The two
  are inverses: `ParseRender` and `ParseSound` together say that
  `Parse(s) == Some(l)` exactly when `l` is well formed and `Render(l) == s`.
- `NumberConversion` (`number_conversion.dfy`): `ToNumber`, i.e. `Number()`
  on a string. It keeps the exact value of the literal and models overflow to
  ±Infinity at 2^1024 − 2^970, the halfway point above the largest double.
- `Intensity` (`intensity.dfy`): `Normalise`, `ParseInput` and the ladder.
  `Classify(raw)` is the outcome `validateAndCalculate` reaches. `Decide(n)` is
  the same ladder read off the Number `n`, and `ClassifyByNumber` proves that
  the two agree on every non-blank input. `ClassifyEmpty`, `ClassifyInvalid`,
  `ClassifyFinite` and `SuccessInRange` state each outcome outright, in terms
  of the input, `Number()` of its normalised text and the two thresholds.
- `Display` (`display.dfy`): the screen as a value (`Screen`), and the page as
  a class `Page` with the four mutable fields. Its methods `ClearMessages`,
  `ShowError`, `ShowResult`, `ValidateAndCalculate` and `OnInput` are
  imperative, like their JavaScript counterparts. `ShowError`, `ShowResult`
  and `OnInput` are proved against a function of the old screen (`WithError`,
  `WithResult`, `Filtered`). `ClearMessages` and `ValidateAndCalculate` are
  not: their new screen does not depend on the old one at all, `Cleared()` and
  `ScreenFor(Classify(raw), decibels)` respectively. So nothing an earlier
  calculation or the live filter left on the page affects a later calculation.
- `Scenarios` (`scenarios.dfy`): concrete inputs and their outcomes. These
  cover the bounds of the accepted range, decimal commas and overflow, and the
  inputs on which the live filter and the calculation disagree.

The ladder's `null` case is modelled as it is written. `parseInput` returns
`null` for an empty normalised string. JavaScript would read `null` as 0 in
`value < MIN_I` and report BelowMin. `NullMarkerUnreachable` proves that this
never happens: the earlier `raw.trim() === ''` check has already answered
Empty for every such input, because the comma replacement keeps the length of
the trimmed string.

Two points of the code shape the model:

- The helpers `clearMessages`, `showError` and `showResult` (script.js:17-33)
  update the page in place. They are therefore methods of a class `Page`
  holding the page's four fields.
- `Number()` (script.js:41) accepts more than a sign, digits, an optional
  fraction and an optional exponent. It also accepts non-decimal integers
  (`0x1`, `0o7`, `0b1`), `Infinity`, `.5`, `5.` and the empty string. So
  `"0x1"` is accepted as 1 (`HexAccepted`). `Infinity` converts to an
  infinity, which `parseInput` turns into NaN (script.js:42), so it is
  reported as invalid.

## Model

| member | source | states |
|---|---|---|
| Text.IsWhitespace | script.js:37 | no contract of its own: the WhiteSpace and LineTerminator code points that `trim()` strips and `\s` matches; `Trim`, `TrimSplits` and `Display.MatchesAllowedPattern` state what is done with them |
| Text.Trim | script.js:37 | the result is no longer than the input, starts and ends with non-whitespace, and is empty exactly when the input is all whitespace |
| Text.TrimStartSuffix | script.js:37 | trimming the front keeps a suffix and drops only whitespace |
| Text.TrimEndPrefix | script.js:37 | trimming the back keeps a prefix and drops only whitespace |
| Text.TrimOfPadded | script.js:37 | a trimmed string padded with whitespace on both sides trims back to itself |
| Text.TrimSplits | script.js:37 | every string is whitespace, then its trimmed form, then whitespace |
| Text.TrimOfPaddedString | script.js:37 | whitespace added around any string does not change its trimmed form |
| Text.TrimIdempotent | script.js:37 | trimming twice is trimming once |
| Text.IndexOf | script.js:37 | the position of the first occurrence: it holds the character and no earlier position does |
| Text.ReplaceFirst | script.js:37 | `replace(',', '.')` keeps the length and leaves a string without comma unchanged |
| Text.ReplaceFirstAt | script.js:37 | position by position, a character is replaced exactly when it is the target and no earlier character is; every other character stays |
| NumericLiteral.LeadingDigits | script.js:41 | the digit run measured is all decimal digits and cannot be extended |
| NumericLiteral.SplitSignSound | script.js:41 | the sign text and the rest concatenate back to the input, and no sign is taken only when the input starts with neither `+` nor `-` |
| NumericLiteral.ParseExponentSound | script.js:41 | an accepted exponent part is well formed and prints back as its text |
| NumericLiteral.SplitFractionSound | script.js:41 | the point, the fraction digits and the rest concatenate back to the input, and the fraction digits run as far as they can |
| NumericLiteral.ParseUnsignedDecimalSound | script.js:41 | an accepted decimal literal is well formed and prints back, sign first, as its text |
| NumericLiteral.Parse | script.js:41 | no contract of its own: the StringNumericLiteral grammar `Number()` applies to its trimmed argument; `ParseSound` and `ParseRender` prove `Parse(s) == Some(l)` exactly when `l` is well formed and `Render(l) == s` |
| NumericLiteral.Render | script.js:41 | no contract of its own: the text of a literal tree; `ParseSound`, `ParseRender`, `RenderInjective`, `NumberConversion.RenderShape` and `NumberConversion.RenderTrimmed` state it |
| NumericLiteral.ParseSound | script.js:41 | whatever `Number()`'s grammar accepts is a well-formed literal that renders as the parsed text |
| NumericLiteral.ParseRender | script.js:41 | every well-formed literal is recovered from its rendering |
| NumericLiteral.RenderInjective | script.js:41 | two well-formed literals with the same text are equal |
| NumberConversion.MathematicalValue | script.js:41 | no contract of its own: the exact value of a decimal or non-decimal literal, zero for the empty one; `ToNumberOfRender`, `ToNumberFiniteBounded` and `Intensity.NegativeLiteralRejected` state it |
| NumberConversion.RoundToNumber | script.js:41 | no contract of its own: an exact value at or beyond ±(2^1024 − 2^970) becomes the infinity of its sign, anything else stays itself; `FiniteWithinRange` and `LargeLiteralOverflows` state it, and "## Left out" names the rounding it omits |
| NumberConversion.LiteralToNumber | script.js:41 | no contract of its own: the Number a well-formed literal denotes, `Infinity` and `-Infinity` included; `ToNumberOfRender` and `LargeLiteralOverflows` state it |
| NumberConversion.ToNumber | script.js:41 | no contract of its own: `Number()` on a string, NaN when the trimmed text is no literal; `ToNumberNaN`, `ToNumberFiniteBounded` and `ToNumberOfRender` state it |
| NumberConversion.RenderShape | script.js:41 | the first and last characters a rendered literal can have, by kind of literal |
| NumberConversion.RenderTrimmed | script.js:41 | a rendered literal has no whitespace at either end |
| NumberConversion.ToNumberOfRender | script.js:41 | `Number()` of a literal's text, with any whitespace around it, is the Number that literal denotes |
| NumberConversion.ToNumberNaN | script.js:41-42 | `Number(s)` is NaN exactly when the trimmed `s` is the text of no well-formed literal |
| NumberConversion.ToNumberFiniteBounded | script.js:41-42 | a finite result is the exact value of a non-Infinity literal and lies strictly inside the overflow bounds |
| NumberConversion.FiniteWithinRange | script.js:42 | every value of magnitude at most 2^1023, so every in-range intensity, stays finite |
| NumberConversion.LargeLiteralOverflows | script.js:41-42 | a nonzero decimal literal scaled by 10^342 or more converts to an infinity of its sign |
| Intensity.ReferenceIntensity | script.js:5 | I_REF is 1e-12 |
| Intensity.MinIntensity | script.js:6 | MIN_I equals I_REF |
| Intensity.MaxIntensity | script.js:7 | MAX_I is 1 |
| Intensity.Normalise | script.js:37 | the normalised text has the length of the trimmed text and is empty exactly for blank input |
| Intensity.ParseInput | script.js:35-44 | `null` exactly for blank input, and a returned value is finite and below the overflow bound |
| Intensity.Numeric | script.js:70-80 | no contract of its own: the number `<` and `>` compare, with `null` read as 0; `NullMarkerUnreachable` states what that would do |
| Intensity.Ladder | script.js:64-85 | no contract of its own: the `isNaN` check, then the lower and the upper bound, each returning early; `ClassifyNonBlank`, `NullMarkerUnreachable` and `ClassifyFinite` state it |
| Intensity.Classify | script.js:52-86 | no contract of its own: the outcome the early-return ladder reaches; `ClassifyEmpty`, `ClassifyInvalid`, `ClassifyFinite` and `SuccessInRange` state it |
| Intensity.ClassifyNonBlank | script.js:56-64 | past the empty check, the outcome is the ladder applied to what `parseInput` returns |
| Intensity.Decide | script.js:64-85 | no contract of its own: the ladder read off a Number, NaN and the infinities being invalid; `ClassifyByNumber` and `ClassifyLiteral` tie it to `Classify` |
| Intensity.NullMarkerUnreachable | script.js:38-62 | for non-blank input `parseInput` never returns null, and a null that reached the ladder would be BelowMin |
| Intensity.ClassifyEmpty | script.js:56-60 | the outcome is Empty exactly for empty or whitespace-only input |
| Intensity.ClassifyInvalid | script.js:41-68 | the outcome is Invalid exactly when the input is not blank and `Number()` of the normalised text is NaN or infinite |
| Intensity.ClassifyByNumber | script.js:52-86 | a non-blank input gets the outcome that the ladder `Decide`, read off the Number, gives the converted number |
| Intensity.ClassifyFinite | script.js:70-85 | for a finite conversion v: v < 1e-12 is BelowMin, v > 1 is AboveMax, and 1e-12 ≤ v ≤ 1 succeeds with v (both bounds inclusive) |
| Intensity.SuccessInRange | script.js:70-85 | a success carries an intensity in [MIN_I, MAX_I] that is the converted value of the normalised text |
| Intensity.PaddingInvariant | script.js:37 | whitespace around the input changes neither the normalised text nor the outcome |
| Intensity.ClassifyByNormalise | script.js:37-44 | inputs with the same normalised text get the same outcome |
| Intensity.CommaNormalisesAsPoint | script.js:37 | an input with a single comma normalises exactly as the input with a point in its place |
| Intensity.DecimalCommaEquivalence | script.js:37 | an input with a single comma gets the same outcome as the input with a point in its place |
| Intensity.RenderHasNoComma | script.js:37 | no literal text contains a comma, so normalisation leaves a literal alone |
| Intensity.NormaliseOfPadded | script.js:37 | a literal with whitespace around it normalises to the literal's text and is not blank |
| Intensity.ClassifyLiteral | script.js:52-86 | a well-formed non-empty literal with whitespace around it gets the outcome `Decide` gives the Number it denotes |
| Intensity.NegativeLiteralRejected | script.js:41-74 | no literal with a minus sign succeeds, whether a negative decimal or `-Infinity` |
| Display.Cleared | script.js:17-22 | no contract of its own: the screen `clearMessages` writes; `Page.ClearMessages` is proved against it |
| Display.WithError | script.js:24-28 | no contract of its own: the screen `showError` leaves; `Page.ShowError` and `ErrorScreen` state it |
| Display.WithResult | script.js:30-33 | no contract of its own: the screen `showResult` leaves; `Page.ShowResult` and `SuccessScreen` state it |
| Display.ResultLine | script.js:31 | no contract of its own: the template `Su NIS es de: ${dbValue} dB`; `ResultLineReadBack` states that the decibel text can be recovered from it |
| Display.ErrorText | script.js:57-77 | no contract of its own: the message of each error outcome, the four texts written out as constants; `ErrorTextReadBack` states that each reads back to its own outcome |
| Display.ScreenFor | script.js:52-86 | no contract of its own: the screen `validateAndCalculate` leaves for an outcome; `Page.ValidateAndCalculate` is proved against it and `ErrorScreen`, `SuccessScreen` and `ScreenReadBack` state it |
| Display.IsAllowedChar | script.js:104 | no contract of its own: the character class `[0-9eE+\-.,\s]`; `MatchesAllowedPattern`, `DecimalLiteralPassesFilter`, `NonDecimalLiteralFlagged` and `InfinityLiteralFlagged` state it |
| Display.Filtered | script.js:105-111 | no contract of its own: the screen the input handler leaves; `Page.OnInput` is proved against it and `FilterTouchesOnlyMessage` states it |
| Display.Page.constructor | script.js:13-14 | the page starts with the given screen |
| Display.Page.ClearMessages | script.js:17-22 | both texts empty, no message class, result class `result` |
| Display.Page.ShowError | script.js:24-28 | the message shows the text with class `error` and the result text is cleared; the result class is kept |
| Display.Page.ShowResult | script.js:30-33 | only the result slot changes: `Su NIS es de: <dB> dB` with class `result success` |
| Display.Page.ValidateAndCalculate | script.js:52-86 | whatever the page showed before, the new screen is the one for the input's outcome; calling it twice on the same input gives the same screen |
| Display.Page.OnInput | script.js:100-112 | the message slot is set to the warning when the filter fails and cleared when it matches; the result slot is untouched |
| Display.MatchesAllowedPattern | script.js:104-105 | the pattern matches exactly when every character is a digit, `e`, `E`, `+`, `-`, `.`, `,` or whitespace (the empty string included) |
| Display.ErrorScreen | script.js:17-28 | an error screen shows its message with class `error` and a blank result with class `result` |
| Display.SuccessScreen | script.js:17-33 | a success screen keeps the message slot as `clearMessages` left it and shows the result line in the success style |
| Display.ErrorTextReadBack | script.js:57-77 | each error message names its own outcome: the four texts are distinct |
| Display.ResultLineReadBack | script.js:31 | the decibel text can be read back from the result line |
| Display.ScreenReadBack | script.js:52-86 | the outcome, and on success the decibel text, can be read back from the screen |
| Display.ScreenDeterminesOutcome | script.js:52-86 | two outcomes that leave the same screen are the same error, or successes with the same decibel text |
| Display.BlankInputScreen | script.js:53-60 | a blank input shows the Empty message and an empty result line |
| Display.FilterTouchesOnlyMessage | script.js:105-111 | the filter keeps the result slot and clears the message exactly when every character is allowed |
| Display.DecimalLiteralPassesFilter | script.js:104 | every decimal literal, with whitespace around it, passes the filter |
| Display.NonDecimalLiteralFlagged | script.js:104 | hexadecimal, octal and binary literals are flagged although `Number()` accepts them |
| Display.InfinityLiteralFlagged | script.js:104 | `Infinity` literals are flagged |
| Scenarios.MicroWattAccepted | script.js:70-85 | `"1e-6"` succeeds with intensity 0.000001 |
| Scenarios.MinimumAccepted | script.js:70-74 | `"1e-12"` succeeds: the lower bound is inclusive |
| Scenarios.BelowMinimum | script.js:70-74 | `"1e-13"` is BelowMin |
| Scenarios.MaximumAccepted | script.js:76-80 | `"1"` succeeds: the upper bound is inclusive |
| Scenarios.AboveMaximum | script.js:76-80 | `"2"` is AboveMax |
| Scenarios.NegativeBelowMinimum | script.js:70-74 | `"-1"` is BelowMin |
| Scenarios.EmptyInput | script.js:56-60 | `""` is Empty |
| Scenarios.BlankInput | script.js:56-60 | `" \t "` is Empty |
| Scenarios.LettersInvalid | script.js:41-68 | `"abc"` is Invalid |
| Scenarios.TrailingLetterInvalid | script.js:39-68 | `"1e-6x"` is Invalid |
| Scenarios.PaddedAccepted | script.js:37 | `"  1e-6 "` gets the outcome of `"1e-6"` |
| Scenarios.OverflowInvalid | script.js:41-68 | `"1e400"` overflows to an infinity and is Invalid, not AboveMax |
| Scenarios.DecimalComma | script.js:37 | `"0,001"` gets the outcome of `"0.001"` |
| Scenarios.ThousandthAccepted | script.js:37-85 | `"0.001"` succeeds with intensity 0.001 |
| Scenarios.SecondCommaKept | script.js:37 | `"1,0,0"` normalises to `"1.0,0"`: the second comma stays |
| Scenarios.SecondCommaInvalid | script.js:37-42 | `"1,0,0"` is therefore Invalid |
| Scenarios.HexAccepted | script.js:41 | `"0x1"` succeeds with intensity 1 |
| Scenarios.FilterFlagsHex | script.js:104-105 | the filter flags `"0x1"` |
| Scenarios.FilterPassesBareExponent | script.js:104-105 | the filter lets `"1e"` through |
| Scenarios.BareExponentInvalid | script.js:41-68 | `"1e"` is Invalid |

## Left out

- NumberConversion.RoundToNumber: binary64 rounding is not modelled below the overflow threshold. A finite result is the literal's exact value. So `"1.00000000000000001"`, which `Number()` rounds to 1 and the page accepts, is AboveMax here. Inputs whose exact value lies within rounding distance of 1e-12 or 1 can likewise be decided differently.
- Negative zero is not distinguished from zero (it is BelowMin either way).
- Display.Page.ValidateAndCalculate: the decibel text `formatDb(10 * Math.log10(value / I_REF))` (script.js:46-49, 83) is a parameter `decibels: real -> string`. Dafny has no logarithm, and `toFixed`/`parseFloat` are binary64 formatting. The model proves which value is passed and where its text appears, not what the text is.
- Display.Page.constructor: the page's initial contents come from the HTML, which is not part of this model, so the constructor takes the initial screen as a parameter.
- DOM lookups, the click and Enter-key listeners, `preventDefault` and `input.focus()` (script.js:10-14, 58, 66, 72, 78, 89-97) are event plumbing. The handlers are modelled as methods called with the input's current value.
- Strings are sequences of Unicode code points, while JavaScript strings are UTF-16 code units. Characters outside the Basic Multilingual Plane are read as one character here.
- Text.IsWhitespace: the whitespace set is the one ECMA-262 lists by name (WhiteSpace with the Unicode Zs characters, plus LineTerminator), fixed at the Unicode version that lists U+1680, U+2000–U+200A, U+202F, U+205F and U+3000 as Zs.
