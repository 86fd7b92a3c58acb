# Calculator input state machine

A Dafny model of the logic behind the calculator screen of a small SwiftUI
application: the `handleTap` state machine of `CalculatorScreen`. The
screen holds three fields:
- `currentNumber`, the display string. Here it is `display`.
- `buffer`, the saved left operand.
- `operation`, the pending operation. Here it is `op`.

Each tap of one of ten buttons changes these fields: Clear, Inversion,
Percent, the four operators, Equal, Dot, and a digit.

- `options.dfy` (`Options`): Swift's optional, with `??` as `GetOr`.
- `strings.dfy` (`Strings`): `hasPrefix` and Swift's mutating
  `trimPrefix(_:)`. `trimPrefix` removes the prefix once, and only when the
  string begins with it.
- `calculator.dfy` (`Calculator`): the item types `MathOperation` and
  `CalcButtonType`, the constants, and the button labels (`Title`). Then
  `CurrentValue`, the pure transition function `Tap` over a `State`
  value, and the class `CalculatorScreen`. The class has the three
  fields, and its imperative `HandleTap` updates them in place. Its
  contract says the new state is `Tap` of the old one.
- `properties.dfy` (`CalculatorProperties`): the effect of each button,
  and the display invariants ("at most one separator", "a decimal
  literal"). Also `Run`, which folds `Tap` over a sequence of taps, with
  lemmas about whole sequences and a few worked scenarios.

The floating-point library is not interpreted. `Double(String)`, the four
`Double` operators and the rendering `"\(result)"` are fields of a
`Numerics` value that the screen receives at construction. `Double(String)`
returns an `Option`, and `CurrentValue` falls back to 0.0 when it fails.
Percent is the library division by 100. `real` only carries the values:
no claim is made about what the arithmetic or the rendering yields, such as
infinity, NaN or scientific notation.

The guard on digit entry is `count <= 15`, so a digit is still appended to a
15-character display. Repeated digit entry therefore reaches 16 characters,
not 15 (`SixteenDigits`, `RunDigitsBounded`). The model follows the code.
Clear resets only the display. A pending operation and its saved operand
survive it (`ClearKeepsPendingComputation`).

## Model

| member | source | states |
|---|---|---|
| `Strings.TrimPrefix` | Calculator/UI/CalculatorScreen.swift:94 | if the string starts with the prefix, the result is the rest after exactly one copy of it; otherwise the string is unchanged |
| `Strings.HasPrefix` | Calculator/UI/CalculatorScreen.swift:47 | holds exactly when the prefix is no longer than the string and agrees with it character by character; the string is then the prefix followed by the rest |
| `Calculator.AppendDigit` | Calculator/UI/CalculatorScreen.swift:92-95 | the digit is appended, then one leading "0" is removed exactly when the result starts with "0" but not with "0."; the display grows by at most one character and never shrinks |
| `Calculator.DigitString` | Calculator/UI/CalculatorScreen.swift:92 | a digit 0-9 renders as exactly one decimal digit character whose value is that digit |
| `Calculator.Title` | Calculator/UI/CalculatorScreen.swift:182-205 | every label is non-empty, and a label is a single digit exactly for the digit buttons |
| `Calculator.CurrentValue` | Calculator/UI/CalculatorScreen.swift:23-25 | the parsed display value, or 0.0 when the parse fails |
| `Calculator.Tap` | Calculator/UI/CalculatorScreen.swift:42-97 | only the operators and Equal change the operand or the pending operation; an operator leaves its own operation pending; Equal leaves none |
| `Calculator.CalculatorScreen.constructor` | Calculator/UI/CalculatorScreen.swift:12-21 | a new screen shows "0", with operand 0.0 and no pending operation |
| `Calculator.CalculatorScreen.HandleTap` | Calculator/UI/CalculatorScreen.swift:42-97 | the in-place updates of the three fields give exactly the state `Tap` specifies |
| `CalculatorProperties.TitleInjective` | Calculator/UI/CalculatorScreen.swift:182-205 | two buttons with the same label are the same button |
| `CalculatorProperties.ClearEffect` | Calculator/UI/CalculatorScreen.swift:44-45 | Clear sets the display to "0" and keeps the operand and the pending operation |
| `CalculatorProperties.InversionEffect` | Calculator/UI/CalculatorScreen.swift:46-51 | removes exactly one leading "-" when present, otherwise prepends "-"; nothing else changes |
| `CalculatorProperties.InversionTwice` | Calculator/UI/CalculatorScreen.swift:46-51 | two inversions restore the state if and only if the display does not start with "--" |
| `CalculatorProperties.PercentEffect` | Calculator/UI/CalculatorScreen.swift:52-54 | the display becomes the rendering of its value divided by 100; operand and operation are kept |
| `CalculatorProperties.OperatorEffect` | Calculator/UI/CalculatorScreen.swift:55-70 | an operator sets the display to "0", saves the display's value as operand and replaces any pending operation by its own |
| `CalculatorProperties.EqualsEffect` | Calculator/UI/CalculatorScreen.swift:71-86 | without a pending operation nothing changes; with one the display shows the rendered result of that operation's own library operator, saved operand on the left and display value on the right, the operand becomes 0.0 and no operation is pending |
| `CalculatorProperties.DotEffect` | Calculator/UI/CalculatorScreen.swift:87-89 | with a separator present nothing changes; otherwise exactly one "." is appended and the display then has exactly one separator |
| `CalculatorProperties.DotIdempotent` | Calculator/UI/CalculatorScreen.swift:87-89 | pressing Dot twice gives the same state as pressing it once |
| `CalculatorProperties.DigitEffect` | Calculator/UI/CalculatorScreen.swift:90-95 | over 15 characters nothing changes; otherwise the digit is appended and one leading "0" is removed exactly when the result starts with "0" but not "0."; operand and operation are kept |
| `CalculatorProperties.DigitLength` | Calculator/UI/CalculatorScreen.swift:91-95 | a digit grows the display by at most one character, so from at most 15 characters the result has at most 16 |
| `CalculatorProperties.DigitFromZero` | Calculator/UI/CalculatorScreen.swift:92-95 | from "0", digit d shows exactly the one-character string for d ("0" for 0) |
| `CalculatorProperties.DigitAfterZeroPoint` | Calculator/UI/CalculatorScreen.swift:93-95 | a display starting with "0." is never trimmed by a digit |
| `CalculatorProperties.TapKeepsOneSeparator` | Calculator/UI/CalculatorScreen.swift:42-97 | digits, Dot, Inversion, Clear and the operators keep the display at no more than one "." |
| `CalculatorProperties.DigitKeepsDecimalLiteral` | Calculator/UI/CalculatorScreen.swift:90-95 | appending a digit, with its zero trimming, keeps the display a signed decimal literal |
| `CalculatorProperties.TapKeepsDecimalLiteral` | Calculator/UI/CalculatorScreen.swift:42-97 | every button except Percent and Equal keeps the display a decimal literal: an optional "-", a digit, then digits with at most one "." |
| `CalculatorProperties.TapKeepsOperandReset` | Calculator/UI/CalculatorScreen.swift:42-97 | if the operand is 0.0 whenever no operation is pending, that stays true after any tap |
| `CalculatorProperties.RunKeepsOperandReset` | Calculator/UI/CalculatorScreen.swift:42-97 | the same holds after any sequence of taps |
| `CalculatorProperties.OperandResetFromInitial` | Calculator/UI/CalculatorScreen.swift:19-21 | from a fresh screen, after any taps, no pending operation implies the operand is 0.0 |
| `CalculatorProperties.RunKeepsOperand` | Calculator/UI/CalculatorScreen.swift:42-97 | a sequence of taps with no operator and no Equal changes neither the operand nor the pending operation |
| `CalculatorProperties.RunDigitsBounded` | Calculator/UI/CalculatorScreen.swift:90-92 | from a display of at most 16 characters, any sequence of digit taps ends with a display of at most 16 characters |
| `CalculatorProperties.RunKeepsDecimalLiteral` | Calculator/UI/CalculatorScreen.swift:42-97 | a sequence of taps without Percent and Equal keeps the display a decimal literal with at most one separator |
| `CalculatorProperties.SixteenDigits` | Calculator/UI/CalculatorScreen.swift:91-92 | sixteen taps of 1 from the initial state give a 16-character display of ones |
| `CalculatorProperties.SixteenDigitsFrom` | Calculator/UI/CalculatorScreen.swift:91-92 | from k ones (1 <= k <= 16), 16 - k further taps of 1 give 16 ones |
| `CalculatorProperties.ZeroPointFive` | Calculator/UI/CalculatorScreen.swift:87-95 | 0, Dot, 5 from the initial state shows "0.5" |
| `CalculatorProperties.TwoPlusThree` | Calculator/UI/CalculatorScreen.swift:55-86 | 2 + 3 = shows the rendering of the sum of the parsed operands "2" and "3", with operand 0.0 and no pending operation |
| `CalculatorProperties.ClearKeepsPendingComputation` | Calculator/UI/CalculatorScreen.swift:44-86 | operator, Clear, Equal still applies the pending operation to the operand saved before Clear |
| `CalculatorProperties.ToggleFive` | Calculator/UI/CalculatorScreen.swift:46-51 | inversion turns "5" into "-5", and a second inversion restores the state |

## Left out

- `Double` arithmetic, the division in Percent and the `"\(result)"` rendering are the `div`, `mul`, `sub`, `add` and `format` fields of `Numerics`, left uninterpreted. The model says nothing about their results, such as division by zero, infinity, NaN, rounding or scientific notation. So "Percent on 50 shows 0.5" and "2 + 3 = shows 5.0" are stated only up to the library's arithmetic and rendering.
- `Double(currentNumber)` is the `parse` field of `Numerics`: the library parser is not modelled, only its failure result and the 0.0 fallback.
- `Calculator.Tap`: requires a `Number` button to carry 0-9, because the button panel only sends those (CalculatorScreen.swift:135-153). Other integers, whose rendering has more than one character, are not modelled.
- `Calculator.Title`: has the same 0-9 requirement for `Number` buttons.
- Swift's `String.count`, `hasPrefix`, `trimPrefix` and `contains` work on grapheme clusters. The model's versions (`|s|`, `HasPrefix`, `TrimPrefix`, `in`) work on `char`s. The two views agree on strings of printable ASCII characters. That covers every display the program makes: the characters it appends are ASCII (digits, "-", ".", "0"), and so is Swift's rendering of a `Double`. The model still lets `format` return any string, and for one with combining marks the two views differ.
- The SwiftUI views are not part of this model: `body`, `TextPanel`, `ButtonPanel`, `CalcButton`, `CalcButtonStyle`, `CalcButtonStyleParameters` and the previews. They are layout with no logic. The same goes for `ContentView.swift`, a placeholder view.
- The `@State` property wrappers are framework mechanics. The three fields are plain fields of the class.
