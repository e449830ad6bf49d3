# Wowerball entry form, modelled in Dafny

Wowerball is a single-page lottery entry form. A player types nine numbers
between 1 and 99, a name and an email, and submits them. The page validates the
entry and posts it to a form-collection service. A "quick pick" button fills
the nine numbers with distinct random values instead. This project models the
logic in `wowerball.js` and proves what it promises:

- `Text`: the JavaScript string operations the page relies on.
  - `trim`, over the full ECMAScript white-space set.
  - `parseInt` without a radix: leading white space, a sign, `0x` hex detection, the longest digit prefix, and NaN when there are no digits.
  - The decimal rendering of an integer Number.
  - `join(', ')` and its inverse `split(', ')`.
- `Collections`: the set of a sequence's values and pairwise distinctness. `new Set(numbers)` and its size are modelled here.
- `Validation`:
  - the submit handler's checks, in the page's priority order: contact details, then range, then duplicates;
  - the payload built from an accepted entry.
- `QuickPick`:
  - `FreshDraws`, the specification of the rejection sampling;
  - `DrawFresh`, the inner `do … while` loop.
- `Inputs`: the two-character limit of a number input and the automatic focus moves.
- `Form`: the class `LotteryForm`. It holds the number inputs (an array), the name, the email, the keyboard focus and the submit button. Each event handler is a method:
  - input and keydown on a number input;
  - click on quick pick;
  - submit;
  - the service's answer (`Ok | Fail`).

The random draw is an oracle, given as a finite sequence of its outputs. Each
output is an integer in [1, 99]. The service's answer is an event passed to
`OnResponse`. The timestamp and the user agent are opaque strings passed to
`OnSubmit`.

## Model

| member | source | states |
|---|---|---|
| Validation.Validate | wowerball.js:33-55 | Every accepted entry has non-blank contact details and one number per field. Every number is in [1, 99] and no two are equal. |
| Validation.FieldNumber | wowerball.js:33 | `parseInt(input.value) \|\| 0` for one field. See UnparsableFieldRule and RenderedAccepted. |
| Validation.Numbers | wowerball.js:33 | The `map` over the inputs, in field order. See AcceptanceRule (the entry holds these numbers) and RenderedAccepted. |
| Validation.OutOfRange | wowerball.js:44 | The `filter` of the numbers outside [1, 99]. See OutOfRangeEmpty and OutOfRangeIff. |
| Validation.OutOfRangeIff | wowerball.js:33-45 | The range filter keeps something exactly when some field reads as a number outside [1, 99]. |
| Validation.RepeatIff | wowerball.js:33-52 | The `Set` of the numbers is smaller than their count exactly when two fields read as the same number. |
| Validation.ValidateRules | wowerball.js:33-55 | The verdict is the first failing rule in the page's order (contact details, range, duplicates), each stated on the fields themselves, and otherwise acceptance of the trimmed contact details with the numbers in field order. |
| Validation.ContactRule | wowerball.js:34-41 | The result is `MissingContactInfo` exactly when the trimmed name or the trimmed email is empty, whatever the numbers are. |
| Validation.RangeRule | wowerball.js:33-47 | The result is `NumberOutOfRange` exactly when the contact details are present and some field reads, after `parseInt(...) \|\| 0`, as a number below 1 or above 99. |
| Validation.UnparsableFieldRule | wowerball.js:33-47 | With contact details present, a field that does not parse (an empty one, say) reads as 0, so the entry is refused for its range. |
| Validation.DuplicateRule | wowerball.js:50-55 | The result is `DuplicateNumbers` exactly when the contact details are present, every number is in range and two fields read as the same number. |
| Validation.AcceptanceRule | wowerball.js:33-55 | The entry is accepted exactly when the contact details are present, every number is in range and none repeats. The entry holds the trimmed name and email and the numbers in field order. |
| Validation.RenderedAccepted | wowerball.js:33-55 | Fields that show the decimal renderings of distinct in-range numbers, with contact details present, are accepted with exactly those numbers. |
| Validation.Rendered | wowerball.js:180 | The text `input.value = randomNum` leaves in each slot, and each part `join` puts together: the decimal rendering of every value, in order. See RenderedStep and RenderedAccepted. |
| Validation.RenderedStep | wowerball.js:180 | Writing the rendering of one more value into the first field after the rendered ones extends the rendered part by that value. |
| Validation.LuckyNumbers | wowerball.js:67 | `numbers.join(', ')` over the decimal renderings. See LuckyNumbersRoundTrip. |
| Validation.LuckyNumbersRoundTrip | wowerball.js:67 | Splitting `luckyNumbers` at `", "` and parsing each piece gives back the entry's numbers. |
| Validation.MakePayload | wowerball.js:64-70 | The payload carries the entry's name and email and the given timestamp and user agent. Its `luckyNumbers` decodes back to the entry's numbers. |
| Validation.OutOfRangeEmpty | wowerball.js:44-45 | The range filter keeps nothing exactly when every number is in [1, 99]. |
| Collections.Elements | wowerball.js:51 | `new Set(numbers)`: the set of the values. See DistinctIffFullSet, ElementsBound and RepeatIff. |
| Collections.DistinctIffFullSet | wowerball.js:51-52 | The set of a sequence's values has as many elements as the sequence exactly when no two entries are equal. |
| Collections.DistinctAppend | wowerball.js:177-179 | Adding a value that is not in the set yet keeps the values distinct and adds exactly that value to the set. |
| Collections.ElementsBound | wowerball.js:51-52 | A sequence has no fewer entries than its set of values has elements. |
| Text.Trim | wowerball.js:34-35 | The trimmed string is empty exactly when the input is all white space. Otherwise it neither starts nor ends with white space. |
| Text.TrimSlice | wowerball.js:34-35 | The trimmed string is a slice of the input with only white space cut off on either side. |
| Text.TrimStartSpec | wowerball.js:34-35 | Only leading white space is dropped, and what is left is a suffix of the input that does not start with white space. |
| Text.TrimEndSpec | wowerball.js:34-35 | Only trailing white space is dropped, and what is left is a prefix of the input that does not end with white space. |
| Text.TrimStartBlank | wowerball.js:34-38 | Nothing is left after the leading white space exactly when the input is all white space. |
| Text.ParseInt | wowerball.js:33 | `parseInt` without a radix: it skips the white space that TrimStart skips, takes a sign, then reads the magnitude. Its properties are stated by DecimalRoundTrip (it reads back every rendering) and UnparsableFieldRule (NaN reads as 0). |
| Text.ParseMagnitude | wowerball.js:33 | The unsigned part of `parseInt`: `0x`/`0X` switches to radix 16, then the DigitRun prefix is read, and no digits give NaN. See NaturalRoundTrip. |
| Text.DigitsValue | wowerball.js:33 | The value of a digit string, most significant digit first. See NaturalDecimalValue. |
| Text.OrZero | wowerball.js:33 | `x \|\| 0`: NaN and 0 both become 0. See UnparsableFieldRule. |
| Text.IsWhiteSpace | wowerball.js:33-35 | ECMAScript's StrWhiteSpaceChar set, which both `trim` and `parseInt` skip. See Trim and TrimStartSpec. |
| Text.TrimStart | wowerball.js:33-35 | Drops the leading white space and is never longer than its input. Its full property is TrimStartSpec. |
| Text.TrimEnd | wowerball.js:34-35 | Drops the trailing white space and is never longer than its input. Its full property is TrimEndSpec. |
| Text.DigitValue | wowerball.js:33 | The value of a character as a radix digit (0-9, then the Latin letters from 10), which `parseInt` compares with the radix. See DigitRun. |
| Text.Negate | wowerball.js:33 | The sign `-` of `parseInt`, which keeps NaN. See DecimalRoundTrip. |
| Text.DigitRun | wowerball.js:33 | `parseInt` reads the longest prefix of digits of the radix and stops at the first character that is not one. |
| Text.NaturalDecimal | wowerball.js:180 | The rendering of a natural number is non-empty, made of decimal digits, and starts with `0` only for 0 itself (no leading zeros). |
| Text.DigitChar | wowerball.js:180 | The decimal digit character of a value below 10, whose DigitValue is that value. |
| Text.NaturalDecimalValue | wowerball.js:180 | The digits of a rendered natural number have that number as their value. |
| Text.Decimal | wowerball.js:180 | The rendering of an integer is non-empty and starts with `-` exactly when the integer is negative. Every other character is a decimal digit, and the digits start with `0` only for 0 itself. See also DecimalRoundTrip. |
| Text.NaturalRoundTrip | wowerball.js:33 | Reading the digits of a rendered natural number gives it back. |
| Text.DecimalRoundTrip | wowerball.js:33 | `ParseInt(Decimal(n)) == Int(n)` for every integer `n`, so a value quick pick writes reads back as itself. |
| Text.DecimalHasNoComma | wowerball.js:67 | No rendering contains the separator's comma. |
| Text.Join | wowerball.js:67 | `parts.join(', ')`. See SplitJoin. |
| Text.Split | wowerball.js:67 | `s.split(', ')`, which gives at least one piece. It is the inverse against which Join is proved (SplitJoin). |
| Text.SplitJoin | wowerball.js:67 | `split(', ')` undoes `join(', ')` when no part contains a comma. |
| Text.SplitPiece | wowerball.js:67 | A comma-free piece is read up to the first separator after it. |
| Text.BlankConcat | wowerball.js:34-38 | A concatenation is all white space exactly when both parts are. |
| QuickPick.FreshDraws | wowerball.js:172-180 | The values rejection sampling keeps from a stream of draws, in order. See FreshDrawsSpec, FreshDrawsPrefix and FreshDrawsCount. |
| QuickPick.FreshDrawsStep | wowerball.js:175-179 | One more draw is kept when it is new and rejected when it repeats. |
| QuickPick.DrawFresh | wowerball.js:174-177 | The `do … while` loop returns the first draw not in `usedNumbers`, and stops right after it: every draw it rejected on the way is in `usedNumbers`. What is kept grows by exactly that value. If the stream runs out, every remaining draw was a repeat. |
| QuickPick.FreshDrawsSpec | wowerball.js:172-180 | The kept values are pairwise distinct and are exactly the values drawn. |
| QuickPick.FreshDrawsPrefix | wowerball.js:173-180 | What is kept from the first draws is the start of what is kept from them all. |
| QuickPick.FirstFreshDraws | wowerball.js:173-180 | When the loop stops, the slots hold the start of everything the stream would give, as much of it as fits. |
| QuickPick.FreshDrawsCount | wowerball.js:172-180 | As many values are kept as the stream has distinct values. All nine slots get a value exactly when the stream holds nine distinct values. |
| Inputs.Truncate | wowerball.js:11-13 | The field keeps at most two characters, as a prefix of what was typed. A value already that short is unchanged, and a longer one is cut to exactly two. |
| Inputs.FocusAfterInput | wowerball.js:16-18 | The focus stays on an existing input. It moves to the next input only when the field holds two characters and is not the last one, and otherwise stays where it was. |
| Inputs.FocusAfterKeyDown | wowerball.js:22-25 | The focus stays on an existing input. It moves to the previous input only on Backspace in an empty field that is not the first one, and otherwise stays where it was. |
| Form.LotteryForm.constructor | wowerball.js:2-5 | A loaded form has empty inputs, no focus on a number input and an enabled submit button. |
| Form.LotteryForm.OnInput | wowerball.js:9-19 | Only the edited field changes, to the truncated value. The focus follows `FocusAfterInput`. |
| Form.LotteryForm.OnKeyDown | wowerball.js:22-26 | The focus follows `FocusAfterKeyDown`, and nothing else changes. |
| Form.LotteryForm.OnQuickPick | wowerball.js:171-188 | The filled slots show the decimal renderings of the first distinct draws, in the order drawn. These values are pairwise distinct and in [1, 99]. The other inputs keep their values. The loop invariant keeps `usedNumbers` equal to the set of values written so far. All slots are filled unless the stream runs out. |
| Form.QuickPickAccepted | wowerball.js:171-180 | Inputs showing what quick pick writes pass validation once the name and the email are there, and the entry holds the drawn numbers. |
| Form.LotteryForm.OnSubmit | wowerball.js:29-70 | A refused entry changes nothing and names the failed rule. An accepted entry disables the button, shows the submitting text, remembers the old text and posts the payload. |
| Form.LotteryForm.OnResponse | wowerball.js:79-94 | On `Ok` the banner shows the entry and every field is cleared. On `Fail` the player is asked to retry and every field keeps its value. Either way the button's old text comes back and it is enabled. |
| Form.RetryAfterFailure | wowerball.js:84-94 | After a failed submission, submitting again posts the same entry with only the timestamp changed. |

`LotteryForm.Valid()` is kept by every handler. It says that the focus is on an
existing input or elsewhere, and that the button is disabled and shows the
submitting text exactly while a submission is outstanding (wowerball.js:60-61,
92-93).

## Left out

- The DOM and event wiring (`getElementById`, `querySelectorAll`, `addEventListener`, `focus()`, `insertBefore`) are not modelled. The page's elements become the fields of `LotteryForm`, and each event becomes a call of one of its methods.
- `e.preventDefault()` is not modelled, because the model has no default form submission to prevent.
- The `fetch` call and `JSON.stringify` are not modelled, and neither is the asynchrony of the promise chain. The bodies of its `.then`, `.catch` and `.finally` callbacks are `OnResponse`, which receives the outcome as the event `Ok | Fail`. A non-OK status and a transport error reach the same `.catch`, so both are `Fail`.
- `new Date().toISOString()` and `navigator.userAgent` are not computed. They are opaque string parameters of `OnSubmit`.
- `Math.random()` and its float arithmetic are not modelled. The draw `Math.floor(Math.random() * 99) + 1` is an oracle whose outputs are handed in as a finite sequence of integers in [1, 99].
- Form.LotteryForm.OnQuickPick stops when the stream of draws runs out and reports how many inputs it filled. The page would keep drawing, and terminates only with probability one.
- The `setTimeout` pulse animation, the success-banner HTML and styling, the quick-pick button's creation and styling, and the CSS keyframes are pure presentation, so they are not modelled. The banner's content is modelled as the `Confirmed(name, numbers)` outcome.
- The text of `alert` and `console.error` is not modelled. The three refusal alerts become the reasons `MissingContactInfo`, `NumberOutOfRange` and `DuplicateNumbers`. The failure alert becomes `RetryPrompt`.
- `form.reset()` is modelled as restoring every input to the empty string. The page's HTML, which holds the inputs' default values, is not part of this model.
- A submit while the button is disabled is modelled as ignored (`Ignored`), because the browser fires no submit from a disabled button.
- `OnResponse` requires an outstanding submission, because the page's callbacks only exist after a `fetch`.
- The number of inputs is a constructor parameter. The page has nine, and its code uses `numberInputs.length` throughout.
- Inputs.Truncate counts UTF-16 code units as `this.value.length` and `slice` do only for characters of the Basic Multilingual Plane. Dafny's `char` is a code point.
- Text.ParseInt does not round integers beyond 2^53 to the nearest double. The rounding cannot bring a value into [1, 99] or make two such values equal.
- Text.Decimal renders every integer in plain decimal. JavaScript switches to exponent form at 10^21, which concerns no value the page stores in a number input.
- The `isNaN(num)` test in the range filter is not modelled, because after `|| 0` it can never hold.
