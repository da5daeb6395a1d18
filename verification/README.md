# Message bar visual: rule engine and alert queue

A Power BI custom visual that shows one status message at a time. Its
data is a table whose columns carry the roles `scenario`, `value` and
`compareTo`. Eight rule cards are configured in the format pane. Each
card names a scenario and compares that scenario row's value, either with
the row's compare-to cell or with a fixed value. The card gives a severity
state, a message and a detail for the true and the false outcome. On every
host `update` the enabled cards are evaluated in order. Each card that
produces a message adds one alert to a queue. The bar shows the first
alert. The dismiss button removes the alert on display and shows the next
one. The details toggle expands or collapses the current alert's detail.

The Dafny project models that core as pure functions over immutable data.
The modules follow the program's structure:

- `Wrappers`: `Option`.
- `Sequences`: a generic filter-map over sequences, with the facts the
  rule loop needs about it (append, cut, skip, position, order).
- `JsString`: the ECMAScript string operations the visual relies on.
  - `trim` over WhiteSpace and LineTerminator code points.
  - ASCII `toLowerCase`.
  - String `<`, which compares UTF-16 code units.
- `JsNumber`: ECMAScript numbers as NaN, ±Infinity or exact decimals.
  - `Number(string)`: StringToNumber, with decimal, exponent, `0x`/`0o`/`0b`
    and `Infinity` forms.
  - `String(number)`: Number::toString.
  - `===` and `<` on numbers.
- `Cells`: a table cell (`null`, `undefined`, boolean, number, string),
  with `Number(cell)` and `String(cell)`.
- `Rules`: a rule card and the settings' eight cards in declaration order.
- `Comparator`: `evaluateCondition`.
- `Severity`: `getSeverityForState` and the fallback passed to it.
- `DataTable`: the role-to-column lookup and `findRowByScenario`.
- `Evaluator`: one iteration of the rule loop in `update`, and the loop
  over the eight cards.
- `Banner`: the queue state.
  - `update`, `showNextMessage` and the details toggle.
  - The "N more" label and the severity-to-style clamp.

Behaviour of the code that a reader may not expect:

- A rule with an operator other than `eq`, `neq`, `gt` or `lt` evaluates
  to `false`, not to "indeterminate". `result` starts as `false` and no
  `switch` case sets it.
- An empty or `null` state does not fall back. `Number("")` and
  `Number(null)` are 0, so the alert gets severity 0 (Info). Every state
  other than "none" whose `Number()` is not 0, 1, 2 or 3 falls back,
  including `undefined` and other non-numeric text.
- Ordering comparisons of text compare UTF-16 code units, not code
  points or a locale collation.
- `findRowByScenario` called with a whitespace-only name would look for
  the key "" and could match a blank cell. `update` never does this,
  because it trims the name and skips empty ones first (see
  `DataTable.SameKeySameRow`).

## Model

| member | source | states |
|---|---|---|
| Cells.ToNumber | src/visual.ts:291-292 | `Number(v)` of a cell. Only `undefined`, a text or a NaN number coerce to NaN, so `null` and booleans always count as numbers. The text case is `JsNumber.DigitStringValue` and `JsNumber.NotANumberWord`. |
| Cells.ToJsString | src/visual.ts:313-314 | `String(v)` of a cell is empty exactly for the empty string, so `null`, `undefined`, booleans and numbers all have a non-empty string form. |
| Comparator.EvaluateCondition | src/visual.ts:269-332 | The outcome is indeterminate exactly when the rule is disabled, the trigger is missing (null, undefined or "") or the selected compare target is missing. An unrecognised operator gives `false`, never "indeterminate". |
| Comparator.TargetSelection | src/visual.ts:277-282 | With source `field` the outcome depends only on the row's compare-to cell. With any other source it depends only on the fixed value and ignores the row's cell. |
| Comparator.Compare | src/visual.ts:291-329 | An operator outside `eq`, `neq`, `gt`, `lt` gives `false` on any operands. Numeric when both operands coerce to non-NaN numbers, otherwise textual. Its partners are `Comparator.CompareTrichotomy` and `Comparator.CompareSwap`. |
| Comparator.NeqNegatesEq | src/visual.ts:291-329 | For every rule and every pair of cells, `neq` is the negation of `eq`, in both the numeric and the text branch, and indeterminate when `eq` is. |
| Comparator.Trichotomy | src/visual.ts:291-329 | Whenever a condition is determinate, exactly one of `eq`, `gt` and `lt` holds for the same operands. |
| Comparator.CompareTrichotomy | src/visual.ts:291-329 | After coercion, exactly one of `eq`, `gt`, `lt` holds for any pair of operands. |
| Comparator.SwapOperands | src/visual.ts:291-329 | With source `field`, `a gt b` equals `b lt a` and `eq` is symmetric, including the indeterminate cases. |
| Comparator.CompareSwap | src/visual.ts:291-329 | On coerced operands, `a gt b` equals `b lt a` and `eq` is symmetric, in both the numeric and the text branch. |
| Comparator.DigitsCompareNumerically | src/visual.ts:291-306 | Two non-empty decimal digit strings are compared as the integers they spell for every operator, not as text. |
| Comparator.TenGreaterThanNine | src/visual.ts:291-306 | The texts "10" and "9" compare numerically, so "10" gt "9" is true. |
| Comparator.TenBeforeNine | src/visual.ts:308-329 | As strings, "10" sorts before "9". This is the ordering the text branch would have used. |
| Comparator.TextFallback | src/visual.ts:291-329 | A trigger that is a word (not starting with a digit, sign or point, and not "Infinity") makes `Number` NaN. The outcome is then the text comparison of the trigger with `String` of the target. |
| Severity.LevelOf | src/visual.ts:338-341 | A number yields a level exactly when it equals one of 0, 1, 2, 3, and the level is that value. |
| Severity.SeverityForState | src/visual.ts:334-343 | The state "none" suppresses the alert, and nothing else does. Otherwise the result is the state's numeric value when that is 0 to 3, and the fallback otherwise. It lies in 0..3 whenever the fallback does. |
| Severity.Fallback | src/visual.ts:499 | The fallback is 1 for a true outcome and 0 for a false one, both in range. |
| Severity.SeverityInRange | src/visual.ts:334-343 | Every severity the rule loop can assign lies in 0..3. |
| Severity.DigitState | src/visual.ts:334-343 | The states "0" to "3" give that severity whatever the fallback. |
| Severity.StateSevenFallsBack | src/visual.ts:334-343 | An out-of-range numeric state such as "7" gives the fallback. |
| Severity.BlankStates | src/visual.ts:334-343 | The state "" and `null` give severity 0. `undefined` gives the fallback. |
| DataTable.IndexByRole | src/visual.ts:440-446 | The result is the first column carrying the role, or -1 exactly when no column carries it. |
| DataTable.CellAt | src/visual.ts:487-488 | Reading past the end of a row gives `undefined`. |
| DataTable.FirstMatch | src/visual.ts:466-471 | The search from a row returns the first later row whose scenario cell matches the key, or none when no row from there matches. |
| DataTable.FindRowByScenario | src/visual.ts:463-473 | An empty name or a missing scenario column finds nothing. Otherwise the result is the first row whose scenario cell, trimmed and lower-cased, equals the trimmed, lower-cased name, and none when no row's cell does. |
| DataTable.SameKeySameRow | src/visual.ts:463-473 | Two names with the same non-empty key find the same row. |
| DataTable.CaseAndSpaceInsensitive | src/visual.ts:463-473 | A name padded with whitespace and differing only in ASCII letter case finds the same row as the bare name. |
| DataTable.RevenueExample | src/visual.ts:463-473 | The name " Revenue " finds the row whose scenario cell is "revenue". |
| DataTable.MissingCellNeverMatches | src/visual.ts:468 | A `null` or `undefined` scenario cell matches no key. |
| Rules.RuleList | src/visual.ts:452-461 | The loop sees exactly eight cards, `rule1` first and `rule8` last. The order of their alerts is `Evaluator.DeclarationOrder`. |
| Evaluator.RolesOf | src/visual.ts:448-450 | Each of the three role indices is where the role lookup finds it: the first column carrying the role, or -1 exactly when none does. |
| Evaluator.RoleCell | src/visual.ts:487-488 | The value and compare-to cells are `null` when the role has no column, the row's cell within the row, and `undefined` past the row's end. |
| Evaluator.Condition | src/visual.ts:476-490 | A rule has a determinate outcome only when it is enabled, its trimmed scenario name is non-empty, the scenario column exists and a row with that name is found. |
| Evaluator.EvaluateRule | src/visual.ts:475-544 | An alert, when a rule produces one, has a non-empty trimmed message, a trimmed detail and a severity in 0..3, and comes from a determinate condition. |
| Evaluator.FiresIff | src/visual.ts:490-508 | A rule produces an alert exactly when its condition is determinate, the selected state is not "none" and the selected trimmed message is non-empty. The alert carries the selected message, detail and severity. |
| Evaluator.ConditionOnRow | src/visual.ts:482-490 | The condition of a rule whose scenario is found is `evaluateCondition` on that row's value and compare-to cells. |
| Evaluator.RuleFiresWith | src/visual.ts:490-536 | A determinate condition with a non-suppressing state and a non-empty message produces exactly the alert of the selected branch. |
| Evaluator.EvaluateRules | src/visual.ts:475-544 | The loop yields at most one alert per rule, and every alert is well formed. |
| Evaluator.EvaluateRulesAppend | src/visual.ts:475-544 | Evaluating a concatenation of rule lists gives the concatenation of their alerts. |
| Evaluator.SilentRuleContributesNothing | src/visual.ts:476-508 | Deleting a rule that yields no alert (disabled, scenario not found, indeterminate, suppressed or empty message) leaves the queue unchanged. |
| Evaluator.DeclarationOrder | src/visual.ts:452-461 | When rules i < j both fire, rule i's alert precedes rule j's in the queue. |
| Evaluator.DisabledRulesSilent | src/visual.ts:476 | A list of disabled rules yields no alerts. |
| Evaluator.Evaluate | src/visual.ts:438-544 | The queue for a table and the eight cards holds at most eight well-formed alerts. |
| Evaluator.BelowTargetExample | src/visual.ts:475-544 | A table with one row whose value is below its compare-to, checked by a single enabled "lt" card with true state 3, yields exactly that card's true message and detail at severity 3. |
| Banner.Initial | src/visual.ts:356 | The bar starts empty, at position 0, collapsed. |
| Banner.Update | src/visual.ts:415-436 | `update` discards the old queue and starts at position 0, collapsed. The queue holds at most eight well-formed alerts and is empty when there is no table or no row. |
| Banner.ShowNextMessage | src/visual.ts:394-413 | Dismissing at a valid position shortens the queue by one. The position stays put unless it fell off the end, when it wraps to 0. An empty queue stays empty at its position. The detail always collapses, and a valid position stays valid. |
| Banner.DismissRemovesCurrent | src/visual.ts:399 | The dismissed queue is the old one with exactly the alert on display removed: as a multiset, and element by element with the later alerts shifted down by one. |
| Banner.DismissAtFront | src/visual.ts:399-410 | At position 0 dismissing drops the front alert and stays at position 0. |
| Banner.DismissDropsPrefix | src/visual.ts:394-413 | From position 0, k dismissals drop the first k alerts and stay at position 0. |
| Banner.DismissWrapsToFirst | src/visual.ts:402-410 | From three alerts showing the third, dismissing leaves the first two and shows the first. |
| Banner.DismissTakesFront | src/visual.ts:394-413 | In every observable state, dismissing removes the front alert and shows the next one. |
| Banner.DismissWalksQueue | src/visual.ts:394-413 | After k dismissals the queue is the original without its first k alerts, and the k-th later alert is on display. |
| Banner.ReachableIsClosed | src/visual.ts:394-436 | Construction, `update`, dismissing and toggling keep the position at 0 and within the queue, with at most eight well-formed alerts. |
| Banner.DismissKeepsReachable | src/visual.ts:394-413 | Dismissing from an observable state gives an observable state. |
| Banner.UpdateShowsFirst | src/visual.ts:415-436 | After `update` the displayed alert is the evaluator's first, whatever was dismissed or toggled before, and no detail is expanded. |
| Banner.ToggleDetails | src/visual.ts:136-143 | The toggle flips `expanded` only when the current alert has detail text. Otherwise nothing changes. The queue and position never change. |
| Banner.DetailText | src/visual.ts:372-381 | The detail element's text is empty when no alert is on display, and otherwise it is the current alert's detail. |
| Banner.ToggleTwice | src/visual.ts:136-143 | Toggling twice restores the state. |
| Banner.RemainingLabel | src/visual.ts:360-369 | The label is shown exactly when at least two alerts are queued, and ends in " more". |
| Banner.RemainingLabelCount | src/visual.ts:360-369 | The number in the label reads back as the count of queued alerts besides the one on display. |
| Banner.StyleIndex | src/visual.ts:257 | The style index lies in 0..3 and equals the severity when that is in range. Below 0 it is 0 and above 3 it is 3. |
| JsString.Trim | src/visual.ts:465 | `trim` returns a string with no whitespace at either end, no longer than its input. |
| JsString.TrimIsCut | src/visual.ts:465 | The trimmed string is a slice of the input whose surroundings on both sides are all whitespace. |
| JsString.TrimIdempotent | src/visual.ts:465 | Trimming twice equals trimming once. |
| JsString.TrimEmptyIff | src/visual.ts:478-479 | A string trims to "" exactly when it is all whitespace. |
| JsString.TrimPadding | src/visual.ts:465 | Trimming whitespace padding around a trimmed string returns that string. |
| JsString.ToLowerIdempotent | src/visual.ts:465 | Lower-casing twice equals lower-casing once. |
| JsString.ToLower | src/visual.ts:465-468 | `toLowerCase` keeps the length and maps each character on its own: ASCII capitals to small letters, every other character unchanged. |
| JsString.Trichotomy | src/visual.ts:323-328 | For string `<` on code units, exactly one of `a < b`, `a == b`, `b < a` holds. |
| JsString.Less | src/visual.ts:323-326 | String `<` compares UTF-16 code units lexicographically, and no string is less than itself. Its partners are `JsString.Trichotomy` and `JsString.Transitive`. |
| JsString.Transitive | src/visual.ts:323-328 | String `<` is transitive, so with `JsString.Trichotomy` it is a strict total order. |
| JsString.Utf16Injective | src/visual.ts:323-328 | Distinct strings have distinct UTF-16 encodings, so code-unit order decides equality too. |
| JsString.CodeUnitOrderIsNotCodePointOrder | src/visual.ts:323-328 | Some pair of strings orders differently by code units than by code points. |
| JsNumber.Trichotomy | src/visual.ts:299-305 | Among non-NaN numbers exactly one of `===`, `>`, `<` holds. |
| JsNumber.NatToStringRoundTrip | src/visual.ts:362-363 | A natural number's decimal rendering is all digits and reads back as the number. |
| JsNumber.StringToNumber | src/visual.ts:291-292 | `Number(s)` of a text: a blank or all-whitespace text is 0. Its partners are `JsNumber.TrimmedFirst`, `JsNumber.DigitStringValue`, `JsNumber.NotANumberWord` and `JsNumber.IntegerStringRoundTrip`. |
| JsNumber.TrimmedFirst | src/visual.ts:291-292 | `Number(s)` depends only on the trimmed text: trimming first gives the same number. |
| JsNumber.NumberToString | src/visual.ts:313-314 | `String(n)` of a number is never empty. Its partner is `JsNumber.IntegerStringRoundTrip`. |
| JsNumber.DigitStringValue | src/visual.ts:291 | `Number` of a non-empty digit string is its integer value. |
| JsNumber.NotANumberWord | src/visual.ts:291-293 | `Number` of a trimmed word that starts with a letter or symbol other than a sign or point (and is not "Infinity") is NaN. |
| JsNumber.IntegerStringRoundTrip | src/visual.ts:313-314 | For every integer below 10^21 in magnitude, `Number(String(n)) === n`. |

## Left out

- Numbers are exact decimals. IEEE-754 double rounding, `-0`, and the precision limit of `Number` and `String` are not modelled, so very long digit strings compare exactly where JavaScript would round.
- JsNumber.IntegerStringRoundTrip: proved only for integers below 10^21 in magnitude, not for every number. Larger values and fractions go through the exponent and fraction forms of `JsNumber.NumberToString`, whose round trip is not proved.
- Date cells are not modelled. A Power BI row cell can also be a `Date`, whose `Number()` is its time value and whose `String()` is its date text. `Cells.Cell` covers only strings, numbers, booleans, `null` and `undefined`.
- Strings are sequences of Unicode scalar values, so a JavaScript string holding an unpaired UTF-16 surrogate cannot be represented. Its trimming, case mapping and ordering are not modelled.
- `JsString.ToLower` folds only ASCII letters. Unicode case mapping is not modelled.
- Rendering is left out: DOM elements, colours, icons, `applyTextSettings`, `updateDetailExpandedState`, `clearVisual`'s styling. Only the state those functions keep is modelled, together with the style index, the "N more" label and the detail text.
- Selection identities, the tooltip payload, the context menu and `selectionManager.clear` are left out. They are host calls and do not affect which alerts are queued or their order.
- The formatting-pane settings in `src/settings.ts` are not modelled: `Evaluate` and `Banner.Update` take the eight rule cards as a parameter. When the host sends no data view, `update` keeps the previous settings. The model covers this by the caller passing the same settings again.
- Unset text settings (`value` undefined) are modelled as "", which the source's `|| ""` makes them anyway.
- A table without a `columns` array is modelled as one with no columns. The `table.identity` tokens are left out.
- The detail element's text is derived from the current alert (`Banner.DetailText`) rather than stored, because the source sets it from the current alert on every display.
