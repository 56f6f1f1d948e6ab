# Receipt splitter: a verified model of the weighted bill split

This project models the core of a bill-splitting calculator. It takes a
total in yen, a number of people, and how many of them are light payers
(weight 0.8) and heavy payers (weight 1.2); everyone else pays at weight
1.0. The split works in four steps:

- Each group's per-person base is its weighted share of the total, rounded
  to 100 yen.
- The whole rounding error is handed to one non-empty target group: heavy,
  else normal, else light.
- Inside the target group the error is dealt out round-robin in 100-yen
  steps, and member 0 takes any sub-100 leftover.
- Each group's amounts are grouped into ascending (amount, count) buckets.

The central promise is proved for every accepted input: the buckets add up
exactly to the total, and the counts add up to the number of people.

Files and modules:

- `splitcalc.dfy`, module `SplitCalc`, models `src/utils/splitCalc.ts`.
  - `RoundTo100`, `Distribute` / `DistributeDiff`, `Breakdown` / `ToBreakdown` and `CalcSplit` are the operations.
  - `DistributeDiff` and `ToBreakdown` are the imperative versions of the loops. `DistributeDiff` fills an `array` in place; its loop `DealSteps` does `amounts[i % count] += sign * 100`. `ToBreakdown` tallies the amounts into a Map, then sorts it. Each method is proved equal to the function that the rest of the model uses.
  - `Assemble` is lines 55 and 61-80 for arbitrary integer bases. Exactness is proved for it first (`AssembleExact`), and then for `CalcSplit`.
- `minmax.dfy`, module `MinMax`: the integer `Min` and `Max` the other modules share.
- `format.dfy`, module `Format`: `parseDigits` of `src/utils/format.ts`.
- `storage.dfy`, module `Storage`: `addHistory`, `removeHistory` and `clearHistory` of `src/utils/storage.ts` as pure list operations.
- `app.dfy`, module `App`: four pure rules of `src/App.tsx`.
  - the `error` validator;
  - the `handleCalculate` guard;
  - the people counter's clamp of the light and heavy counts;
  - the displayed normal count.

Arithmetic:

- Floating point becomes exact reals. The weights `0.8`, `1.0` and `1.2` are the exact rationals 4/5, 1 and 6/5.
- `Math.round(v / 100) * 100` becomes `100 * Floor(v / 100 + 1/2)`. Halves go toward +infinity, as in JavaScript.
- Amounts and counts are unbounded integers.
- The JavaScript `Map` of `toBreakdown` keeps its keys in insertion order. The model writes it as an association list in that order (`Bump`, `Tally`). The sort by amount is a selection sort (`SortByAmount`). The keys are distinct, so any correct sort gives the same result.

What the code promises, and what it does not:

- Not every amount is a multiple of 100, even though the split is often described that way. When the total is not a multiple of 100, member 0 of the target group takes the sub-100 leftover (lines 32-35 of `splitCalc.ts`). The model proves only what the code does: members 1..count-1 of the target group differ from the base by whole 100-yen steps.
- The target group's amounts are not all within 100 of each other. Member 0 also takes the sub-100 leftover, so it can be as much as 199 away from the others: above them for a positive error, below them for a negative one. An error of 199 yen over two members gives 199 and 0, and an error of -199 gives -199 and 0 (`LeaderOffByLeftover`). `DistributeFair` states the within-100 bound only for members 1..count-1.
- No amount is clamped at 0. A large negative error can make an amount negative, and the model does not claim otherwise.

## Model

| member | source | states |
|---|---|---|
| `SplitCalc.RoundTo100` | src/utils/splitCalc.ts:19 | the result is a multiple of 100 and value lies in [result - 50, result + 50), so the result lies in (value - 50, value + 50]: the nearest multiple of 100, with exact halves rounding up |
| `SplitCalc.RoundTo100Unique` | src/utils/splitCalc.ts:19 | any multiple of 100 in that window is the result, so the two ensures of RoundTo100 pin it down |
| `SplitCalc.RoundTo100HalfUp` | src/utils/splitCalc.ts:19 | a value exactly 50 above a multiple of 100 rounds up to the next multiple |
| `SplitCalc.DistributeDiff` | src/utils/splitCalc.ts:21-37 | the in-place round-robin loop over the array returns exactly the closed-form per-member amounts `Distribute` (the empty list when count <= 0) |
| `SplitCalc.DealSteps` | src/utils/splitCalc.ts:29-31 | the loop, run in place on the array, adds delta to member i % count for each step i < units; afterwards member j has gained delta exactly Steps(units, count, j) times, which is floor(units / count), plus one for the first units mod count members |
| `SplitCalc.DistributeNoDiff` | src/utils/splitCalc.ts:22-24 | with diff 0 every member pays the base |
| `SplitCalc.DistributeSum` | src/utils/splitCalc.ts:21-37 | for count > 0 the amounts sum to base * count + diff, so the whole error is absorbed; for count <= 0 the result is empty |
| `SplitCalc.StepsBalanced` | src/utils/splitCalc.ts:28-31 | dealing units steps round-robin gives each member floor(units/count) to ceil(units/count) steps, member 0 the most |
| `SplitCalc.DistributeFair` | src/utils/splitCalc.ts:26-35 | every member takes floor or ceil of units/count steps and member 0 the most; members 1..count-1 differ from base by whole steps of sign * 100 (no leftover) and lie within 100 of each other |
| `SplitCalc.LeaderOffByLeftover` | src/utils/splitCalc.ts:26-35 | member 0's leftover breaks the within-100 spread in both directions: with base 0 and two members, an error of 199 gives the amounts 199 and 0, and an error of -199 gives -199 and 0 |
| `SplitCalc.ToBreakdown` | src/utils/splitCalc.ts:39-47 | tallying the amounts into the Map one by one and then sorting its entries gives `Breakdown(amounts)` |
| `SplitCalc.TallyFacts` | src/utils/splitCalc.ts:40-43 | the Map built by forEach has distinct keys and positive counts; each count is the number of occurrences of its key; the counts add up to the input length and amount * count adds up to the input sum |
| `SplitCalc.SortSums` | src/utils/splitCalc.ts:44-46 | sorting the entries keeps the amount * count sum, the count sum and the count of every amount |
| `SplitCalc.SortKeeps` | src/utils/splitCalc.ts:44-46 | sorting adds no new amount and keeps every count positive |
| `SplitCalc.SortAscending` | src/utils/splitCalc.ts:44-46 | sorting entries with distinct amounts gives strictly ascending amounts |
| `SplitCalc.BreakdownSpec` | src/utils/splitCalc.ts:39-47 | toBreakdown conserves its input as a multiset: amounts strictly ascending, every count >= 1, each count is the multiplicity of its amount in the input, counts sum to the input length and amount * count sums to the input sum |
| `SplitCalc.UniformBreakdown` | src/utils/splitCalc.ts:39-47 | n members who all pay base give the single bucket (base, n), or no bucket when n = 0 |
| `SplitCalc.BaseFor` | src/utils/splitCalc.ts:57-60 | each group's base is a multiple of 100 within 50 yen of its exact weighted share total / weightSum * weight |
| `SplitCalc.Assemble` | src/utils/splitCalc.ts:55-80 | whatever the bases: the result echoes total and people, the normal count is people - low - high, and the three group counts add up to people |
| `SplitCalc.CalcSplit` | src/utils/splitCalc.ts:49-81 | the result carries total and people, the light and heavy counts as given, and the normal count people - low - high |
| `SplitCalc.TargetNonEmpty` | src/utils/splitCalc.ts:55-64 | when people >= 1, low, high >= 0 and low + high <= people, the target chosen (heavy, else normal, else light) has a positive count and the weight sum is positive |
| `SplitCalc.AssembleExact` | src/utils/splitCalc.ts:61-79 | for arbitrary integer bases, when the target group is non-empty, the buckets of the three groups add up exactly to total and each group's bucket counts add up to its head count |
| `SplitCalc.AssembleShape` | src/utils/splitCalc.ts:64-72 | every group other than the target has the single bucket (its base, its count), or none when it is empty |
| `SplitCalc.CalcSplitShape` | src/utils/splitCalc.ts:57-79 | under the caller's guarantees each non-target group is the single bucket of its rounded weighted share |
| `SplitCalc.CalcSplitExact` | src/utils/splitCalc.ts:49-81 | under the caller's guarantees the split is exact: the buckets sum to total and the bucket counts sum to people |
| `SplitCalc.CalcSplitExampleEqual` | src/utils/splitCalc.ts:55-79 | 10000 yen among 3 normal payers gives the normal buckets (3300, 2), (3400, 1) and no light or heavy buckets |
| `SplitCalc.CalcSplitExampleWeighted` | src/utils/splitCalc.ts:55-79 | 5000 yen between one light and one normal payer gives (2200, 1) and (2800, 1) with no adjustment |
| `Format.OnlyDigits` | src/utils/format.ts:19 | the kept characters are all ASCII digits and no more than the input |
| `Format.ParseDigitsNoDigits` | src/utils/format.ts:18-20 | a string with no ASCII digit, the empty string included, parses to 0 |
| `Format.ParseDigitsIgnoresNonDigits` | src/utils/format.ts:19 | parseDigits(s) equals parseDigits of the digits of s alone |
| `Format.ParseDigitsOfDigits` | src/utils/format.ts:21 | on an all-digit string parseDigits is its base-10 value |
| `Format.LeadingZero` | src/utils/format.ts:21 | a leading zero does not change the value |
| `Format.ParseDigitsConcat` | src/utils/format.ts:19-21 | digits split by separators concatenate: parseDigits(a + b) = parseDigits(a) * 10^(number of digits of b) + parseDigits(b) |
| `Format.ParseDigitsExamples` | src/utils/format.ts:17-22 | "18,000" gives 18000, "007" gives 7 and "" gives 0 |
| `Format.ParseNumeral` | src/utils/format.ts:17-22 | parseDigits inverts an independently defined decimal numeral: reading the numeral of any natural number n gives back n |
| `Storage.AddHistory` | src/utils/storage.ts:80-91 | the result has min(old length + 1, 5) entries; its head carries the input's amount, people, low and high, the given id and time, and total = parseDigits(amount); after the head come the first min(old length, 4) old entries in order |
| `Storage.AddHistoryBounded` | src/utils/storage.ts:88 | the history never exceeds five entries, and below five nothing old is dropped |
| `Storage.RemoveHistory` | src/utils/storage.ts:93-97 | no entry left has the id, the entries left are exactly the old ones with another id, and the list does not grow |
| `Storage.RemoveHistoryConcat` | src/utils/storage.ts:94 | removal keeps the original order: removing from a + b is removing from a, then from b |
| `Storage.RemoveHistoryAbsent` | src/utils/storage.ts:94 | removing an id that no entry has returns the list unchanged |
| `Storage.RemoveHistoryIdempotent` | src/utils/storage.ts:94 | removing twice is removing once |
| `Storage.AddThenRemove` | src/utils/storage.ts:80-97 | deleting the entry just added, under a fresh id, gives back the old history as truncated to four entries |
| `Storage.ClearHistory` | src/utils/storage.ts:99-102 | the history becomes empty |
| `App.Message` | src/App.tsx:51-54 | every error message is non-empty, so a failed check always shows |
| `App.ErrorText` | src/App.tsx:50-56 | the error string is empty exactly when no check fails |
| `App.ErrorEmptyIff` | src/App.tsx:50-56 | the error is empty iff the amount is non-empty, total > 0, people >= 1, low >= 0, high >= 0 and low + high <= people |
| `App.ErrorPriority` | src/App.tsx:51-54 | amount, then people, then negativity, then overflow: each error is reported exactly when its check fails and all earlier checks pass |
| `App.HandleCalculate` | src/App.tsx:58-64 | a calculation happens exactly when the error is empty, and then its split is exact for total = parseDigits(amount), its counts add up to people and the history grows by one entry up to five; the result is calcSplit of the parsed total and the history is addHistory of the current input |
| `App.ClampCounts` | src/App.tsx:117-123 | with value, low, high >= 0 the new counts fit: nextLow + nextHigh <= value; neither count grows or turns negative; when low + high <= value already nothing changes, so no setter fires |
| `App.ClampKeepsAccepted` | src/App.tsx:117-123 | after the counter moves to any value >= 1, the clamped counts pass the people checks of the validator again |
| `App.DisplayedNormal` | src/App.tsx:146 | the displayed normal count is people - low - high when that is non-negative and 0 otherwise |
| `App.DisplayedNormalMatchesSplit` | src/App.tsx:48 | for accepted input the displayed normal count equals the normal count of the computed split |

## Left out

- Floating point is left out. The model computes with exact reals, so it does not reproduce products such as `unit * 0.8` that land just off a .5 boundary in IEEE-754 doubles.
- The `Number.isFinite` branch of `parseDigits` (src/utils/format.ts:22) is left out. The model's naturals are unbounded, so a digit string too long for a double reads as its exact value, not 0. Precision loss above 2^53 is not modelled either.
- SplitCalc.CalcSplit: it requires a non-zero weight sum. With a zero weight sum the source divides by zero and continues with Infinity or NaN, which has no integer counterpart. The caller's checks rule this case out anyway (`TargetNonEmpty`).
- Persistence is left out, because it is I/O: `localStorage`, `JSON.parse`/`stringify`, `loadLast`, `saveLast`, `loadHistory`, `saveHistory`, and the `saveHistory` calls inside `addHistory`, `removeHistory` and `clearHistory`.
- The type guards `isValidLast` and `isValidHistoryItem` are left out. They check dynamic JavaScript types of untyped JSON, which typed Dafny values do not have.
- `Date.now()` and `Math.random()` in `addHistory` are nondeterministic. The id and timestamp they produce are parameters of `Storage.AddHistory`.
- `formatNumber` and `formatYen` are left out. They wrap `Intl.NumberFormat` locale formatting.
- React rendering, hooks and `useState` setters are left out. So are the result sheet and the components `HistoryList`, `AmountInput` and `Counter`, including the counter's own ±1 min/max clamp. The people counter's `setPeople` call is not modelled; only the clamp it applies to the light and heavy counts is.
