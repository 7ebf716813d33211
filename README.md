# Whistle lending UI: the computational core in Dafny

Whistle is a client-side microfinance web app: people ask for small loans,
lend to others and follow their activity. Most of it is presentation and
wallet-library wiring. This project models the few pure computations the
pages run, and proves what they promise:

- **Loan quote** (`src/app/request/page.tsx`): the monthly payment shown
  while someone fills in the request form. The form checks the amount text,
  the parsed principal and the period tag (20 days, 1, 2 or 3 months). It
  applies simple interest at a fixed 8.5% a year, pro-rated over a 12-month
  year, divides the total by the months and rounds with `Math.round`. Any
  invalid input gives no quote. A quote of 0 hides the payment line, but the guard then renders a bare "0" in its place. Module
  `LoanQuote` (file `loan_quote.dfy`) models this. The rate is a parameter,
  and the form's rate is the constant `InterestRate`.
- **Address abbreviation** (`src/hooks/useWallet.ts`): `formatAddress`,
  with the index rules of JavaScript `slice`, including `slice(-4)`. Also the
  `isConnected` flag the hook reports. Module `Wallet` (file `wallet.dfy`).
- **Activity list** (`src/app/my-activities/page.tsx`): the tab filter over
  the user's activities. Also the progress block of an active activity,
  which shows `Math.round(amount * 0.085)` as its interest. Module
  `Activities` (file `activities.dfy`).
- **Thousands separators** (`src/components/CountUp.tsx`): `formatNumber`,
  which puts commas into the `toFixed` text with the regular expression
  `/\B(?=(\d{3})+(?!\d))/g` and wraps the result in a prefix and a suffix.
  Module `CountUp` (file `count_up.dfy`) models the regex literally: the
  `\B` test plus the look-ahead with its existential group count
  (`MatchAt`). A proof shows that this test means "a word character before,
  and a positive multiple of three digits ahead" (`CommaAt`). The replacement
  applies that per-position decision to the text. From it the proofs derive
  right-to-left grouping and the fraction-grouping quirk.

`Math.round` is modelled once, in module `JsMath` (file `js_math.dfy`), as
floor(x + 1/2) over exact reals. `Option` (file `wrappers.dfy`) stands for
`null`, `undefined` and `NaN`.

## Model

| member | source | states |
|---|---|---|
| `JsMath.Round` | src/app/request/page.tsx:60 | `Math.round(x)` is the integer within half a unit of x, with halves going up |
| `LoanQuote.MonthsFor` | src/app/request/page.tsx:38-53 | exactly the four period tags get a month count, and it lies in (0, 3] |
| `LoanQuote.SimpleInterest` | src/app/request/page.tsx:56 | simple interest is non-negative when principal, rate and months are |
| `LoanQuote.MonthlyPayment` | src/app/request/page.tsx:31-61 | a quote exists iff the amount text and the period are non-empty, the parsed principal is a positive number, and the period is one of the four tags |
| `LoanQuote.FormQuote` | src/app/request/page.tsx:28 | any quote the form gives comes from a positive principal and a recognised period; the form's rate is the constant `InterestRate` (8.5) |
| `LoanQuote.ShowsPayment` | src/app/request/page.tsx:264 | the payment line is rendered only for a non-null quote |
| `LoanQuote.EmptyInputGivesNoQuote` | src/app/request/page.tsx:32 | an empty amount or an unselected period gives no quote |
| `LoanQuote.NonPositivePrincipalGivesNoQuote` | src/app/request/page.tsx:34-35 | a NaN, zero or negative principal gives no quote |
| `LoanQuote.PeriodMapping` | src/app/request/page.tsx:38-53 | "20days", "1month", "2months" and "3months" map to 2/3, 1, 2 and 3 months, and every other tag gives no quote |
| `LoanQuote.PeriodOrder` | src/app/request/page.tsx:38-53 | the four periods are strictly ordered by length |
| `LoanQuote.TotalPerMonth` | src/app/request/page.tsx:56-58 | (P + interest) / m equals P/m + P·R/1200, so the monthly interest does not depend on the period |
| `LoanQuote.ClosedForm` | src/app/request/page.tsx:56-60 | for valid input the quote is round(P/m + P·R/1200) |
| `LoanQuote.TotalCoversPrincipal` | src/app/request/page.tsx:56-57 | with a non-negative rate the interest is non-negative and the total is at least the principal |
| `LoanQuote.QuoteBounds` | src/app/request/page.tsx:56-60 | with a non-negative rate the quote is non-negative and lies within half a unit of [P/m, P/m + P·R/1200] |
| `LoanQuote.MonotoneInPrincipal` | src/app/request/page.tsx:56-60 | for a fixed period and a non-negative rate, a larger principal never gives a smaller payment |
| `LoanQuote.AntitoneInPeriod` | src/app/request/page.tsx:38-60 | for a fixed principal, a longer period never gives a larger payment |
| `LoanQuote.TwoMonthExample` | src/app/request/page.tsx:45-60 | 25000 over "2months" at 8.5% quotes 12677 |
| `LoanQuote.OtherRateExamples` | src/app/request/page.tsx:38-60 | 15000 for "1month" at 7.8% quotes 15098, and 100 for "20days" at 10% quotes 151 |
| `LoanQuote.ShownIff` | src/app/request/page.tsx:264 | with a non-negative rate, the payment line shows iff the input is valid and the exact payment reaches 1/2 |
| `LoanQuote.GuardOutput` | src/app/request/page.tsx:264 | the guard renders the payment line iff the quote is truthy, with the quote in it, and a bare "0" iff the quote is 0 |
| `LoanQuote.IntendedOutput` | src/app/request/page.tsx:264 | the corrected guard never renders a bare "0", and renders the payment line exactly when the guard as written does |
| `LoanQuote.ZeroRenderedIff` | src/app/request/page.tsx:264 | with a non-negative rate, a bare "0" appears iff the input is valid and the exact payment is below 1/2; otherwise the corrected guard renders the same |
| `LoanQuote.TinyPrincipalRendersZero` | src/app/request/page.tsx:264 | 0.5 over "3months" quotes 0: the payment line is not rendered, the guard as written renders "0" in its place, and the corrected guard renders nothing |
| `Wallet.SliceIndex` | src/hooks/useWallet.ts:25 | an index inside the string is kept, any index past the end is clamped to the end, and a negative index -j leaves the last min(j, n) characters after it |
| `Wallet.Slice` | src/hooks/useWallet.ts:25 | a slice is never longer than the string |
| `Wallet.SliceFrom` | src/hooks/useWallet.ts:25 | `slice(start)` is never longer than the string |
| `Wallet.FormatAddress` | src/hooks/useWallet.ts:23-26 | the result is empty iff the address is undefined or empty |
| `Wallet.ReportedConnected` | src/hooks/useWallet.ts:30 | the hook reports disconnected before client mount, and the library's flag after it |
| `Wallet.SlicePrefix` | src/hooks/useWallet.ts:25 | `slice(0, k)` is the first min(k, n) characters |
| `Wallet.SliceSuffix` | src/hooks/useWallet.ts:25 | `slice(-k)` is the last min(k, n) characters |
| `Wallet.FormatAddressShape` | src/hooks/useWallet.ts:25 | a non-empty address formats to a[0..min(6,n)] + "..." + a[max(n-4,0)..n] |
| `Wallet.FormatAddressLength` | src/hooks/useWallet.ts:25 | the result has length min(6,n) + 3 + min(4,n) |
| `Wallet.LongAddressLength` | src/hooks/useWallet.ts:25 | an address of 10 or more characters formats to exactly 13 characters |
| `Wallet.ShortAddressRepeated` | src/hooks/useWallet.ts:25 | an address of at most 4 characters formats to a + "..." + a |
| `Wallet.FormatAddressEnds` | src/hooks/useWallet.ts:25 | the result begins with the first min(6,n) characters, then "...", and ends with the last min(4,n) |
| `Wallet.HexAddressExample` | src/hooks/useWallet.ts:25 | any 42-character address "0x1234" + 32 characters + "5678" formats to "0x1234...5678" |
| `Activities.OfType` | src/app/my-activities/page.tsx:218 | the filter is never longer than the list, and every kept activity has the tab's type |
| `Activities.FilterByTab` | src/app/my-activities/page.tsx:216-218 | the filtered list is never longer, and on a type tab holds only that type |
| `Activities.InterestFigure` | src/app/my-activities/page.tsx:424 | the interest figure is within half a unit of 8.5% of the amount, and non-negative for a non-negative amount |
| `Activities.ProgressBlockOf` | src/app/my-activities/page.tsx:408-427 | the progress block exists iff the activity is active, and says "Receiving" iff its type is "lend" |
| `Activities.AllTabShowsEverything` | src/app/my-activities/page.tsx:216-217 | the "all" tab shows the list unchanged |
| `Activities.OfTypeCounts` | src/app/my-activities/page.tsx:218 | the filter keeps each activity of the tab's type as often as the list holds it, and no other |
| `Activities.TabMembership` | src/app/my-activities/page.tsx:218 | on a type tab an activity is shown iff it is in the list and has that type |
| `Activities.OfTypeKeepsOrder` | src/app/my-activities/page.tsx:218 | the filter is a subsequence of the list, so relative order is preserved |
| `Activities.TabKeepsOrder` | src/app/my-activities/page.tsx:216-218 | every tab shows a subsequence of the list |
| `Activities.UnmatchedTabIsEmpty` | src/app/my-activities/page.tsx:218 | a type tab that matches no activity shows nothing |
| `Activities.InterestMonotone` | src/app/my-activities/page.tsx:424 | a larger amount never shows a smaller interest figure |
| `Activities.InterestExamples` | src/app/my-activities/page.tsx:424 | the page's amounts 25000 and 15000 show 2125 and 1275 interest |
| `CountUp.FormatNumber` | src/components/CountUp.tsx:43-45 | the output starts with the prefix and ends with the suffix, and erasing the commas of the middle gives the erased input, which is exactly the `toFixed` text when that text holds no comma |
| `CountUp.NotWordBoundary` | src/components/CountUp.tsx:44 | `\B` in front of a digit holds iff a word character comes before it, and it holds between two non-word characters or the ends |
| `CountUp.LookaheadAt` | src/components/CountUp.tsx:44 | `(?=(\d{3})+(?!\d))` can only hold with at least three digits ahead |
| `CountUp.MatchAt` | src/components/CountUp.tsx:44 | the pattern `\B(?=(\d{3})+(?!\d))` only matches after a word character and before at least three digits; `MatchAtIff` gives its exact meaning |
| `CountUp.Decisions` | src/components/CountUp.tsx:44 | the global replace decides, for each position of the original text, to put a comma there iff the literal pattern matches there |
| `CountUp.Interleave` | src/components/CountUp.tsx:44 | putting commas in front of marked characters at most doubles the text, and the text's last character stays last |
| `CountUp.InterleaveCount` | src/components/CountUp.tsx:44 | the result is the text plus exactly one comma per marked character (`CountMarks`) |
| `CountUp.InsertCommas` | src/components/CountUp.tsx:44 | `replace(/\B(?=(\d{3})+(?!\d))/g, ",")` adds fewer characters than the text has, and the text's last character stays last; its meaning is stated by `Decisions`, `MatchAtIff`, `DigitsGrouped` and `ErasingCommas` |
| `CountUp.LookaheadByRun` | src/components/CountUp.tsx:44 | `(?=(\d{3})+(?!\d))` holds iff the digit run ahead has positive length divisible by 3 |
| `CountUp.MatchAtIff` | src/components/CountUp.tsx:44 | the literal pattern matches at a position iff a word character precedes it and a positive multiple of 3 digits follow it, up to a non-digit |
| `CountUp.CommaInDigits` | src/components/CountUp.tsx:44 | in a digit string, a comma goes before position i iff 0 < i and the digits to the right number a multiple of 3 |
| `CountUp.DecisionsConcat` | src/components/CountUp.tsx:44 | across a seam with no digit after it or no word character before it, the comma decisions of x + y are those of x followed by those of y |
| `CountUp.InsertCommasConcat` | src/components/CountUp.tsx:44 | two texts format independently when the seam has no digit after it or no word character before it |
| `CountUp.ErasingCommas` | src/components/CountUp.tsx:44 | only commas are inserted: erasing them gives back comma-free input exactly |
| `CountUp.NoLeadingComma` | src/components/CountUp.tsx:44 | no comma ever goes before the first character or after the last |
| `CountUp.DecisionsOfDigits` | src/components/CountUp.tsx:44 | in a digit string, the replace marks exactly the positions i > 0 with a multiple of 3 digits to their right |
| `CountUp.DigitsGrouped` | src/components/CountUp.tsx:44 | a digit string is grouped by threes from the right |
| `CountUp.ShortRunUnchanged` | src/components/CountUp.tsx:44 | a digit run of at most 3 characters gets no comma |
| `CountUp.GroupThousandsLength` | src/components/CountUp.tsx:44 | grouping n digits adds (n-1)/3 commas |
| `CountUp.GroupThousandsCommas` | src/components/CountUp.tsx:44 | in a grouping, commas sit exactly at every 4th place counted from the right end |
| `CountUp.GroupThousandsLead` | src/components/CountUp.tsx:44 | the leading group holds the first 1 to 3 digits, followed by a comma when more digits come |
| `CountUp.GroupThousandsErases` | src/components/CountUp.tsx:44 | erasing the commas of a grouping gives the digits back |
| `CountUp.FixedNotationGrouped` | src/components/CountUp.tsx:44 | toFixed text formats as sign + grouped integer digits, plus "." + grouped fraction digits when there are decimals; with `GroupThousandsLead`, the first digit directly follows the '-' |
| `CountUp.SingleUnchanged` | src/components/CountUp.tsx:44 | a one-character text gets no comma |
| `CountUp.SignedWholeGrouped` | src/components/CountUp.tsx:44 | an optional '-' followed by integer digits formats as the sign and the digits grouped by threes |
| `CountUp.FractionGrouped` | src/components/CountUp.tsx:44 | a '.' followed by fraction digits formats as '.' and those digits grouped by threes from their right end |
| `CountUp.UnwrappedFormat` | src/components/CountUp.tsx:13-19 | with the default empty prefix and suffix, `formatNumber` is the comma replacement alone |
| `CountUp.DefaultFormat` | src/components/CountUp.tsx:13-19 | with the defaults (no prefix, no suffix, `DefaultDecimals` = 0 decimals) a count shows as its sign and its grouped digits |
| `CountUp.WholeExample` | src/components/CountUp.tsx:44 | 1234567 shows as 1,234,567 |
| `CountUp.FractionExample` | src/components/CountUp.tsx:44 | with four decimals, 1234.5678 shows as 1,234.5,678, because the fraction is grouped too |

## Findings

| source | as written | input that shows it | evidently intended | confidence | as-written member | corrected member |
|---|---|---|---|---|---|---|
| src/app/request/page.tsx:264 | `{monthlyPayment && (…)}` evaluates to the number 0 for a zero quote, and React renders it as a bare "0" under the period selector | amount "0.5", period "3months" (quote `Math.round(0.17…)` = 0) | nothing rendered when the quote is 0 | high; not executed | `LoanQuote.GuardOutput`, `LoanQuote.TinyPrincipalRendersZero` | `LoanQuote.IntendedOutput`, `LoanQuote.ZeroRenderedIff` |

## Left out

- Floating point: all arithmetic is exact `real`. 20/30 is inexact in doubles, so a quote that lands exactly on a .5 tie here may round differently in the browser. Doubles that overflow to `Infinity` (a principal typed as "Infinity" or "1e400") are not modelled.
- `parseFloat`, `toFixed` and `toLocaleString` are not modelled. The parsed principal is a parameter (`None` for NaN). The `toFixed` text is the input of `FormatNumber`. `FixedNotation` describes that text only for finite values with |x| < 1e21; the exponential text ("1e+21"), "NaN" and "Infinity" are outside it, although `FormatNumber` accepts any text. The `toLocaleString` rendering of the quote and the interest figure is not part of this model.
- `LoanQuote.MonthlyPayment`: `amount` is used only for its emptiness. The link between the text and its parsed value is the caller's, since `parseFloat` is not modelled.
- The count-up animation of `CountUp.tsx` (lines 23-41) is left out. It is a `setInterval` timer with float increments.
- `Wallet.FormatAddress`: characters are Unicode scalar values, where JavaScript's `slice` counts UTF-16 code units. An address with characters outside the Basic Multilingual Plane is cut at different places in the browser. Wallet addresses are ASCII hex, so the two agree on every address the app formats.
- The wallet library's own state (account, balance, chain, connect and disconnect) is left out. It is external I/O, and its connected flag is a parameter of `ReportedConnected`.
- Contract calls (`writeContract`, `parseEther`), navigation timers, Lottie loading, the service worker, chain and provider configuration, and all rendering and animation are left out as I/O or presentation.
- The hard-coded activity list and the community lookups are left out. They are mock data, and the model works on any list.
- `\w` and `\d` are the ASCII classes of JavaScript regular expressions without the `u` flag. This matches the engine, and `toFixed` only produces ASCII.
