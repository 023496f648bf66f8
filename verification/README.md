# Upcoming-auction view: countdown and featured/remaining split

This project models the scheduling logic of the artifact auction page
(`frontend/src/app/Auctions/items.tsx`) and proves properties about it in Dafny.

- **Countdown** (`countdown.dfy`, module `Countdown`). `formatCountdown` splits the
  milliseconds left before an auction into days, hours, minutes and seconds and writes
  them as `"Dd Hh Mm Ss"`. The timer effect of the featured card recomputes the time left
  on every tick. While it is positive, the tick shows the countdown. Otherwise it shows
  "Auction has started!" and clears the timer.
- **Decimal rendering** (`decimal.dfy`, module `Decimal`). This is how the template literal
  writes each number: a sign, then digits without leading zeros.
- **Featured/remaining split** (`upcoming.dfy`, module `Upcoming`). The fetched artifacts
  are copied and stably sorted by auction start. The first one whose start is still ahead
  of the clock becomes the featured upcoming auction. Every artifact whose `_id` differs
  from the featured one's stays in the remaining list, in sorted order.
- `wrappers.dfy` holds the `Option` type shared by the modules.

Timestamps are whole epoch milliseconds. `Math.floor(x / c)` with a positive constant `c`
is Dafny's `/`. JavaScript's `%` truncates toward zero, so it is written out as
`Countdown.JsRem`. This makes the decomposition defined for every integer, as in the
source; its clock properties are stated for a non-negative time left, the only case the
page reaches. Artifacts are values, so sorting the copy cannot change the fetched list.

The countdown text is specified through a reader, `Countdown.ParseCountdown`. It reads
`"Dd Hh Mm Ss"` with each number in digits without leading zeros, and it accepts only text
that `Countdown.Render` writes. So a contract saying that the text reads back as the
decomposition fixes the text on screen character by character.

## Model

| member | source | states |
|---|---|---|
| `Countdown.JsRem` | frontend/src/app/Auctions/items.tsx:21-24 | `%` truncates toward zero: the remainder has the sign of the dividend, is smaller than the divisor in magnitude, and differs from the dividend by a multiple of the divisor |
| `Countdown.Decompose` | frontend/src/app/Auctions/items.tsx:19-24 | for a time left of at least zero: `days >= 0`, `0 <= hours < 24`, `0 <= minutes < 60`, `0 <= seconds < 60`, and `days*86400000 + hours*3600000 + minutes*60000 + seconds*1000 <= timeLeft <` that sum `+ 1000` (only the sub-second remainder is dropped) |
| `Countdown.DecomposeUnique` | frontend/src/app/Auctions/items.tsx:19-24 | any countdown with fields in clock range that covers the time left to within one second is exactly the one computed |
| `Countdown.FormatCountdown` | frontend/src/app/Auctions/items.tsx:18-27 | for a time left of at least zero, the text starts with a digit, reads back as exactly the decomposition of the time left, and is the only text that reads back as that decomposition |
| `Countdown.Render` | frontend/src/app/Auctions/items.tsx:26 | the text `"${days}d ${hours}h ${minutes}m ${seconds}s"` of non-negative fields reads back as the same four numbers; it starts with `-` exactly when the days are negative, and with a digit otherwise |
| `Countdown.RenderOfParse` | frontend/src/app/Auctions/items.tsx:26 | every text the reader accepts is exactly the template text of the numbers it reads, so the reader and the template are inverse |
| `Countdown.RenderInjective` | frontend/src/app/Auctions/items.tsx:26 | two different non-negative countdowns never show the same text |
| `Countdown.TickDecision` | frontend/src/app/Auctions/items.tsx:35-43 | a tick shows a countdown exactly when `start - now > 0`, and then the time left is positive and equals `start - now`; otherwise the auction has started |
| `Countdown.Display` | frontend/src/app/Auctions/items.tsx:38-42 | the text on screen is "Auction has started!" exactly when the tick found the auction started; a countdown's text reads back as the decomposition of its time left and is the only text that does |
| `Countdown.TickShowsTimeLeft` | frontend/src/app/Auctions/items.tsx:35-39 | before the start, the shown text is a countdown with fields in clock range, within one second of the real time left |
| `Countdown.StartedIsFinal` | frontend/src/app/Auctions/items.tsx:37-42 | once a tick finds the auction started, every tick at a later clock reading finds it started too |
| `Countdown.Run` | frontend/src/app/Auctions/items.tsx:34-44 | over successive clock readings the timer makes one tick per reading until the first tick that finds the auction started; every tick before that shows a countdown, and the timer stops there |
| `Countdown.ClearingTimerHidesNothing` | frontend/src/app/Auctions/items.tsx:38-43 | with a clock that never runs backward, every reading after the timer stops would also have shown "Auction has started!", so the started text never reverts to a countdown |
| `Decimal.NatToString` | frontend/src/app/Auctions/items.tsx:26 | a natural number is written as a non-empty string of digits with no leading zero: it starts with `0` only for zero, and then it is `"0"` |
| `Decimal.IntToString` | frontend/src/app/Auctions/items.tsx:26 | an integer is written with a leading `-` exactly when it is negative; the digits after any sign have no leading zero and their value is the magnitude of the integer |
| `Decimal.DigitsValueOfNatToString` | frontend/src/app/Auctions/items.tsx:26 | reading back the digits of a natural number gives the number |
| `Decimal.NatToStringOfDigits` | frontend/src/app/Auctions/items.tsx:26 | every digit string without leading zeros is the rendering of its value, so rendering is a bijection onto those strings |
| `Upcoming.Insert` | frontend/src/app/Auctions/items.tsx:118-122 | inserting into a sorted list keeps it sorted and adds exactly the inserted artifact |
| `Upcoming.SortByStart` | frontend/src/app/Auctions/items.tsx:118-122 | the sorted list is non-decreasing by start and is a permutation of the fetched list |
| `Upcoming.SortKeepsMembers` | frontend/src/app/Auctions/items.tsx:118-122 | the sorted list contains exactly the fetched artifacts |
| `Upcoming.SortIsStable` | frontend/src/app/Auctions/items.tsx:118-122 | artifacts that start at the same time keep their fetched order |
| `Upcoming.SortIsTheStableSort` | frontend/src/app/Auctions/items.tsx:118-122 | any list that is sorted by start and keeps ties in fetched order is equal to the sorted list, so the result is the stable sort by start |
| `Upcoming.FindUpcoming` | frontend/src/app/Auctions/items.tsx:124-127 | the result is absent exactly when every artifact has started; otherwise it is the element at the first index whose start is after `now` |
| `Upcoming.RemoveId` | frontend/src/app/Auctions/items.tsx:131-133 | the kept artifacts are exactly those whose id differs, each as often as in the input; they keep their relative order (a subsequence), and a sorted input stays sorted |
| `Upcoming.SplitUpcoming` | frontend/src/app/Auctions/items.tsx:116-134 | nothing is featured exactly when every auction has started, and then the remaining list is the whole sorted list; the remaining list is sorted, is a subsequence of the sorted list, and holds exactly the fetched artifacts whose id differs from the featured one's, each as often as it was fetched |
| `Upcoming.FirstFutureIsEarliest` | frontend/src/app/Auctions/items.tsx:124-127 | in a sorted list, the first artifact still ahead starts no later than any other artifact still ahead |
| `Upcoming.UpcomingIsEarliestFuture` | frontend/src/app/Auctions/items.tsx:118-127 | the featured artifact is one of the fetched ones, has not started, and starts no later than any fetched auction that has not started |
| `Upcoming.UpcomingTieBreak` | frontend/src/app/Auctions/items.tsx:118-127 | among fetched artifacts with the featured one's start time, the featured one is the first in fetched order |
| `Upcoming.RemoveUniqueId` | frontend/src/app/Auctions/items.tsx:131-133 | when ids are unique, filtering out an artifact's id from a permutation of the list removes exactly that one artifact |
| `Upcoming.EachArtifactShownOnce` | frontend/src/app/Auctions/items.tsx:124-133 | when ids are unique, the fetched artifacts are, as a multiset, the remaining list plus the featured artifact if there is one: each is shown exactly once |

## Left out

- `live-auction.tsx`, `register.ts`, `ClientLayout.tsx` and `useAuctionNotifications.tsx`
  are not part of this model. They are mostly socket listeners, HTTP calls, a database
  lookup and save, password hashing, Redux dispatches and JSX. Bids are posted to
  `/api/place_bid` (`live-auction.tsx` line 77), whose code is not part of this model.
  The in-memory logic of these files is left out with them:
  - `register.ts` rejects a request whose method is not `POST` (lines 9-11) and one whose
    email or password is empty (lines 17-19), then rejects an email already stored.
  - `live-auction.tsx` appends each bid that arrives to the list (line 116), shows the list
    reversed (lines 207-208), and writes amounts with `toFixed(2)` (line 221), a
    floating-point formatting.
  - `ClientLayout.tsx` hides the header and footer on the login and register paths
    (line 19).
- Parsing `auctionStartDate` with `new Date(...)`: start times are taken as integer epoch
  milliseconds. An unparsable date (`NaN` in the comparator) is not modelled.
- The `setInterval`/`clearInterval` timer itself is not modelled. Only its per-tick
  decision and the sequence of ticks it makes at given clock readings are modelled. The
  clock readings are parameters. The empty text shown before the first tick is not
  modelled.
- `Upcoming.FindUpcoming`: the source's `find` callback reads the clock anew for each
  artifact. The model uses one clock reading for the whole search.
- `toLocaleString` for dates and prices, and all JSX rendering: library formatting and UI.
- `startingPrice` is a JavaScript number. It is carried as a `real` and never computed on.
- The React Query fetch, loading and error states: I/O.
