# Avenir'26 festival site: events carousel and countdown, modelled in Dafny

The site is a single-page React front end. Two pieces of it hold real logic, and this project models both.

**The events carousel** (`src/components/Events.jsx`) has three pieces of state: `events`, `loading` and `currentEventIndex`.
- It fetches the event list once on mount. A body with a truthy `success` and a present `data` list is stored unchanged. Any other body, and any thrown error, stores an empty list. `loading` is cleared on every path.
- While the list is non-empty, an interval advances the index every five seconds, as `(index + 1) % length`.
- The indicator dots overwrite the index with `changeEvent(i)`. There is no bounds check.
- The current event is shown with fallbacks: the wing label (first wing in the static table listing the id, else "General"), a placeholder poster, fee "0" and date "TBA".

**The countdown** (`src/components/Home.jsx`) fires once a second.
- A positive number of milliseconds left is split into days, hours, minutes and seconds with `Math.floor` and `%`.
- When no time is left, the fields go to zero and the interval clears itself.
- Each field is shown as `String(n).padStart(2, '0')`.

Files:
- `wrappers.dfy`: `Option`.
- `arith.dfy`: uniqueness of Euclidean division, and division by a product.
- `events.dfy`: module `Events`. It holds the response and event datatypes, the wing lookup, the display fallbacks, the tick arithmetic with its cyclicity lemmas, and the class `EventsCarousel`, whose fields are the component's state and whose methods are the fetch completion, the tick and the selection.
- `countdown.dfy`: module `Countdown`. It holds the page's formulas, written on exact reals exactly as in the source and proved equal to natural-number `/` and `%`. It also holds the field ranges, the reconstruction of the seconds, the stop-at-zero state machine, decimal printing and `padStart`, and the class `CountdownTimer`.

Timers and the fetch become explicit calls:
- `CompleteFetch(response)` is one settling of the request.
- `Tick()` is one firing of the carousel interval. It does nothing when no interval is armed.
- `CountdownTimer.Tick(difference)` is one firing of the countdown interval, with `difference = target - now` passed in.

The field `intervalArmed` records whether the `[events]` effect armed an interval. The class invariant `Valid()` ties it to `events != []`.

The index is an unbounded `int`, because `changeEvent` does not check it. A tick uses JavaScript's truncating `%` (`JsRem`), so a negative index behaves as it would in the browser.

Facts about the code that the model keeps:
- Fetch completion never touches the index (`src/components/Events.jsx:76-86`), and `CompleteFetch` keeps it.
- Nothing guards against a fetch that settles after unmount: `setLoading(false)` runs in `finally` (lines 84-86).
- `changeEvent` is unchecked (lines 102-104). An out-of-range index renders with every field falling back, since `events[i]?.x` is `undefined`. `TicksRecover` proves that one full period of ticks brings any index back into range.
- The fee fallback is "0" (line 272).

## Model

| member | source | states |
|---|---|---|
| Events.Accepted | src/components/Events.jsx:76 | the guard `result.success && result.data`: any successful body with a list passes; a thrown path, a false `success` or a missing list is refused, and a successful body with an empty list passes, since an empty array is truthy |
| Events.ReceivedEvents | src/components/Events.jsx:76-83 | the stored list is the server's list, unchanged and in order, exactly when `success && data` holds; otherwise it is empty, and a non-empty stored list always came from a well-formed successful body |
| Events.EventsCarousel.constructor | src/components/Events.jsx:59-61 | initial state: no events, loading, index 0, no interval armed |
| Events.EventsCarousel.BeginFetch | src/components/Events.jsx:73 | starting the request sets `loading` and changes nothing else |
| Events.EventsCarousel.CompleteFetch | src/components/Events.jsx:76-86 | on every path (accepted, malformed, thrown) `loading` becomes false and the list becomes `ReceivedEvents(r)`; the index is not reset; an interval is armed exactly when the new list is non-empty |
| Events.EventsCarousel.Tick | src/components/Events.jsx:92-100 | with an interval armed the index becomes `(index + 1) % length`, and a valid index stays valid; with the list empty no interval exists and nothing changes; the list and `loading` are untouched |
| Events.EventsCarousel.ChangeEvent | src/components/Events.jsx:102-104 | the index becomes exactly the argument, unchecked; nothing else changes |
| Events.EventsCarousel.CurrentEvent | src/components/Events.jsx:230-281 | the current event exists exactly when the index is inside the list, and is then the element at that index |
| Events.EventsCarousel.Render | src/components/Events.jsx:197-353 | the total count is the list length on every screen; the loading note shows exactly while loading; the empty note shows exactly when loaded with no events; otherwise the carousel shows the current event's card and one indicator per event, lit exactly at the current index |
| Events.JsRem | src/components/Events.jsx:96 | JavaScript `%`: the remainder is congruent to the dividend, smaller in magnitude than the divisor, has the dividend's sign, and equals the dividend when that is already smaller than the divisor |
| Events.NextIndex | src/components/Events.jsx:96 | from a valid index the next index is valid: one step forward, wrapping from the last index to 0 |
| Events.Ticks | src/components/Events.jsx:95-97 | zero ticks leave the index as it is; after at least one tick the index is within `(-n, n)`, whatever index it started from |
| Events.TicksFromValid | src/components/Events.jsx:95-97 | from a valid index, `k` ticks give `(i + k) mod n` |
| Events.TicksStayInRange | src/components/Events.jsx:96 | a valid index stays valid under any number of ticks |
| Events.CycleReturns | src/components/Events.jsx:96 | from any valid index, `n` ticks return to the start |
| Events.TicksPeriodic | src/components/Events.jsx:96 | the sequence of indices repeats with period `n` |
| Events.VisitsEachOnce | src/components/Events.jsx:96 | from index 0 the first `n` ticks show indices `0..n-1`, each exactly once |
| Events.TicksClimbToRange | src/components/Events.jsx:96 | from a non-positive index above `-n`, the ticks climb by one into range |
| Events.TicksRecover | src/components/Events.jsx:95-104 | whatever index an unchecked `changeEvent` leaves, `n` ticks bring it back into range |
| Events.FindWing | src/components/Events.jsx:66 | `find` over the wing names: the result is the first wing, in declaration order, whose list contains the id, and there is none exactly when no list contains it |
| Events.OrElse | src/components/Events.jsx:281 | JavaScript or-else on an optional string: a non-empty value is kept; an absent or empty one gives the fallback |
| Events.WingForEvent | src/components/Events.jsx:65-67 | the label is never empty; it is the first wing listing the id, or "General" when no wing lists it or there is no current event |
| Events.ShippedWings | src/components/Events.jsx:49-56 | with the shipped table: EVT00001 gives Fun, EVT00002 Eloquense, EVT00003 Virtuix, EVT00004 Illustro, and any other id gives General |
| Events.FeeTruthy | src/components/Events.jsx:272 | a fee is falsy exactly when it is absent, the number 0 or the empty string |
| Events.FeeLabel | src/components/Events.jsx:272 | the shown fee is always truthy: it is the event's fee when truthy, else "0" |
| Events.DateLabel | src/components/Events.jsx:281 | the shown date is never empty: it is the event's date when present and non-empty, else "TBA" |
| Events.PosterLabel | src/components/Events.jsx:233 | the poster is never empty: it is the event's poster URL when present and non-empty, else the fixed placeholder |
| Events.CardFor | src/components/Events.jsx:230-281 | each card field goes through its fallback; with no current event the name and description are absent and the wing is General |
| Countdown.MathFloor | src/components/Home.jsx:58-61 | `Math.floor(x)` is the integer `z` with `z <= x < z + 1` |
| Countdown.JsRealRem | src/components/Home.jsx:59-61 | JavaScript `%` on numbers: the remainder has the dividend's sign, is smaller than the divisor in magnitude, and differs from the dividend by a whole multiple of the divisor |
| Countdown.FloorOfQuotient | src/components/Home.jsx:58 | `Math.floor(a / b)` on an exact quotient of naturals is natural-number division |
| Countdown.FloorRemAgrees | src/components/Home.jsx:59-61 | `Math.floor((a / unit) % m)`, with JavaScript's remainder on reals, equals `(a div unit) mod m` for non-negative `a` |
| Countdown.DaysFormula | src/components/Home.jsx:58 | `Math.floor(difference / (1000 * 60 * 60 * 24))` is `difference div 86400000` |
| Countdown.HoursFormula | src/components/Home.jsx:59 | `Math.floor((difference / (1000 * 60 * 60)) % 24)` is `(difference div 3600000) mod 24` |
| Countdown.MinutesFormula | src/components/Home.jsx:60 | `Math.floor((difference / 1000 / 60) % 60)` is `(difference div 60000) mod 60` |
| Countdown.SecondsFormula | src/components/Home.jsx:61 | `Math.floor((difference / 1000) % 60)` is `(difference div 1000) mod 60` |
| Countdown.Breakdown | src/components/Home.jsx:56-62 | for a positive difference, the page's formulas give days = d div 86400000, hours = (d div 3600000) mod 24, minutes = (d div 60000) mod 60, seconds = (d div 1000) mod 60, so hours < 24 and minutes, seconds < 60 |
| Countdown.Reconstruction | src/components/Home.jsx:58-61 | days·86400 + hours·3600 + minutes·60 + seconds equals the whole seconds remaining |
| Countdown.BreakdownUnique | src/components/Home.jsx:58-61 | the split is the only one within those ranges that adds back up to the whole seconds remaining |
| Countdown.UnderOneSecondShowsZero | src/components/Home.jsx:56-61 | with under one second left, all four fields are already zero while the interval keeps running |
| Countdown.Step | src/components/Home.jsx:52-67 | one firing: a cleared interval changes nothing; a positive difference stores its split and keeps the interval; a non-positive one zeroes the fields and clears it; fields in range stay in range |
| Countdown.Run | src/components/Home.jsx:52-67 | over any sequence of firings the interval is never re-armed, a stopped result is either the start state or all zero, and fields in range stay in range |
| Countdown.StoppedIsTerminal | src/components/Home.jsx:63-66 | once the interval is cleared, no sequence of later firings changes the state |
| Countdown.NonPositiveStops | src/components/Home.jsx:63-66 | a running countdown that meets a non-positive difference ends all-zero and stopped, whatever follows |
| Countdown.RunningWhilePositive | src/components/Home.jsx:52-62 | while every difference is positive the interval stays armed and shows the split of the latest difference |
| Countdown.Decimal | src/components/Home.jsx:163 | `String(n)` is all digits, has no leading zero, is one character exactly for `n < 10`, at most two below 100 and at least three from 100 on |
| Countdown.DecimalRoundTrip | src/components/Home.jsx:163 | reading the decimal string back gives `n` |
| Countdown.PadStart | src/components/Home.jsx:163 | `padStart` keeps a string at least as long as the width; otherwise it fills on the left to the width, with the original string as the suffix |
| Countdown.Pad2 | src/components/Home.jsx:163 | below 10 the shown text is "0" and the digit; from 10 on it is the decimal string unchanged, which is two characters below 100 and longer for days of 100 or more |
| Countdown.Pad2RoundTrip | src/components/Home.jsx:163 | the padded text still reads back as the number |
| Countdown.Cells | src/components/Home.jsx:161-177 | the four cells are exactly `String(n).padStart(2, '0')` of days, hours, minutes and seconds, all digits, each reading back as its field; hours, minutes and seconds within range take exactly two characters |
| Countdown.CountdownTimer.constructor | src/components/Home.jsx:42-47 | initial state: all four fields zero, the interval armed, the fields in range |
| Countdown.CountdownTimer.Tick | src/components/Home.jsx:52-67 | a positive difference stores its split and keeps the interval; a non-positive one zeroes the fields and clears the interval; a cleared interval never changes the state; the fields stay in range (hours below 24, minutes and seconds below 60) |
| Countdown.CountdownTimer.Display | src/components/Home.jsx:163-175 | the four cells are exactly `String(n).padStart(2, '0')` of the current days, hours, minutes and seconds, and read back as those fields; since the fields are in range, HOURS, MIN and SEC take exactly two characters and DAYS at least two |

## Left out

- The HTTP request, `response.json()`, the configured base URL and the `console.error` log are I/O. The settled request is the input datatype `Response`, and its `Err` variant covers every thrown path.
- Timer periods (5000 ms and 1000 ms), React effect scheduling and cleanup are not modelled. Firings are explicit method calls. When the list is replaced, the interval is re-armed, which restarts the five-second phase; that timing is not modelled.
- Unmounting is not modelled. The component has no guard against a fetch that settles after unmount.
- The countdown's target date (`new Date('February 27, 2026 10:00:00')`) and `new Date().getTime()` are date parsing and a clock. `CountdownTimer.Tick` takes their difference as an integer.
- Countdown.Breakdown: reals are exact, so IEEE-754 double rounding in `difference / 1000 / 60` and the other divisions is not modelled.
- Events.JsRem: indices are unbounded integers. Doubles beyond 2^53 are not modelled.
- JSON values outside the modelled types are not modelled. `success` is a boolean, a fee is an integer or a string, `data` is a list of event records or absent. A truthy `data` that is not an array is not modelled either.
- Countdown.Pad2: only natural numbers are printed. The page never stores a negative field.
- The mouse and scroll parallax of `Home.jsx` is floating-point presentation. `useCountUp` in `About.jsx` uses float increments on timers. The framer-motion variants, the markup, `Loader.jsx`, and the static data files `Timeline_Data.js` and `FAQ_data.js` are presentation or constant data with no behaviour.
