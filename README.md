# HydroFlow — a verified model of the water-intake tracker's logic

HydroFlow is a single-screen water-intake tracker. The user logs drinks by
tapping quick-add volumes or typing a custom amount, and edits a daily goal.
They can save their own volumes next to the built-in 100, 400 and 500 ml, move
between days, and look at a monthly overview whose cells are coloured by each
day's total.

This project models the logic of `src/App.jsx` behind that screen in Dafny and
proves properties of it:

- `wrappers.dfy`: `Option`. It stands for a failed `parseInt` (NaN) and for a
  stored entry that is absent or unreadable.
- `decimal.dfy`: how `String(n)` writes integers and how `padStart(2, '0')`
  pads them. It includes a reader `ReadInt` and proves that it reads back what
  `String` writes.
- `calendar.dfy`: proleptic Gregorian dates with 0-based months, and day
  ordinals and weekdays.
  - It covers the day moves behind `changeDate`, `getDaysInMonth`,
    `getFirstDayOfMonth` and the year rule of the JavaScript `Date`
    constructor.
  - It covers the `YYYY-MM-DD` key `getDocId` and its inverse `ParseDocId`.
  - The `calendarGrid` builder is a method with the source's two loops.
- `presets.dfy`: the built-in volumes, the saved-volume list, and the merged
  `allGlasses` list.
  - The numeric `sort((a, b) => a - b)` is an insertion sort. A uniqueness
    lemma makes the choice of sorting algorithm irrelevant.
  - `filter(g => g !== amount)` is modelled by `Without`.
- `ledger.dfy`: the day ledger `dailyData`, its append operation and the
  invariant "each total is the sum of its day's amounts". It also holds the
  colour tier of a calendar cell.
- `app.dfy`: `class App`. Each field is one piece of the component's state.
  Each method but `CalendarGrid` is one event handler; `CalendarGrid` is the
  memoised `calendarGrid` value, recomputed when the selected day changes.
  - `parseInt` is a parameter `parse: string -> Option<int>`, applied to the
    text field the handler reads.
  - The clock values `new Date().toISOString()` and `Date.now().toString()`
    are parameters `timestamp` and `id`.
  - The locally stored values are parameters of the constructor.

Two behaviours of the code are worth noting:

- The cell colour cascade leaves a day uncoloured unless `total > 0`. The code
  gates on that, not on `total == 0`, so a negative total would also stay
  uncoloured.
- The goal read at start-up falls back to 2500 only when `parseInt` gives NaN
  or 0. A stored negative goal is kept.

## Model

| member | source | states |
|---|---|---|
| Decimal.NatToString | src/App.jsx:21-22 | `String(n)` of a natural number is a non-empty digit string, one digit long exactly below 10, starting with `0` exactly for 0 |
| Decimal.NatToStringRoundTrip | src/App.jsx:21-22 | the digits `String(n)` writes denote `n` again |
| Decimal.IntToString | src/App.jsx:20-23 | the year as written into the key is non-empty and starts with a minus sign exactly for a negative year |
| Decimal.IntToStringValue | src/App.jsx:20-23 | after the optional sign, the digits of the written year denote its magnitude |
| Decimal.ReadIntToString | src/App.jsx:20-23 | reading back a written integer gives that integer |
| Decimal.PadStart | src/App.jsx:21-22 | `padStart(width, fill)` has length max(len(s), width), ends with `s` and is `fill` before it |
| Decimal.TwoDigits | src/App.jsx:21-22 | `String(n).padStart(2, '0')`, the form of a month or a day in the key (no contract of its own; see `TwoDigitsValue`) |
| Decimal.TwoDigitsValue | src/App.jsx:21-22 | a padded month or day below 100 is exactly two digits and denotes the number |
| Decimal.TwoDigitsInjective | src/App.jsx:21-22 | distinct months (days) pad to distinct two-digit strings |
| Calendar.MonthLength | src/App.jsx:26-28 | every month has 28 to 31 days |
| Calendar.Weekday | src/App.jsx:30-31 | `getDay()` is between 0 and 6 |
| Calendar.DaysBeforeYearMonotone | src/App.jsx:191-195 | a year plus its length never passes the start of a later year, so ordinals grow with the year |
| Calendar.YearStep | src/App.jsx:191-195 | consecutive years start exactly one year length apart (the leap rule in ordinal form) |
| Calendar.DayNumberInYear | src/App.jsx:191-195 | the days of one year occupy one block of ordinals |
| Calendar.DayNumberOrder | src/App.jsx:191-195 | an earlier calendar date has a smaller ordinal, and conversely |
| Calendar.DayNumberInjective | src/App.jsx:191-195 | distinct dates have distinct ordinals |
| Calendar.EpochIsThursday | src/App.jsx:30-31 | 1970-01-01 is a valid date and a Thursday, fixing weekdays to those of the JavaScript `Date` |
| Calendar.NextDay | src/App.jsx:192-193 | the next day is a valid date one ordinal later, rolling over months and years |
| Calendar.PrevDay | src/App.jsx:192-193 | the previous day is a valid date one ordinal earlier, rolling back over months and years |
| Calendar.NextPrevInverse | src/App.jsx:192-193 | the next and previous days undo each other |
| Calendar.WeekdayNext | src/App.jsx:30-31 | the weekday advances by one each day, wrapping Saturday to Sunday |
| Calendar.AddDays | src/App.jsx:191-195 | `setDate(getDate() + days)` gives a valid date exactly `days` ordinals away |
| Calendar.AddDaysUnique | src/App.jsx:191-195 | that date is the only valid one with that ordinal |
| Calendar.FirstOfNextMonth | src/App.jsx:27 | the first of the month after `month`, rolling December into January of the next year, as `new Date(year, month + 1, 0)` overflows the month (no contract of its own; see `DaysInMonth`) |
| Calendar.DaysInMonth | src/App.jsx:26-28 | `getDaysInMonth` is 28..31, is 29 in February exactly in leap years, is 30 exactly for April, June, September and November, and is the date of the day before the next month's first |
| Calendar.FirstDayOfMonth | src/App.jsx:30-32 | `getFirstDayOfMonth` is between 0 and 6 |
| Calendar.WeekdayInMonth | src/App.jsx:30-32 | day `i` of a month falls `i - 1` weekdays after the first |
| Calendar.JsYear | src/App.jsx:27 | `new Date(year, …)` reads a year from 0 to 99 as 1900 + year and keeps every other year; used by `DaysInMonth`, `FirstDayOfMonth` and the grid cells (no contract of its own) |
| Calendar.DocId | src/App.jsx:18-24 | `getDocId`: the year as `String` writes it, a dash, the month plus one and the day each padded to two digits; its properties are stated by `DocIdRoundTrip`, `DocIdInjective` and `DocIdExample` (no contract of its own) |
| Calendar.KeyParts | src/App.jsx:23 | the key splits back into the year, the two dashes, the month and the day at fixed offsets from its end |
| Calendar.ParseKey | src/App.jsx:23 | a key assembled from a readable year and two-digit month and day parses back to those three numbers |
| Calendar.KeyRoundTrip | src/App.jsx:18-24 | the key built from a year, a 0-based month and a day parses back to that date |
| Calendar.DocIdRoundTrip | src/App.jsx:18-24 | `getDocId` of every valid date parses back to that date |
| Calendar.DocIdInjective | src/App.jsx:18-24 | distinct valid dates never share a ledger key |
| Calendar.DocIdExample | src/App.jsx:18-24 | 1 March 2024 has the key `2024-03-01` |
| Calendar.BuildCalendarGrid | src/App.jsx:197-206 | the grid has `firstDay + daysInMonth` cells, the first `firstDay` empty, cell `firstDay + i - 1` holding day `i`; every filled cell is a valid date of that month whose weekday is its column |
| Presets.DEFAULTS | src/App.jsx:149 | the built-in volumes 100, 400 and 500 (a constant) |
| Presets.Insert | src/App.jsx:167 | insertion adds exactly the new element to the multiset |
| Presets.InsertSorted | src/App.jsx:167 | insertion into an ascending list keeps it ascending |
| Presets.Sort | src/App.jsx:167 | the numeric sort is ascending and a permutation of its input |
| Presets.SortedSameHead | src/App.jsx:167 | two ascending permutations of each other start alike |
| Presets.TailMultiset | src/App.jsx:167 | dropping the head removes one copy of it from the multiset |
| Presets.SortedPermutationUnique | src/App.jsx:167 | two ascending lists with the same elements are equal, so any correct sort gives the same result |
| Presets.SortSorted | src/App.jsx:167 | sorting an ascending list leaves it unchanged |
| Presets.DistinctMultiset | src/App.jsx:166 | a list is duplicate-free exactly when each element occurs at most once in its multiset |
| Presets.DistinctPermutation | src/App.jsx:167 | a permutation has duplicates exactly when the original has |
| Presets.Without | src/App.jsx:173 | the filter removes every occurrence of the value and keeps every other element with its multiplicity |
| Presets.WithoutKeepsOrder | src/App.jsx:173 | the filter keeps the other elements in their relative order |
| Presets.WithoutAbsent | src/App.jsx:173 | deleting an absent value is a no-op |
| Presets.SubsequenceElements | src/App.jsx:173 | an order-preserving selection takes only elements of the original |
| Presets.SubsequenceSorted | src/App.jsx:173 | an order-preserving selection of an ascending list is ascending |
| Presets.WithoutSorted | src/App.jsx:172-175 | deleting from an ascending saved list keeps it ascending |
| Presets.AllGlasses | src/App.jsx:208 | `allGlasses` is ascending and holds the defaults and the saved volumes with their multiplicities |
| Presets.AllGlassesMerge | src/App.jsx:208 | `allGlasses` is ascending, a permutation of the defaults followed by the saved list, holds exactly their elements and is three longer |
| Presets.AllGlassesDistinct | src/App.jsx:208 | with a well-formed saved list every volume appears on the buttons once |
| Presets.ClassifySave | src/App.jsx:164-166 | an input is rejected exactly when it is NaN or not positive, ignored exactly when positive and already saved or built in, added exactly otherwise, and the added amount is the parsed one |
| Presets.SaveList | src/App.jsx:163-170 | the saved list after `handleSavePreset`: unchanged unless the amount is added, and then ascending and the old list plus exactly the amount |
| Presets.SaveRejected | src/App.jsx:165-166 | a rejected or ignored amount leaves the saved list unchanged |
| Presets.SaveAccepted | src/App.jsx:167-168 | an added amount gives an ascending list holding it, one longer, a permutation of the old list plus the amount |
| Presets.SaveKeepsWellFormed | src/App.jsx:163-170 | saving keeps the list ascending, duplicate-free, positive and disjoint from the defaults |
| Presets.DeleteKeepsWellFormed | src/App.jsx:172-175 | deleting keeps the saved list well-formed |
| Presets.DeleteKeepsDefaults | src/App.jsx:172-175 | deleting from the saved list never removes a built-in volume from the buttons |
| Presets.SaveScenario | src/App.jsx:163-170 | saving 250 on an empty list gives `[250]` |
| Presets.MergeScenario | src/App.jsx:208 | the buttons then show `[100, 250, 400, 500]` |
| Presets.SaveDefaultScenario | src/App.jsx:166 | saving the built-in 400 changes nothing |
| Presets.DeleteScenario | src/App.jsx:172-175 | deleting 250 again leaves `[100, 400, 500]` |
| Ledger.GetDay | src/App.jsx:148 | a day never written reads as total 0 with no entries, which is consistent |
| Ledger.Append | src/App.jsx:179-182 | the ledger with one entry logged on a day; its effect is stated by `AppendEffect` and `AppendConsistent` (no contract of its own) |
| Ledger.AppendEffect | src/App.jsx:179-182 | logging touches only the selected day: exactly one entry, the given one, is appended last, the total grows by exactly the amount, and every other day reads as before |
| Ledger.SumAppend | src/App.jsx:179-181 | appending an entry adds its amount to the sum of amounts |
| Ledger.AppendConsistent | src/App.jsx:177-183 | logging a positive amount keeps every total equal to the sum of its day's amounts |
| Ledger.TwoDrinksScenario | src/App.jsx:177-183 | 500 ml then 400 ml on an empty day give total 900 and those two entries in order |
| Ledger.DayTotal | src/App.jsx:331-332 | the total a calendar cell reads, 0 for a day never written (no contract of its own; see `EmptyTierIffNothingLogged`) |
| Ledger.CellTier | src/App.jsx:332-342 | a cell is uncoloured exactly when total <= 0; otherwise goal met exactly when total >= goal, else high exactly above 1500, else medium exactly above 1000, else low |
| Ledger.SumPositive | src/App.jsx:178-181 | positive amounts sum to a non-negative total that is positive exactly when there is an entry |
| Ledger.EmptyTierIffNothingLogged | src/App.jsx:331-337 | in a consistent ledger a cell is uncoloured exactly when nothing was logged that day |
| Ledger.TierMonotone | src/App.jsx:337-342 | drinking more never lowers a day's tier, and "goal met" is kept |
| Ledger.TierBoundary | src/App.jsx:333 | exactly the goal counts as met, one millilitre less does not |
| HydroFlow.DEFAULT_GOAL | src/App.jsx:133 | the fallback goal 2500 (a constant) |
| HydroFlow.GoalAccepted | src/App.jsx:157 | the guard `!isNaN(newGoal) && newGoal > 0`: a parsed number that is positive (no contract of its own; see `SaveGoal`) |
| HydroFlow.InitialGoal | src/App.jsx:131-135 | the start-up goal is never 0: a stored non-zero number is kept (negative ones included) and NaN or 0 give 2500 |
| HydroFlow.App.constructor | src/App.jsx:119-145 | start-up selects today, takes each stored value or its default, sets the goal editor to the goal's text, and with nothing stored the state is consistent |
| HydroFlow.App.CurrentKey | src/App.jsx:147 | `currentDocId`, the key of the selected day (no contract of its own) |
| HydroFlow.App.CurrentDay | src/App.jsx:148 | `currentData`, the selected day's record or an empty one (no contract of its own; `AddWater` states how it changes) |
| HydroFlow.App.BeginEditGoal | src/App.jsx:238 | clicking the goal opens the editor |
| HydroFlow.App.EditTempGoal | src/App.jsx:233 | typing in the goal editor sets its text |
| HydroFlow.App.CancelEditGoal | src/App.jsx:235 | cancel closes the editor and resets its text to the current goal |
| HydroFlow.App.SaveGoal | src/App.jsx:155-161 | a positive parsed goal is committed and closes the editor; otherwise the goal and the editor keep their values; a positive goal stays positive |
| HydroFlow.App.EditCustomAmount | src/App.jsx:304 | typing in the custom field sets its text |
| HydroFlow.App.SavePreset | src/App.jsx:163-170 | the saved list becomes `SaveList` of the parsed field; the field is cleared unless the input was rejected; a well-formed saved list stays well-formed |
| HydroFlow.App.DeletePreset | src/App.jsx:172-175 | the saved list loses every occurrence of the amount and stays well-formed |
| HydroFlow.App.AddWater | src/App.jsx:177-183 | a non-positive amount leaves the ledger unchanged; otherwise the ledger is the old one with the entry appended to the selected day's key, the selected day's total grows by exactly the amount and its entries gain exactly that entry, last; a consistent ledger stays consistent |
| HydroFlow.App.CustomSubmit | src/App.jsx:185-189 | a parsed positive amount is logged, any parsed number clears the field, NaN changes nothing; consistency is kept |
| HydroFlow.App.ChangeDate | src/App.jsx:191-195 | the selection moves to the valid date exactly `days` calendar days away |
| HydroFlow.App.SelectDate | src/App.jsx:348 | clicking a cell selects its date |
| HydroFlow.App.CalendarGrid | src/App.jsx:197-206 | the grid of the selected month has `firstDay + daysInMonth` cells, the first `firstDay` empty and cell `firstDay + i - 1` holding day `i` of that month (in year `JsYear` of the selected year); each filled cell is a valid date of that month and year in its weekday column |
| HydroFlow.ChangeDateRoundTrip | src/App.jsx:251-256 | a step forward and a step back return to the same day |

## Left out

- Rendering: the JSX, inline styles, icons and the history toggle `showHistory`. They are presentation only.
- The percentage and stroke arithmetic of `ProgressBar`. It is floating point and display only.
- Writing state back to local storage through the three effects. This is host I/O.
- `JSON.parse` of the stored values. A stored value is an `Option` input, where `None` stands for "absent or unreadable".
- HydroFlow.App.constructor: it does not check what a stored ledger or preset list contains. Stored data may be anything, so the invariants are stated as "kept if they held before" (`old(P) ==> P`).
- The clock. The selected day at start-up, the entry timestamp and the entry id are parameters.
- The "today" highlight of a calendar cell, which compares against the clock.
- Locale formatting of dates and times (`toLocaleDateString`, `toLocaleTimeString`).
- The precise behaviour of `parseInt`, for example `"12abc"` giving 12. Parsing is the abstract parameter `parse`.
- Concurrency and React's stale closures. `handleAddWater` reads `currentData` from the last render but spreads `prev`. The model runs each handler to completion on the latest state, where the two agree.
- The time of day, time zones and daylight saving. A date is a calendar day.
- Amounts, totals and the goal are unbounded integers. JavaScript numbers are doubles, exact only up to 2^53, so `(currentData.total || 0) + amount` rounds beyond that, and `String` writes numbers of 10^21 and above in exponent form (`"1e+21"`), which the start-up and cancel paths would then read back differently.
- The range limit of JavaScript dates, ±8.64e15 ms.
- Calendar.AddDays: it does not reproduce `setDate`'s limit at the edge of that range. It moves across any number of days.
- Ordering of ledger keys. Keys sort in date order only for four-digit years, and the code never sorts them.
- `vite.config.js`, which is build configuration.
