# Scheduler occurrence enumeration in Dafny

This project models the scheduler of `jupitern/scheduler`. A scheduler holds
one-time dates and recurring rule strings such as `'+1 day'` or
`'next monday'`. Given a reference instant `from` and a `limit`, it returns
the next dates in ascending order. Two revisions of the class are modelled:

- `Jupitern\Scheduler\Scheduler` (`src/Scheduler.php`), module `Scheduler`.
  It adds an optional daily time frame. Every one-time date and every
  recurring candidate must pass `isInTimeFrame`: not before `from`, not
  before the start clock time, not after the end clock time. A rule without a
  `'+'` (an absolute jump) moves the cursor and then tests it. A rule with a
  `'+'` (a relative offset) first clamps the cursor into the window, then
  tests it, then moves it.
- `Jupitern\Table\Scheduler` (`src/Scheduler/Scheduler.php`), module
  `TableScheduler`. It has no time frame. Each rule is applied `limit` times
  from `from`. With no rules registered, it returns the one-time dates
  exactly as registered.

Supporting modules:

- `Clock`: instants as whole seconds, `Day(t) = t / 86400`,
  `Tod(t) = t % 86400`, and the two fixed date moves the source uses.
  `AtClock` re-anchors a clock time onto a date. `NextMidnight` is
  `'next day 00:00:00'`.
- `Ordering`: `orderDates` (a `uasort` by timestamp) and `array_slice`.
- `Repetition`: the pass count of the rule loops and the instant reached by
  applying one rule repeatedly.
- `Wrappers`: `Option`, which stands for PHP's `null`.

`DateTime::modify($rule)` is passed in as a function `step: (string, Instant) -> Instant`.
Both classes are Dafny classes. Their fields are updated by `Add`,
`AddRecurring` and `SetTimeFrame`. Each `getNextSchedules` method is proved
equal to a specification function (`NextSchedules`), and the lemmas state
what the source promises about that function.

Behaviour of the code worth knowing:

- There is no deduplication: a date collected twice is returned twice
  (`NothingDroppedUnderLimit`, `DuplicatesKept`).
- The end bound is inclusive: a date exactly at the end clock time is kept.
- The loop counter `$maxRecursion` starts at `10 * $limit` and falls in step
  with `$i`, so every rule makes exactly `max(limit, 0)` passes. A rejected
  candidate uses up a pass.
- A `'+'` rule tests its clamped cursor against the time frame before it
  records it.
- A `'+'` rule tests `from` first (clamped into the window), and steps only
  after that test.
- After the end bound, the cursor of a `'+'` rule moves to 00:00 of the next
  day. With a start bound later than 00:00, that midnight candidate is
  rejected. `RolloverScenario` shows this: window 08:00–17:00, rule
  `'+2 hours'`, from 16:00, limit 2 gives only 16:00.

## Model

| member | source | states |
|---|---|---|
| Clock.AtClock | src/Scheduler.php:154 | re-anchoring a clock time onto a date keeps the date's day and sets its clock part; the shift equals the clock difference |
| Clock.NextMidnight | src/Scheduler.php:116 | `'next day 00:00:00'` is 00:00 of the following day, strictly later and at most one day later |
| Ordering.SortAsc | src/Scheduler.php:137-139 | the ascending rearrangement is sorted and a permutation of its input |
| Ordering.SortedUnique | src/Scheduler.php:138 | two ascending sequences with the same timestamps are equal, so the comparator's tie handling cannot change the result |
| Ordering.OrderDates | src/Scheduler.php:135-139 | sorts the array in place: ascending, a permutation of the old contents, equal to `SortAsc` of them |
| Ordering.Slice | src/Scheduler.php:128 | `array_slice($s, 0, $n)`: a prefix of length `min(n, |s|)` for `n >= 0`, and `|s|` minus `-n` elements (at least 0) for `n < 0` |
| Ordering.EarliestFirst | src/Scheduler.php:127-128 | sort-then-slice gives an ascending list of at most `limit` candidates, and no left-out candidate is earlier than a kept one |
| Repetition.Applied | src/Scheduler/Scheduler.php:69 | `n` successive `modify($rule)` calls on one date: the last applied to the first `n - 1`, equivalently the first followed by `n - 1` more |
| Ordering.EarliestSingle | src/Scheduler.php:77-78 | with limit 1 the list is empty exactly when there are no candidates; otherwise it holds the earliest candidate |
| Scheduler.InTimeFrame | src/Scheduler.php:145-162 | true iff `from <= date`, the clock part is not before the start (when set) and not after the end (when set); the end itself is accepted; no bounds means only `from` matters |
| Scheduler.IsRelative | src/Scheduler.php:104 | `strpos($schedule, '+') !== false`: a rule is relative iff a `'+'` occurs at some position of it |
| Scheduler.Clamp | src/Scheduler.php:111-117 | the clamped cursor is never earlier; inside the window it is unchanged; before the start it moves to the start on the same day (or to next midnight if that start is past the end); after the end it moves to 00:00 of the next day |
| Scheduler.Probe | src/Scheduler.php:104-121 | the date one pass tests: for a `'+'` rule the clamped cursor, never earlier than the cursor and the cursor itself inside the window; for any other rule the cursor after one step |
| Scheduler.Advance | src/Scheduler.php:104-122 | the cursor after one pass: a `'+'` rule steps on from the date it just tested (test, then step); any other rule's cursor is the date it tested (step, then test) |
| Scheduler.Cursor | src/Scheduler.php:100-123 | the cursor after `n` passes starts at `from`; for a rule without `'+'` it is `from` after `n` steps, whatever the time frame |
| Scheduler.RuleRun | src/Scheduler.php:102-124 | `n` passes of one rule record at most `n` dates, each accepted by the time frame |
| Scheduler.RuleRunMembers | src/Scheduler.php:104-121 | a date is recorded by the first `n` passes iff some pass tests it and the time frame accepts it |
| Scheduler.RuleRunPrefix | src/Scheduler.php:102 | more passes only append: the record of `m` passes is a prefix of the record of `n >= m` passes |
| Scheduler.RelativeFirstCandidate | src/Scheduler.php:110-122 | a `'+'` rule first tests the clamped `from` (`from` itself when inside the window, for a fixed `from`) and applies its step only after that test |
| Scheduler.AbsoluteFirstCandidate | src/Scheduler.php:104-108 | a rule without `'+'` first tests `step(rule, from)`, not the unstepped `from` (the two coincide only when the rule leaves `from` unchanged, and such a rule then records the same instant on every pass); its pass `i` tests `from` after `i + 1` steps, the date the older revision records |
| Scheduler.OneTimeAccepted | src/Scheduler.php:93-97 | a one-time date is kept iff it is registered and accepted by the time frame; never more dates than registered |
| Scheduler.OneTimeMultiplicity | src/Scheduler.php:93-97 | no deduplication: an accepted date is kept as many times as it was registered, a rejected one not at all |
| Scheduler.AcceptOneTime | src/Scheduler.php:93-97 | the first loop returns `OneTimeAccepted` of the registered dates: exactly those that pass the time frame, each as often as registered (`OneTimeMultiplicity`) |
| Scheduler.RunRule | src/Scheduler.php:100-124 | one rule's loop, with its `10 * $limit` counter, makes exactly `max(limit, 0)` passes and returns their record; at most that many dates, all not before `from` and inside the window |
| Scheduler.RecurringCandidates | src/Scheduler.php:99-125 | all rules together record at most `|rules| * n` dates, each accepted by the time frame |
| Scheduler.CandidatesInTimeFrame | src/Scheduler.php:91-125 | every collected candidate, one-time or recurring, passed `isInTimeFrame` |
| Scheduler.Candidates | src/Scheduler.php:91-125 | the collected list has at most one date per one-time date and `max(limit, 0)` per rule |
| Repetition.Iterations | src/Scheduler/Scheduler.php:68 | the number of passes of `for ($i = 0; $i < $limit; ++$i)`: the least `i >= 0` at which the guard `$i < $limit` fails |
| Scheduler.NextSchedules | src/Scheduler.php:127-128 | the result is ascending; a limit `>= 0` keeps `min(limit, |candidates|)` dates, a negative limit drops that many of the latest (at least 0 remain) |
| Scheduler.NextSchedule | src/Scheduler.php:75-79 | null exactly when no candidate passes the time frame; otherwise one of the candidates |
| Scheduler.NextSchedulesProperties | src/Scheduler.php:89-129 | the result is ascending, holds `min(limit, |candidates|)` dates for `limit >= 0`, every date is in the time frame and not before `from`, and it consists of the earliest candidates |
| Scheduler.NothingDroppedUnderLimit | src/Scheduler.php:91-128 | no deduplication: when the candidates fit in `limit`, the result holds each candidate as often as it was collected |
| Scheduler.DuplicatesKept | src/Scheduler.php:93-96 | two registrations of the same instant are both returned |
| Scheduler.RolloverScenario | src/Scheduler.php:115-120 | window 08:00–17:00, rule `'+2 hours'`, from 16:00, limit 2: only 16:00 is returned, because the rollover lands on midnight, before the start |
| Scheduler.NextScheduleEarliest | src/Scheduler.php:75-79 | `getNextSchedule` is null iff a limit-1 enumeration collects nothing; otherwise it is the earliest candidate, inside the window and not before `from` |
| Scheduler.Blank | src/Scheduler.php:35-40 | PHP `empty` on a time-frame argument: null and `""` are blank, a one-character string is blank iff it is `"0"`, and no longer string is blank |
| Scheduler.Scheduler.constructor | src/Scheduler.php:13-24 | `instance()` has no dates, no rules and no time frame |
| Scheduler.Scheduler.SetTimeFrame | src/Scheduler.php:33-43 | each bound is left unchanged when its argument is null, `""` or `"0"` (PHP-empty), and is set to the argument's clock time otherwise; the registries are unchanged |
| Scheduler.Scheduler.Add | src/Scheduler.php:51-55 | appends one one-time date; rules and time frame unchanged |
| Scheduler.Scheduler.AddRecurring | src/Scheduler.php:62-66 | appends one rule; one-time dates and time frame unchanged |
| Scheduler.Scheduler.GetNextSchedules | src/Scheduler.php:89-129 | with `limit` defaulting to 5, returns `NextSchedules` of the current state: ascending, at most `limit` dates for `limit >= 0`, each not before `from` and inside the window |
| Scheduler.Scheduler.GetNextSchedule | src/Scheduler.php:75-79 | returns the first date of `getNextSchedules(from, 1)` or null; a returned date is not before `from` and is inside the window |
| TableScheduler.Successive | src/Scheduler/Scheduler.php:67-70 | one rule contributes exactly `n` dates, the `k`-th being `k + 1` applications of the rule to `from` |
| TableScheduler.RunRule | src/Scheduler/Scheduler.php:67-70 | the `for` loop returns exactly those `max(limit, 0)` successive applications |
| TableScheduler.RecurringCandidates | src/Scheduler/Scheduler.php:66-71 | the rules together contribute exactly `|rules| * n` dates |
| TableScheduler.RuleDates | src/Scheduler/Scheduler.php:66-71 | in the collected list, the `k`-th date of rule `s` is `k + 1` applications of that rule to `from` |
| TableScheduler.Candidates | src/Scheduler/Scheduler.php:63-71 | the collected list holds every one-time date, unfiltered, plus exactly `max(limit, 0)` dates per rule |
| TableScheduler.NextSchedules | src/Scheduler/Scheduler.php:61-75 | with rules registered the result is ascending and, for `limit >= 0`, holds `min(limit, |events| + |rules| * limit)` dates |
| TableScheduler.NextSchedule | src/Scheduler/Scheduler.php:47-51 | null exactly when no one-time date and no rule is registered; a single rule always yields a date |
| TableScheduler.NextSchedulesProperties | src/Scheduler/Scheduler.php:61-75 | with rules registered: ascending, `min(limit, |candidates|)` dates for `limit >= 0`, the earliest candidates; the candidates are all one-time dates (unfiltered by `from`) plus `max(limit, 0)` dates per rule |
| TableScheduler.NextScheduleChoice | src/Scheduler/Scheduler.php:47-51 | with no rules, `getNextSchedule` is the first date registered (not the earliest, and possibly before `from`); with rules, it is the earliest candidate |
| TableScheduler.Scheduler.constructor | src/Scheduler/Scheduler.php:7-17 | `instance()` has no dates and no rules |
| TableScheduler.Scheduler.Add | src/Scheduler/Scheduler.php:25-28 | appends one one-time date; rules unchanged |
| TableScheduler.Scheduler.AddRecurring | src/Scheduler/Scheduler.php:35-38 | appends one rule; one-time dates unchanged |
| TableScheduler.Scheduler.GetNextSchedules | src/Scheduler/Scheduler.php:61-75 | with `limit` defaulting to 5, returns `NextSchedules`; with no rules, exactly the one-time dates in registration order, with no sorting, no filtering by `from` and no truncation; otherwise ascending and at most `limit` dates |
| TableScheduler.Scheduler.GetNextSchedule | src/Scheduler/Scheduler.php:47-51 | returns the first date of `getNextSchedules(from, 1)` or null; with no rules, the first registered date |

## Left out

- The `DateTime` phrase grammar (`'+1 day'`, `'next monday'`, `'08:00'`) and `strtotime`: `modify` is the parameter `step`, and the date strings given to `add`, `getNextSchedules` and `setTimeFrame` are parsed by the caller (an instant, an instant, and a clock time through `clockOf`).
- Reading the wall clock for `'now'`. The source re-parses `$fromDateStr` in every `isInTimeFrame` call, so with `'now'` the lower bound drifts during one enumeration. The model uses one fixed instant. Its sharpest consequence is not modelled: with `'now'`, the cursor built at src/Scheduler.php:100 is earlier by some microseconds than the `new \DateTime('now')` built at src/Scheduler.php:147, so a `'+'` rule's first candidate (`from` itself) fails `$date < $from` and is dropped. `RelativeFirstCandidate` holds for a fixed `from` string only.
- The default `$fromDateStr = 'now'` of `getNextSchedules` and `getNextSchedule` (src/Scheduler.php:75, 89; src/Scheduler/Scheduler.php:47, 61): it would need the wall clock (previous line), so callers pass `from`. The default `$limit = 5` is kept as the default value of `limit`.
- Shared `DateTime` objects. Dates are values here, but the source hands out the registered one-time `DateTime` objects themselves: `$dates[] = $evt` (src/Scheduler.php:95) and `$dates = $this->oneTimeEvents` with its early return (src/Scheduler/Scheduler.php:63-64) copy object handles, while recurring dates are clones (src/Scheduler.php:107, 120; src/Scheduler/Scheduler.php:69). A caller that calls `modify()` on a returned one-time date changes the registry and every later result; the model does not capture that aliasing.
- Scheduler.OneTimeAccepted: its contract and `OneTimeMultiplicity` state membership and the multiplicity of every kept date, not that the kept dates stay in registration order; the order does not reach the result, which is sorted afterwards (`SortedUnique`).
- Time zones, daylight-saving shifts and sub-second precision: a day is always 86400 seconds.
- Parse failures: an invalid phrase or date string (an exception from `new DateTime`, a warning and `false` from `modify`).
- The dead locals `$dtStart` and `$dtEnd`, and the changes `isInTimeFrame` makes to the stored bounds' dates. Only the bounds' clock parts are kept, because every comparison re-anchors them first.
- `uasort` key preservation and `array_slice` re-indexing: only the order of the values is modelled. The library's sort is replaced by an insertion sort with the same postcondition. `SortedUnique` shows that any sort by timestamp gives the same sequence of instants, however it orders ties.
- Method chaining (`return $this`).
- `Scheduler.Scheduler.GetNextSchedules` and `TableScheduler.Scheduler.GetNextSchedules` gather the recurring dates in their own list and then append it to the one-time dates. The source appends to one list, which produces the same sequence.
