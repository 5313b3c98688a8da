# Countdown timers in an editor sidebar: a Dafny model

This project models the core of a small editor extension that keeps named
countdown timers in a sidebar tree view. The core is the extension's tree
data provider (`src/TreeProvider.ts`). It holds a list of timer records and
supports these operations:

- adding a timer;
- resetting the first timer with a given name;
- resetting all timers;
- deleting every timer with a given name;
- a refresh tick (`getChildren`). The tick recomputes each timer's remaining
  time and pauses a timer that has just run out, raising one "finished"
  message for it. It then renders each timer as "Finished" or as
  `HH:MM:SS Remaining`. It also decides whether to refresh again a second
  later.

Modules:

- `Clock` (`clock.dfy`) holds the pure formatter `millisToMinutesAndSeconds`
  and the facts proved about it. Reading the string back gives its three
  fields. Two durations render alike exactly when they fall in the same
  second of the day.
- `TimerStore` (`timer_store.dfy`) holds the timer record as a datatype and
  states each operation's effect on the list as a function of the old list.
  It also holds the lemmas about those functions: order kept, idempotence,
  one notification per expiry, the rescheduling rule, and the "Finished"
  display rule.
- `Provider` (`provider.dfy`) holds the class `TreeProvider` with the mutable
  field `timers: seq<Timer>`. Its methods do what the source does, loop by
  loop. Each method's postcondition ties the new list, and what it returns,
  to the functions of `TimerStore`.
- `Scenarios` (`scenarios.dfy`) holds worked uses: formatter examples, and
  client methods that drive a `TreeProvider` through add, tick, reset and
  delete. Their assertions are proved from the method contracts alone.

The source's clock reading `Date.now()` becomes an explicit `now: int`
parameter. Other external effects become return values:

- The refresh event each mutation fires is the `refresh` result.
- The one-second `setTimeout` that the tick may schedule is the `reschedule`
  result.
- The information message the tick shows is a `Notification` record in the
  `notes` result, in list order.

Two facts about the code shape the model:

- Names are not unique. `addTimer` does not check for duplicates. So
  `resetTimer` restarts only the first timer with the name (`find`), and
  `deleteTimer` removes every timer with it (`filter`).
- Input is not validated. Any name and any integer length are accepted,
  including lengths of zero or below.

An unset `paused` is modelled as `false`, since the code only ever reads
`!timer.paused`. An unset `timeRemaining` is modelled as `None`.

## Model

| member | source | states |
|---|---|---|
| `Clock.MillisToMinutesAndSeconds` | src/TreeProvider.ts:105-113 | the rendering of a non-negative duration is eight characters: two digits, a colon, two digits, a colon, two digits |
| `Clock.ZeroPadTwoDigits` | src/TreeProvider.ts:110-112 | a field below 100 padded as `n < 10 ? "0" + n : n` is exactly its tens digit followed by its units digit |
| `Clock.FormatDigits` | src/TreeProvider.ts:105-113 | the clock string is the two digits of the hours mod 24, of the minutes mod 60 and of the seconds mod 60, joined by colons |
| `Clock.FormatRoundTrip` | src/TreeProvider.ts:105-113 | reading the three fields back from the string gives `(ms div 3600000) mod 24`, `(ms div 60000) mod 60` and `(ms div 1000) mod 60` |
| `Clock.DivisionChain` | src/TreeProvider.ts:106-108 | the minutes and hours of a millisecond count are those of its whole seconds (`ms div 60000 = (ms div 1000) div 60`, likewise for hours) |
| `Clock.DayOffsetFields` | src/TreeProvider.ts:106-108 | a whole-second count and its remainder modulo one day have the same second, minute and hour-of-day fields, so the hours field wraps at 24 |
| `Clock.DaySecondSplit` | src/TreeProvider.ts:106-108 | a second of the day equals hour*3600 + minute*60 + second of its own fields |
| `Clock.SecondOfDayFields` | src/TreeProvider.ts:106-108 | the three fields are the hour, minute and second of the whole-second count taken modulo one day, and together they determine that second of the day |
| `Clock.SameDisplayIffSameSecondOfDay` | src/TreeProvider.ts:105-113 | two non-negative durations render to the same string if and only if their whole seconds agree modulo 86400 (days and milliseconds are lost, nothing else) |
| `TimerStore.FindFirst` | src/TreeProvider.ts:75 | `find` by name: the index returned holds the name and no earlier timer does; no index means no timer has the name |
| `TimerStore.Delete` | src/TreeProvider.ts:92 | the filtered list is never longer, and a timer is in it if and only if it was in the list and its name differs |
| `TimerStore.ItemOf` | src/TreeProvider.ts:56-69 | an item's label is the timer's name; its description is "Finished" exactly when the remaining time is negative, otherwise the formatted time followed by " Remaining" |
| `TimerStore.AddEffect` | src/TreeProvider.ts:96-103 | adding appends exactly one timer at the end with the given name and length, started now and not paused; the earlier timers keep their order and contents |
| `TimerStore.ResetFirstMatch` | src/TreeProvider.ts:74-81 | when a timer has the name, only the first such timer changes: it is started now and unpaused, and keeps its name, length and remaining time; the list keeps its length |
| `TimerStore.ResetNoMatch` | src/TreeProvider.ts:74-81 | resetting a name no timer has leaves the list unchanged |
| `TimerStore.ResetAllEffect` | src/TreeProvider.ts:83-89 | reset-all keeps length, order, names, lengths and remaining times, and starts every timer now, unpaused |
| `TimerStore.ResetAllIdempotent` | src/TreeProvider.ts:83-89 | reset-all twice at the same time equals reset-all once |
| `TimerStore.DeleteAppend` | src/TreeProvider.ts:92 | the filter distributes over concatenation, so the kept timers stay in their original relative order |
| `TimerStore.DeleteSingle` | src/TreeProvider.ts:92 | one timer is kept exactly when its name differs from the deleted name |
| `TimerStore.DeleteNoMatch` | src/TreeProvider.ts:91-94 | deleting a name no timer has leaves the list unchanged |
| `TimerStore.DeleteIdempotent` | src/TreeProvider.ts:91-94 | deleting twice equals deleting once |
| `TimerStore.DeleteUnique` | src/TreeProvider.ts:91-94 | when exactly one timer has the name, delete removes that entry alone and the list shrinks by one |
| `TimerStore.TickEffect` | src/TreeProvider.ts:33-54 | the tick keeps length and order, sets each remaining time to `length*60*1000 - (now - startTime)`, never changes a name, length or start time, never clears `paused`, and pauses exactly the timers that were paused or have run out |
| `TimerStore.NotificationsAppend` | src/TreeProvider.ts:34-54 | the notifications of a list are those of its parts in order, so they come out in timer order |
| `TimerStore.NotificationsCount` | src/TreeProvider.ts:37-54 | a tick raises exactly as many notifications as there are timers that are unpaused and have run out |
| `TimerStore.NotificationsNames` | src/TreeProvider.ts:39-44 | every such timer has a notification with its name, and every notification names such a timer |
| `TimerStore.TicksKeep` | src/TreeProvider.ts:33-54 | any run of ticks keeps length and order, never changes a name, length or start time, never clears `paused`, and leaves each timer with the remaining time of the last tick |
| `TimerStore.NotifyOnce` | src/TreeProvider.ts:37-54 | a timer that fires at one tick fires at no later tick, after any number of ticks in between, unless it is reset |
| `TimerStore.FinishedStaysFinished` | src/TreeProvider.ts:35-62 | a timer that has run out stays paused, raises nothing and shows "Finished" after every later run of ticks without a reset |
| `TimerStore.ExpiryReschedules` | src/TreeProvider.ts:30-32 | the reschedule check runs before the recompute, so a tick in which a timer expires still schedules one more refresh |
| `TimerStore.AllPausedIsQuiet` | src/TreeProvider.ts:29-54 | with every timer paused a tick raises nothing and leaves every timer paused, so the refresh chain stops |
| `TimerStore.ResetThenTick` | src/TreeProvider.ts:74-81 | a reset followed at once by a tick shows the full length in milliseconds again and, for a non-negative length, leaves the timer unpaused |
| `TimerStore.RemainingDecreases` | src/TreeProvider.ts:35-36 | between ticks without a reset the remaining time drops by exactly the time that passed |
| `Provider.TreeProvider.constructor` | src/TreeProvider.ts:21-23 | the store starts empty |
| `Provider.TreeProvider.AddTimer` | src/TreeProvider.ts:96-103 | the new list is the old list plus the new record at the end; a refresh is always signalled |
| `Provider.TreeProvider.ResetTimer` | src/TreeProvider.ts:74-81 | the search loop finds the first match; the new list is `ResetFirst` of the old one; a refresh is signalled exactly when some timer had the name |
| `Provider.TreeProvider.ResetAll` | src/TreeProvider.ts:83-89 | the loop restarts timer after timer; the new list is `ResetEvery` of the old one; one refresh is signalled |
| `Provider.TreeProvider.DeleteTimer` | src/TreeProvider.ts:91-94 | the filter loop builds a copy, which replaces the list; the new list is `Delete` of the old one; a refresh is always signalled |
| `Provider.TreeProvider.GetChildren` | src/TreeProvider.ts:29-72 | reschedules exactly when some timer was unpaused before the recompute; the new list is the ticked old list; the notifications are those of the expiring timers in order; one item per timer |
| `Provider.SomeUnpaused` | src/TreeProvider.ts:30 | the scan answers true if and only if some timer is not paused |
| `Provider.RefreshTimer` | src/TreeProvider.ts:34-70 | for one timer, the mapped callback yields the timer with its remaining time recomputed and paused once it has run out, its item, and a notification exactly when the timer was unpaused and has run out |
| `Scenarios.FormatZero` | src/TreeProvider.ts:105-113 | 0 ms renders as "00:00:00" |
| `Scenarios.FormatOneOneOne` | src/TreeProvider.ts:105-113 | 3661000 ms renders as "01:01:01" |
| `Scenarios.FormatWrapsDays` | src/TreeProvider.ts:108 | 90061000 ms (25 h 1 min 1 s) renders as "01:01:01": hours wrap modulo 24 |
| `Scenarios.FormatTwoMinutes` | src/TreeProvider.ts:105-113 | 120000 ms renders as "00:02:00" |

## Left out

- `src/extension.ts` is not part of this model. It registers commands, reads configuration, prompts for a name and a length and parses the length. It also calls provider members that do not exist in `TreeProvider.ts` (`resetAlarm`, a one-argument `addTimer`, a constructor argument).
- The "Reset Timer" action of the finished message is not modelled. It runs asynchronously when the user picks it and resets the captured timer object itself, not a timer looked up by name. That is the same object as the list entry while the entry is still in the list; after a delete it no longer affects the store. A value model of the list has no object identity to capture. Calling `ResetTimer` with the notification's name matches it only while names are unique and the timer has not been deleted.
- The event emitter and `setTimeout` are not modelled as events or timers. They appear only as the returned `refresh` and `reschedule` flags; the one-second delay itself is not modelled.
- `Date.now()` is replaced by a `now` argument. Nothing relates the `now` of successive calls, except where a lemma asks for `now <= later`.
- Provider.TreeProvider.ResetAll: uses one `now` for every timer. The source reads the clock once per timer inside its `forEach`, so the start times it sets can differ, non-decreasing in list order. `TimerStore.ResetAllIdempotent` holds only for one reading.
- Provider.TreeProvider.GetChildren: evaluates every timer at one `now`. The source reads the clock once per timer inside its `map`, so one refresh can judge later timers at a slightly later instant.
- Lengths and times are integers. JavaScript numbers are floating point. A fractional or `NaN` length, which the unchecked user input could produce, is not modelled. For non-negative integer milliseconds, `Math.floor((ms / 1000) % 60)` equals `(ms div 1000) mod 60`, which is what `Clock` computes. For negative milliseconds the two differ, because the JavaScript `%` truncates toward zero.
- `Clock.MillisToMinutesAndSeconds` requires a non-negative argument. Its only call site is in the branch where the remaining time is not negative. What the source would print for a negative number is not modelled.
- The item's icon, collapsible state and `contextValue`, and `getTreeItem`, are presentation and are left out. The item keeps its label, description and tooltip. The finished message is modelled by the name it carries. Its text `Timer "<name>" Finished.`, its non-modal flag and its action label `"Reset Timer"` are fixed and are left out.
