# Time tracker core, modelled in Dafny

The application is a single-page time tracker. Each task record has:
- a name and a category (`das`);
- a `YYYY-MM-DD` date;
- the seconds recorded so far;
- a running flag.

One task at a time runs. A one-second interval credits it with the whole seconds since the last credit. Closing or hiding the page while a task runs stores a close marker. Showing the page again credits the running tasks with the time since that marker. An edit dialog splits a task's seconds into hours, minutes and seconds, clamps them and saves them back. Statistics are computed from the list:
- per-category totals and the grand total;
- distinct work days;
- the daily and per-period overtime;
- the three longest tasks.

Several open copies of the page share a list of descriptors that they ping. The copy with the smallest id among the fresh ones is the primary.

The Dafny project models this core:

- `options.dfy`: `Option`, which stands for `null`/`NaN` and for absent entries.
- `js_numbers.dfy` (`JsNumbers`): the JavaScript built-ins the core relies on.
  - `Number.prototype.toString` and `parseInt` without a radix. `parseInt` skips leading white space, reads a sign, then a `0x` prefix, then the longest run of digits.
  - `Math.floor` of a quotient, and `%` with the sign of the dividend.
- `date_strings.dfy` (`DateStrings`): `<=` on strings. On well-formed dates it is the calendar order.
- `stable_sort.dfy` (`StableSort`): `Array.prototype.sort` with an integer-difference comparator, modelled as a stable sort by an integer key. It also holds the "sort, then keep the first n" used by `topTasks`.
- `lookup.dfy` (`Lookup`): the search by key behind `findIndex` on tasks and `find` on instance descriptors.
- `task_store.dfy` (`TaskStore`): the task record, `findIndex`, `splice`, and the store invariants. The invariants are unique ids, at most one running task, and no start instant on a stopped task.
- `tracker.dfy` (`Tracker`): the timer state machine as functions on a `TimerState` value. It covers:
  - toggling, the tick, the close marker and reopening;
  - deleting and saving;
  - the lemmas about them, and event sequences.
- `time_tracker.dfy` (`TrackerApp`): the component as a class. Each method updates the fields in place and is proved to make exactly the change its specification function describes. The timer and list methods follow the matching `Tracker` function. The dialog methods follow `Tracker.DraftOf`, `TimeEdit.EditFields` and `TimeEdit.Validate`.
- `time_edit.dfy` (`TimeEdit`): the hours/minutes/seconds split, the recomposition on save, the clamping of the three fields, and `formatTime`. `formatTime` has a parser as its partner, so that the display provably determines the number.
- `reporting.dfy` (`Reporting`): the computed statistics.
- `instances.dfy` (`Instances`): the descriptor list and the `Coordinator` class.

Instants are integers in milliseconds and are passed in as parameters (`now`). The stored values (`lastCloseTime`, `activeInstances`) are plain values passed in and out.

The model also shows a consequence of the event wiring. The close marker is written when the page is only hidden, and the interval may still credit the running task while the page is hidden. Reopening then credits the hidden span a second time (`Tracker.ReopenAfterHiddenTicks`).

## Model

| member | source | states |
|---|---|---|
| `JsNumbers.NatToString` | app.js:238-242 | toString of a non-negative integer is a non-empty decimal digit string without leading zero whose value is the number |
| `JsNumbers.ParseIntToString` | app.js:246-258 | parseInt reads back exactly the integer that toString wrote, negative ones included |
| `JsNumbers.IntToString` | app.js:239-241 | toString of any integer is non-empty and starts with '-' exactly when the number is negative; `JsNumbers.ParseIntToString` gives its inverse |
| `JsNumbers.ParseInt` | app.js:247-249 | parseInt of blank text is NaN; `JsNumbers.ParseIntToString` states that it reads back what toString writes |
| `JsNumbers.FloorDiv` | app.js:234 | Math.floor(a / b) for b > 0 is the q with q*b <= a < q*b + b |
| `JsNumbers.JsRem` | app.js:235-236 | a % b has the sign of a, is smaller than b in magnitude and completes the truncated division |
| `DateStrings.StrLe` | app.js:130-131 | no contract of its own: `DateStrings.StrLeTransitive`, `DateStrings.StrLeTotal` and `DateStrings.IsoDateOrder` state that it is a total order and the calendar order on dates |
| `DateStrings.IsoDateOrder` | app.js:130-131 | on "YYYY-MM-DD" strings, string <= holds exactly when the first date is not after the second in (year, month, day) order |
| `DateStrings.StrLeTransitive` | app.js:130-131 | string <= is transitive (with reflexivity, totality and antisymmetry it is a total order) |
| `StableSort.Sort` | app.js:159-163 | the sorted copy is ordered by the key and is a permutation of the input |
| `StableSort.SortIsStable` | app.js:159-163 | elements with equal keys come out in their input order |
| `StableSort.SortedTop` | app.js:159-163 | slice(0, n) of the sorted copy has min(n, length) elements |
| `StableSort.SortedTopLeftOut` | app.js:159-163 | kept and left-out elements together are the input; the kept ones are in key order; nothing left out has a smaller key than the last kept |
| `StableSort.SortedTopTies` | app.js:159-163 | for each key, the kept elements followed by the left-out ones are that key's elements in input order |
| `Lookup.FirstWithKey` | app.js:450 | the first position whose element has the key, or -1 when no element has it |
| `TaskStore.IndexOfId` | app.js:449 | findIndex gives the first position holding the id, or -1 when no task has it |
| `TaskStore.RemoveAt` | app.js:451 | splice(k, 1) drops position k and shifts the later records down by one |
| `TaskStore.RemoveAtConsistent` | app.js:447-454 | removing a record keeps ids unique, at most one task running, no start instant on stopped tasks |
| `Tracker.Toggled` | app.js:304-340 | toggling never changes the length of the list, any id or any elapsed time; `Tracker.ToggleStartIsOnlyRunning` and `Tracker.ToggleStops` give the new records in full |
| `Tracker.ToggleStartIsOnlyRunning` | app.js:318-332 | starting a task makes it the only running one, started now, with its start of day set if it had none; every other running task is stopped with no start instant and is otherwise unchanged; every stopped task is unchanged; the interval targets it and the marker is gone |
| `Tracker.ToggleStops` | app.js:333-339 | stopping a running task changes only its flag and start instant, leaves every other task and lastUpdateTime as they were and clears the interval and the marker |
| `Tracker.ToggledConsistent` | app.js:304-340 | toggling keeps the store invariants |
| `Tracker.Ticked` | app.js:357-378 | a tick keeps the length of the list, every id and running flag, and the close marker; `Tracker.TickedMonotone` and `Tracker.TickCredits` give the credit |
| `Tracker.TickedMonotone` | app.js:357-378 | without an interval a tick changes nothing; an interval whose task is in the list but stopped clears itself and credits nothing, any other interval stays armed; only tasks with the interval's target id can gain, and only floor((now - lastUpdateTime)/1000) seconds when that is at least one; no time is taken away and no other field of any record changes; under a second it changes neither the records nor lastUpdateTime |
| `Tracker.TickCredits` | app.js:363-369 | the running task the interval targets receives exactly the elapsed whole seconds and lastUpdateTime moves to now |
| `Tracker.TickedConsistent` | app.js:357-378 | a tick keeps the store invariants |
| `Tracker.Closed` | app.js:910-915 | closing leaves the tasks, the interval and lastUpdateTime untouched; `Tracker.ClosedMarks` says when the marker is written |
| `Tracker.ClosedMarks` | app.js:910-915 | the close marker is written exactly when a task runs; tasks, interval and lastUpdateTime are untouched |
| `Tracker.LastRunning` | app.js:928-945 | the task whose interval the reopening loop arms last is absent exactly when no task runs, and otherwise is a running task |
| `Tracker.Reopened` | app.js:922-954 | reopening always clears the marker and keeps the length of the list, every id and running flag; `Tracker.ReopenedCredits` gives the credit |
| `Tracker.ReopenedCredits` | app.js:922-954 | with a marker, each running task gains floor((now - close)/1000) seconds and restarts now when that is at least one, stopped tasks stay as they were, and the marker is removed; with a credit lastUpdateTime becomes now and the interval is re-armed on the last running task, without one only the marker changes |
| `Tracker.CloseThenReopen` | app.js:910-954 | closing while one task runs and showing the page at least a second later credits that task exactly floor((now - close)/1000) seconds, restarts it now and re-arms the interval on it; no other task changes |
| `Tracker.ReopenTwiceCreditsOnce` | app.js:922-954 | a second showing without a close in between changes nothing: the marker is gone, so nothing is credited twice |
| `Tracker.ReopenedConsistent` | app.js:922-954 | reopening keeps the store invariants |
| `Tracker.Deleted` | app.js:447-454 | deleting only removes records: the result is a sub-multiset of the list; `Tracker.DeletedRemovesOnly` says which |
| `Tracker.DeletedRemovesOnly` | app.js:447-454 | with unique ids, deleting leaves no task with that id, keeps every other task and shortens the list by one exactly when the id was present; the task at the id's position is cut out with the rest in order, and without the id the list is unchanged |
| `Tracker.DeletedConsistent` | app.js:447-454 | deleting keeps the store invariants |
| `Tracker.EditedTask` | app.js:268-275 | the Object.assign of an edit never touches the id, the running flag or the start instant; `Tracker.EditedTaskWrites` states what it writes |
| `Tracker.EditedTaskWrites` | app.js:262-275 | the record gets the dialog's name, category, date and start of day and the fields' total as both elapsed times; reopened, it shows the same dialog (the start of day shown as the typed text) and, for validated fields, the same time fields |
| `Tracker.Edited` | app.js:254-275 | editing keeps the length of the list and every id, running flag and start instant; `Tracker.EditSaveWrites` gives the edited record and the others |
| `Tracker.Saved` | app.js:251-288 | a save that gives a list had a non-empty name and category and never shortens the list; `Tracker.SavedConsistent`, `Tracker.SaveNewAppends` and `Tracker.EditSaveWrites` state the rest |
| `Tracker.NewTask` | app.js:277-287 | no contract of its own: `Tracker.SaveNewAppends` states the record |
| `Tracker.SaveNewAppends` | app.js:251-287 | with a non-empty name and category, saving a new task appends one record after the unchanged list: id the creation instant, dated today rather than the dialog's date, the dialog's name and category, zero time, stopped, no start instant and no start of day |
| `Tracker.SavedConsistent` | app.js:251-288 | saving never changes ids, running flags or start instants of existing tasks, never shortens the list, and keeps the store invariants (a new task's id is its creation instant, above the existing ones) |
| `Tracker.DraftOf` | app.js:224-232 | no contract of its own: `Tracker.EditUnchangedRoundTrip` states that the dialog it builds saves back to the task, and `TrackerApp.TimeTracker.EditTask` that editTask writes it |
| `Tracker.EditSaveWrites` | app.js:251-275 | saving the dialog of a task in the list succeeds exactly when the start text is empty or gives an instant; the task's record then holds the dialog's name, category, date and start of day and the fields' total as both elapsed times, keeps its id, run flag and start instant, reopens as the same dialog (the start of day shown as the typed text) and, for validated fields, the same time fields; no other task changes |
| `Tracker.EditUnchangedRoundTrip` | app.js:221-276 | for a task without a start of day and with a non-negative elapsed time, opening it in the dialog and saving it unchanged gives the task back, with its initial elapsed time reset to its elapsed time |
| `Tracker.RunConsistent` | app.js:304-378 | after any sequence of toggles, ticks, closes, reopenings and deletions the store is consistent; in particular at most one task runs |
| `Tracker.StartTickStopTimeline` | app.js:304-378 | start at 0 ms, ticks at 1000, 2000 and 3000 ms, stop at 3500 ms: three seconds recorded, task stopped, no interval |
| `Tracker.TickDropsFraction` | app.js:363-369 | ticks 1999 ms apart drop the fraction each time: 3998 ms of running record two seconds |
| `Tracker.ReopenAfterHiddenTicks` | app.js:1250-1259 | start at 0, hide at 1000, tick at 61000, show at 62000 ms: the task holds 122 seconds after 62 seconds of running, and the marker is gone |
| `TrackerApp.TimeTracker.constructor` | app.js:11-55 | the initial data: no task, no interval, no marker, an empty dialog dated today with zero time fields, dialog closed |
| `TrackerApp.TimeTracker.ToggleTimer` | app.js:304-340 | the new timer state is Toggled of the old one; the dialog fields are untouched |
| `TrackerApp.TimeTracker.Tick` | app.js:357-378 | the new timer state is Ticked of the old one; the dialog fields are untouched |
| `TrackerApp.TimeTracker.BeforeUnload` | app.js:910-915 | the new timer state is Closed of the old one; the dialog fields are untouched |
| `TrackerApp.TimeTracker.HandleReopen` | app.js:922-954 | the new timer state is Reopened of the old one; the dialog fields are untouched |
| `TrackerApp.CreditRunningTasks` | app.js:929-945 | the loop over the tasks credits and restarts every running one, and leaves the interval and lastUpdateTime on the last running task (or as they were when none runs) |
| `TrackerApp.TimeTracker.EditTask` | app.js:221-245 | on an existing task the dialog holds its id, name, category, date, start text and the split of its time, and opens; the timer state is untouched |
| `TrackerApp.TimeTracker.ValidateTimeInput` | app.js:246-250 | the fields become Validate of the old ones: hours parse to a value >= 0, minutes and seconds to values in 0..59 |
| `TrackerApp.TimeTracker.SaveTask` | app.js:251-294 | when Saved gives no list nothing changes; otherwise the list is Saved's and the dialog is reset; the timer fields never change |
| `TrackerApp.TimeTracker.DeleteTask` | app.js:447-460 | without an edited task nothing changes; with one the list loses it and the dialog is reset |
| `TimeEdit.Split` | app.js:234-236 | for e >= 0: hours >= 0, minutes and seconds in 0..59, and h*3600 + m*60 + s == e |
| `TimeEdit.EditFields` | app.js:234-243 | no contract of its own: `TimeEdit.EditSaveRoundTrip` and `TimeEdit.EditFieldsAreValid` state what the fields mean |
| `TimeEdit.Compose` | app.js:255-258 | the saved total is NaN exactly when one of the three fields does not parse; `TimeEdit.EditSaveRoundTrip` and `TimeEdit.ValidatedInRange` give its value |
| `TimeEdit.EditSaveRoundTrip` | app.js:234-258 | for e >= 0, the fields editTask writes recompose on save to exactly e |
| `TimeEdit.Validate` | app.js:246-250 | each field is rewritten as the decimal of max(0, parseInt || 0), minutes and seconds further capped at 59 |
| `TimeEdit.ValidatedInRange` | app.js:246-250 | after validation every field parses, hours >= 0, minutes and seconds in 0..59, and the saved total is a non-negative number |
| `TimeEdit.ValidateIdempotent` | app.js:246-250 | validating twice gives the same fields as validating once |
| `TimeEdit.ValidatedRoundTrip` | app.js:234-258 | validated fields compose to a non-negative total from which editTask writes back exactly those fields |
| `TimeEdit.EditFieldsAreValid` | app.js:234-250 | the fields editTask writes for e >= 0 pass validation unchanged |
| `TimeEdit.Pad2` | app.js:207 | padStart(2, '0') leaves two or more characters alone and otherwise fills zeros on the left up to two |
| `TimeEdit.PaddedDigits` | app.js:207 | a padded part is at least two decimal digits with the part's value, exactly two below 100 |
| `TimeEdit.FormatTime` | app.js:200-209 | the display is at least eight characters and starts with "- " exactly for a negative number; `TimeEdit.FormatTimeRoundTrip` states that it determines the number |
| `TimeEdit.ParseClock` | app.js:200-209 | the reader of formatTime's text; it reads a negative number only after "- "; `TimeEdit.FormatTimeRoundTrip` states that it inverts formatTime |
| `TimeEdit.ClockReadsBack` | app.js:203-207 | "HH:MM:SS" of a non-negative number reads back as that number |
| `TimeEdit.FormatTimeRoundTrip` | app.js:200-209 | the text formatTime shows, "- " prefix included, reads back as the number it was given |
| `Reporting.InPeriod` | app.js:119-135 | no contract of its own: `Reporting.CustomRangeInclusive` and `Reporting.CustomRangeIsCalendarRange` state what the custom case keeps |
| `Reporting.FilterTasks` | app.js:111-137 | each task of the period occurs in the filtered list exactly as often as in the list, and no other task occurs |
| `Reporting.FilterKeepsOrder` | app.js:119-136 | the filter keeps list order: a task appended to the list is appended to the filtered list when it is in the period, and dropped otherwise |
| `Reporting.CustomRangeInclusive` | app.js:130-131 | a custom range keeps tasks dated on either of its end dates |
| `Reporting.CustomRangeIsCalendarRange` | app.js:130-131 | on well-formed dates a custom range keeps a task exactly when its date lies between the two ends in calendar order |
| `Reporting.CategoryTotals` | app.js:138-147 | no contract of its own: `Reporting.CategoryTotalsMeaning` states its keys and values |
| `Reporting.CategoryTotalsMeaning` | app.js:138-147 | the dictionary has one key per category present, holding the seconds of that category's tasks |
| `Reporting.DasSummary` | app.js:61-72 | the forEach accumulation, with its reset of missing or zero entries, builds exactly the category dictionary |
| `Reporting.SummaryTotal` | app.js:148-150 | the sum of the dictionary's values is the seconds of all the tasks it was built from |
| `Reporting.TodayTasks` | app.js:57-60 | today's tasks are exactly the tasks of the list dated today; as the Today period of the filter they keep list order and multiplicity |
| `Reporting.TodayTotalTime` | app.js:73-76 | today's total is the seconds of the tasks dated today |
| `Reporting.OvertimeHours` | app.js:77-80 | with the daily seconds dailyWorkHours * 3600 as the parameter: daily overtime is never negative and is either 0 or today's total minus the daily seconds, whichever is larger |
| `Reporting.WorkDays` | app.js:151-154 | no contract of its own: `Reporting.WorkDaysBounds` bounds it |
| `Reporting.WorkDaysBounds` | app.js:151-154 | the number of distinct dates is at most the number of tasks and at least one when there is a task |
| `Reporting.FilteredTotalTime` | app.js:148-150 | the period total is the seconds of the period's tasks |
| `Reporting.FilteredOvertime` | app.js:155-158 | with the daily seconds dailyWorkHours * 3600 as the parameter: period overtime is the period's seconds minus distinct days times the daily seconds, with no clamping |
| `Reporting.ShortDayOvertime` | app.js:155-158 | one task of an hour against an eight-hour day (28800 daily seconds): period overtime is -25200 while daily overtime is 0 |
| `Reporting.TopTasks` | app.js:159-163 | no contract of its own: `Reporting.TopTasksShape` and `Reporting.TopTasksKeepTies` state it |
| `Reporting.TopTasksShape` | app.js:159-163 | topTasks holds min(3, n) tasks in non-increasing elapsed time; with the left-out tasks they are exactly the filtered ones, and none left out is longer than the last kept |
| `Reporting.TopTasksKeepTies` | app.js:159-163 | tasks of equal time keep list order across the cut: the kept ones come before the left-out ones |
| `Reporting.ThreeTaskSummary` | app.js:61-76 | categories A (3600 + 1800) and B (900) give the dictionary {A: 5400, B: 900} and the total 6300 |
| `Instances.Fresh` | app.js:961-963 | the filter is never longer than the stored list; `Instances.FreshMembers` says which descriptors it keeps |
| `Instances.FreshMembers` | app.js:961-963 | the filter keeps exactly the descriptors pinged at most 5000 ms ago |
| `Instances.IndexOfInstance` | app.js:966 | find gives the first descriptor with this id, or none |
| `Instances.Upserted` | app.js:966-974 | no contract of its own: `Instances.UpsertedFresh` states it |
| `Instances.UpsertedFresh` | app.js:966-974 | the upsert keeps every descriptor fresh, holds this instance with lastPing now, keeps every descriptor of another instance and adds nothing else |
| `Instances.Checked` | app.js:956-977 | no contract of its own: `Instances.CheckedProperties` states it |
| `Instances.CheckedProperties` | app.js:956-977 | after a check every kept descriptor is fresh, this instance is present with lastPing now, the list is sorted by ascending id, every other descriptor comes from the stored list, and the list is a permutation of the upserted one |
| `Instances.IsPrimary` | app.js:980 | no contract of its own: `Instances.PrimaryIffOldest` states it |
| `Instances.CheckedHoldsFresh` | app.js:961-974 | every fresh stored descriptor of another instance is in the checked list |
| `Instances.PrimaryIffOldest` | app.js:956-980 | this instance is the primary exactly when no descriptor in the checked list has a smaller id, that is, exactly when no fresh descriptor in storage has a smaller id |
| `Instances.StalenessBoundary` | app.js:961-963 | an older copy pinged exactly 5000 ms ago is kept and stays the primary; pinged 5001 ms ago it is dropped and the newer copy becomes the primary |
| `Instances.Without` | app.js:917-920 | the removal is never longer than the stored list; `Instances.WithoutMembers` says which descriptors it keeps |
| `Instances.WithoutMembers` | app.js:917-920 | the removal keeps exactly the descriptors of other instances |
| `Instances.WithoutAbsentIsIdentity` | app.js:917-920 | a list without this instance is stored back unchanged |
| `Instances.LeaveThenCheck` | app.js:917-920 | after this instance leaves, another instance's next check no longer sees it |
| `Instances.Coordinator.constructor` | app.js:38-40 | a new copy has its id, believes it is the primary and has seen no instance |
| `Instances.Coordinator.CheckActiveInstance` | app.js:956-986 | the list to store is Checked of the stored one; isFirstInstance and the result are IsPrimary; activeInstances is the set of listed ids |
| `Instances.Coordinator.Leave` | app.js:917-920 | the list to store is the stored one without this instance's descriptors |

## Left out

- Storage and serialisation: localStorage, JSON parse/stringify, FileReader, Blob and the CSV, iCalendar, JSON and spreadsheet exports (createWorkbook). Stored values are parameters and results instead.
- The event loop: setInterval/clearInterval scheduling, the auto-save timer, the cross-tab storage event and the beforeunload/visibilitychange wiring. Each callback body is a method or function called with `now`.
- isHoliday has no body in the source and is not modelled.
- The 'week', 'month' and 'sixMonths' cases of filteredTasks, formatPeriodRange, formatDate and groupedHistoricalTasks: these need calendar arithmetic, time zones and locale formatting. Only the string-comparison cases (today, custom, all and the default) are modelled.
- Notifications, charts (updatePieChart, getChartColor, the tooltip percentages), settings and the Vue/Vuetify reactivity.
- loadTasks and the restore in mounted. They re-arm intervals after a reload; the credit they give is the same as handleReopen's and is modelled there.
- Numbers are unbounded integers. Floating point, NaN arithmetic and the 2^53 limit are not modelled.
- Strings are sequences of characters. JavaScript compares UTF-16 code units, which agree with characters on the ASCII dates compared here.
- `Date` conversions are parameters: today's "YYYY-MM-DD", the locale "HH:MM" text of a start of day (`startText`) and the instant a dialog date and start text denote (`startStamp`, None when toISOString would throw).
- Task and instance references are modelled by id. editingTask and the interval's captured task are ids, and instance ids are the numeric value of their decimal string. The strict equality on strings is then equality on numbers.
- The category dictionary is a map. Keys that clash with Object.prototype properties are not modelled.
- Reporting.OvertimeHours: the daily seconds (settings.dailyWorkHours * 3600) are an integer parameter. A fractional setting such as 7.5 hours is covered, because its daily seconds are whole (27000). A setting whose product is not a whole number of seconds is not modelled.
- Reporting.FilteredOvertime: the daily seconds are the same integer parameter, with the same limit as Reporting.OvertimeHours.
- Tracker.EditedTask: a total that parses to NaN keeps the two elapsed fields instead of storing NaN. NaN is not an integer; after validateTimeInput the total always parses (TimeEdit.ValidatedInRange).
- TimeEdit.Split: the round trip is stated for e >= 0 only, the only elapsed times the application produces.
- TrackerApp.TimeTracker.HandleReopen: the seconds since the close are computed once, before the loop, not once per running task. Both instants are fixed, so the value is the same.
- TrackerApp.TimeTracker.constructor: the initial `lastUpdateTime: null` is 0. It is never read before a start sets it.
- Reporting.TodayTotalTime: the sum of Object.values is taken as a sum over the map (SumValues), without the iteration order of the values. The order cannot change an integer sum.
