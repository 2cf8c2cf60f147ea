# Verified models of the Zerf time-tracking core

Zerf records working time and absences, computes targets and leave from them, mails a monthly payroll
report and keeps an e-mail queue. This project models the parts of it whose correctness is not visible
from one function at a time, and proves what the comments, tests and documentation promise about them.

Code that changes state step by step is a method or a class here, proved against a function of the old
state; the laws are lemmas about those functions. Pure code is written as functions.

| file | what it models |
|---|---|
| `Breaks.dfy`, `WorkStretch.dfy` | the automatic break deduction and the work-in-a-row measure of a day |
| `WorkSchedules.dfy` | recorded weekdays, weekly quotas, dated histories of schedules and hours |
| `Leave.dfy`, `LeaveLaws.dfy`, `LeaveShares.dfy` | which days of an absence cost leave, and which booking carries them |
| `Targets.dfy` | the minutes a day or a span asks for, and what absences take away |
| `Calendar.dfy`, `Decimal.dfy`, `Periods.dfy` | the Gregorian calendar, numbers as text, `YYYY-MM` periods and their backfill |
| `CalendarTimers.dfy`, `LocalTimes.dfy` | the timer of the daily and weekly jobs under clock and timezone jumps |
| `PayrollJobs.dfy`, `PayrollReports.dfy`, `PayrollStarts.dfy`, `PayrollDates.dfy`, `OverlappingRuns.dfy`, `HoldNotices.dfy` | queue, marker and settled months of the payroll job, its first runs, dates that go back, a click during a nightly run; the once-per-month hold notice |
| `CircuitBreakers.dfy`, `EmailQueues.dfy`, `DeliveryAlerts.dfy` | guarded delivery, the durable mail queue, which failures alert the administrators |
| `Notifications.dfy`, `IsoWeeks.dfy`, `MonthReports.dfy` | front end: stale answers, the calendar week shown, absence runs of a month |
| `Sorting.dfy`, `Numbers.dfy`, `Wrappers.dfy` | stable sorting, minimum and maximum, `Option` |

Conventions: a date is a day number (day 0 is Monday, 0001-01-01), a clock time is a number of seconds,
an instant is a number of seconds on one time line. What the database, the mail server, the clock and
other services answer is a parameter, so every theorem holds for all answers.

`dafny verify dfyconfig.toml` checks the whole project.

## Where the code does not keep what is said about it

Each point is stated with the exact condition under which the code does keep it.

- `periods_to_backfill` returns the target when the stored month is later than it
  (`backend/src/background/schedule.rs:270-273`); its documentation says the list is empty (255-256). The model
  follows the code. A settled month gets back into the queue in some run of the job exactly on sequences of dates
  that come back to a month they have passed (`PayrollDates.DatesDecide`); `PayrollDates.EarlierDateRequeues` and
  `PayrollDates.NextQueueingRequeues` say it for one queueing on an earlier date and for the next ordinary one, and
  `PayrollDates.AMonthIsMailedTwice` shows a settled month mailed twice.
- The timer hands out one date twice in some sequence of polls exactly when a zone has a target that, once
  reached, is ahead of the calendar (`CalendarTimers.DatesStrictlyIncrease`).
- On dates that never go back a month the payroll job attempted before its first marker is left out for good exactly
  when no run before that marker got it into the queue (`PayrollStarts.FirstMonthsAreKept`, example `PayrollStarts.FirstPeriodCanBeLeftOut`).
- A "Send now" that overlaps a nightly run can queue a settled month again exactly under `OverlappingRuns.CanClash`
  (`OverlappingRuns.SomeOrderRequeues`, for all dates and states; `OverlappingRuns.ClashInOneMonth`,
  `ClashAtTheStart` and `ClashAcrossMonths` say what that comes to).
- The shown calendar week is the week number exactly on the dates of `IsoWeeks.ShownRight`
  (`IsoWeeks.ShownWeekIsTheWeekNumber`, example `IsoWeeks.NewYear100IsShownWrong`).
- A period is read back exactly when its year is not negative (`Periods.ParseUndoesFormat`); the order of two
  period texts is that of the months exactly under `Periods.YearTextsInOrder`
  (`Periods.TextOrderIsMonthOrderWhen`); the last day of a month comes out wrong, as 28, exactly for the last month
  the date library can represent (`Periods.LastDayIsMonthLength`).
- The marker of the hold notice falls to an earlier month exactly when that month is saved and the marker cannot be
  read or the two years are out of order as texts, which years of four digits never are
  (`HoldNotices.MarkerFalls`, `HoldNotices.MarkerFallsOnlyUnread`).
- Recording weekly hours rewrites all dates before them exactly when they become the earliest entry
  (`WorkSchedules.HoursChangeLeavesThePast` and `WorkSchedules.FirstHoursRewriteThePast`).

## Model

| member | source | states |
|---|---|---|
| `Breaks.ComputeDayAutoBreak` | backend/src/time_calc.rs:29-78 | The whole computation, with its early exits, returns `DayAutoBreak`, the function of sorted entries, maximal blocks and deciding rule that the lemmas below characterise |
| `Breaks.MergeIntoBlocks` | backend/src/time_calc.rs:36-49 | The loop that extends the last block in place yields the fold `Blocks` of the sorted entries, and at least one block when there is an entry |
| `Breaks.SumMinutes` | backend/src/time_calc.rs:54-57 | The sum over the blocks is the recursive total of their whole minutes |
| `Breaks.DecidingRule` | backend/src/time_calc.rs:70-75 | The rule found is exceeded, no exceeded rule has a greater threshold, and of equal thresholds the last one listed wins; none is found only when none is exceeded |
| `Breaks.Required` | backend/src/time_calc.rs:67-75 | The minutes required are the deduction of the deciding rule, and 0 when no threshold is strictly exceeded |
| `Breaks.BlocksAreMaximal` | backend/src/time_calc.rs:36-49 | For entries sorted by start the blocks are non-empty, separated by real pauses and cover exactly the seconds the entries cover |
| `Breaks.BlocksAreUnique` | backend/src/time_calc.rs:25-28 | Two lists of separated blocks covering the same seconds are the same list |
| `Breaks.DeductionDependsOnTimeWorked` | backend/src/time_calc.rs:25-28 | Two lists of entries that cover the same seconds have the same deduction, whatever the rules |
| `Breaks.ReorderingChangesNothing` | backend/src/time_calc.rs:33-34 | Reordering or repeating entries does not change the deduction |
| `Breaks.CuttingChangesNothing` | backend/src/time_calc.rs:25-28 | Cutting an entry in two adjacent ones does not change the deduction |
| `Breaks.DeductionCountsMinutes` | backend/src/time_calc.rs:51-77 | For whole-minute entries the deduction is what the number of seconds worked requires, less the seconds of the day's span nobody worked, never below 0, counted on sets of seconds without any block |
| `Breaks.FillingAPauseNeverLowersTheDeduction` | backend/src/time_calc.rs:59-77 | Work added inside the span of the day never lowers the deduction when deductions are non-negative and do not fall with the threshold, for entries to the second |
| `Breaks.NothingToDeduct` | backend/src/time_calc.rs:30-32 | No entries or no rules: 0 |
| `Breaks.RequiredMinutes` | backend/src/time_calc.rs:67-75 | The required minutes with the comparisons written out: 0 while no threshold is below the minutes worked, else the deduction of the greatest one below, the last listed of equal ones |
| `Breaks.OneEntry` | backend/src/time_calc.rs:54-77 | One entry counts with its whole minutes and has taken no break |
| `Breaks.TwoEntries` | backend/src/time_calc.rs:54-77 | Two entries with a pause count with the whole minutes of each, and the rest of the whole minutes of the span is break taken, to the second |
| `Breaks.DocumentedDay` | backend/src/time_calc.rs:20-23 | 08:00 to 18:00 with half an hour off under (360, 30) and (540, 45) is deducted 15 minutes |
| `WorkStretch.Grow` | backend/src/time_calc.rs:123-130 | One round takes in every entry within reach, grows only by entries that were outside, and stays inside every interval closed under absorption |
| `WorkStretch.WorkStretchMinutes` | backend/src/time_calc.rs:113-137 | The loop ends for every input, and the result is the length of the least interval around the candidate that is closed under absorption: with m minutes it is longer than 60(m - 1) and at most 60m seconds |
| `WorkStretch.StretchIsHullOfLinked` | backend/src/time_calc.rs:100-106 | That interval is the hull of exactly the entries that chains of pauses shorter than the minimum link to the candidate; every other entry lies at least the minimum away |
| `WorkStretch.StretchByPauses` | backend/src/time_calc.rs:100-129 | An entry lies in the stretch exactly when a chain leads to it from the candidate in which each entry begins and ends less than the minimum away from the one before, with the strict inequalities written out |
| `WorkStretch.AloneWhenPausesSuffice` | backend/src/time_calc.rs:123-129 | When every entry lies at least the minimum away, exactly the minimum included, the stretch is the candidate |
| `WorkStretch.StretchIgnoresOrder` | backend/src/time_calc.rs:113-137 | There is one such interval, and order and repetition of the entries do not matter |
| `WorkStretch.StretchNeverShrinks` | backend/src/time_calc.rs:113-137 | Adding entries or raising the minimum pause never shortens the stretch |
| `Calendar.WeekMonday` | backend/src/time_calc.rs:141-143 | A Monday at most six days before the date |
| `Calendar.SameWeek` | frontend/src/format.js:218-224 | Two dates share their Monday exactly when both lie in the seven days from it |
| `Calendar.CivilDate` | backend/src/time_calc.rs:147-157 | Building a date from year, month and day and taking it apart again gives the same three numbers |
| `Calendar.MonthLengths` | backend/src/time_calc.rs:147-157 | The length of each of the twelve months, February by the leap rule |
| `Calendar.KnownMonday` | backend/src/time_calc.rs:676-680 | 2026-05-11 is a Monday, and weekdays follow one another in sevens |
| `WorkSchedules.Fixed` | backend/src/time_calc.rs:216-243 | A pattern exists exactly for non-empty lists of days 1 to 5, and holds exactly the listed days; one day outside refuses the whole list |
| `WorkSchedules.WorkSchedule.WeeklyLeaveCap` | backend/src/time_calc.rs:302-307 | There is a quota exactly when no weekday is recorded and the day count is positive, and it is that count |
| `WorkSchedules.SortedLookup` | backend/src/time_calc.rs:368-393 | Sorting the entries and searching from the end finds the latest entry begun by the date, of several on one day the one listed last |
| `WorkSchedules.ScheduleInForce` | backend/src/time_calc.rs:386-393 | The schedule on a date is that entry's, else the fallback, for entries in any order |
| `WorkSchedules.HoursInForce` | backend/src/time_calc.rs:431-439 | The hours on a date are that entry's, else those of the first entry after sorting, else the fallback |
| `WorkSchedules.EntryInForce` | backend/src/time_calc.rs:382-393 | The entry in force has begun by the date, none that has begun is later, and none listed behind it begins the same day; there is none only when all begin later |
| `WorkSchedules.WorkedDays` | backend/src/time_calc.rs:165-186 | Which days a schedule works and how many a week, for recorded weekdays and every day count |
| `WorkSchedules.DayMinutesAreNearest` | backend/src/time_calc.rs:329-335 | The minutes of a working day are its share of the weekly hours to the nearest minute, upwards from the half, and 0 without hours or working days |
| `WorkSchedules.HalfMinutesRoundUp` | backend/src/time_calc.rs:334 | 37.5 hours on four days are 563 minutes a day |
| `WorkSchedules.RecordingLeavesEarlierDates` | backend/src/time_calc.rs:347-354 | An entry recorded anywhere in the list changes no lookup on a date before it |
| `WorkSchedules.ScheduleChangeLeavesThePast` | backend/src/time_calc.rs:347-354 | Recording new working days from a date on leaves the schedule of every earlier date as it was |
| `WorkSchedules.HoursChangeLeavesThePast` | backend/src/time_calc.rs:428-439 | The same for weekly hours when an entry begins before the new one, or on its day and is listed first |
| `WorkSchedules.FirstHoursRewriteThePast` | backend/src/time_calc.rs:428-439 | In all other cases every date before the new entry reads the new hours |
| `Leave.ScheduledLeaveDays` | backend/src/time_calc.rs:467-510 | The day loop with its map of weekly tallies returns `LeaveDays`, which the next two rows spell out |
| `LeaveLaws.DayWithoutQuota` | backend/src/time_calc.rs:485-504 | Where no quota is in force a day is charged exactly when it lies in the window and not before the contract start, the contract works it, it is no holiday, and a range holds it, first and last day included |
| `LeaveLaws.DayUnderQuota` | backend/src/time_calc.rs:485-504 | Under a quota, for every history, exactly when besides fewer quota days have been charged from the Monday of its week on than the quota of the day |
| `Leave.ClampRanges` | backend/src/time_calc.rs:638-642 | Cutting the ranges to the window and dropping empty ones changes nothing about which days of the window are booked |
| `Leave.CountedWorkdays` | backend/src/time_calc.rs:631-672 | The reference calendar returns exactly the days the schedule-based rule charges a contract without recorded weekdays, for all ranges, windows, holidays and day counts and every contract start not after the window start |
| `LeaveLaws.ChargedDays` | backend/src/time_calc.rs:485-508 | A day is charged exactly when it lies in the window and is eligible with quota left by the charged days before it |
| `LeaveLaws.ChargedAscend` | backend/src/time_calc.rs:485-508 | The charged days come in strictly ascending order |
| `LeaveLaws.QuotaUsed` | backend/src/time_calc.rs:479-502 | Within a week of a window under one quota the quota used is the smaller of it and the eligible days so far |
| `LeaveLaws.FirstEligibleDaysAreCharged` | backend/src/time_calc.rs:451-454 | While one quota is in force over the window, a day is charged exactly when it is eligible and fewer eligible days of its week precede it than the quota has |
| `LeaveLaws.FirstDaysOfTheWeek` | backend/src/time_calc.rs:451-454 | The same with the working days taken off counted as a set |
| `LeaveLaws.UnrecordedQuota` | backend/src/time_calc.rs:295-306 | A contract without recorded weekdays and a positive count has that count as its quota on every date |
| `LeaveLaws.FirstPartIsExact` | backend/src/time_calc.rs:456-463 | The first of two windows returns exactly the whole window's days before the split |
| `LeaveLaws.SecondPartIsSuperset` | backend/src/time_calc.rs:456-463 | The second window returns every day of the whole window from the split on, and perhaps more |
| `LeaveLaws.TwoCallsAgree` | backend/src/time_calc.rs:456-463 | For every history two calls charge exactly what one does if and only if each day of the split week that the second call charges under a quota still fits beside what the first call has charged |
| `LeaveLaws.SplitOnMondayIsExact` | backend/src/time_calc.rs:456-463 | A second window beginning on a Monday splits nothing, for every history |
| `LeaveLaws.SplitWithoutQuotaIsExact` | backend/src/time_calc.rs:444-449 | Recorded and irregular contracts may be split anywhere |
| `LeaveLaws.SplitUnderQuota` | backend/src/time_calc.rs:456-463 | Under one quota over the window the split is exact if and only if one side of the split week has no eligible day or both sides together stay within the quota |
| `LeaveLaws.LeaveDaysSplit` | backend/src/time_calc.rs:456-484 | For the call itself with its contract start: a window may be cut if and only if the contract had not begun before the second part, or the carry fits |
| `LeaveLaws.ChargedDependsOnDays` | backend/src/time_calc.rs:491-495 | The charged days depend only on the union of the ranges, the holidays and the schedules of the window's days |
| `LeaveLaws.LaterChangeKeepsLeaveDays` | backend/src/time_calc.rs:347-354 | Recording new working days changes no leave day charged before them, however far the window reaches |
| `LeaveShares.FindOwner` | backend/src/time_calc.rs:546-549 | The search finds a range that holds the day, and of all that do the one that starts first, the input order breaking ties; it finds none only when no range holds the day; all with the comparisons written out |
| `LeaveShares.ScheduledDaysPerRange` | backend/src/time_calc.rs:524-554 | The count of a range is the number of charged days it owns, in input order |
| `LeaveShares.ShareIsCount` | backend/src/time_calc.rs:546-551 | That number is the size of the set of charged days the range holds and no range before it does |
| `LeaveShares.SharesAddUp` | backend/src/time_calc.rs:519-522 | The counts of all ranges add up to the number of days charged |
| `LeaveShares.SharesFollowTheBookings` | backend/src/time_calc.rs:514-517 | Listing ranges with distinct starts in another order charges the same days and gives each range the count it had |
| `Targets.SpanTargetMinutes` | backend/src/time_calc.rs:1563-1583 | The loop over the days of a span sums what each of them asks for |
| `Targets.OneDayTarget` | backend/src/time_calc.rs:571-587 | A day asks for the minutes of its schedule and hours exactly when the contract has begun and works it and neither a holiday nor a range excuses it, and else for 0 |
| `Targets.TargetBeginsWithContract` | backend/src/time_calc.rs:578-580 | The target of a span is that of its part from the contract start on, and 0 before it |
| `Targets.TargetIsSum` | backend/src/time_calc.rs:571-587 | The target of a span is the sum of the values of exactly the days that ask for something |
| `Targets.TargetLosesChargedAndRefused` | backend/src/time_calc.rs:556-587 | For every history the absences take off the target exactly the value of the charged days plus the value of the eligible days the quota refused |
| `Targets.TargetAndLeaveAgree` | backend/src/time_calc.rs:324-335 | Where no quota is in force, target and leave lose the same: the sum of the day minutes over the charged days |
| `Targets.TargetSplits` | backend/src/time_calc.rs:571-587 | A span may be cut anywhere and its parts add up |
| `Targets.LaterChangeKeepsTargets` | backend/src/time_calc.rs:347-354 | Recording later working days changes no target before them |
| `Targets.LaterHoursKeepTargets` | backend/src/time_calc.rs:428-439 | Recording later weekly hours changes no target before them when the hours of the past do not hang on the new entry |
| `Targets.FullWeekIsTheContract` | backend/src/time_calc.rs:324-335 | A full week without a public holiday asks for the contract's minutes to within half a minute per working day |
| `Decimal.DigitsOf` | backend/src/background/schedule.rs:180 | The printed digits are digits and parse back to the number |
| `Decimal.ZeroPaddedOf` | backend/src/background/schedule.rs:286 | Padding with zeros reaches at least the width and keeps the value |
| `Decimal.TextOrderIsValueOrder` | backend/src/background/payroll_report.rs:302-313 | Digit strings of one length are ordered as their values |
| `Periods.ParseYearMonth` | backend/src/background/schedule.rs:214-236 | Only months 1 to 12 and years a 32-bit number holds, its minimum excluded, are accepted |
| `Periods.ParseUndoesFormat` | backend/src/background/schedule.rs:180-236 | Parsing a formatted month returns it if and only if its year is not negative, and fails otherwise |
| `Periods.ParsedYearsAreNotNegative` | backend/src/background/schedule.rs:214-220 | No text parses to a negative year, since the first dash is the separator |
| `Periods.TextOrderIsMonthOrder` | backend/src/background/payroll_report.rs:302-315 | For years 0 to 9999 the order of the texts is the order of the months |
| `Periods.TextOrderIsMonthOrderWhen` | backend/src/background/payroll_report.rs:302-315 | For all months of non-negative years the order of two texts is the order of the months if and only if their years are equally long as texts or the shorter is not greater than the equally long beginning of the longer |
| `Periods.TextsDiffer` | backend/src/background/schedule.rs:180 | Different months of non-negative years have different texts |
| `Periods.PeriodsHaveSevenCharacters` | backend/src/background/schedule.rs:180 | For years 0 to 9999 a month is seven characters, a dash at the fifth, year and month as numbers around it |
| `Periods.DigitsAreRead` | backend/src/background/schedule.rs:214-236 | Digits, a dash and digits are read as their values when these are a 32-bit year and a month 1 to 12, and otherwise refused |
| `Periods.SignsAreRead` | backend/src/background/schedule.rs:214-223 | A plus sign is read over in front of either number; a minus sign in front of the month is refused |
| `Decimal.LongerIsLarger` | backend/src/background/schedule.rs:180 | Of two padded numbers the longer text is the larger number |
| `Periods.TextOrderFailsForFiveDigitYears` | backend/src/background/payroll_report.rs:302-315 | The first month of the year 10000 sorts before the month preceding it, an instance of the condition above |
| `Periods.OrdinalOrder` | backend/src/background/schedule.rs:206-211 | Comparing year and month as a pair is comparing positions on one line of months |
| `Periods.LastDayIsMonthLength` | backend/src/time_calc.rs:147-157 | The day before the next first is the length of the month, for every representable month but the very last |
| `Periods.BoundsOfMonth` | backend/src/background/schedule.rs:239-247 | The bounds of a formatted month are its first day and the day before the next month |
| `Periods.PeriodsAbut` | backend/src/background/schedule.rs:239-247 | For every month of a year from 0 on that the date library knows: its bounds hold exactly its days, and there is a next period which begins the day after, if and only if it is not the very last month |
| `Periods.PeriodsToBackfill` | backend/src/background/schedule.rs:258-300 | The target alone for an empty, unreadable or later marker, nothing for an unreadable target, else every month after the marker up to the target |
| `Periods.CatchUp` | backend/src/background/schedule.rs:264-298 | The three comparisons of readable months lead to the target alone, nothing, or the catch-up loop |
| `Periods.MonthsAfter` | backend/src/background/schedule.rs:277-297 | The loop ends on the target without ever passing it, with each month after the first once and in order |
| `Periods.PeriodBetweenAt` | backend/src/background/schedule.rs:249-257 | The entry at position k of the backfill is the month k after the first one missing |
| `Periods.BackfillCases` | backend/src/background/schedule.rs:258-300 | For readable months: the target alone when the marker is later, else as many months as lie between, each at its place |
| `Periods.UnreadableBackfill` | backend/src/background/schedule.rs:259-268 | The target alone for an unreadable marker, nothing for an unreadable target after a readable one |
| `Periods.BackfilledPeriodsParse` | backend/src/background/schedule.rs:286 | Every month a backfill queues can be read back, as the month at its position |
| `Periods.OnlyTheLastMonthWaits` | backend/src/background/schedule.rs:347-363 | A month is deferred if and only if the day of the month is below the configured day and below 28 and the month is the just-finished one or a later one, in all years whose ceiling can be read; exactly when there is no ceiling the run fails |
| `CalendarTimers.ResolveBySearch` | backend/src/background/schedule.rs:37-52 | The bounded minute search is the function `ResolveLocalTime`, refusing times that no clock shows |
| `CalendarTimers.SearchResolves` | backend/src/background/schedule.rs:34-52 | It finds the earliest instant of the first minute from the wanted time on that the local clock ever shows, and nothing only if the clock skips all of two days |
| `LocalTimes.LocalTimesResolve` | backend/src/background/schedule.rs:34-52 | The same for a time of day in plain numbers: no other hour than 0 to 23, minute or second than 0 to 59 is resolved |
| `CalendarTimers.Next` | backend/src/background/schedule.rs:54-95 | A planned target lies strictly in the future in every zone |
| `CalendarTimers.NextIsNextTurn` | backend/src/background/schedule.rs:54-95 | Under a fixed offset the target is the very next midnight plus 30 seconds, or the very next Monday noon |
| `LocalTimes.TargetsShowTheirTime` | backend/src/background/schedule.rs:80-95 | Under a fixed offset the target shows 00:00:30, or 12:00 on a Monday, and lies at most a day, or a week, ahead |
| `CalendarTimers.CalendarTimer.constructor` | backend/src/background/schedule.rs:105-109 | A new waiter has no plan and knows the date that ran last |
| `CalendarTimers.CalendarTimer.Poll` | backend/src/background/schedule.rs:131-149 | The new state and the answer are those of `Polled`; afterwards any plan is for the polled zone and strictly in the future, and there is none only when the zone has no next target |
| `CalendarTimers.PollRaisesLastRun` | backend/src/background/schedule.rs:137-147 | When the dates of reached targets are never ahead of the calendar, a date is handed out only above the last one and becomes the last one |
| `CalendarTimers.DatesStrictlyIncrease` | backend/src/background/schedule.rs:98-150 | Over every sequence of polls at any instants in any zones and of new waiters the dates handed out strictly increase, if and only if in each zone the date of a target, once reached, is never ahead of the calendar |
| `CalendarTimers.TargetAheadRunsTwice` | backend/src/background/schedule.rs:98-150 | Whenever a reached target is ahead of the calendar, two polls, a new waiter and the same two polls hand out one date twice |
| `CalendarTimers.RisingDatesHold` | backend/src/background/schedule.rs:98-99 | The condition holds in every zone whose local date never goes back |
| `CalendarTimers.FallingBackIsConsistent` | backend/src/background/schedule.rs:98-99 | Zones that fall back over midnight are possible zones whose dates go back |
| `CalendarTimers.ADateCanRunTwiceWhenDatesFall` | backend/src/background/schedule.rs:98-150 | In the zone that falls back by an hour so many seconds past midnight the condition holds if and only if that is at most 30 seconds past |
| `CalendarTimers.PollKeepsTrack` | backend/src/background/schedule.rs:131-149 | With polls at most a minute apart each poll either runs the next turn on its date or keeps it planned |
| `CalendarTimers.NoDateIsMissed` | backend/src/background/schedule.rs:152-171 | Under a fixed offset and such polls the job runs exactly once for every day, or every Monday, that falls due after the first poll |
| `PayrollJobs.BackfillOfTexts` | backend/src/background/schedule.rs:258-300 | The backfill of stored texts is the text of the backfill of months as numbers |
| `PayrollJobs.DeferredAgrees` | backend/src/background/schedule.rs:347-363 | The deferral of a stored text is the deferral of the month as a number |
| `PayrollJobs.PeriodTexts` | backend/src/background/schedule.rs:174-190 | The texts of the month of a date and of the one before are those of the months as numbers |
| `PayrollJobs.MonthNumbersAscend` | backend/src/background/schedule.rs:174-181 | Later dates lie in the same or a later month |
| `PayrollJobs.PayrollJob.QueuePreviousMonth` | backend/src/background/payroll_report.rs:209-240 | First-run baseline, one insert at a time and the marker last: with a failure anywhere the state is that of `Queued` |
| `PayrollJobs.PayrollJob.MarkReported` | backend/src/background/payroll_report.rs:783-826 | Up to three attempts settle the month as a whole or leave the state untouched; a changed absence ends them at once |
| `PayrollReports.RecordedWhen` | backend/src/background/payroll_report.rs:783-824 | A month is recorded exactly when one of the first three attempts records it and only database errors precede that one |
| `PayrollJobs.PayrollJob.ProcessPeriod` | backend/src/background/payroll_report.rs:373-733 | A scheduled month is settled only when it covers nobody, has nothing to report or was accepted by the mail server, and its accounting was recorded; in every other course it stays queued |
| `PayrollJobs.PayrollJob.RunOnce` | backend/src/background/payroll_report.rs:114-133 | The nightly run queues, lists and processes the due months oldest first, as `Run` says |
| `PayrollJobs.PayrollJob.RunNow` | backend/src/background/payroll_report.rs:155-206 | "Send now" only queues; it targets the oldest month owed, or the running month when none is |
| `PayrollJobs.RunKeepsAccount` | backend/src/background/payroll_report.rs:109-287 | A run keeps every month up to the marker pending or settled and never both, loses no settled month, and a manual run settles and mails nothing |
| `PayrollJobs.FirstRun` | backend/src/background/payroll_report.rs:209-225 | The run that saves the first marker establishes that account from its target on; every other run before it only queues |
| `PayrollJobs.RunsKeepAccount` | backend/src/background/payroll_report.rs:114-287 | Over all runs on dates that never go back, with failures anywhere, the account holds and settled months stay settled |
| `PayrollJobs.RunMailsOnlyOpenMonths` | backend/src/background/payroll_report.rs:269-286 | A scheduled run mails only months that are not settled and not deferred, and settles no deferred month |
| `PayrollJobs.NightlyRunAnswersEachMonth` | backend/src/background/payroll_report.rs:245-287 | A nightly run treats every month by itself: exactly the queued and not deferred ones are attempted, each of them is settled and leaves the queue exactly when its own report was sent or had nothing to say and was recorded, and is mailed once exactly when its mail was accepted |
| `PayrollReports.RunMailsInOrder` | backend/src/background/payroll_report.rs:269-286 | The months a run mails are strictly ascending |
| `PayrollJobs.SettledIsNeverMailedAgain` | backend/src/background/payroll_report.rs:704-731 | Once a month is settled no later sequence of runs sends its scheduled mail again |
| `PayrollJobs.FirstQueueing` | backend/src/background/payroll_report.rs:209-240 | What a queueing without a marker does: which faults let it set the first period, insert its month and save the marker |
| `PayrollJobs.QueueingExactly` | backend/src/background/payroll_report.rs:209-240 | What a queueing does in any state, on any date and with any faults: which months it inserts, whether it succeeds and where it leaves the marker |
| `PayrollJobs.RunExactly` | backend/src/background/payroll_report.rs:114-287 | What a run does to each month in any state, on any date and with any faults |
| `PayrollStarts.RunsFromTheStart` | backend/src/background/payroll_report.rs:114-287 | From the empty installation on: before a run saves the first marker nothing is settled or mailed, and afterwards every month from the target of that run up to the marker is pending or settled and never both |
| `PayrollStarts.FirstQueueingKeeps` | backend/src/background/payroll_report.rs:217-237 | A queueing that saves the first marker leaves every month from the first period on pending or settled if and only if those before its own target were in the queue already |
| `PayrollStarts.FirstMonthsAreKept` | backend/src/background/payroll_report.rs:217-237 | Over every life of an installation on dates that never go back all months from the first period ever attempted up to the marker are kept if and only if each one before the target of the run that saved the first marker was inserted by one of the runs before it; month by month the same |
| `PayrollStarts.FirstPeriodCanBeLeftOut` | backend/src/background/payroll_report.rs:217-237 | When the first queueing inserts nothing and the next succeeds a month later, the first period is in neither set at any later point |
| `PayrollDates.EarlierDateRequeues` | backend/src/background/schedule.rs:269-273 | For one queueing while no date has gone back yet: pending and settled stay apart if and only if nothing is inserted, the target is not before the marker, or it is not settled; the marker goes back with the target |
| `PayrollDates.QueueingRequeues` | backend/src/background/schedule.rs:258-339 | In any state, on any date and with any faults one queueing keeps pending and settled apart if and only if it inserts no settled month |
| `PayrollDates.NextQueueingRequeues` | backend/src/background/schedule.rs:269-339 | After a queueing on an earlier date the next ordinary one keeps them apart if and only if the earlier one inserted nothing, or its target was not settled and it did not lower the marker below a settled month |
| `PayrollDates.StaysInStep` | backend/src/background/schedule.rs:258-339 | On dates that never come back to a month they have passed every inserted month comes from the dates so far, and none of them is both pending and settled |
| `PayrollDates.ReturningRunsClash` | backend/src/background/schedule.rs:258-339 | On three dates of which the last comes back, two good nights and a good click leave a month both pending and settled |
| `PayrollDates.DatesDecide` | backend/src/background/schedule.rs:258-339 | On a sequence of dates, forward or back, no run of the job, whatever fails and whatever the reports come to, ever has a settled month in its queue, if and only if no three of the dates in order come back |
| `PayrollDates.NeverBackNeverReturns` | backend/src/background/schedule.rs:258-339 | Dates that never go back never come back |
| `PayrollDates.MonthsAreCovered` | backend/src/background/schedule.rs:302-339 | On any dates and with any faults every month from the target of the run that saves the first marker up to the marker is pending or settled |
| `PayrollDates.SettledForGood` | backend/src/background/payroll_report.rs:704-731 | On dates that never come back, in any life of an installation from its empty state on, a month settled at some point is still settled, not queued and not mailed again by schedule at every later point |
| `PayrollDates.ADateGoingBackRequeues` | backend/src/background/schedule.rs:269-273 | Two good nights in consecutive months and a click with the date set back queue a settled month, from the empty installation |
| `PayrollDates.AMonthIsMailedTwice` | backend/src/background/schedule.rs:269-339 | A click on a date two months back, whose target is not settled, keeps the two sets apart but lowers the marker, and the next good night on the right date mails a settled month a second time |
| `OverlappingRuns.RunsAlone` | backend/src/background/payroll_report.rs:114-287 | The single steps of a run, one table access at a time, add up to the run when nothing interferes |
| `OverlappingRuns.MovesKeepOrder` | backend/src/background/schedule.rs:320-339 | What holds in every interleaving of the steps of a nightly run and a click on any dates, from any state in which nothing is both pending and settled |
| `OverlappingRuns.StaleClickRequeues` | backend/src/background/schedule.rs:320-330 | When a click reads the marker before a nightly run whose own queueing is in order and does the rest after it, the months both pending and settled are exactly those the click inserts of the months settled before or by that run |
| `OverlappingRuns.SomeOrderRequeues` | backend/src/background/schedule.rs:320-330 | For a nightly run and a click on any dates, from any state in which nothing is both pending and settled, some interleaving makes a month both if and only if `CanClash`; otherwise no interleaving does harm to it |
| `OverlappingRuns.ClashInOneMonth` | backend/src/background/schedule.rs:320-330 | Once a marker is saved and within one month, `CanClash` means that the night queues and settles the month and the click inserts as far as it from the same marker |
| `OverlappingRuns.ClashAtTheStart` | backend/src/background/payroll_report.rs:209-237 | Before any marker is saved it means that the month is the target of both, the night saves the marker and settles it, and the click gets its insert through |
| `OverlappingRuns.ClashAcrossMonths` | backend/src/background/schedule.rs:269-330 | With the click dated in the month before the night it means the same up to the click's target, and besides that target itself whenever the night saves its marker and the target is settled by then |
| `OverlappingRuns.OverlappingRunsCanRequeue` | backend/src/background/schedule.rs:320-330 | The first good night of an installation is enough, when a click overlaps it |
| `HoldNotices.HoldNotice.NotifyAdminsOfHold` | backend/src/background/payroll_report.rs:295-364 | Whether the administrators are told and what the marker becomes, with an unreadable marker and a failed save |
| `HoldNotices.TextsDecideAsMonths` | backend/src/background/payroll_report.rs:302-315 | The decision on texts is the decision on months if and only if the marker is not consulted or the two years are in order as texts |
| `HoldNotices.FourDigitsDecide` | backend/src/background/payroll_report.rs:302-315 | For years 0 to 9999 it always is |
| `HoldNotices.MarkerFalls` | backend/src/background/payroll_report.rs:302-315 | For all months that are not negative an earlier month is announced and takes the marker's place if and only if it is saved and the marker cannot be read or the two years are out of order as texts |
| `HoldNotices.MarkerFallsOnlyUnread` | backend/src/background/payroll_report.rs:306-315 | With years 0 to 9999 the marker falls if and only if it could not be read and an earlier month was saved over it |
| `HoldNotices.NoticesRise` | backend/src/background/payroll_report.rs:289-315 | While the marker is readable it never falls and no month up to it is announced; when it is saved too, the announced months strictly increase and in the end every held month is covered |
| `CircuitBreakers.CircuitBreaker.AllowAttempt` | backend/src/email.rs:91-107 | Grant exactly when closed or a cooldown after the opening, which a granted trial moves to now |
| `CircuitBreakers.CircuitBreaker.RecordSuccess` | backend/src/email.rs:109-113 | Afterwards the breaker is closed with no failure counted |
| `CircuitBreakers.CircuitBreaker.RecordFailure` | backend/src/email.rs:115-121 | One more failure, and opened now once the threshold is reached |
| `CircuitBreakers.CircuitBreaker.GuardedSend` | backend/src/email.rs:243-271 | Denied, delivered or refused (a timeout included): a denial changes nothing, a delivery closes the breaker and clears the count, a refusal counts one more |
| `CircuitBreakers.SendIsTwoEvents` | backend/src/email.rs:243-271 | A guarded send is a question and, when granted, the report of its success or failure: the events all interleavings are made of |
| `CircuitBreakers.SendsCountFailures` | backend/src/email.rs:109-121 | Over any sequence of sends the failures counted are those refused since the last delivered one, and the breaker is open exactly when they reach the threshold |
| `CircuitBreakers.NextSend` | backend/src/email.rs:91-121 | What the next send meets: tried after a delivery or below the threshold, and from the refusal at the threshold on exactly a cooldown after it |
| `CircuitBreakers.EventsKeepSpacing` | backend/src/email.rs:46-56 | For any number of callers, any interleaving and any duration: open exactly from the threshold on, and any two trials granted while open are a cooldown apart over the whole run |
| `CircuitBreakers.EventsKeepSingleTrial` | backend/src/email.rs:96-101 | When attempts end before the cooldown does, at most one trial is unresolved at any time |
| `CircuitBreakers.ShippedBreakerIsSafe` | backend/src/email.rs:68-73 | Both for the shipped threshold, cooldown and time limits from the start of the process |
| `CircuitBreakers.SlowTrialsOverlap` | backend/src/email.rs:235-242 | A sender whose time limit is not below the cooldown can still have its trial unresolved when the next one starts, for every threshold and cooldown |
| `CircuitBreakers.LimitsDecide` | backend/src/email.rs:96-101 | At most one trial is unresolved in every legal course of events if and only if every time limit is below the cooldown |
| `EmailQueues.EmailWorker.DeleteWithRetry` | backend/src/background/email_queue.rs:269-280 | The row is deleted exactly when one of the three tries succeeds |
| `EmailQueues.EmailWorker.Handle` | backend/src/background/email_queue.rs:77-133 | What one mail of the batch does to table, breaker and counters, and whether the pass goes on |
| `EmailQueues.EmailWorker.ProcessPending` | backend/src/background/email_queue.rs:59-136 | The pass over the batch is the recursive `Drained`, stopping at the first denial; without a server or a list nothing changes |
| `EmailQueues.NoMailIsLost` | backend/src/background/email_queue.rs:76-136 | Over every order of enqueues, passes, single attempts and other senders, with any answers, every queued mail is in the table with its content or was accepted, and nothing else was |
| `EmailQueues.NoMailIsSentTwice` | backend/src/background/email_queue.rs:78-92 | Over every such order in which deleting works in the end, each mail either waits and was never accepted, or is gone and was accepted exactly once |
| `EmailQueues.AcceptedMailStays` | backend/src/background/email_queue.rs:261-280 | The row of an accepted mail stays, to be sent again, if and only if none of the three tries deletes it |
| `EmailQueues.PassWhileServerIsDown` | backend/src/background/email_queue.rs:93-103 | A pass in which everything fails makes exactly min(batch, threshold minus failures) attempts from a closed breaker, one from an open one whose cooldown is over, else none; all later rows are untouched |
| `EmailQueues.PassWhileServerIsUp` | backend/src/background/email_queue.rs:76-92 | With the server up and the breaker not denying, a pass sends every mail of its batch once, removes exactly the rows whose deletion works and closes the breaker |
| `EmailQueues.ServedInOrder` | backend/src/repository/email_queue.rs:86-95 | Mails never tried come first, then the one tried longest ago, the lower number first where that does not decide |
| `EmailQueues.BatchIsFront` | backend/src/repository/email_queue.rs:86-95 | A batch is the front of the queue, as long as the limit allows |
| `EmailQueues.RowDecidesReports` | backend/src/background/email_queue.rs:105-132 | The attempt count and last error kept in the row decide the next report as the whole history of the mail would |
| `EmailQueues.FailureGoesToTheEnd` | backend/src/repository/email_queue.rs:74-85 | A mail that fails later than all others moves from the head to the end and the rest keep their order |
| `EmailQueues.OpenPassFailsTheHead` | backend/src/repository/email_queue.rs:78-85 | A pass with an open breaker whose cooldown is over, while the server is down, fails exactly the head of the queue |
| `EmailQueues.AttemptsGoRound` | backend/src/repository/email_queue.rs:78-85 | After k such failures the queue is rotated by k, so every mail is tried before any is tried again |
| `DeliveryAlerts.DetailsDoNotMatter` | backend/src/background/email_queue.rs:160-168 | Two errors that differ only after the first colon have one class |
| `DeliveryAlerts.HeadIsItsClass` | backend/src/background/email_queue.rs:166-168 | The class is the text before the first colon without the white space around it, so different heads are different reasons |
| `DeliveryAlerts.SpacesAre` | backend/src/background/email_queue.rs:166-168 | Blanks, tabs and line ends are white space, visible ASCII characters are not |
| `DeliveryAlerts.ReportedWhen` | backend/src/background/email_queue.rs:152-158 | Which failures are reported: the first, the hundredth, and those of another class than the one before |
| `DeliveryAlerts.ErrorsAlert` | backend/src/log_capture.rs:175-195 | A record alerts the administrators exactly when it is an error, not announced already and not from one of the four delivery targets |
| `DeliveryAlerts.LastReported` | backend/src/background/email_queue.rs:152-158 | Every failed mail has a last reported failure, and none after it was reported |
| `DeliveryAlerts.LastReportIsCurrent` | backend/src/background/email_queue.rs:138-158 | The class reported last is the class of the latest failure |
| `DeliveryAlerts.ReportsFollowReasons` | backend/src/background/email_queue.rs:138-158 | The reports number 1 or 2 more than the class changes, exactly 1 more below a hundred failures, and the hundredth failure is reported |
| `DeliveryAlerts.AlertsDoNotFeedThemselves` | backend/src/log_capture.rs:165-195 | Over any run of failures the alerts raised are those of the run without the failing alert mails |
| `DeliveryAlerts.AlertsAreReports` | backend/src/background/email_queue.rs:185-237 | An ordinary mail raises exactly one alert per report and an alert mail none |
| `Notifications.NotificationService.SupersedeInFlightRefreshes` | frontend/src/notificationService.js:18-21 | A fresh claim above all earlier ones |
| `Notifications.NotificationService.BeginRefresh` | frontend/src/notificationService.js:23-25 | A visible tab claims an id and waits; a hidden one does nothing |
| `Notifications.NotificationService.FinishRefresh` | frontend/src/notificationService.js:30-32 | The answers are written exactly when the claim is still the newest, missing ones as an empty list and 0; otherwise list and count stay |
| `Notifications.NotificationService.FinishMarkRead` | frontend/src/notificationService.js:109-115 | Supersedes, marks the item and lowers the count, not below 0 |
| `Notifications.NotificationService.FinishMarkAllRead` | frontend/src/notificationService.js:120-124 | Supersedes, marks everything, count 0 |
| `Notifications.NotificationService.FinishClear` | frontend/src/notificationService.js:129-131 | Supersedes and empties the stores |
| `Notifications.NotificationService.StopNotifications` | frontend/src/notificationService.js:80-101 | Supersedes and empties the stores |
| `Notifications.MarkedRead` | frontend/src/notificationService.js:110-114 | Order and numbers stay, and exactly the item becomes read |
| `Notifications.NewestAnswerIsShown` | frontend/src/notificationService.js:30-32 | The answer of the newest claim is shown as it is, any other changes nothing shown |
| `Notifications.BegunIsNewest` | frontend/src/notificationService.js:18-25 | A refresh that has begun holds the newest claim and waits for its answer |
| `Notifications.MutationsShown` | frontend/src/notificationService.js:103-132 | What marking one read, marking all read, clearing and stopping do to list and count, the count never below 0 |
| `Notifications.OnlyMutationsShow` | frontend/src/notificationService.js:103-132 | While no answer is written, list and count change by the mutations completed and by nothing else |
| `Notifications.LastAnswerIsShown` | frontend/src/notificationService.js:23-33 | Over every sequence of events list and count are those of the last answer written, changed by exactly the mutations completed since |
| `Notifications.WritingClaimsIncrease` | frontend/src/notificationService.js:10-15 | Over every order of events the claims that write strictly increase |
| `Notifications.OldAnswersChangeNothing` | frontend/src/notificationService.js:10-15 | Dropping the answers of claims below the newest from any later sequence of events leaves the stores the same |
| `Notifications.NewerRefreshSilencesOlder` | frontend/src/notificationService.js:23-30 | From the beginning of a refresh on, the stores are what they would be without the answers of the refreshes already under way |
| `Notifications.MutationsSilenceEarlierRequests` | frontend/src/notificationService.js:13-21 | From the completion of a mutation or the end of the session on, the stores are what they would be if the answers under way at that point never arrived |
| `Notifications.StoppedStaysEmpty` | frontend/src/notificationService.js:80-101 | After stop list and count stay empty until a new refresh begins, even when old answers and mutations complete late |
| `Notifications.ReachableClaimsAreOld` | frontend/src/notificationService.js:16-25 | In every reachable state all waiting claims are at most the newest |
| `IsoWeeks.IsoWeek` | frontend/src/format.js:271-287 | The steps on the mutated date compute `ShownWeek`, the week distance between the Thursday and a January 4 |
| `IsoWeeks.RoundingNeverActs` | frontend/src/format.js:278-286 | The dividend is a multiple of seven, so the rounding returns the exact quotient |
| `IsoWeeks.ShownWeekIsTheWeekNumber` | frontend/src/format.js:271-287 | For every date the number shown is the week number of section 2.2.10 of ISO 8601:2004, counted in Thursdays, if and only if `ShownRight`: outside the years 0 to 99 when the year of the Thursday is outside them too, inside them when the one or two weekdays lost by looking 1900 years later do not change the week |
| `IsoWeeks.NewYear100IsShownWrong` | frontend/src/format.js:277 | The first of January of the year 100 is shown a wrong number |
| `IsoWeeks.OneNumberPerWeek` | frontend/src/format.js:271-287 | The number is constant from Monday to Sunday |
| `IsoWeeks.WeekNumberRange` | frontend/src/format.js:271-287 | The number is 1 to 53 |
| `IsoWeeks.WeekNumberSteps` | frontend/src/format.js:271-287 | It rises by one each week, or restarts at 1 from at least 52 exactly when the Thursday's year changes |
| `MonthReports.NormalizeMonthReport` | frontend/src/apiMappers.js:1-55 | Entries and runs of the days replace those of the report and every other field stays; a report without a list of days, or none, is passed through |
| `MonthReports.CollectDays` | frontend/src/apiMappers.js:6-48 | The loop that extends the active run in place returns the entries and runs of the fold over the days |
| `MonthReports.RunsDecodeToDays` | frontend/src/apiMappers.js:30-48 | For days in order: runs begin and end on absent days of their kind, no two could be one, an absent day lies in exactly one run, of its own kind, and another day in none |
| `MonthReports.RunsAreAnchored` | frontend/src/apiMappers.js:35-45 | Runs begin and end on absent days of their kind, for days in any order |
| `MonthReports.EntriesKeepTheirPlace` | frontend/src/apiMappers.js:16-28 | Every entry appears with its day's date and all its fields at the position after all entries of the days before it |
| `MonthReports.NothingElseIsListed` | frontend/src/apiMappers.js:16-28 | Every place of the list belongs to an entry of a day |
| `MonthReports.ReportTellsAbsences` | frontend/src/apiMappers.js:30-54 | In the report returned an absent day lies in a run of its kind, a day without an absence or with an empty one in none, and days and other fields are as before |
| `MonthReports.ReportRunsLieApart` | frontend/src/apiMappers.js:30-54 | Its runs lie one behind the other, begin and end on days of their kind, and neighbours of one kind have a present day between them |
| `MonthReports.ReportListsEntries` | frontend/src/apiMappers.js:16-28 | In it every entry stands with its day's date and all its fields behind the entries of the days before |
| `MonthReports.EntriesBefore` | frontend/src/apiMappers.js:16-28 | Those are as many as the days before have entries |
| `MonthReports.NothingToNormalize` | frontend/src/apiMappers.js:2-4 | A report without a list of days, or none, is returned as it is |

The functions that are written down directly and have no row of their own are
`WorkSchedules.WorkSchedule` (`backend/src/time_calc.rs:165-186` and 247-335), `Targets.ScheduledDayMinutes`
(571-587), the period functions of `Periods` (`backend/src/background/schedule.rs:174-211` and 347-363),
`DeliveryAlerts.IsReportedFailure` and `FailureClass` (`backend/src/background/email_queue.rs:152-168`) and
`DeliveryAlerts.RaisesAdminAlert` (`backend/src/log_capture.rs:175-195`).

## Left out

- Integer widths: counts, minutes and dates are unbounded, except the 32-bit ranges of parsed periods and the last year the date library represents. Overflow of the 16-bit quota counter and the ends of the representable calendar in the day loops are not modelled.
- Floating point: weekly hours are real numbers rounded half away from zero, so infinities, not-a-number and binary rounding are not modelled; leave counts are natural numbers instead of floats.
- The weekday bit mask is a set of weekdays; `Fixed` adds to the set where the code sets bits.
- Entries are assumed to end after they start, as the time entry repository demands on insertion (`backend/src/repository/time_entries.rs:82`), and the minimum rest break to be positive, as the settings demand (`backend/src/services/settings.rs:143-145`).
- Timezone rules: a zone is any map from instants to local times and back. That no date is missed is proved for fixed offsets only, because a zone may skip the time a job is due.
- The sleep of at least 1 and at most 60 seconds between polls appears only as the assumption on their distance.
- `PayrollJobs.PayrollJob.RunOnce`: the early exits for a disabled or empty configuration, and the refusals of a manual run before anything is queued, change nothing and are not runs here; that the ceiling cannot be computed in January of the year 0 is stated by `Periods.OnlyTheLastMonthWaits` only.
- `PayrollJobs.PayrollJob.ProcessPeriod`: assembling members, report content, PDF and mail is an arbitrary course of the report; the accounting transaction is atomic, and a commit that succeeds while its answer is lost is not modelled.
- `PayrollJobs.PayrollJob.RunNow`: whether the manual copy was delivered is not tracked, as it changes neither queue nor accounting; the date is read once per run.
- `PayrollJobs.RunsKeepAccount`: states its result for one run after the other on dates that never go back; for other dates `PayrollDates.DatesDecide` and `PayrollDates.MonthsAreCovered` take its place, and for a click during a nightly run `OverlappingRuns.SomeOrderRequeues`. A marker overwritten with unreadable text is not part of the state machine.
- `OverlappingRuns.SomeOrderRequeues`: one click during one nightly run; several clicks at once are not modelled.
- The payroll queue is listed by the order of its texts, which is the order of the months up to the year 9999; `PayrollJobs` lists the months in their own order.
- The months already settled when the feature is first enabled, carried-over corrections and absence cancellations: their rules are in services and queries outside this model.
- `EmailQueues.PassWhileServerIsDown`: states the count for a pass with no other sender; with other senders the breaker theorems apply.
- `EmailQueues.AttemptsGoRound`: needs strictly rising attempt times; two attempts recorded with the same timestamp are ordered by row number.
- `DeliveryAlerts.AlertsAreReports`: counts failures the database recorded; a failure that cannot be recorded is only logged and raises no alert.
- The text of alerts and their dedupe keys, the alert text shortening, the log writer's insert and its truncation of long messages, notification texts, translation and colours.
- `Notifications.NotificationService.FinishMarkRead`: the early return for an item already read is a request that is never made; poll timer, event stream and visibility handler are just the reasons for a refresh.
- The timesheet upload job, which shares the period functions, and all SQL, HTTP, sessions, configuration parsing and demo data: they would add only easy members, or their behaviour lies in queries.
