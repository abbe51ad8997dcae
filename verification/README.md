# Which relay must be on, and when

A Dafny model of the scheduling core of a Shabbat-clock service. One question, "which relay
must be switched, and when", is answered by several independent programs: the server tick, the
cron jobs mirrored onto a Shelly unit, the payload sent to the ESP32 and its firmware, the
calendar view and the resolvers of the next occurrence. This project models each of them and
proves what makes them agree, together with the stand-alone protocols around them.

| file | component |
|---|---|
| `Civil.dfy` | Gregorian dates, shifting, weekdays, the one-year window of a year-less cron |
| `Exclusions.dfy` | per-schedule exclusions and their weekday/dated split |
| `ShellyCompile.dfy`, `ShellyMerge.dfy`, `ShellyFit.dfy` | rows to cron jobs, the merging passes, the 20-job horizon |
| `ShellySync.dfy`, `UnitTable.dfy` | the delta reconcile of the unit's job table, cut off after any write; the jobs' identity and what the synced table fires |
| `WallClock.dfy`, `DueWindows.dfy` | wall time to UTC, due windows of the tick |
| `ExecutionRows.dfy` | the table of executed occurrences under all its concurrent writers |
| `FirmwareModel.dfy`, `FirmwareTheory.dfy`, `FirmwareExecutor.dfy`, `FirmwareRun.dfy` | the firmware's minute-of-week executor, boot pass, pushed schedules and whole runs |
| `FirmwareQueues.dfy` | the bounded report queue and the command-id ring |
| `HolidayEvents.dfy`, `YearlySpans.dfy` | holiday sides, yearly ranges (civil and Hebrew) and their next occurrence |
| `Plans.dfy`, `PlanConflicts.dfy` | plan compilation; collisions, cancellations and what makes a plan be refused |
| `RowCalendar.dfy`, `Calendar.dfy`, `PlanCalendar.dfy` | one row through the calendar; all rows; a whole plan, from its schedulers to the events shown |
| `CanonicalPayload.dfy`, `CanonicalParse.dfy`, `DevicePayload.dfy` | the two payload printers, a parser, the payload's entries |
| `Agreement.dfy` | the readings of a row side by side: tick, Shelly cron, ESP32 executor |
| `HistoryPages.dfy` | the merged, cursor-paged history |
| `FirmwareUpdateLock.dfy`, `JobLanes.dfy`, `DeadRelay.dfy` | fleet update lock, per-key job lanes, dead-relay verdict |
| `Sorting.dfy`, `Runs.dfy`, `Common.dfy` | the stable sort behind every `sort` call; runs of a protocol; values that may be absent |

Code that works step by step is a method or a class proved against a specification; whole runs
are sequences of atomic steps. Where the code does not do what a reader would expect, the
project proves exactly when it does and, in most cases, gives a concrete one where it does not:

- A mirrored weekly job differs from the server on a later date exactly when the row's dated
  exclusions say something else about that date than about the day of the sync
  (`ShellyCompile.SideMirrorsServer`; a row that does: `ShellyCompile.SomeRowFlips`).
- An entry sent to the ESP32 differs from the tick on a date exactly when the exclusions say
  something else about it than about the day of the push, or, for a fixed-day entry of a row
  whose old exclusion field holds weekdays, when the exclusion list covers the date
  (`DevicePayload.WeeklySideWhileInForce`; entries that do: `ExcludedWeekdayStaysSent`,
  `OverlookedListActs`).
- The scan at server start looks 24 hours back; with three candidate dates it is complete
  exactly when its last minute is at most one local date after its first
  (`DueWindows.DayWindowComplete`), and around a spring change it can miss an occurrence
  (`DueWindows.StartupScanCanMiss`). The tick's windows are far below the 23 hours that are
  always safe.
- Month-day overlap of yearly spans reports no false overlap, and misses one exactly when the
  numbers do not overlap but do with 29 February taken for the 28th
  (`YearlySpans.OverlapIsExact`; a miss: `YearlySpans.LeapDayOverlapMissed`). Which pairs of
  plan schedulers it decides rightly is `PlanConflicts.CollisionMeansSharedDate`.
- The calendar's year loop misses no span of any row exactly when the window's last date lies
  in a year the loop tries (`YearlySpans.YearLoopIsComplete`). Civil windows always do, and
  with years of at least 353 days so do the windows in use (`YearlySpans.ShortWindowsSuffice`):
  at most 92 dates at src/api/routes/user.js:402 and 400 at src/services/schedules.js:606.
- A one-sided yearly row is listed twice on a date only where a span that wraps is followed by
  one that does not (`RowCalendar.ListedOnce`, `RowCalendar.OverrunListedTwice`); of the civil
  rows that is the one from 29 to 28 February after a leap year (`RowCalendar.CivilOverrun`; one
  in a 92-date window: `RowCalendar.LeapRowListedTwice`).
- Holiday schedulers collide for the code when they share a key. It reports no false collision,
  and misses one exactly when none is shared and the almanac has a date with the days of two
  different keys (a festival on Shabbat: `PlanConflicts.FestivalOnShabbatMissed`), or two such
  days in a row and a clock time that the sunset passed from one evening to the next
  (`PlanConflicts.FestivalDaysMissed`); see `PlanConflicts.HolidayCollisionIsExact`.
- A holiday scheduler replaces the weekly ones on every date its events land on, except on the
  morning after an exit ("01:00 on its exit" lands on the next date) unless the day after that
  is selected too (`Plans.HolidayEventReplaces`, `Plans.MorningAfterIsNotReplaced`); the
  comment at src/services/schedules.js:388-390 promises the replacement on all its days.
- A channel state seen to match leaves its row executed exactly when, for the tick, no other
  row was inserted that is not executed, and, for the reconcile, the row is neither failed nor
  being attempted; for the retry always (`ExecutionRows.SightSettlesExactly`). In one process
  the tick's always does (`ExecutionRows.TickSightSettles`); it takes two processes at work to
  lose it (`ExecutionRows.SeenButNotInserted`). The reconcile can lose its own in one process
  (`ExecutionRows.SeenButRefused`).
- The one diary query of the update lock may fail at process start exactly when the lock
  already carries every open hop (`FirmwareUpdateLock.MissIsHarmlessExactly`; a run that fails:
  `FirmwareUpdateLock.UnreadDiaryLosesTheLock`). A process start is safe exactly when the diary
  has one open hop at most (`FirmwareUpdateLock.StartIsSafeExactly`).
- Where an ON and an OFF of a relay fall in one minute the firmware's tick lets the later entry
  of its order win, and its boot pass keeps the first of the payload. The boot pass puts the
  executor in step exactly when those act alike (`FirmwareTheory.BootIsRightExactly`,
  `FirmwareRun.Executor.Start`; a tie where they do not: `FirmwareTheory.TieMisleadsBoot`); the
  ticks need nothing of the kind.
- A schedule pushed between two ticks keeps the executor in step exactly when, besides, no event
  of it comes within 55 seconds of a fire of its old namesake
  (`FirmwareRun.Executor.ReplaceSchedule`; one that does: `FirmwareTheory.LateFireUnrests`). That
  cannot be when the last tick that moved the minute came in its first five seconds, or when the
  new schedule has no event in the next minute (`FirmwareTheory.RecentRests`), which is all that
  runs with pushes need (`FirmwareRun.Executor.RunWithPushes`).
- The two payload printers agree exactly when every number is a 32-bit `long`: the firmware reads
  any other as 0, and its 16-byte buffer never cuts a long (`CanonicalPayload.PrintersAgree`). A
  version from 2^31 on, which the server's unsigned column can hold, is discarded by the device
  (`CanonicalPayload.LargeVersionDiffers`).

## Model

| member | source | states |
|---|---|---|
| Civil.StringOrderIsDayOrder | src/services/time.js:102-110 | comparing date strings is comparing day numbers, and equal numbers are equal dates |
| Civil.ShiftAddsDays | src/services/time.js:102-105 | shifting a date adds to its day number and gives a real date, over months, years and leap days |
| Civil.DowCountsOn | src/services/time.js:108-110 | the weekday of any date follows from that of any other by the days between them |
| Civil.NextInTheCalendar | src/services/time.js:102-105 | which date follows the last days of every month, in literal numbers; 29 February is in years divisible by 4 but not by 100, or by 400 |
| Civil.FirstOf2025IsAWednesday | src/services/time.js:108-110 | where the weekdays stand: 1 January 2025 is a Wednesday |
| Civil.FourCenturiesLast | src/services/time.js:108-110 | 400 years are 146097 days |
| Civil.CenturyLasts | src/services/time.js:108-110 | a century is 36525 days when its last year is a multiple of 400, otherwise 36524 |
| Civil.ShiftReaches | src/services/time.js:102-105 | every real date is the shift of every other by their distance |
| Civil.MonthDayIsUniqueInWindow | src/services/time.js:117-121 | inside the one-year window a month and day name a single date |
| Civil.WindowIsAYear | src/services/time.js:117-121 | the window is exactly the days from today until the same day of next year, or until 1 March when that year lacks it |
| Exclusions.ExclusionSplits | src/services/holidays.js:336-371 | a date is excluded iff its weekday is dropped or the stripped exclusion covers it; only a dated exclusion can cover after stripping |
| Exclusions.WeekdaysOf | src/services/holidays.js:351-356 | the dropped weekdays are exactly those of some weekday item |
| Exclusions.DatedItems | src/services/holidays.js:359-368 | stripping keeps exactly the items that are not weekday items |
| Exclusions.StrippedCovers | src/services/holidays.js:359-371 | the stripped row is silent on exactly the dates its other items cover, and has none left exactly when there are no others |
| YearlySpans.ExclusionCovers | src/services/holidays.js:310-349 | a row is silent on exactly the dates its single exclusion or an item of its list means, in day numbers: weekdays, selected days and their eves, all days of a one-time range, the days of a yearly span |
| ShellyCompile.SideMirrorsServer | src/services/shelly-schedules.js:49-88 | on any date of the coming year a side's cron fires exactly when the server has it due, if and only if the side did not flip |
| ShellyCompile.SomeRowFlips | src/services/shelly-schedules.js:63-69 | an everyday row with one excluded date next week: its job still acts on that date, the server does not |
| ShellyCompile.WeeklySideFires | src/services/shelly-schedules.js:60-72 | a weekly side fires on a date by its weekday list and today's reading of the dated exclusions |
| ShellyCompile.WeeklySideDue | src/scheduler/tick.js:69-116 | the server has a weekly side due by its weekday list and the date's own reading of the dated exclusions |
| ShellyCompile.DatedSideMirrors | src/services/shelly-schedules.js:73-87 | a dated cron fires exactly when the server has the row due: never on a wrong year's anniversary, never inside an exclusion |
| ShellyCompile.MirrorsServer | src/services/shelly-schedules.js:49-88 | on a date without flips the compiled jobs fire exactly the calls the server has due |
| ShellyCompile.MirrorsServerToday | src/services/shelly-schedules.js:49-88 | for any rows the jobs fire today exactly what the server has due today |
| ShellyCompile.NoDatedExclusionNeverFlips | src/services/shelly-schedules.js:63-69 | rows without dated exclusions agree with the server on the whole year |
| ShellyCompile.CronNumbers | src/services/shelly-schedules.js:60-72 | cron day 0 is Sunday: a fixed day is one number less, every day is 0 to 6 |
| ShellyCompile.CompileRows | src/services/shelly-schedules.js:49-88 | the loop over rows and sides produces jobs that fire what each row's sides fire, one call each |
| ShellyMerge.GroupBySpec | src/services/shelly-schedules.js:95-99 | merging by timespec keeps what fires at every date and minute and leaves no two jobs with one timespec |
| ShellyMerge.DistinctSorted | src/services/shelly-schedules.js:100-111 | duplicate calls drop, each channel's ON comes before its OFF |
| ShellyMerge.TieEndsOff | src/services/shelly-schedules.js:97-111 | made one after the other, the calls of a job leave a channel off when an OFF is among them, else on when an ON is |
| ShellyMerge.OrderCalls | src/services/shelly-schedules.js:100-111 | ordering keeps what fires |
| ShellyMerge.MergeWeekdays | src/services/shelly-schedules.js:114-131 | merging weekday lists keeps what fires and leaves no two weekly jobs with the same minute and calls |
| ShellyMerge.Chunk | src/services/shelly-schedules.js:134-141 | a busy job becomes siblings of one to five calls that together carry its calls in order |
| ShellyMerge.SplitLongJobs | src/services/shelly-schedules.js:134-141 | splitting keeps what fires, with at most as many jobs as calls |
| ShellyMerge.BuildShellyJobs | src/services/shelly-schedules.js:49-142 | the compiled table fires on every date and minute what the rows' own jobs fire, in jobs of one to five ordered calls, no more jobs than switch events |
| ShellyCompile.SidesCounted | src/services/shelly-schedules.js:49-58 | switch events are two a row at most, one for each side with a time |
| ShellyFit.InferredYearIsRight | src/services/shelly-schedules.js:179-182 | the year inferred for a dated job is the right one for compiler output |
| ShellyFit.KeyIsFirstFiring | src/services/shelly-schedules.js:172-187 | a job's rank key is the moment of its first firing from today's midnight |
| ShellyFit.NotBeforeItsKey | src/services/shelly-schedules.js:184-187 | no job fires before its key |
| ShellyFit.FitShellyJobs | src/services/shelly-schedules.js:169-190 | kept and dropped jobs make up the list; 20 are kept when it is longer; no kept job's key is after a dropped one's |
| ShellyFit.HorizonIsExact | src/services/shelly-schedules.js:162-168 | until the earliest first firing of a dropped job the kept jobs fire exactly what the whole list fires |
| ShellyFit.DesiredJobs | src/services/shelly-schedules.js:145-190 | kept and dropped jobs make up the compiled list; the kept ones fire what the server has due up to the first firing of a dropped one, on every date without flips |
| ShellySync.NoDistanceIsEqual | src/services/shelly-schedules.js:226-240 | no write is missing iff the two job multisets are equal |
| ShellySync.FindExtras | src/services/shelly-schedules.js:226-233 | the scan finds exactly the surplus of the unit's table and what of the wanted counts is left |
| ShellySync.FindMissing | src/services/shelly-schedules.js:234-239 | the second scan finds jobs for exactly the wanted counts still left |
| ShellySync.Device.Delete | src/services/shelly-schedules.js:241 | one delete takes the entry with that id and touches no other |
| ShellySync.Device.Create | src/services/shelly-schedules.js:242 | one create appends one entry under a new id |
| ShellySync.DeleteExtras | src/services/shelly-schedules.js:241 | after any number of deletes the matching entries are there and the surplus has shrunk by that number |
| ShellySync.CreateMissing | src/services/shelly-schedules.js:242 | creates only append, in order, until the line dies |
| ShellySync.AfterDeletes | src/services/shelly-schedules.js:241 | each delete lowers the distance to the desired table by one |
| ShellySync.AfterCreates | src/services/shelly-schedules.js:242 | each create lowers it by one |
| ShellySync.Sync | src/services/shelly-schedules.js:206-242 | an attempt cut off after any write has come closer by exactly its writes, never touched a matching job, never outgrown both tables, and is complete iff the tables are equal |
| ShellySync.SyncRepeatedly | src/services/shelly-schedules.js:218-225 | interrupted attempts add up: the distance falls by the sum of their writes, to zero |
| UnitTable.ListingOrderIsNoChange | src/services/shelly-schedules.js:192-202 | the order in which a unit lists the calls of a job cannot make it a different job |
| UnitTable.SameKeyFiresAlike | src/services/shelly-schedules.js:194-202 | jobs with one identity string fire alike, whatever other cron lines a unit has |
| UnitTable.SameKeysFireAlike | src/services/shelly-schedules.js:218-240 | a table with the identity strings of a list fires what the list fires |
| UnitTable.SyncUnit | src/services/shelly-schedules.js:206-242 | an attempt is through iff the line survives as many writes as the table is away from the wanted list; then, whatever the table held, the unit fires up to the horizon exactly what the server has due, in at most 20 jobs |
| WallClock.ReadingIsProbed | src/services/time.js:48-59 | an instant whose clock reads the wall time has an offset that one of the probes sees |
| WallClock.SkippedInJump | src/services/time.js:63-70 | a wall time no clock reads lies in the jump of the one change |
| WallClock.JumpIsTheOnly | src/services/time.js:63-70 | the transition is the only instant that steps over a skipped wall time |
| WallClock.ProbeOffsets | src/services/time.js:50-53 | the distinct offsets of the three probes |
| WallClock.WallToUtc | src/services/time.js:48-71 | exactly the instants whose clock reads the wall time, ascending; when none, the jump instant is the transition |
| WallClock.FindJump | src/services/time.js:63-70 | the binary search ends at the transition |
| WallClock.Hits | src/scheduler/tick.js:98-100 | the hits of a wall time are the reading instants, or the jump for a skipped one |
| DueWindows.CandidatesMissNone | src/scheduler/tick.js:87-97 | in windows of at most 23 hours the three candidate dates miss no occurrence |
| DueWindows.WindowsTile | src/scheduler/tick.js:101-103 | an occurrence of [a, c) is found in exactly one of [a, b) and [b, c), and nothing else is |
| DueWindows.DayWindowComplete | src/scheduler/tick.js:527-532 | a window of up to a day is complete iff its last minute is at most one local date after its first |
| DueWindows.StartupScanCanMiss | src/scheduler/tick.js:527-532 | a spring night on which the 24-hour scan never considers an occurrence in its window |
| DueWindows.CandidateDates | src/scheduler/tick.js:84-97 | exactly the dates base−1, base, base+1 with the right weekday, or the row's own date |
| DueWindows.DateOccurrences | src/scheduler/tick.js:98-112 | one candidate date yields each of its hits in the window once |
| DueWindows.OccurrencesInWindow | src/scheduler/tick.js:69-116 | exactly the occurrences of both sides at candidate dates in the window, each once |
| DueWindows.SortDue | src/scheduler/tick.js:120-127 | a permutation in which nothing comes before an earlier date and minute's, at one moment nothing before a lower id's, and of one schedule no OFF before its ON |
| Agreement.LastDueWins | src/scheduler/tick.js:118-127 | the last due action of a relay is of its latest minute, and the one the firmware's order would let win there |
| DueWindows.DueOccurrences | src/scheduler/tick.js:360-368 | over schedules in zones of their own, every promised occurrence of the window that no exclusion covers, exactly once, in apply order; a schedule with an unreadable zone is passed over |
| Agreement.DueMeansTickFires | src/scheduler/tick.js:69-116 | a side is due on a date for the compilers exactly when the tick has an occurrence of it there, at whatever instants the zone gives the wall time |
| Agreement.WindowHoldsTheDue | src/scheduler/tick.js:360-368 | what a tick window is left with is what the rows have due, at the instants their wall times mean |
| Agreement.EntryHits | firmware/src/main.cpp:448-463 | the executor hits a payload entry in exactly the local minutes the entry names |
| Agreement.ExecutorMirrorsTick | src/services/schedulePayload.js:54-67 | on any date the executor does of a weekly side what the tick does, on the same relay in the same minutes, iff the side does not fall on the date or is not stale |
| Agreement.ExecutorMirrorsTickOnDates | src/services/schedulePayload.js:68-73 | of a dated side always |
| Agreement.PayloadMirrorsTick | src/services/schedulePayload.js:54-74 | on a date on which no side differs, an ESP32 holding the payload does exactly what the tick does: each relay, action and minute |
| Agreement.PayloadIsGood | src/services/schedulePayload.js:54-74 | what the server sends meets everything the executor's theorems ask of a payload's entries |
| Agreement.JobsMirrorTick | src/services/shelly-schedules.js:49-88 | on a date without flips the cron jobs fire exactly the calls the tick fires |
| ExecutionRows.WriteKeeps | src/services/executions.js:77-107 | every guarded write keeps rows well formed, moves none backwards and touches one key |
| ExecutionRows.StepKeeps | src/scheduler/tick.js:151-208 | every step of tick, backup, retry, report, reconcile and catch-up keeps the invariant |
| ExecutionRows.RunKeepsRows | src/scheduler/tick.js:210-316 | under every interleaving rows only move forward, an executed row keeps its author for ever, and its author really acknowledged, reported or was seen to have acted |
| ExecutionRows.StepKeepsJustified | src/services/executions.js:77-84 | an executed row names who settled it; a report or an ack always leaves the row executed |
| ExecutionRows.StepKeepsOwned | src/scheduler/tick.js:268-272 | a pending row has an activity working on it, or its activity died |
| ExecutionRows.SettledForGood | src/services/executions.js:77-84 | from a report or an ack on the row is executed with one author whatever follows |
| ExecutionRows.SightSettlesExactly | src/scheduler/tick.js:257-266 | when a channel found in the expected state leaves its row executed: the tick's, the reconcile's and the retry's exact conditions, and otherwise the table is unchanged |
| ExecutionRows.TickSightSettles | src/scheduler/tick.js:257-266 | in every run of one process, whose scan and ticks never judge an occurrence twice, a channel the tick finds in the expected state leaves its row executed |
| ExecutionRows.TickFindsItDone | src/scheduler/tick.js:257-266 | such a run: the tick sees no row, finds the channel as it should be, and the row is executed by the device |
| ExecutionRows.SeenButNotInserted | src/services/executions.js:11-23 | a run of two processes in which the tick's match is lost to a row the other inserts as unverified |
| ExecutionRows.SeenButRefused | src/services/executions.js:99-107 | a run in which the reconcile's match finds the row failed by a refused catch-up |
| ExecutionRows.ExecutionTable.InsertOccurrenceRow | src/services/executions.js:11-23 | the first insertion of a key stays, the stored row is returned |
| ExecutionRows.ExecutionTable.IngestExecReport | src/services/executions.js:44-85 | a report is accepted iff it is well formed, of this device's schedule and relay, and of the last day; then it settles its row, keeping an earlier author |
| ExecutionRows.ExecutionTable.ReconcileDevice | src/services/executions.js:89-109 | exactly the device's unverified rows of the last day whose relay is in the expected state become executed by the device |
| ExecutionRows.LatestDueByRelay | src/scheduler/tick.js:402-414 | each relay's latest row, or a conflict exactly when ON and OFF tie at its latest moment |
| FirmwareModel.WrapIsModulo | firmware/src/main.cpp:204-215 | the doubled C remainder is the mathematical one, for negative operands too |
| FirmwareModel.CModIsC | firmware/src/main.cpp:204-215 | the modelled remainder is the one a division that truncates toward zero leaves |
| FirmwareModel.WeeklyDueMeansPassing | firmware/src/main.cpp:448-460 | the modular window finds a weekly event exactly at its passages since the last tick |
| FirmwareModel.OnceDueMeansPassing | firmware/src/main.cpp:461-463 | a one-off event is found exactly when its minute passed and the tick runs on its date |
| FirmwareTheory.BootIsRightExactly | firmware/src/main.cpp:225-243 | the state the boot pass gives a relay is the one the ticks would have left, if and only if the first entry of its most recent minute acts like the one applied last |
| FirmwareTheory.RightIsUnique | firmware/src/main.cpp:465-471 | of any payload and minute exactly one state of a relay is right |
| FirmwareTheory.NoTiesAgree | firmware/src/main.cpp:225-243 | where no minute has both an ON and an OFF of a relay the boot pass is never misled |
| FirmwareTheory.TieMisleadsBoot | firmware/src/main.cpp:225-243 | a daily OFF and a later schedule's daily ON of one minute: boot leaves the relay off, the ticks leave it on |
| FirmwareTheory.DueListIsPassages | firmware/src/main.cpp:448-464 | after a step of at most 180 minutes the tick's due list is every passage once, in order |
| FirmwareTheory.PassagesFireable | firmware/src/main.cpp:417-431 | the 55-second guard never suppresses a passage |
| FirmwareTheory.FireExactly | firmware/src/main.cpp:417-431 | within 55 seconds of its last fire an event does nothing; otherwise it is remembered, unless more than 512 would be, and a configured relay is set and reported |
| FirmwareTheory.DueInFields | firmware/src/main.cpp:465-469 | the apply order in its fields: position, id, ON before OFF |
| FirmwareTheory.FireAllReports | firmware/src/main.cpp:417-431 | firing the due list reports each entry once, in order |
| FirmwareTheory.FireAllDrives | firmware/src/main.cpp:417-431 | firing leaves each relay at the action of its last due entry |
| FirmwareTheory.StaysRested | firmware/src/main.cpp:417-424 | the fire times kept stay clear of every later passage |
| FirmwareTheory.StaysRight | firmware/src/main.cpp:465-471 | applying the passages in order turns the right state at one minute into the right state at the next, ties of ON and OFF included |
| FirmwareTheory.TickStaysSynced | firmware/src/main.cpp:435-472 | a tick keeps every scheduled relay in the state of its most recent event and reports each passage once |
| FirmwareTheory.BootSettles | firmware/src/main.cpp:376-378 | a boot pass between two ticks leaves a relay settled iff the next tick will set it in any case or no tie misleads it |
| FirmwareTheory.BestIsBootState | firmware/src/main.cpp:226-240 | the action of the first entry with a relay's latest time is its boot state |
| FirmwareExecutor.OneDayAtMost | firmware/src/main.cpp:448-460 | at most one weekday of an event lies in a tick's window |
| FirmwareExecutor.DaysDue | firmware/src/main.cpp:453-460 | the day loop finds an event exactly at its due positions |
| FirmwareExecutor.DateDue | firmware/src/main.cpp:461-463 | the date test finds a one-off event exactly when it is due |
| FirmwareExecutor.CollectDue | firmware/src/main.cpp:453-464 | both loops together collect exactly the due entries, each once |
| FirmwareExecutor.SortDue | firmware/src/main.cpp:465-469 | the collected entries in order of position, id, ON before OFF |
| FirmwareExecutor.WeeklyLastOccurrence | firmware/src/main.cpp:204-215 | the returned time is the latest minute the event had up to now |
| FirmwareRun.Executor.FireEvent | firmware/src/main.cpp:417-431 | one firing does what its specification does to relays, fire times and reports |
| FirmwareRun.Executor.ExecutionTick | firmware/src/main.cpp:435-472 | first tick records the minute, no or too long a step fires nothing, otherwise the ordered due list is fired |
| FirmwareRun.Executor.MostRecentState | firmware/src/main.cpp:226-240 | the scan over both lists finds the action of the relay's first entry of its most recent minute, or off when nothing ever happened |
| FirmwareRun.Executor.ApplyBootBehavior | firmware/src/main.cpp:217-246 | every relay by its boot mode: off, last saved state, or the first entry of its most recent minute |
| FirmwareRun.Executor.Start | firmware/src/main.cpp:217-246 | boot pass and first tick in one minute put the executor in step, if and only if no tie at boot misleads the boot pass |
| FirmwareRun.Executor.TickInStep | firmware/src/main.cpp:435-472 | a tick in step stays in step and reports the passages since the last one |
| FirmwareRun.Executor.Run | firmware/src/main.cpp:435-472 | after any number of ticks every scheduled relay is in the state of its most recent event, the last applied one in a tie, and every passage was reported exactly once, in order, at most 180 minutes late |
| FirmwareRun.Executor.RelaysFollow | firmware/src/main.cpp:217-246 | in step, every configured relay in schedule mode, whatever its number, is in its right state |
| FirmwareRun.Executor.ApplySchedulePayload | firmware/src/main.cpp:163-192 | everything stored is replaced, and relays the payload does not name go off |
| FirmwareRun.Executor.ReplaceSchedule | firmware/src/main.cpp:362-388 | after a push, which keeps the last minute and the fire times, the executor is in step with the new schedule iff no tie misleads the boot pass and no event comes too soon after its namesake's fire |
| FirmwareTheory.RecentRests | firmware/src/main.cpp:417-424 | a schedule's next events are rested when the fires were early in their minute or it has no event in the very next one |
| FirmwareTheory.LateFireUnrests | firmware/src/main.cpp:417-424 | an event fired half a minute late and moved to the next minute is suppressed there |
| FirmwareRun.Executor.RunWithPushes | firmware/src/main.cpp:362-472 | over any number of ticks and of pushes, each after a prompt minute-moving tick or without an event in the next minute, every passage of the schedule in force was reported exactly once, in order, and the executor is in step at the end |
| FirmwareRun.PowerOn | firmware/src/main.cpp:557-600 | from power-on with a loaded schedule, boot pass and first tick put the executor in step iff no tie misleads the boot pass, so always with an untied schedule |
| FirmwareRun.ChronicleExtends | firmware/src/main.cpp:435-472 | adjoining stretches of a run report the passages of the whole, none twice |
| FirmwareQueues.ExecQueue.QueueExecReport | firmware/src/main.cpp:274-289 | the newest report always gets in; a full queue drops exactly its oldest and counts it |
| FirmwareQueues.ExecQueue.FlushExecQueue | firmware/src/main.cpp:291-307 | reports leave oldest first, what the line did not take stays |
| FirmwareQueues.FatesPartition | firmware/src/main.cpp:274-307 | every report ever queued is delivered, counted as dropped or waiting, none twice |
| FirmwareQueues.CommandRing.Accept | firmware/src/main.cpp:330-345 | a command is a duplicate iff its id is among the last 32 accepted, counting the initial zeros |
| FirmwareQueues.RememberedFor32 | firmware/src/main.cpp:330-345 | a redelivery is recognized exactly while fewer than 32 others were accepted since |
| HolidayEvents.LandsNearby | src/services/holidays.js:117-135 | a day's event lands at most one date away |
| HolidayEvents.ClockMoments | src/services/holidays.js:117-127 | a clock time of a selected day is the one in the 24 hours from the sunset before it; of an exit, the one in the 24 hours from its noon, and none when it runs into another holy day |
| HolidayEvents.AnchoredMoments | src/services/holidays.js:128-134 | an anchored time is the evening before's for a night anchor of a day, the day's own otherwise |
| HolidayEvents.BeforeByMinutes | src/services/holidays.js:163-200 | the order of moments is that of their minutes |
| HolidayEvents.Locality | src/services/holidays.js:140-158 | a shorter range shows the same events cut to it |
| HolidayEvents.HolidaySideEvents | src/services/holidays.js:140-158 | exactly the side's events in the range, in order, each once; complete for the first 798 dates |
| HolidayEvents.ResolveSide | src/services/holidays.js:163-200 | the least event strictly after now, or none in 400 days |
| HolidayEvents.ResolveHolidaySchedule | src/services/holidays.js:163-200 | each present side gets its own next event; refused only when a side has none |
| YearlySpans.ThreeOffsetsDecide | src/services/holidays.js:310-320 | three year offsets decide membership in every year's span, civil or Hebrew, wrapping or not |
| YearlySpans.InSpanByMonthDay | src/services/schedules.js:430-438 | membership in a civil span is a test on month-day numbers, clamped by the date's year and the one before |
| YearlySpans.InSpanByCycle | src/services/schedules.js:430-438 | without 29 February ends it is membership in a cycle of numbers |
| YearlySpans.OverlapIsExact | src/services/schedules.js:432-438 | for any four ends, two spans share a calendar date iff the overlap test holds of the numbers or of those with 29 February taken for the 28th |
| YearlySpans.CyclicOverlapIsExact | src/services/schedules.js:432-438 | without 29 February ends the one test decides |
| YearlySpans.LeapDayOverlapMissed | src/services/schedules.js:432-438 | two spans that meet every common year but whose numbers do not overlap |
| YearlySpans.SpanLength | src/services/holidays.js:397-482 | no yearly span, civil or Hebrew, is longer than the 400-day walk |
| YearlySpans.FirstPending | src/services/holidays.js:397-482 | the walk finds the first day of one span still to come, or shows there is none |
| YearlySpans.ResolveYearly | src/services/holidays.js:427-458 | of a one-sided row, civil or Hebrew, clock or anchored: the first day of any year's span whose moment is after now, or a day without a time in a span from last year's to next year's with no day to come before it; always one of the two |
| YearlySpans.ResolvePair | src/services/holidays.js:459-481 | of a two-sided row: the first pair of all years that is not over, with a same-day OFF moved past midnight, or the error of a year on the way |
| YearlySpans.PairInTime | src/services/holidays.js:459-475 | a pair goes on on its anniversary and off later, at the time of its off day |
| YearlySpans.LaterByMinutes | src/services/holidays.js:459-475 | the order of stored moments is that of their minutes |
| YearlySpans.YearLoopIsComplete | src/services/calendar.js:78-91 | the year loop misses no span of any row iff the window's last date lies in a year it tries |
| YearlySpans.YearsAheadReach | src/services/calendar.js:81 | the tried years are the least number that reaches over the window |
| YearlySpans.ShortWindowsSuffice | src/services/calendar.js:78-91 | with years of at least 353 days the loop tries enough of them for every window of at most 353 dates a tried year and one |
| YearlySpans.CivilYearsSuffice | src/services/calendar.js:78-91 | no civil window outruns the loop |
| Plans.DerivedExclusions | src/services/schedules.js:396-414 | one derived item per dated scheduler, in their order |
| Plans.DerivedCovers | src/services/schedules.js:396-414 | a derived item covers exactly the days its scheduler takes over |
| Plans.SchedulerRows | src/services/schedules.js:509-558 | exactly one row per picked weekday, in order, one for any other scheduler, refused iff no day is picked |
| Plans.InsertRows | src/services/schedules.js:657-670 | each row is inserted as often as schedulers make it, on every channel, with the exclusions its kind carries; one foreign channel, weekly scheduler without days or row that fails its checks undoes all |
| PlanConflicts.SavePlan | src/services/schedules.js:628-672 | refused exactly without channels or schedulers, with more than 40, with a collision or cancellation, or when a channel is not the user's or a row fails; otherwise the plan's rows on the distinct positive channels |
| PlanConflicts.ItemMeans | src/services/schedules.js:119-172 | an entered exclusion means its weekdays, its holidays' days and eves, the days of its one-time range, or of its yearly one by the calendar it was entered in |
| PlanConflicts.NoDaysMeansNever | src/services/schedules.js:552-557 | a scheduler is refused for want of days iff it is a weekly one that would never act |
| Plans.PlanIsExact | src/services/schedules.js:388-414 | a weekly row is silent on a date iff the user excludes it or a dated scheduler of the plan covers it; a dated row iff the user excludes it |
| PlanCalendar.RowsActAsAsked | src/services/schedules.js:509-558 | on every date and minute the rows of a channel act exactly when a scheduler of the plan asks for it: its weekdays, its date, all days of its span, all moments of all its holidays |
| PlanCalendar.PlanShowsWhatIsAsked | src/services/schedules.js:388-414 | the calendar shows an event of a channel exactly when a scheduler asks for it, the user does not exclude the date and, for a weekly one, no dated scheduler takes it over |
| PlanCalendar.CalendarMirrorsTick | src/services/calendar.js:62-77 | a weekly or one-time side is shown on a date exactly when the tick has it due, on the row's relay |
| Plans.HolidayEventReplaces | src/services/schedules.js:396-401 | the date of a holiday event is taken from the weekly rows, unless it is the morning after an exit and two days after the day is not selected |
| Plans.MorningAfterIsNotReplaced | src/services/holidays.js:117-135 | an exit event at 01:00 lands on a date the weekly rows keep |
| PlanConflicts.SchedulerCollisions | src/services/schedules.js:439-467 | exactly the pairs with opposite actions at one moment that share a day |
| PlanConflicts.CollidersAreAlike | src/services/schedules.js:426-463 | colliders have opposite actions at one clock time, or one anchor and offset; a dated scheduler never collides with a weekly one, nor a Hebrew date with anything |
| PlanConflicts.WeeklyCollisionIsATie | src/services/schedules.js:447-449 | weekly schedulers collide iff their actions are opposite at one time on a shared date |
| PlanConflicts.CollisionMeansSharedDate | src/services/schedules.js:447-463 | for weekly pairs and civil dated pairs, 29 February included: sharing a day for the code means a calendar date both act on, if and only if the numbers decide |
| PlanConflicts.MomentsByAlmanac | src/services/holidays.js:117-135 | two holiday sides of one timing fire at one moment iff two of their keys fall on one date and are treated alike, or on two dates in a row with a clock time between the two sunsets |
| PlanConflicts.HolidayCollisionIsExact | src/services/schedules.js:451-453 | for holiday pairs: no false collision, and one missed iff no key is shared and two different ones meet by the almanac |
| PlanConflicts.FestivalOnShabbatMissed | src/services/schedules.js:451-453 | a festival on Shabbat named by one and the Shabbat by the other fire at one moment, unreported |
| PlanConflicts.FestivalDaysMissed | src/services/schedules.js:451-453 | the two days of a festival named by one each fire at one moment, when the clock time lies between their sunsets, unreported |
| PlanConflicts.StrayEndCollides | src/services/schedules.js:456-460 | a second date on a one-time scheduler collides with a date it does not act on |
| PlanConflicts.Cancellations | src/services/schedules.js:476-497 | exactly the pairs of an exclusion not flagged as derived and a scheduler whose explicit days it cancels |
| PlanConflicts.WeekdaysCancel | src/services/schedules.js:480-491 | a weekday exclusion cancels a weekly scheduler iff it covers a date the scheduler has, a one-time one iff it covers its date, and an everyday one never |
| PlanConflicts.HolidaysCancel | src/services/schedules.js:492-496 | a holiday exclusion cancels exactly the holiday schedulers it shares a key with, and covers that key's days |
| PlanConflicts.NoWeeklyTies | src/services/schedules.js:447-449 | a saved plan never has a weekly ON and a weekly OFF of one channel at one time on one date |
| RowCalendar.WeeklyEvents | src/services/calendar.js:62-71 | the date loop shows exactly the weekly row's unexcluded dates in the window, each once |
| RowCalendar.YearlyEvents | src/services/calendar.js:78-103 | of a one-sided row only days of some year's span, of a two-sided one only its pairs' sides, civil or Hebrew; all of them when the years suffice; each once iff no two tried spans share one |
| RowCalendar.ListedOnce | src/services/calendar.js:78-103 | a one-sided row without a wrapping span followed by one that does not wrap is listed once |
| RowCalendar.OnSideListedOnce | src/services/calendar.js:78-103 | the ON side of a two-sided row is listed once |
| RowCalendar.OverrunListedTwice | src/services/calendar.js:78-103 | a row with one is listed twice on the start of the later span |
| RowCalendar.CivilOverrun | src/services/holidays.js:208-250 | of the civil rows that is exactly the one from 29 to 28 February, in a leap year |
| RowCalendar.LeapRowListedTwice | src/services/calendar.js:78-103 | that row, seen from February 2025 for 92 dates, has 28 February twice |
| RowCalendar.HolidayRowEvents | src/services/calendar.js:104-116 | the holiday row's unexcluded events in the window, each once, all of them for windows up to 798 dates |
| RowCalendar.ListRows | src/services/calendar.js:26-130 | over all sides of all rows: only what they show, everything of the sides the window reaches, no event twice iff no yearly side has two spans that share one; listed by date, minute, row, ON before OFF |
| Calendar.ExpandSchedules | src/services/calendar.js:26-130 | the same of stored rows, one- or two-sided, with their region's times, reckoning and exclusions, and each event with its row's display flag |
| Calendar.ReversedMeansOffFirst | src/services/calendar.js:36-46 | of a one-time row, or of one week, the flag says that the OFF event is the earlier one |
| Calendar.DatedReplacesWeekly | src/services/schedules.js:388-390 | no weekly event of a plan is shown on a date when a one-time or yearly scheduler of the plan, civil or Hebrew, fires |
| Calendar.StoredIsFirstListed | src/services/holidays.js:427-458 | the stored next date of a one-sided yearly row, civil or Hebrew, clock or anchored, is the first later event of the row in the calendar's list, in any window that has it |
| Calendar.StoredPairIsListed | src/services/holidays.js:459-481 | both events of a two-sided row's stored pair are listed, in any window that has them |
| Calendar.StoredHolidayIsFirstListed | src/services/holidays.js:163-200 | the same for the stored moment of a holiday row |
| CanonicalPayload.AppendEvents | firmware/src/canonical.h:34-50 | the append loop with its first flag is the joined list of the template |
| CanonicalPayload.EmptyVector | src/services/schedulePayload.js:88-97 | the string of an empty payload, to the byte |
| CanonicalPayload.FirmwareString | firmware/src/canonical.h:16-68 | the string appended in place is the template of the payload with each number read as a 32-bit long and printed through the buffer |
| CanonicalPayload.FitsBufferMeansShort | firmware/src/canonical.h:9-13 | a number prints whole through the buffer iff it lies strictly between -10^14 and 10^15, as every long does |
| CanonicalPayload.PrintersAgree | src/services/schedulePayload.js:88-97 | the two printers give the same string iff every number is a 32-bit long |
| CanonicalPayload.LargeVersionDiffers | firmware/src/canonical.h:16-18 | version 3000000000 prints differently on the two sides |
| CanonicalParse.NumberParses | src/services/schedulePayload.js:88-97 | a printed number is read back whatever non-digit follows |
| CanonicalParse.ArrayParses | src/services/schedulePayload.js:90-95 | a printed array of objects is read back |
| CanonicalParse.ServerPrintsTheGrammar | src/services/schedulePayload.js:88-97 | the template string is the one the grammar describes |
| CanonicalParse.RoundTrip | src/services/schedulePayload.js:88-97 | parsing the printed string of a quote-free payload gives the payload |
| CanonicalParse.StringsTellPayloadsApart | src/services/schedulePayload.js:83-97 | different quote-free payloads have different strings |
| DevicePayload.BuildDevicePayload | src/services/schedulePayload.js:54-74 | both lists hold exactly the entries of the rows, by schedule id, ON before OFF |
| DevicePayload.EntriesNameTheirRows | src/services/schedulePayload.js:63-73 | every entry names the schedule and relay of its row, and the action, time and weekday or date of its side |
| DevicePayload.WeeklySideWhileInForce | src/services/schedulePayload.js:54-67 | a weekly side of a payload acts on any date exactly when the tick has it due, iff its exclusions did not change their mind since the push and its list is not overlooked |
| DevicePayload.TodaysWeeklySide | src/services/schedulePayload.js:54-67 | on the day of the push only an overlooked list makes a difference |
| DevicePayload.ExcludedWeekdayStaysSent | src/services/schedulePayload.js:54-67 | an entry whose weekday a list item excludes, pushed on another weekday, acts where the tick does not |
| DevicePayload.OverlookedListActs | src/services/schedulePayload.js:54-67 | an entry of a row that keeps weekdays in the old field acts today although its list excludes today |
| DevicePayload.DatedSide | src/services/schedulePayload.js:68-73 | a dated side is sent exactly for the date and minute the tick has it due |
| HistoryPages.ConditionsFollowTheOrder | src/services/history.js:151-165 | the two per-table conditions are "strictly after the cursor" in the total order |
| HistoryPages.MergedPrefix | src/services/history.js:167-188 | one row too many from each table gives the first page of both and tells whether there is more |
| HistoryPages.GetHistory | src/services/history.js:122-192 | a page is the first rows after the cursor, newest first, a call before a command of one moment, the higher id first; with a next cursor iff rows remain |
| HistoryPages.EveryRowOnce | src/services/history.js:184-191 | following the cursor until null shows every row of the start once and in order, for any limit, while rows newer than the cursor arrive between pages |
| HistoryPages.BrowsingEnds | src/services/history.js:184-191 | following the cursor reaches null |
| HistoryPages.ClampLimit | src/services/history.js:123 | the limit as asked from 1 to 200; 50 when none is, 1 below, 200 above |
| FirmwareUpdateLock.StepKeeps | src/monitor/fw-update.js:158-240 | every step of every probe keeps the lock with the unit inside its budget, a failed fleet query too when the lock carries what it would have found |
| FirmwareUpdateLock.OneUpdateInTheFleet | src/monitor/fw-update.js:158-260 | under any interleaving, lost replies, refusals, failures and harmless query failures included, at most one unit is inside its update budget, units not yet seeded from the diary counted |
| FirmwareUpdateLock.StartIsSafeExactly | src/monitor/fw-update.js:97-113 | every run from a process start keeps to one update iff the diary has one open hop at most |
| FirmwareUpdateLock.OnlyTheHolderReleases | src/monitor/fw-update.js:84-88 | while a lock is in force no other unit's step takes or frees it |
| FirmwareUpdateLock.LockIsPassedOn | src/monitor/fw-update.js:84-88 | a refusal or a verdict frees the unit's own lock, closes its hop, and lets a unit that passed the gates reserve |
| FirmwareUpdateLock.LockExpires | src/monitor/fw-update.js:84-88 | a lock nobody frees stands in nobody's way after ten minutes |
| FirmwareUpdateLock.SeedingTakes | src/monitor/fw-update.js:97-113 | at process start the open hop of the diary takes the lock |
| FirmwareUpdateLock.FullUpdate | src/monitor/fw-update.js:158-260 | an update from gates to verdict, 90 seconds later, after which nothing is pending and the lock is free |
| FirmwareUpdateLock.MissIsHarmlessExactly | src/monitor/fw-update.js:97-113 | after a failed fleet query every continuation is safe iff the lock carries every open hop |
| FirmwareUpdateLock.UncarriedHopBreaks | src/monitor/fw-update.js:97-113 | from any state with an open hop that is not carried, some continuation has two units updating |
| FirmwareUpdateLock.UnreadDiaryLosesTheLock | src/monitor/fw-update.js:97-113 | such a state just after a restart |
| JobLanes.JobQueue.SerialByKey | src/whatsapp/queue.js:11-21 | a job is refused iff the key's open jobs have reached this call's limit, otherwise it waits behind all the others; other keys are untouched |
| JobLanes.JobQueue.Callback | src/whatsapp/queue.js:15-19 | each callback moves its job on by one phase and no other; a job starts only when all earlier ones are over; only its tail lowers the count |
| JobLanes.JobQueue.KeyIsSerial | src/whatsapp/queue.js:11-21 | in every state of the object a key's jobs are in order and its count is the number of open jobs, at most the largest limit used |
| JobLanes.StartIsAlone | src/whatsapp/queue.js:15 | a job starts only when every earlier job of the key is over, also those of dropped lanes |
| JobLanes.LanesAreSerial | src/whatsapp/queue.js:11-21 | in every run, whatever limit each call brings, jobs of a key never overlap and begin in submission order; pending is the number accepted and not retired and stays within the largest limit used |
| JobLanes.RefusedAtItsLimit | src/whatsapp/queue.js:12 | a submission is refused iff the open jobs have reached its own limit |
| JobLanes.OneAtATime | src/whatsapp/queue.js:15 | two running jobs of a key are the same job |
| JobLanes.NoLaneDroppedWithWork | src/whatsapp/queue.js:19 | a lane leaves the table only when no job of the key is open |
| JobLanes.NeverStuck | src/whatsapp/queue.js:15-16 | an open job always has some job that can move, whatever failed |
| DeadRelay.TrackDeadOnsets | src/monitor/dead-relay.js:90-105 | the new onsets are kept, begun or forgotten per channel, and the changes bring the stored ones to them |
| DeadRelay.SilentReadings | src/monitor/dead-relay.js:61-69 | silent is under 5 milliamperes where current is measured, under half a watt where not, and never off or unread |
| DeadRelay.OnsetIsRunStart | src/monitor/dead-relay.js:82-105 | after any probes a channel's onset is the time of the first probe of its current unbroken silent run, and exists only in one |
| DeadRelay.DroppedTogether | src/monitor/dead-relay.js:120-126 | looking at neighbours of the sorted onsets finds any close pair |
| DeadRelay.JudgeLoads | src/monitor/dead-relay.js:132-145 | dead iff at least two channels are watched, none has flow, and two onsets lie within 90 s |
| DeadRelay.WatchedChannels | src/monitor/dead-relay.js:132-140 | watched are the channels on and read, with a learned draw of 15 W, no thermostats |
| DeadRelay.TogetherMeansRuns | src/monitor/dead-relay.js:107-126 | the verdict's pair is two channels whose current silent runs began within 90 s |
| Sorting.Sort | src/scheduler/tick.js:120-127 | a permutation without inversions, for any weak order |

## Left out

Representation:

- 'YYYY-MM-DD' strings are triples compared lexicographically (four-digit years); cron strings are minute, weekday set and date; times are minutes of the day.
- Weekday lists and holiday keys are taken as already parsed; the almanac (`dayKeysOn`, Hebrew dates), sunset and zmanim are parameters. Of the Hebrew calendar the proofs assume that anniversaries are real dates in their own year and at most 400 days apart, that a date is its own anniversary, and that years rise with dates (`YearlySpans.RealReckoning`); the civil calendar is proved to be such a one. Only `YearlySpans.ShortWindowsSuffice` adds that whole years have at least 353 days.
- A time zone is an offset function at minute granularity with at most one change near the tested instant, at most an hour wide where windows are concerned. The firmware clock has no transitions.
- SQL tables are sets or maps and every guarded statement is one atomic write; MQTT, RPC, HTTP, NVS and GPIO appear only as success or failure. Rows of a plan are modelled before their times are resolved and validated.
- The update lock and the occurrence table are state machines over their steps: the JavaScript objects that hold a probe's or an activity's state between awaits are entries of a map. One lane of jobs is a value in a map, not a heap object.

Weaker than the code or than its intent:

- FirmwareRun.Executor.Start: the first tick only records the minute, so the boot pass and it must fall in one minute.
- FirmwareRun.Executor.TickInStep: steps of more than 180 minutes, and one-off events whose minute and tick fall on different dates, are skipped by the firmware and outside the contract.
- YearlySpans.ResolveYearly: the checks of the row's fields before the search and the Hebrew picks are not modelled.
- HolidayEvents.HolidaySideEvents: the scan stops after 800 days, so ranges of more than 798 dates are not promised to be complete.
- Calendar.ExpandSchedules: the names beside an event are not modelled.
- RowCalendar.ListedOnce: of the OFF sides of two-sided yearly rows it is not said which are listed twice.
- UnitTable.SyncUnit: every call of a job on the unit has a channel and an on flag, and method names are in lower case; a disabled device, whose wanted list is empty, and the time-zone write are not modelled.
- FirmwareTheory.TickStaysSynced: `sid * 2` is a 32-bit product in the firmware; ids from 2^30 on are not covered.
- FirmwareRun.Executor.RunWithPushes: all payloads have one time zone, and no manual command comes between the ticks.
- FirmwareUpdateLock.OneUpdateInTheFleet: at most one hop is within its budget when the process starts, the probes of one unit follow each other, and the budget counts from the start of the probe that reserved the lock. The fleet query fails, if it does, only where that is harmless, as `FirmwareUpdateLock.MissIsHarmlessExactly` delimits it.
- DeadRelay.JudgeLoads: learning a channel's draw and counting its idle probes are not modelled; watts and amperes are reals.
- PlanConflicts.SchedulerCollisions: reports pairs, not messages, and takes fields as already normalised (`time` cut to HH:MM, keys and days as lists).
- PlanConflicts.CollisionMeansSharedDate: a one-time scheduler has one date, as the request shape at src/services/schedules.js:382-386 says; what a stray `end_date` does is `PlanConflicts.StrayEndCollides`.
- PlanConflicts.SavePlan: the id and the name of the plan and the deletion of its former rows are not modelled; what makes a row's fields valid is a parameter, and Hebrew picks are already dates.
- ExecutionRows.RunKeepsRows: the 60-second debounce and the one-run-per-unit map of the catch-up are not modelled; any number of catch-ups may overlap. Choosing which row to retry or restore is left open.

Not modelled: field validation (`validateScheduleRules`), parsing and printing of times and
time stamps, the completion of one-time schedules, CRUD of devices, relays and schedules, manual switches, hashing and all other
security code, text and voice interfaces, monitoring beyond the two files named above, finance.
