# Leave and attendance of the workforce backend, verified

A Dafny 4.11 model of the accounting core of the workforce backend, and proofs about it. `dafny verify dfyconfig.toml`
checks the whole project.

Three parts of the system are modelled.

**Annual leave.** Leave years are anchored on the hire date; each has a bucket that grants days, and expires about three
years after it starts. Requests reserve days oldest bucket first, approval turns reserved into used days, rejection and
cancellation release them, administrators adjust, a changed hire date rebuilds everything, and each movement is written to
a ledger. The same facts are held redundantly, in bucket columns, allocation rows, ledger entries and request states.

- `Calendar`, `LeavePolicy`, `Fifo`, `DayFraction`: the date arithmetic, the entitlement rules, the allocation, and what
  a date costs.
- `LeaveBook`: the tables as one value, and what each service call makes of them, in closed form.
- `LeaveAccount`, with `AllocationRows` and `LeaveOverlap`: the same calls as a class that updates its tables row by row,
  in the loops of the services, each method proved equal to its closed form.
- `LeaveInvariant`, `LeaveRuns`: the records agree after every run. `LeaveBudget`, `LeaveBacking`, `RebuildLaws`,
  `LeaveGrants`: when no leave year is overspent and every live request is backed, and what the balance tells.
  `AccrualLaws`: accrual over time. `DayCharges`: no date is charged twice. `LeaveEffects`: what each operation moves and
  when it refuses, told on columns, entries and rows without the closed forms.

**Timesheets.** Check-in, re-entry, checkout, the two jobs, corrections and correctness approvals rewrite the same row.
`Timesheets` says what each step does, `AttendanceDesk` does it on a mutable table, `TimesheetLaws` proves what every
interleaving keeps, and `AttendanceEffects` tells each step in instants and minutes. `Workforce` puts leave and
attendance together: each reads the other, and they exclude each other.

**Compact algorithms.** `Roster` (day and period rosters), `Csv`, `Supervisors` and `Birthdays`.

Conventions: amounts of leave are integers in hundredths of a day, on which `round2` is the identity; dates are day
numbers in the proleptic Gregorian calendar of section 21.4.1 of ECMA-262, with no bound on the year; instants are
milliseconds. Every service call is one atomic step; a failed call that ran in a transaction leaves the tables as they
were. The current date, the attendance and holidays of an employee, the outcome of location checks, the scheduled instants
of a date and the local date of an instant are parameters. A bucket is identified by its place in period order, a request by
its place in creation order.

Where a property one might expect of the code is false, the model keeps the code as it is, a lemma says exactly when the
property holds, and `Counterexamples` has an input or a run on which it fails:

- A bucket whose start was clamped to 28 February expires one day before a leap-year anniversary of a 29 February hire
  (`ExpiryVersusAnniversary`; `LeapDayHireLapsesEarly`).
- A positive adjustment in the first leave year is absorbed by later top-ups (`RaiseKeptIff`; `FirstYearRaiseAbsorbed`).
- A rebuild can overspend leave years, and leaves requests unbacked when the hire date is in the future
  (`RebuildWithinIff`, `RebuildBacksIff`; `RebuildOverspends`, `RebuildUnbacks`).
- The balance can show fewer days than can be reserved, as it subtracts what an open year is overdrawn by
  (`BalanceTellsCapacity`, `CreateFollowsBalance`; `OverdrawnYearHidden`).
- A balance read, and with it a decision, can overspend a leave year when it charges requests that a rebuild left
  without rows (`ReadSolventIff`; `ReadOverspends`).
- Days released on a bucket that expired meanwhile are lost: the ledger gets its RELEASE entry, but no column says that
  they lapsed (`ReleasedDaysIdle`; `LapsedWhileReserved`).
- A correctness approval can put a timesheet on a day of approved leave (`ApprovalExcludesIff`; `ApprovalBreaksExclusion`).
- A retry of a re-entry opens the day again while the day may be entered again, as after a further checkout
  (`ReentryRetryIff`, `RetriesStoreNoKey`, `ReentryRetryReopens`; `RepeatedReentryReopens`), though a retry of a first
  check-in never changes anything (`RetryIsIdempotent`).
- A correction of the checkout alone can make a punctual employee late, when an afternoon was approved before
  (`CorrectionKeepsLateIff`; `CorrectedAfternoonIsLate`). A sheet closed by the system stops missing its checkout when a
  correctness request is approved (`SystemMissingIff`).
- A system close records a checkout before the check-in of whoever arrived after the scheduled end
  (`SystemClosesBeforeArrivalIff`; `LateArrivalLeavesBeforeArriving` in `TimesheetLaws`).
- The period roster can report less leave than was approved, as one of two approved half days, and more, as a day that
  became a working day after the leave was planned (`ReportsAllLeaveIff`; `TwoHalvesUnderReported`,
  `ScheduleChangeOverReported`). It reads the requests of an employee in no stated order, and the order matters
  (`HalfShownDependsOnOrder`).
- The day roster never shows MISSING_CHECKOUT, though the display service counts rows in that state
  (`NeverShownMissing`).
- A CSV body of one line with one empty cell is lost (`CsvReadsBackIff`; `LoneEmptyCellLost`), and a reporting cycle
  closed beyond 20 steps is accepted (`CheckExactIff`; `LongLadderAcceptsCycle`).

## Model

| member | source | states |
|---|---|---|
| `Calendar.DayFromYear` | src/modules/leave/annual-leave.policy.ts:20-27 | The first day of a year, counted up or down from 1970, is the closed form of section 21.4.1.3 of ECMA-262 |
| `Calendar.YearOfIff` | src/modules/leave/annual-leave.policy.ts:22-22 | A date lies in a year exactly when it is between the first days of that year and the next |
| `Calendar.CivilRoundTrip` | src/modules/leave/annual-leave.policy.ts:20-27 | Every day number is the day number of its year, month and day, which form a valid date |
| `Calendar.DayNumberRoundTrip` | src/modules/leave/annual-leave.policy.ts:20-27 | Every valid year, month and day is recovered from its day number |
| `Calendar.LastDayOfMonth` | src/modules/leave/annual-leave.policy.ts:25-25 | Day 0 of the next month is the last day of the month, also in December and in February of leap years |
| `Calendar.AddYearsMeaning` | src/modules/leave/annual-leave.policy.ts:20-27 | Adding years keeps month and day, except that 29 February becomes 28 February in a common year |
| `Calendar.AddYearsOrdered` | src/modules/leave/annual-leave.policy.ts:20-27 | Adding more years gives a strictly later date, clamped or not |
| `LeavePolicy.CompletedYearsIsIndex` | src/modules/leave/annual-leave.policy.ts:38-46 | From the hire date on, the completed years of service are the index of the leave year that contains the date |
| `LeavePolicy.LeaveYearsTile` | src/modules/leave/annual-leave.policy.ts:70-74 | Leave years abut exactly, are never empty, start at the hire date, and each later date is in exactly the year of its completed service, also for a hire on 29 February |
| `LeavePolicy.StartedIff` | src/modules/leave/annual-leave.policy.ts:38-46 | A leave year has started exactly when its index is at most the completed years |
| `LeavePolicy.CompletedYearsMonotone` | src/modules/leave/annual-leave.policy.ts:38-46 | Completed years never decrease with time |
| `LeavePolicy.FirstYearTestsAgree` | src/modules/leave/annual-leave.policy.ts:60-68 | The two tests for the end of the first leave year always agree |
| `LeavePolicy.EntitlementMonotone` | src/modules/leave/annual-leave.policy.ts:54-68 | The entitlement of a leave year never shrinks with time and is fixed once the year is over |
| `LeavePolicy.LaterYearsGrantMore` | src/modules/leave/annual-leave.policy.ts:60-68 | Each leave year grants the amounts of GrantExact; no later one grants less than an earlier one, and two more years of service grant one more day |
| `LeavePolicy.ExpiryVersusAnniversary` | src/modules/leave/annual-leave.policy.ts:76-78 | Leave lapses on the anniversary three years after the start of its year, except, and exactly then one day early, when a start clamped to 28 February meets a leap-year anniversary of a 29 February hire |
| `LeavePolicy.ExpiriesOrdered` | src/modules/leave/annual-leave.policy.ts:76-78 | Expiry dates are strictly increasing in the leave year and fall after its end |
| `LeavePolicy.AliveYears` | src/modules/leave/annual-leave.policy.ts:70-78 | The started leave years not lapsed on a date are the current one and the two before it, less one that lapses on the eve of a 29 February anniversary |
| `Fifo.AllocateFifo` | src/modules/leave/annual-leave.policy.ts:96-111 | The loop returns the non-zero takes of the closed form, succeeds exactly when capacity suffices, and else reports demand less capacity |
| `Fifo.PrefixTaken` | src/modules/leave/annual-leave.policy.ts:96-111 | Every prefix of the buckets gives the lesser of the demand and its own capacity |
| `Fifo.TakenPlusShort` | src/modules/leave/annual-leave.policy.ts:96-111 | What is taken and what is short add up to the demand, and nothing is short exactly when capacity suffices |
| `Fifo.AllocationAdds` | src/modules/leave/annual-leave.policy.ts:96-111 | Allocating x and then y on what is left takes from each bucket what allocating x + y takes |
| `Fifo.FifoFeasible` | src/modules/leave/annual-leave.policy.ts:96-111 | A demand within capacity is allocated in full without overdrawing a bucket |
| `Fifo.FifoTakesOldestMost` | src/modules/leave/annual-leave.policy.ts:96-111 | No other feasible allocation of the same size takes more from any prefix of the buckets |
| `DayFraction.DayRules` | src/shared/schedule-day-fraction.ts:33-47 | The rule map holds exactly the weekdays in force; the last of several rules of a weekday wins |
| `DayFraction.LongestDay` | src/shared/schedule-day-fraction.ts:50-57 | The full day is as long as every scheduled day and is one of them, or is 8 hours when no day has minutes |
| `DayFraction.LongestIsLongest` | src/shared/schedule-day-fraction.ts:50-57 | The closed form of the longest day bounds every weekday and is reached unless it is 0 |
| `DayFraction.FractionAtMostOne` | src/shared/schedule-day-fraction.ts:60-68 | A weekday costs between 0 and 1.00 days of leave despite rounding, and a longest day exactly 1.00; NearestHundredth fixes the amount |
| `DayFraction.LeaveFractionForWeekday` | src/shared/schedule-day-fraction.ts:60-68 | The computed fraction lies between 0 and 1.00 and is the minutes of the weekday out of those of the longest day, to the nearest hundredth |
| `DayFraction.WorkingLeaveDays` | src/shared/schedule-day-fraction.ts:79-101 | The date loop lists the working days of the range in order, each once, as full days |
| `DayFraction.ApplyLeaveSessions` | src/shared/schedule-day-fraction.ts:107-120 | Each working day gets the session last chosen for its date or the full day; chosen dates that are no working days are ignored |
| `DayFraction.PlannedRowsGood` | src/shared/schedule-day-fraction.ts:79-120 | Planned rows are in strict date order within the range, and cost at most 1.00 for a full and 0.50 for a half day after rounding |
| `LeaveInvariant.EmptyConsistent` | src/modules/leave/annual-leave.service.ts:418-424 | Empty tables agree with each other |
| `LeaveInvariant.AccrueKeeps` | src/modules/leave/annual-leave.service.ts:158-220 | Accrual keeps bucket columns, allocation rows, ledger and requests in agreement: granted = GRANT + TOP_UP + positive ADJUST, used = CONSUME - negative ADJUST, expired = EXPIRE |
| `LeaveInvariant.DrawsTotal` | src/modules/leave/annual-leave.service.ts:276-295 | With some bucket open, a charge draws exactly the requested days and only from open buckets, overdrawing the newest; without one it draws nothing |
| `LeaveInvariant.ChargeKeeps` | src/modules/leave/annual-leave.service.ts:265-331 | Reserving or consuming a request that holds no rows keeps the agreement |
| `LeaveInvariant.ClampNeverBites` | src/modules/leave/annual-leave.service.ts:370-379 | On an open bucket a pending request never holds more than the pending column, so the clamp to 0 has no effect there |
| `LeaveInvariant.ConsumeKeeps` | src/modules/leave/annual-leave.service.ts:369-387 | Turning a reservation into use while the request becomes approved keeps the agreement |
| `LeaveInvariant.ReleaseKeeps` | src/modules/leave/annual-leave.service.ts:390-416 | Releasing a pending request keeps the agreement and leaves it without rows |
| `LeaveInvariant.RaiseKeeps` | src/modules/leave/annual-leave.service.ts:431-441 | A positive adjustment keeps the agreement |
| `LeaveInvariant.DeductKeeps` | src/modules/leave/annual-leave.service.ts:442-469 | A deduction keeps the agreement |
| `LeaveRuns.WorklistExact` | src/modules/leave/annual-leave.service.ts:230-238 | Synchronising visits every pending or approved request of a tracked type once, and no other |
| `LeaveRuns.WorklistOrdered` | src/modules/leave/annual-leave.service.ts:236-236 | The visit is by start date, and by age on equal dates |
| `LeaveRuns.SyncKeeps` | src/modules/leave/annual-leave.service.ts:222-252 | Synchronising usage keeps the agreement |
| `LeaveRuns.BalanceKeeps` | src/modules/leave/annual-leave.service.ts:334-341 | Reading the balance keeps the agreement and no request changes |
| `LeaveRuns.AdjustKeeps` | src/modules/leave/annual-leave.service.ts:426-473 | Adjusting keeps the agreement, refused or not |
| `LeaveRuns.RebuildKeeps` | src/modules/leave/annual-leave.service.ts:418-424 | Rebuilding from any hire date establishes the agreement anew |
| `LeaveRuns.CreateKeeps` | src/modules/leave/leave.service.ts:117-187 | Creating a request keeps the agreement, refused or not |
| `LeaveRuns.DecideKeeps` | src/modules/leave/leave.service.ts:360-413 | Approving or rejecting keeps the agreement, refused or not |
| `LeaveRuns.CancelKeeps` | src/modules/leave/leave.service.ts:247-259 | Cancelling keeps the agreement, refused or not |
| `LeaveRuns.RunKeeps` | src/modules/leave/annual-leave.service.ts:142-473 | After every run of balance reads, creations, decisions, cancellations, adjustments and rebuilds the redundant records agree: columns with rows, columns with ledger, trails of each request with its rows |
| `LeaveRuns.LedgerReplays` | src/modules/leave/annual-leave.service.ts:142-156 | In every state reachable from empty tables, granted = GRANT + TOP_UP + positive ADJUST, used = CONSUME - negative ADJUST, expired = EXPIRE on every bucket, and a pending request's row is its RESERVE less RELEASE |
| `LeaveBudget.BackedSums` | src/modules/leave/annual-leave.service.ts:265-331 | The allocation rows of a live tracked request that holds any sum to its days |
| `LeaveBudget.SyncIdle` | src/modules/leave/annual-leave.service.ts:240-247 | Synchronising changes nothing while every live tracked request holds rows |
| `LeaveBudget.ApproveWithin` | src/modules/leave/annual-leave.service.ts:354-388 | Within the budget the overdraw fallback of approval is unreachable, also when a bucket expired in between, and approving stays within it |
| `LeaveBudget.ReleasedDaysIdle` | src/modules/leave/annual-leave.service.ts:390-416 | Days of a request turned down can be reserved again exactly while their bucket is open; on an expired bucket they are neither returned nor booked as expired |
| `LeaveBacking.RunAllocates` | src/modules/leave/annual-leave.service.ts:349-424 | In every state reachable from empty tables, with rebuilds only from hire dates that have come, live tracked requests hold rows that sum to their days, all others none, and the pending column is the sum of pending rows (0 once expired) |
| `LeaveBacking.RunCovered` | src/modules/leave/annual-leave.service.ts:349-424 | Agreement and backing survive every run whose rebuilds are dated on or after the hire |
| `RebuildLaws.RebuildBacksIff` | src/modules/leave/annual-leave.service.ts:418-424 | A rebuild backs all live requests exactly when the hire date has come or there is none |
| `AccrualLaws.ScanIdleIff` | src/modules/leave/annual-leave.service.ts:158-220 | A scan changes nothing and writes no ledger row exactly when all started years are granted in full and none has lapsed |
| `AccrualLaws.ScanTwice` | src/modules/leave/annual-leave.service.ts:158-220 | In any state a second scan on the same date changes nothing |
| `AccrualLaws.ScansCompose` | src/modules/leave/annual-leave.service.ts:158-220 | A scan on the way to a later date makes no difference to the buckets, whatever was used or adjusted |
| `AccrualLaws.ScansPathIndependent` | src/modules/leave/annual-leave.service.ts:158-220 | Any scans on non-decreasing dates leave the buckets of one scan on the last date |
| `AccrualLaws.RunNotAhead` | src/modules/leave/annual-leave.service.ts:158-220 | After a run dated up to a day, no bucket lies in the future of that day or expired before its time |
| `AccrualLaws.OpenYears` | src/modules/leave/annual-leave.service.ts:201-216 | After a scan exactly the current year and the two before it are open, but for one lapsed on an eve; the current year always is |
| `AccrualLaws.FifoWastesLeast` | src/modules/leave/annual-leave.service.ts:254-263 | For every cutoff date, oldest first takes the most possible from the buckets that lapse by then |
| `LeaveAccount.Account.GrantYear` | src/modules/leave/annual-leave.service.ts:168-199 | One round of the granting loop: the year's bucket is found by its start date, created, topped up or left alone, and is then granted what its year grants unless it had more |
| `LeaveAccount.Account.EnsureAccrual` | src/modules/leave/annual-leave.service.ts:158-220 | The two loops leave exactly the accrued book, buckets and ledger entries in order; every started year is granted its amount unless it had more |
| `LeaveAccount.Account.OpenBucketsOldestFirst` | src/modules/leave/annual-leave.service.ts:254-263 | The open buckets in period order with their remaining days |
| `LeaveAccount.Account.AllocateOverdrawn` | src/modules/leave/annual-leave.service.ts:276-295 | The allocation rows are those of drawing on the whole table, any shortfall merged into the newest open bucket's row or appended |
| `LeaveAccount.Account.ApplyToBuckets` | src/modules/leave/annual-leave.service.ts:265-331 | Fails exactly when capacity is short and overdraw is not allowed, and then changes nothing; else charges every drawn bucket with row and ledger entry |
| `LeaveAccount.Account.ConsumeReservedDays` | src/modules/leave/annual-leave.service.ts:354-388 | Consumes the rows of a request, or charges it afresh when it has none |
| `LeaveAccount.Account.ReleasePending` | src/modules/leave/annual-leave.service.ts:390-416 | Returns the rows of a request to their buckets, records them and deletes them |
| `LeaveAccount.Account.SyncUsageFromRequests` | src/modules/leave/annual-leave.service.ts:222-252 | Charges every live tracked request without rows, in order, and no other |
| `LeaveAccount.Account.BalanceForEmployee` | src/modules/leave/annual-leave.service.ts:334-341 | Reading the balance scans, synchronises and scans again, and keeps all records in agreement |
| `LeaveAccount.Account.RebuildYears` | src/modules/leave/annual-leave.service.ts:418-424 | Recreates the tables from the new hire date and the requests, in agreement |
| `LeaveAccount.Account.AdjustDays` | src/modules/leave/annual-leave.service.ts:426-473 | The three failures leave all tables as they were; a success raises the newest open year, or deducts exactly the amount asked for, oldest first |
| `LeaveAccount.Account.DeductDays` | src/modules/leave/annual-leave.service.ts:442-469 | Exactly when the remaining days suffice, the used columns grow by just the days asked for, oldest first, with deductions in the ledger that sum to them |
| `LeaveAccount.Account.CreateRequest` | src/modules/leave/leave.service.ts:117-187 | Every refusal in the order of the service and without effect, or the request with its rows and reservation |
| `LeaveAccount.Account.DecideRequest` | src/modules/leave/leave.service.ts:360-413 | Every refusal in the order of the service, or consumption respectively release and the new status |
| `LeaveAccount.Account.CancelRequest` | src/modules/leave/leave.service.ts:247-259 | Only pending requests are cancelled, and their reservation is released |
| `LeaveOverlap.FindOverlap` | src/modules/leave/leave.service.ts:49-101 | The nested loops over the occupied map report an overlap exactly when some planned session conflicts with a session of a live request in range |
| `LeaveOverlap.Occupy` | src/modules/leave/leave.service.ts:68-88 | A request occupies the sessions of its rows, or its whole range in full without rows |
| `DayCharges.PerformSeparate` | src/modules/leave/leave.service.ts:135-159 | Every leave operation keeps live requests free of conflicting sessions |
| `DayCharges.RunSeparate` | src/modules/leave/leave.service.ts:49-159 | After every run of leave operations no two live requests conflict on any date |
| `DayCharges.TwoShareDate` | src/shared/schedule-day-fraction.ts:136-139 | Two live requests on one date take its morning and its afternoon |
| `DayCharges.NeverThree` | src/modules/leave/leave.service.ts:90-100 | Never do three live requests share a date |
| `DayCharges.OneDayOnce` | src/modules/leave/leave.service.ts:135-159 | The live requests of an employee never cost more than 1.00 on any date, despite rounding of half days and changed schedules |
| `TimesheetLaws.CheckInSound` | src/modules/attendance/attendance.service.ts:343-462 | Check-in, retry and re-entry keep the table sound |
| `TimesheetLaws.CheckOutSound` | src/modules/attendance/attendance.service.ts:464-492 | Employee checkout keeps the table sound |
| `TimesheetLaws.AutoCheckoutSound` | src/modules/attendance/auto-checkout.service.ts:13-63 | A run of the auto-checkout job keeps the table sound |
| `TimesheetLaws.FlagSound` | src/jobs/missing-checkouts.ts:8-44 | A run of the missing-checkout job keeps the table sound |
| `TimesheetLaws.CorrectSound` | src/modules/history/history.service.ts:205-240 | An administrator's correction keeps the table sound |
| `TimesheetLaws.ApproveSound` | src/modules/attendance-correctness/attendance-correctness.service.ts:200-299 | Approving a correctness request keeps the table sound |
| `TimesheetLaws.StepsSound` | src/modules/attendance/timesheet-close.ts:49-81 | After every interleaving of the six steps: one sheet per day and at most one open per employee, open exactly without checkout and then without source, missing exactly with its status, late exactly with late minutes, present/completed and late/on time matching, never early and overtime both, keys unique |
| `TimesheetLaws.ClosureAbsorbs` | src/modules/attendance/flexible-day.logic.ts:2-15 | A day closed by the system or an administrator is never reopened by any later steps |
| `TimesheetLaws.RetryIsIdempotent` | src/modules/attendance/attendance.service.ts:345-349 | A repeated first check-in changes nothing, however many steps lie between |
| `TimesheetLaws.ReentryRetryReopens` | src/modules/attendance/attendance.service.ts:393-406 | The key of a re-entry is not stored, so its retry after a checkout opens the day once more |
| `TimesheetLaws.LiveAgreesWithCorrection` | src/modules/attendance/auto-checkout.logic.ts:5-52 | For a same-day checkout after check-in, live close and correction compute the same worked, early and overtime minutes |
| `TimesheetLaws.MinutesBalance` | src/modules/attendance/auto-checkout.logic.ts:28-52 | With check-in by the scheduled end, worked + early - overtime is the scheduled minutes but for at most one, and on which side |
| `TimesheetLaws.LateArrivalLeavesBeforeArriving` | src/modules/attendance/auto-checkout.logic.ts:64-73 | An input on which the recorded system checkout lies before the check-in |
| `AttendanceDesk.Desk.FindByInKey` | src/modules/attendance/attendance.service.ts:345-345 | Finds the sheet with a check-in key, or that there is none |
| `AttendanceDesk.Desk.FindByOutKey` | src/modules/attendance/attendance.service.ts:466-466 | Finds the sheet with a checkout key, or that there is none |
| `AttendanceDesk.Desk.FindOpen` | src/modules/attendance/attendance.service.ts:471-471 | Finds the one open sheet of an employee, or that there is none |
| `AttendanceDesk.Desk.CheckInDay` | src/modules/attendance/attendance.service.ts:343-462 | Every refusal in the order of the service and without effect, a late reason being due exactly a full minute past the grace; the retry and already-open replies, re-entry, or a new sheet |
| `AttendanceDesk.Desk.CloseOpenTimesheet` | src/modules/attendance/timesheet-close.ts:38-81 | Rewrites a sheet that is still open with status, flags, minutes, source and key, missing its checkout exactly when it was, on a later date, or for the system; a closed one is left alone |
| `AttendanceDesk.Desk.CheckOutDay` | src/modules/attendance/attendance.service.ts:464-492 | Every refusal in the order of the service and without effect, the retry reply, or the closed sheet |
| `AttendanceDesk.Desk.AutoCheckoutRow` | src/modules/attendance/auto-checkout.service.ts:36-60 | Closes one sheet exactly when its organisation's trigger makes it eligible, and flags it as missing its checkout |
| `AttendanceDesk.Desk.RunAutoCheckout` | src/modules/attendance/auto-checkout.service.ts:13-63 | The loop closes all eligible sheets at their scheduled end or the trigger, flagged as missing their checkout, no other, and counts them |
| `AttendanceDesk.Desk.RunMissingCheckouts` | src/jobs/missing-checkouts.ts:8-44 | The loop flags all overdue open sheets, no other, and counts them |
| `AttendanceDesk.Desk.CorrectTimesheet` | src/modules/history/history.service.ts:205-240 | Every refusal in the order of the service, or the recomputed closed sheet |
| `Workforce.ApprovedOnly` | src/modules/leave/leave.service.ts:360-372 | A request becomes approved only by a decision with no attendance in its range, and its dates never change |
| `Workforce.HappenExcludes` | src/modules/attendance/attendance.service.ts:65-79 | Every leave call and attendance step but a correctness approval keeps attendance and approved leave apart |
| `Workforce.RunWell` | src/modules/leave/leave.service.ts:117-413 | From no records, every interleaving of leave calls and attendance steps leaves sound timesheets and agreeing leave records without double charges for everybody |
| `Roster.WorkingDayIffRuled` | src/modules/history/roster.service.ts:42-46 | The roster's working-day test agrees with the day rules that leave is costed by |
| `Roster.ShownState` | src/modules/history/roster.service.ts:72-94 | A sheet with agreeing columns is shown as present while open or lacking a checkout of its own, else as completed, late exactly when late |
| `Roster.NeverShownMissing` | src/modules/history/roster.service.ts:72-94 | In no state that a run of the workforce reaches is a sheet shown as MISSING_CHECKOUT |
| `Roster.DayCountsPartition` | src/modules/history/roster.service.ts:243-254 | Every employee of the day roster is counted once among attended, on leave, on holiday, day off and not checked in |
| `Roster.TallyPeriod` | src/modules/history/roster.service.ts:335-411 | After the date loop every counter is the number of days it is meant to count, and leave is the sum over the working days under leave |
| `Roster.PeriodSummary` | src/modules/history/roster.service.ts:265-275 | Refuses reversed, future and longer than 93-day ranges, in this order, and cuts the range at today |
| `Roster.PeriodConserves` | src/modules/history/roster.service.ts:335-422 | Working days = present + holiday + missing check-in + days under leave; employee and system checkouts, late days and missing checkouts never exceed present days; leave is at most 1.00 for each leave day |
| `Roster.SeparateStored` | src/modules/history/roster.service.ts:368-374 | Rows stored by the leave service never exceed 1.00 |
| `Roster.RostersAgree` | src/modules/history/roster.service.ts:72-94 | Day and period roster always agree on who is missing, and on who attended exactly when there is no sheet on a day off, leave day or holiday |
| `Roster.LeaveHidesNoAttendance` | src/modules/history/roster.service.ts:362-398 | While attendance and approved leave exclude each other, the period roster counts every sheet on a working day that is no holiday |
| `Csv.CsvReadsBackIff` | src/modules/reports/csv.ts:1-11 | Reading the printed text by section 2 of RFC 4180, with LF as line break, gives back header and every cell exactly when the body is not one line with one empty cell |
| `Csv.TablesReadBack` | src/modules/reports/csv.ts:7-11 | With two or more columns every header and every cell text reads back, quotes, commas and line breaks included |
| `Csv.FieldReadsBack` | src/modules/reports/csv.ts:1-5 | One escaped cell followed by a separator reads back as its text, leaving the rest of the input |
| `Supervisors.CheckSupervisor` | src/modules/performance/performance.service.ts:187-201 | The walk accepts exactly when none of its 20 steps meets the employee or a person already seen |
| `Supervisors.ValidateSupervisor` | src/modules/performance/performance.service.ts:203-213 | No supervisor is always accepted, a stranger never, and an employee without an id is not walked |
| `Supervisors.AssignmentAcyclicIff` | src/modules/performance/performance.service.ts:187-201 | An assignment keeps an acyclic chart acyclic exactly when the supervisor does not report to the employee |
| `Supervisors.CheckExactIff` | src/modules/performance/performance.service.ts:187-201 | On an acyclic chart acceptance means an acyclic result exactly when the employee is not met beyond the 20 steps |
| `Supervisors.CheckExact` | src/modules/performance/performance.service.ts:187-201 | When the supervisor's upward chain has at most 20 people, acceptance is exact |
| `Birthdays.OneBirthdayAYear` | src/shared/birthday.ts:18-26 | Each calendar year has exactly one birthday, 28 February standing in for 29 February in common years |
| `Birthdays.WeekMeaning` | src/shared/birthday.ts:39-40 | The week runs from Monday to Sunday and contains the day |
| `Birthdays.BirthdayInWeek` | src/shared/birthday.ts:32-55 | The search returns a day exactly when it is in the week and passes the day test, also across a year end |
| `Birthdays.OccurrenceIsBirthday` | src/shared/birthday.ts:45-49 | The occurrence tried in a year, with its 29 February fallback, is always a valid date, the birthday of that year |
| `RebuildLaws.RebuildWithinIff` | src/modules/employees/employee.service.ts:351-353 | A rebuild after a change of hire date, past or still to come, overspends no leave year and backs every live request exactly when the days of all live tracked requests fit into the open years |
| `AccrualLaws.RaiseKeptIff` | src/modules/leave/annual-leave.service.ts:189-198 | A positive adjustment survives later scans in full exactly when the entitlement then is no more than was granted before it, always so after the first year, and is absorbed in full exactly when that entitlement covers both |
| `AccrualLaws.ReachedOpenYears` | src/modules/leave/annual-leave.service.ts:201-216 | In every state reached from empty tables by a run dated up to a day, a scan on that day leaves exactly the current year and the two before it open, but for one lapsed on an eve |
| `LeaveAccount.Account.ReserveDays` | src/modules/leave/annual-leave.service.ts:349-352 | Reserves after accrual exactly when the accrued capacity suffices; else only the accrual remains |
| `TimesheetLaws.SystemCheckoutOrder` | src/modules/attendance/auto-checkout.logic.ts:64-73 | A system close of an eligible sheet records a checkout before the check-in exactly when the check-in was after the scheduled end, and never one after the run of the job |
| `AttendanceDesk.Desk.ApproveAsScheduled` | src/modules/attendance-correctness/attendance-correctness.service.ts:200-299 | A linked request rewrites its sheet; any other is refused on a day off before a sheet is looked for, and rewrites the day's sheet or creates one |
| `Workforce.ApprovalExcludesIff` | src/modules/attendance-correctness/attendance-correctness.service.ts:239-299 | A correctness approval keeps attendance and approved leave apart exactly when the request is linked to a sheet, the day is off, has a sheet or a drawn key is taken, or no approved leave covers the day |
| `Roster.ReportsAllLeaveIff` | src/modules/history/roster.service.ts:357-388 | For every schedule, date and order of requests, the period roster reports more leave than was approved exactly when the first covering request has no row and today's schedule charges more than the others, and less exactly when the day is off now, a second request costs something, or today's schedule charges less than the others |
| `Counterexamples.LeapDayHireLapsesEarly` | src/modules/leave/annual-leave.policy.ts:76-78 | For a hire on 29 February 1972, leave of the second year lapses a day before the anniversary of 1976 |
| `Counterexamples.FirstYearRaiseAbsorbed` | src/modules/leave/annual-leave.service.ts:189-198 | An adjustment of one day after 26 days of service is gone in full after 52 |
| `Counterexamples.RebuildUnbacks` | src/modules/leave/annual-leave.service.ts:418-424 | A run: a day reserved, then a rebuild from a hire date to come, leaves the live request without rows |
| `Counterexamples.RebuildOverspends` | src/modules/leave/annual-leave.service.ts:418-424 | A run: a day reserved, then a rebuild from a later hire date, overspends the first leave year |
| `Counterexamples.LapsedWhileReserved` | src/modules/leave/annual-leave.service.ts:201-216 | A run after which a pending request holds a day of a bucket that has expired |
| `Counterexamples.ApprovalBreaksExclusion` | src/modules/attendance-correctness/attendance-correctness.service.ts:239-299 | A run after which a correctness approval puts a timesheet on a day of approved leave |
| `Counterexamples.TwoHalvesUnderReported` | src/modules/history/roster.service.ts:357-374 | A run: of an approved morning and afternoon of one day the period roster reports 0.50 of 1.00 |
| `Counterexamples.ScheduleChangeOverReported` | src/modules/history/roster.service.ts:374-388 | A run: after a change of schedule the period roster reports a day of leave that was never charged |
| `Counterexamples.HalfShownDependsOnOrder` | src/modules/history/roster.service.ts:357-374 | Which of two approved half days is reported depends on the order in which the requests are read |
| `Counterexamples.RepeatedReentryReopens` | src/modules/attendance/attendance.service.ts:392-407 | A re-entry, a checkout and the same re-entry request again: the day is open once more |
| `Counterexamples.LoneEmptyCellLost` | src/modules/reports/csv.ts:7-11 | A printed table of one empty cell does not read back |
| `Counterexamples.LongLadderAcceptsCycle` | src/modules/performance/performance.service.ts:187-201 | A walk of 20 people to the employee is accepted, and the acyclic chart becomes cyclic |
| `RebuildLaws.BalanceTellsCapacity` | src/modules/leave/annual-leave.service.ts:118-133 | On every book the available days shown never exceed what can be reserved, and equal it exactly when no open bucket is overdrawn or nothing can be reserved |
| `RebuildLaws.BalanceWithinBudget` | src/modules/leave/annual-leave.service.ts:118-133 | On a book within its grants no open bucket is overdrawn, so the available days shown are what can be reserved |
| `RebuildLaws.CreateSizeIff` | src/modules/leave/leave.service.ts:141-162 | On every book a tracked request with nothing else wrong is refused for its size exactly when its days exceed the sum of the positive remainders of the open buckets after a scan |
| `RebuildLaws.CreateFollowsBalance` | src/modules/leave/leave.service.ts:141-162 | On every book, for a request made on the day the balance is read: its size is judged by the available days shown exactly unless it lies above them and within the capacity, and then it is accepted |
| `RebuildLaws.CreateWithinBudget` | src/modules/leave/leave.service.ts:141-162 | On a book within its grants such a request is refused exactly when it asks for more than the available days of that day |
| `RebuildLaws.SyncBacksIff` | src/modules/leave/annual-leave.service.ts:222-252 | After synchronising, every live tracked request holds rows exactly when some year is open or none lacked rows before |
| `RebuildLaws.SyncSolventIff` | src/modules/leave/annual-leave.service.ts:222-252 | Synchronising a book within its grants leaves it within them exactly when no year is open or the days of the live tracked requests without rows fit into the open years |
| `RebuildLaws.BalanceIsSync` | src/modules/leave/annual-leave.service.ts:334-341 | The second scan of a balance read never finds anything to do |
| `RebuildLaws.ReadSolventIff` | src/modules/leave/annual-leave.service.ts:334-341 | Reading the balance of a book within its grants leaves it within them exactly when the days charged on that date fit into the open years or no year is open |
| `RebuildLaws.ReadWithinIff` | src/modules/leave/annual-leave.service.ts:334-341 | Reading the balance of a book within its grants also backs every live tracked request exactly when the days of those without rows fit into the open years |
| `LeaveBudget.CreateWithin` | src/modules/leave/leave.service.ts:117-187 | Creating a request keeps every leave year within its grant, whether or not all live requests hold rows |
| `LeaveBudget.CancelWithin` | src/modules/leave/leave.service.ts:247-259 | Cancelling keeps every leave year within its grant |
| `LeaveBudget.AdjustWithin` | src/modules/leave/annual-leave.service.ts:426-473 | Adjusting keeps every leave year within its grant |
| `LeaveGrants.DecideWithin` | src/modules/leave/leave.service.ts:360-413 | A decision keeps every leave year within its grant as long as what its balance read charges fits into the open years or no year is open, also for a request that holds no rows |
| `LeaveGrants.RunWithin` | src/modules/leave/annual-leave.service.ts:222-424 | Every run keeps every leave year within its grant as long as that holds at each of its balance reads and rebuilds, whatever the hire dates |
| `LeaveGrants.RunAffordable` | src/modules/leave/annual-leave.service.ts:276-424 | Every run keeps agreement, backing and the grants as upper bounds as long as the live requests fit into the open years at each of its rebuilds |
| `LeaveGrants.NeverOverspent` | src/modules/leave/annual-leave.service.ts:222-424 | In every state reached from empty tables by such a run, used + expired + outstanding reservations never exceed granted in any bucket; with fitting rebuilds no live tracked request needs the overdraw fallback |
| `LeaveBacking.CancelUndoesCreate` | src/modules/leave/leave.service.ts:141-259 | Cancelling right after creating leaves the buckets that a scan on that day leaves, and the allocation rows from before |
| `DayFraction.WorkingDaysExact` | src/shared/schedule-day-fraction.ts:79-101 | A date has a row exactly when it lies in the range and its weekday costs something, and the row costs just that; PlannedCosts fixes the amount |
| `TimesheetLaws.ReentryRetryIff` | src/modules/attendance/attendance.service.ts:345-407 | A re-entry repeated after any steps, retries included, changes nothing exactly when its day may not be entered again then, the employee has an open sheet, or a sheet has come to hold the key |
| `TimesheetLaws.RetriesStoreNoKey` | src/modules/attendance/attendance.service.ts:393-406 | No sheet comes to hold the key of a re-entry while that key is sent for no other day, however often it is sent again |
| `TimesheetLaws.ArrivalStands` | src/modules/attendance/attendance.service.ts:392-407 | While a day is not corrected, its first check-in time, late minutes and late flag never change, whatever other steps are taken |
| `TimesheetLaws.SystemClosesBeforeArrivalIff` | src/modules/attendance/auto-checkout.service.ts:36-60 | Along every run that approves no correctness request of that day, a sheet closed by the system has a checkout, and one before its check-in exactly when the employee checked in after the scheduled end |
| `Workforce.RunExcludes` | src/modules/leave/leave.service.ts:37-47 | Over all runs whose correctness approvals each meet the guards of ApprovalExcludesIff, nobody has a timesheet on a date of an approved request of theirs |
| `Roster.RunReportsAllLeaveIff` | src/modules/history/roster.service.ts:357-388 | In every state that a run of the workforce reaches, over- and under-reporting of leave are characterised exactly, without further conditions |
| `Counterexamples.ReadOverspends` | src/modules/leave/annual-leave.service.ts:334-341 | A run: a day reserved, a rebuild from a hire date to come, and the balance read on that date overspends the first leave year |
| `Counterexamples.OverdrawnYearHidden` | src/modules/leave/annual-leave.service.ts:118-133 | A run: twenty days reserved, a rebuild from a later hire date, a balance read a year on; it shows 12 days while 16 can be reserved |
| `LeavePolicy.LaterYearGrant` | src/modules/leave/annual-leave.policy.ts:60-68 | Leave years 2k + 1 and 2k + 2 each grant 16 + k days, whatever the hire date and the day of the scan |
| `LeavePolicy.FirstYearGrant` | src/modules/leave/annual-leave.policy.ts:48-68 | Leave year 0 grants 16 days once it is over, and before that a twelfth of them for each full 26 days served, up to twelve, to the nearest hundredth with halves upwards |
| `LeavePolicy.GrantExact` | src/modules/leave/annual-leave.policy.ts:48-68 | These amounts are what each leave year grants on each date, and no others |
| `LeaveEffects.ScanEffect` | src/modules/leave/annual-leave.service.ts:158-220 | A scan leaves one bucket for every started year, with its dates; its granted column is what the year grants unless it had more, and exactly the open buckets whose expiry date has come expire, their unused days moving to the expired column and nothing staying pending |
| `LeaveEffects.ScanLedger` | src/modules/leave/annual-leave.service.ts:168-216 | A scan books a new bucket as GRANT, growth as TOP_UP and what lapses as EXPIRE; per bucket these entries are what the columns moved, and no other kind is booked |
| `LeaveEffects.ChargeOldestFirst` | src/modules/leave/annual-leave.service.ts:265-331 | A charge moves one column, on open buckets only: the oldest buckets give all they can up to the days asked for while an open one follows, the shortfall falls on the newest open bucket, and without an open one nothing moves |
| `LeaveEffects.ChargeEffect` | src/modules/leave/annual-leave.service.ts:265-331 | On each bucket the ledger entries, as RESERVE or CONSUME, and the allocation row of the request are what the column moved; no other row changes |
| `LeaveEffects.RaiseEffect` | src/modules/leave/annual-leave.service.ts:431-441 | A positive adjustment raises the newest open bucket of the scanned book by its amount, with one ADJUST entry and no other change, and is refused without effect exactly when no bucket is open |
| `LeaveEffects.DeductEffect` | src/modules/leave/annual-leave.service.ts:442-473 | An adjustment by -a is refused without effect exactly when the open buckets of the scanned book cannot give a; else the used columns grow by a in sum, on open buckets only, each prefix of the buckets by the lesser of a and what it can give, and the ADJUST entries sum to -a, per bucket to what its used column grew by |
| `LeaveEffects.ZeroAdjustment` | src/modules/leave/annual-leave.service.ts:426-430 | An adjustment of nothing is refused without effect |
| `LeaveEffects.OverlapsIff` | src/modules/leave/leave.service.ts:49-101 | For requests whose rows lie in their ranges, the overlap check with its shortcut by ranges finds exactly the requests that are pending or approved and take a planned session: the same one, or either of them the full day |
| `LeaveEffects.ReachedInRange` | src/modules/leave/leave.service.ts:117-187 | In every state that a run reaches, the rows of each request lie in its range |
| `LeaveEffects.CreateEffect` | src/modules/leave/leave.service.ts:117-187 | Creating refuses for the first of six reasons, told on inputs and tables, and changes nothing then; else one pending request with its rows is added and, for a tracked type, its days leave the scanned buckets oldest first, each prefix giving the lesser of the days and what it can |
| `LeaveEffects.DecideEffect` | src/modules/leave/leave.service.ts:360-413 | Deciding refuses for the first of four reasons and leaves what the balance read left; else only this request changes its status, and of a tracked one approval moves the allocated days from pending to used, or charges them afresh without rows, and rejection takes them off and deletes the rows |
| `LeaveEffects.CancelEffect` | src/modules/leave/leave.service.ts:247-259 | Cancelling is refused without effect exactly for a missing or no longer pending request; else only its status changes and the days of a tracked one leave the pending columns with its rows |
| `LeaveEffects.SyncTakesFirst` | src/modules/leave/annual-leave.service.ts:222-252 | While a bucket is open, synchronising is charging the first live tracked request without rows, by start date and age, as used when approved and as pending else, and synchronising the rest |
| `LeaveBacking.AdminAdjustBacksIff` | src/modules/leave/leave.service.ts:428-431 | After an administrator's adjustment, refused or not, every live tracked request is backed exactly when a year is open on that day or none was unbacked |
| `DayFraction.MinutesInForce` | src/shared/schedule-day-fraction.ts:24-47 | The minutes of a weekday are those of its last day rule, of the schedule's times on a working day without day rules, by default 08:30 to 17:30, and none otherwise or for malformed or reversed times |
| `DayFraction.NearestHundredth` | src/shared/schedule-day-fraction.ts:50-68 | A weekday costs its minutes out of the longest day's, or of 480 when no day has any, to the nearest hundredth with halves upwards |
| `DayFraction.HalfOfDay` | src/shared/schedule-day-fraction.ts:107-120 | A half-day row costs half of the full day, halves of a hundredth upwards, and a full-day row all of it |
| `DayFraction.PlannedCosts` | src/shared/schedule-day-fraction.ts:79-120 | A date has a planned row exactly when it is in the range and its weekday costs something; the row has the session picked last, or the full day, and costs the weekday's nearest hundredth or half of it |
| `DayCharges.DaysAreCosts` | src/shared/schedule-day-fraction.ts:122-124 | The days of a request are what its rows cost on each date of its range, added up |
| `AttendanceEffects.CheckInEffect` | src/modules/attendance/attendance.service.ts:343-462 | Check-in refuses for the first of nine reasons; on a first check-in a late reason is due exactly from the scheduled start plus grace plus one minute on. Accepted, it writes at most the sheet of the day: reopened with its arrival kept, or new with its late minutes the whole minutes past the grace |
| `AttendanceEffects.LateInRuns` | src/modules/attendance/attendance.service.ts:204-207 | Along every run that approves no correctness request of the day, late minutes and late flag are what the stored check-in, schedule and grace say |
| `AttendanceEffects.CorrectionKeepsLateIff` | src/modules/history/history.service.ts:213-240 | A correction that leaves the check-in alone keeps late minutes and late flag exactly when they were true of it |
| `AttendanceEffects.ClosedEffect` | src/modules/attendance/timesheet-close.ts:50-81 | A closed sheet keeps its arrival; worked, early and overtime minutes are the whole minutes between its times, up to the scheduled end and without early or overtime when the checkout falls on a later date; it is missing its checkout exactly when flagged before, on a later date, or closed by the system |
| `AttendanceEffects.CheckOutEffect` | src/modules/attendance/attendance.service.ts:464-492 | Checkout refuses for the first of three reasons without effect; else it closes exactly the open sheet, and flags it exactly when it was flagged before or the date is later than the sheet's |
| `AttendanceEffects.AutoEffect` | src/modules/attendance/auto-checkout.service.ts:13-63 | The job closes exactly the open sheets whose trigger has come and lies after the check-in, at the scheduled end if that is positive and not after the trigger and else at the trigger, each flagged as missing its checkout, and changes no other |
| `AttendanceEffects.FlagEffect` | src/jobs/missing-checkouts.ts:8-22 | The job flags exactly the open sheets whose scheduled end lies before the cutoff, and changes nothing but flag and status |
| `AttendanceEffects.CorrectEffect` | src/modules/history/history.service.ts:205-240 | A correction refuses for the first of three reasons without effect; else it keeps the times it is not given and recounts late, worked, early and overtime minutes from the times and the stored schedule |
| `AttendanceEffects.ApproveEffect` | src/modules/attendance-correctness/attendance-correctness.service.ts:69-299 | An approved correctness request leaves a punctual closed sheet from the scheduled start to the middle for a morning, from the middle to the scheduled end for an afternoon and with both scheduled times for a day; keys and source of an existing sheet stay |
| `AttendanceEffects.SystemClosedMissing` | src/modules/attendance/timesheet-close.ts:56-62 | Along every run that approves no correctness request of the day, a sheet closed by the system is closed, missing its checkout and MISSING_CHECKOUT |
| `AttendanceEffects.SystemMissingIff` | src/modules/attendance-correctness/attendance-correctness.service.ts:239-299 | From a system close on, a sheet still held as closed by the system is missing its checkout exactly when no correctness request of its day was approved since |
| `Roster.DayStateIff` | src/modules/history/roster.service.ts:84-93 | Without a sheet a day shows approved leave before a holiday, a holiday before a day off, and not checked in only on a working day that is neither |
| `Roster.MarksIff` | src/modules/history/roster.service.ts:350-405 | Each counter's condition on schedule, approved leave, holidays and sheet: leave before holidays before missing check-ins, and the sheet's flags only on present days |
| `Csv.PrintedPlainIff` | src/modules/reports/csv.ts:1-5 | A text is printed without quotes exactly when it has no quote, comma, line feed or carriage return |
| `Calendar.WeekdaysFollow` | src/shared/schedule-day-fraction.ts:88-90 | 1 January 1970 is a Thursday and weekdays follow each other from 1 to 7 |
| `Counterexamples.ShorterLadderRejects` | src/modules/performance/performance.service.ts:187-201 | With one person less than in the accepted ladder the last of the 20 steps finds the cycle |
| `Counterexamples.CorrectedAfternoonIsLate` | src/modules/history/history.service.ts:213-240 | A punctual day approved as an afternoon and then corrected in its checkout only becomes 255 minutes late |

## Left out

- Transaction isolation: several guards are read before their transaction starts; concurrent calls are not modelled.
- Floating point and `Decimal`: hundredths are exact integers, so rounding of a binary product such as 0.29 * 0.5 * 100 is taken at its decimal value.
- The range of `Date` and the two-digit years of `Date.UTC`: calendar arithmetic is unbounded.
- Time zones and daylight saving: the local date of an instant and the scheduled instants of a date are inputs, with no law assumed of them.
- A leave type that starts or stops tracking balance while requests of it exist: whether a request is tracked is fixed when it is created.
- `release` in mode "used", which no modelled service calls.
- Requests stored without day rows: the overlap check treats them as the code does, but no modelled call creates one.
- Row order of queries without an order clause: the expiry loop and the allocation rows of a request are taken in bucket order, which only affects the order of ledger entries; the rosters' leave rows are an input sequence, and what is proved holds for every order of it.
- A failure inside synchronisation that the code swallows: with overdraw allowed the modelled charge cannot fail.
- Leave tables of other employees: an account holds one employee's rows; the workforce holds one account per employee.
- Workforce.RunExcludes: correctness approvals that create a sheet on a day of approved leave are excluded from its runs; ApprovalExcludesIff says that just these break the property.
- LeaveGrants.NeverOverspent: balance reads and rebuilds whose charges do not fit into the open years are excluded from its runs; SyncSolventIff says that just these overspend.
- LeaveBacking.RunAllocates: rebuilds before the hire date are excluded; RebuildBacksIff says what they do.
- Supervisors.CheckSupervisor: who works in the organisation is an input; a person outside it has no supervisor.
- Holidays, presence checks, photos, worksheets, late reasons beyond their presence, notifications, sockets, audit and correction logs.
- The table of correctness requests: only the effect of an approval on the timesheets is modelled.
- The balance shown to employees beyond its available days, and the other list and summary views.
- Sums of the period roster over employees: the counters of one employee are modelled.
- Task tracker, meetings, invites, displays, evaluations, pagination and authentication are not modelled.
