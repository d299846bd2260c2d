/**
  * Timesheets and what every attendance step does to them. Instants are milliseconds; the local date of an
  * instant and the scheduled hours of a date are inputs, as the time zone decides them.
  */
module Timesheets {
  import opened Basics
  import opened Calendar
  import DayFraction

  const MINUTE := 60000

  /** The unique key of a timesheet: employee and work date. */
  datatype Day = Day(employee: nat, date: Date)

  datatype SheetStatus = PresentOnTime | PresentLate | CompletedOnTime | CompletedLate | MissingCheckout

  datatype Source = ByEmployee | BySystem | ByAdmin

  datatype Key = ClientKey(id: nat) | SystemKey(day: Day) | RandomKey(id: nat)

  datatype Sheet = Sheet(
    schedIn: int, schedOut: int, grace: int, checkIn: int, checkOut: Option<int>,
    late: int, worked: int, early: int, overtime: int, status: SheetStatus,
    isOpen: bool, isLate: bool, isEarly: bool, isMissing: bool,
    source: Option<Source>, inKey: Key, outKey: Option<Key>)

  type Sheets = map<Day, Sheet>

  datatype Hours = Hours(schedIn: int, schedOut: int, grace: int)

  datatype Refusal =
    | KeyConflict | NotAWorkingDay | OnApprovedLeave | OnPublicHoliday | OutsideOffice | DayAlreadyClosed
    | LateReasonRequired | LateReasonNotAllowed | AlreadyCheckedIn | NoOpenTimesheet
    | TimesheetNotFound | CheckoutRequired | InvalidTimeRange

  datatype Reply = Reply(sheets: Sheets, refusal: Option<Refusal>)

  /** `Math.max(0, Math.floor(ms / 60000))`. */
  function WholeMinutes(ms: int): (minutes: int)
    ensures minutes >= 0
  {
    Max0(ms / MINUTE)
  }

  // ---------------------------------------------------------------- closing

  datatype Metrics = Metrics(worked: int, early: int, overtime: int, isEarly: bool, isMissing: bool)

  /** `computeCheckoutMetrics` for a checkout at `at`, which falls on local date `atDate`. */
  function CheckoutMetrics(s: Sheet, workDate: Date, at: int, atDate: Date): Metrics {
    if atDate > workDate then Metrics(WholeMinutes(s.schedOut - s.checkIn), 0, 0, false, true)
    else if at > s.schedOut then Metrics(WholeMinutes(at - s.checkIn), 0, WholeMinutes(at - s.schedOut), false, false)
    else
      var early := WholeMinutes(s.schedOut - at);
      Metrics(WholeMinutes(at - s.checkIn), early, 0, early > 0, false)
  }

  /** The row that `closeOpenTimesheet` writes. */
  function Closed(s: Sheet, workDate: Date, at: int, atDate: Date, source: Source, key: Key): Sheet {
    var m := CheckoutMetrics(s, workDate, at, atDate);
    var missing := s.isMissing || m.isMissing || source.BySystem?;
    s.(checkOut := Some(at), worked := m.worked, early := m.early, overtime := m.overtime, isEarly := m.isEarly,
       isMissing := missing, isOpen := false,
       status := if missing then MissingCheckout else if s.isLate then CompletedLate else CompletedOnTime,
       source := Some(source), outKey := Some(key))
  }

  // ---------------------------------------------------------------- check-in

  /** `canReCheckIn`. */
  predicate CanReCheckIn(s: Sheet) {
    !s.isOpen && s.source == Some(ByEmployee)
  }

  /** `isDayPermanentlyClosed`. */
  predicate PermanentlyClosed(s: Sheet) {
    !s.isOpen && (s.source == Some(BySystem) || s.source == Some(ByAdmin))
  }

  datatype CheckInRequest = CheckInRequest(
    employee: nat, now: int, date: Date, hours: Option<Hours>, key: nat,
    reasonGiven: bool, descriptionGiven: bool, present: bool, onLeave: bool, onHoliday: bool)

  predicate HasOpen(sheets: Sheets, employee: nat) {
    exists d :: d in sheets && d.employee == employee && sheets[d].isOpen
  }

  function LateBy(hours: Hours, now: int): int {
    WholeMinutes(now - (hours.schedIn + hours.grace * MINUTE))
  }

  function FreshSheet(hours: Hours, now: int, key: Key): Sheet {
    var late := LateBy(hours, now);
    Sheet(hours.schedIn, hours.schedOut, hours.grace, now, None, late, 0, 0, 0,
          if late > 0 then PresentLate else PresentOnTime, true, late > 0, false, false, None, key, None)
  }

  function Reopened(s: Sheet): Sheet {
    s.(checkOut := None, worked := 0, early := 0, overtime := 0, isEarly := false, isMissing := false, isOpen := true,
       status := if s.isLate then PresentLate else PresentOnTime, source := None, outKey := None)
  }

  predicate KeyOn(sheets: Sheets, key: Key, d: Day) {
    d in sheets && sheets[d].inKey == key
  }

  /** `checkIn`: a retry, a re-entry or a new day. */
  function CheckIn(sheets: Sheets, q: CheckInRequest): Reply {
    var day := Day(q.employee, q.date);
    if exists d :: d in sheets && KeyOn(sheets, ClientKey(q.key), d) then
      if exists d :: d in sheets && KeyOn(sheets, ClientKey(q.key), d) && d.employee == q.employee then Reply(sheets, None)
      else Reply(sheets, Some(KeyConflict))
    else if q.hours.None? then Reply(sheets, Some(NotAWorkingDay))
    else if q.onLeave then Reply(sheets, Some(OnApprovedLeave))
    else if q.onHoliday then Reply(sheets, Some(OnPublicHoliday))
    else if !q.present then Reply(sheets, Some(OutsideOffice))
    else if day in sheets && sheets[day].isOpen then Reply(sheets, None)
    else if day in sheets && !CanReCheckIn(sheets[day]) then Reply(sheets, Some(DayAlreadyClosed))
    else if day in sheets then
      if q.reasonGiven || q.descriptionGiven then Reply(sheets, Some(LateReasonNotAllowed))
      else if HasOpen(sheets, q.employee) then Reply(sheets, Some(AlreadyCheckedIn))
      else Reply(sheets[day := Reopened(sheets[day])], None)
    else
      var late := LateBy(q.hours.value, q.now) > 0;
      if late && !q.reasonGiven then Reply(sheets, Some(LateReasonRequired))
      else if !late && (q.reasonGiven || q.descriptionGiven) then Reply(sheets, Some(LateReasonNotAllowed))
      else if HasOpen(sheets, q.employee) then Reply(sheets, Some(AlreadyCheckedIn))
      else Reply(sheets[day := FreshSheet(q.hours.value, q.now, ClientKey(q.key))], None)
  }

  // ---------------------------------------------------------------- checkout

  datatype CheckOutRequest = CheckOutRequest(employee: nat, now: int, date: Date, key: nat, present: bool)

  /** The open sheet of an employee; there is at most one. */
  ghost function OpenDay(sheets: Sheets, employee: nat): Day
    requires HasOpen(sheets, employee)
  {
    var d :| d in sheets && d.employee == employee && sheets[d].isOpen;
    d
  }

  predicate OutKeyOn(sheets: Sheets, key: Key, d: Day) {
    d in sheets && sheets[d].outKey == Some(key)
  }

  /** `checkOut`. */
  ghost function CheckOut(sheets: Sheets, q: CheckOutRequest): Reply {
    if exists d :: d in sheets && OutKeyOn(sheets, ClientKey(q.key), d) then
      if exists d :: d in sheets && OutKeyOn(sheets, ClientKey(q.key), d) && d.employee == q.employee then Reply(sheets, None)
      else Reply(sheets, Some(KeyConflict))
    else if !HasOpen(sheets, q.employee) then Reply(sheets, Some(NoOpenTimesheet))
    else if !q.present then Reply(sheets, Some(OutsideOffice))
    else
      var d := OpenDay(sheets, q.employee);
      Reply(sheets[d := Closed(sheets[d], d.date, q.now, q.date, ByEmployee, ClientKey(q.key))], None)
  }

  // ---------------------------------------------------------------- the two jobs

  /** `isEligibleForAutoCheckout`. */
  predicate IsEligible(checkIn: int, autoAt: int, now: int) {
    now >= autoAt && autoAt > checkIn
  }

  /** `resolveSystemCheckoutAt`. */
  function SystemCheckoutAt(schedOut: int, autoAt: int): int {
    if schedOut > 0 && schedOut <= autoAt then schedOut else autoAt
  }

  /** The auto-checkout instant of each employee of an organisation that has it enabled, and local dates. */
  datatype AutoRun = AutoRun(now: int, triggers: map<nat, int>, localDate: (nat, int) -> Date)

  predicate AutoCloses(d: Day, s: Sheet, run: AutoRun) {
    s.isOpen && s.checkOut.None? && d.employee in run.triggers && IsEligible(s.checkIn, run.triggers[d.employee], run.now)
  }

  function SystemClosed(d: Day, s: Sheet, run: AutoRun): Sheet
    requires d.employee in run.triggers
  {
    var at := SystemCheckoutAt(s.schedOut, run.triggers[d.employee]);
    Closed(s, d.date, at, run.localDate(d.employee, at), BySystem, SystemKey(d))
  }

  function OpenDays(sheets: Sheets): set<Day> {
    set d | d in sheets && sheets[d].isOpen && sheets[d].checkOut.None?
  }

  /** What a run of the auto-checkout job leaves of a sheet. */
  function AutoRow(d: Day, s: Sheet, run: AutoRun): Sheet {
    if AutoCloses(d, s, run) then SystemClosed(d, s, run) else s
  }

  /** The sheets that a run of the auto-checkout job closes. */
  function AutoClosedDays(sheets: Sheets, run: AutoRun): set<Day> {
    set d | d in sheets && AutoCloses(d, sheets[d], run)
  }

  /** `autoCheckoutService.run`. */
  function AutoCheckout(sheets: Sheets, run: AutoRun): Sheets {
    map d | d in sheets :: AutoRow(d, sheets[d], run)
  }

  predicate Overdue(s: Sheet, cutoff: int) {
    s.isOpen && !s.isMissing && s.schedOut < cutoff
  }

  /** The sheets that the missing-checkout job flags. */
  function OverdueDays(sheets: Sheets, cutoff: int): set<Day> {
    set d | d in sheets && Overdue(sheets[d], cutoff)
  }

  function Flagged(s: Sheet): Sheet {
    s.(isMissing := true, status := MissingCheckout)
  }

  /** The missing-checkout job: open sheets scheduled to end before `cutoff` are flagged. */
  function FlagMissing(sheets: Sheets, cutoff: int): Sheets {
    map d | d in sheets :: if Overdue(sheets[d], cutoff) then Flagged(sheets[d]) else sheets[d]
  }

  // ---------------------------------------------------------------- corrections

  /** The row that `correctTimesheet` writes. */
  function Corrected(s: Sheet, checkIn: int, checkOut: int): Sheet {
    var late := WholeMinutes(checkIn - (s.schedIn + s.grace * MINUTE));
    var early := WholeMinutes(s.schedOut - checkOut);
    s.(checkIn := checkIn, checkOut := Some(checkOut), late := late, worked := WholeMinutes(checkOut - checkIn),
       early := early, overtime := WholeMinutes(checkOut - s.schedOut), isLate := late > 0, isEarly := early > 0,
       isOpen := false, isMissing := false, source := Some(ByAdmin),
       status := if late > 0 then CompletedLate else CompletedOnTime)
  }

  /** `correctTimesheet`. */
  function Correct(sheets: Sheets, d: Day, checkIn: Option<int>, checkOut: Option<int>): Reply {
    if d !in sheets then Reply(sheets, Some(TimesheetNotFound))
    else
      var s := sheets[d];
      var start := if checkIn.Some? then checkIn.value else s.checkIn;
      if checkOut.None? && s.checkOut.None? then Reply(sheets, Some(CheckoutRequired))
      else
        var end := if checkOut.Some? then checkOut.value else s.checkOut.value;
        if end <= start then Reply(sheets, Some(InvalidTimeRange))
        else Reply(sheets[d := Corrected(s, start, end)], None)
  }

  datatype Actuals = Actuals(checkIn: int, checkOut: int, worked: int)

  /** `sessionActuals`: the scheduled day, or its first or second half. */
  function SessionActuals(schedIn: int, schedOut: int, session: DayFraction.Session): Actuals {
    var mid := schedIn + (schedOut - schedIn) / 2;
    match session
    case Morning => Actuals(schedIn, mid, WholeMinutes(mid - schedIn))
    case Afternoon => Actuals(mid, schedOut, WholeMinutes(schedOut - mid))
    case Full => Actuals(schedIn, schedOut, WholeMinutes(schedOut - schedIn))
  }

  /** The row that `applyScheduledCorrectness` writes. */
  function AsScheduled(s: Sheet, session: DayFraction.Session): Sheet {
    var a := SessionActuals(s.schedIn, s.schedOut, session);
    s.(checkIn := a.checkIn, checkOut := Some(a.checkOut), late := 0, worked := a.worked, early := 0, overtime := 0,
       isLate := false, isEarly := false, isMissing := false, isOpen := false, status := CompletedOnTime)
  }

  function ScheduledSheet(hours: Hours, session: DayFraction.Session, inKey: Key, outKey: Key): Sheet {
    var a := SessionActuals(hours.schedIn, hours.schedOut, session);
    Sheet(hours.schedIn, hours.schedOut, hours.grace, a.checkIn, Some(a.checkOut), 0, a.worked, 0, 0,
          CompletedOnTime, false, false, false, false, None, inKey, Some(outKey))
  }

  /** `linked`: the request holds the id of a timesheet; `hours`: the scheduled hours of its day, if it is a working day. */
  datatype Approval = Approval(
    day: Day, session: DayFraction.Session, linked: bool, hours: Option<Hours>, inKey: nat, outKey: nat)

  /** Whether some sheet holds one of the random keys drawn for the approval. */
  predicate KeysTaken(sheets: Sheets, a: Approval) {
    exists d :: d in sheets && (KeyOn(sheets, RandomKey(a.inKey), d) || OutKeyOn(sheets, RandomKey(a.outKey), d))
  }

  /** Approving a correctness request: the sheet of its day is rewritten, or created, as scheduled. */
  function ApproveCorrectness(sheets: Sheets, a: Approval): Reply {
    if a.linked && a.day !in sheets then Reply(sheets, Some(TimesheetNotFound))
    else if !a.linked && a.hours.None? then Reply(sheets, Some(NotAWorkingDay))
    else if a.day in sheets then Reply(sheets[a.day := AsScheduled(sheets[a.day], a.session)], None)
    else if KeysTaken(sheets, a) then Reply(sheets, Some(KeyConflict))
    else Reply(sheets[a.day := ScheduledSheet(a.hours.value, a.session, RandomKey(a.inKey), RandomKey(a.outKey))], None)
  }
}
