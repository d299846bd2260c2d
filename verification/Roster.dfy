/** The attendance rosters: what one day shows of every employee, and what a period counts for one of them. */
module Roster {
  import opened Basics
  import opened Calendar
  import opened DayFraction
  import opened LeaveBook
  import DayCharges
  import T = Timesheets
  import TL = TimesheetLaws
  import W = Workforce

  /** What a roster reads of an employee. */
  datatype View = View(schedule: Option<Schedule>, requests: seq<Request>, holidays: set<Date>, sheets: map<Date, T.Sheet>)

  predicate IsWorkingDay(schedule: Option<Schedule>, weekday: int) {
    && schedule.Some?
    && if |schedule.value.days| > 0
       then exists i :: 0 <= i < |schedule.value.days| && schedule.value.days[i].weekday == weekday
       else weekday in schedule.value.workingDays
  }

  /** The roster's own test of a working day agrees with the day rules that leave is costed by. */
  lemma WorkingDayIffRuled(schedule: Schedule, weekday: int)
    ensures IsWorkingDay(Some(schedule), weekday) <==> RuleAt(schedule, weekday).Some?
  {
    if |schedule.days| > 0 {
      if RuleAt(schedule, weekday).Some? {
        RuledDaysListed(schedule.days, weekday, |schedule.days|);
      }
      ListedRuled(schedule.days, weekday, |schedule.days|);
    }
  }

  lemma {:induction false} ListedRuled(days: seq<DayTimes>, weekday: int, n: nat)
    requires n <= |days|
    ensures (exists i :: 0 <= i < n && days[i].weekday == weekday) ==> LastRule(days, weekday, n).Some?
  {
    if n > 0 {
      ListedRuled(days, weekday, n - 1);
    }
  }

  predicate OnLeave(requests: seq<Request>, date: Date) {
    exists r :: 0 <= r < |requests| && W.Covers(requests[r], date)
  }

  /** `empLeaves.find`: the first approved request, from the `i`-th on, whose range covers `date`. */
  function FirstCover(requests: seq<Request>, date: Date, i: nat): (found: Option<nat>)
    requires i <= |requests|
    ensures found.Some? ==> i <= found.value < |requests| && W.Covers(requests[found.value], date)
    ensures found.None? ==> forall r :: i <= r < |requests| ==> !W.Covers(requests[r], date)
    decreases |requests| - i
  {
    if i == |requests| then None
    else if W.Covers(requests[i], date) then Some(i)
    else FirstCover(requests, date, i + 1)
  }

  /** `days.find`: the first row for `date`, from the `i`-th on. */
  function RowFor(rows: seq<LeaveDay>, date: Date, i: nat): (row: Option<LeaveDay>)
    requires i <= |rows|
    ensures row.Some? ==> row.value in rows && row.value.date == date
    ensures row.None? <==> forall k :: i <= k < |rows| ==> rows[k].date != date
    decreases |rows| - i
  {
    if i == |rows| then None
    else if rows[i].date == date then Some(rows[i])
    else RowFor(rows, date, i + 1)
  }

  /** What the period roster counts as leave on a working day: the stored row, or the schedule's fraction without one. */
  function LeaveCost(view: View, date: Date): int
    requires view.schedule.Some?
  {
    match FirstCover(view.requests, date, 0)
    case None => 0
    case Some(r) =>
      match RowFor(view.requests[r].rows, date, 0)
      case Some(row) => row.fraction
      case None => LeaveFraction(view.schedule.value, Weekday(date))
  }

  // ---------------------------------------------------------------- one day

  datatype State = FromSheet(status: T.SheetStatus) | OnLeaveState | PublicHoliday | NonWorkingDay | NotCheckedIn

  /** `deriveAttendanceState`. */
  function DeriveState(sheet: Option<T.Sheet>, onLeave: bool, onHoliday: bool, workingDay: bool): State {
    match sheet
    case Some(s) =>
      if Unclosed(s)
      then FromSheet(if s.isLate then T.PresentLate else T.PresentOnTime)
      else FromSheet(s.status)
    case None =>
      if onLeave then OnLeaveState
      else if onHoliday then PublicHoliday
      else if !workingDay then NonWorkingDay
      else NotCheckedIn
  }

  function SheetOf(view: View, date: Date): Option<T.Sheet> {
    if date in view.sheets then Some(view.sheets[date]) else None
  }

  /** One line of the day roster. */
  function DayState(view: View, date: Date): State {
    DeriveState(SheetOf(view, date), OnLeave(view.requests, date), date in view.holidays,
                IsWorkingDay(view.schedule, Weekday(date)))
  }

  /**
    * A sheet whose columns agree is never shown as MISSING_CHECKOUT: it is shown as present while it is open or
    * lacks an own checkout, as completed afterwards, and in both cases as late when it is late.
    */
  lemma ShownState(s: T.Sheet, onLeave: bool, onHoliday: bool, workingDay: bool)
    requires TL.SheetFits(s)
    ensures DeriveState(Some(s), onLeave, onHoliday, workingDay)
         == FromSheet(TL.StatusOf(s.isOpen || s.isMissing, false, s.isLate))
  {
  }

  /** An approved request covers the date. */
  predicate Granted(requests: seq<Request>, date: Date) {
    exists r :: 0 <= r < |requests| && requests[r].status == Approved && requests[r].start <= date && date <= requests[r].end
  }

  /**
    * Without a sheet a day shows approved leave before a public holiday, the holiday before a day off, and only a
    * working day that is neither as not checked in.
    */
  lemma DayStateIff(view: View, date: Date)
    ensures var bare, leave := date !in view.sheets, Granted(view.requests, date);
      var holiday, working := date in view.holidays, IsWorkingDay(view.schedule, Weekday(date));
      && (DayState(view, date).FromSheet? <==> date in view.sheets)
      && (DayState(view, date) == OnLeaveState <==> bare && leave)
      && (DayState(view, date) == PublicHoliday <==> bare && !leave && holiday)
      && (DayState(view, date) == NonWorkingDay <==> bare && !leave && !holiday && !working)
      && (DayState(view, date) == NotCheckedIn <==> bare && !leave && !holiday && working)
  {
    hide IsWorkingDay, Weekday, Unclosed;
  }

  datatype Group = CheckedIn | Leaving | Resting | Off | Expected

  predicate InGroup(view: View, date: Date, group: Group) {
    match group
    case CheckedIn => SheetOf(view, date).Some?
    case Leaving => DayState(view, date) == OnLeaveState
    case Resting => DayState(view, date) == PublicHoliday
    case Off => DayState(view, date) == NonWorkingDay
    case Expected => DayState(view, date) == NotCheckedIn
  }

  /** How many lines of the day roster one of its counters counts. */
  function Lines(views: seq<View>, date: Date, group: Group): nat {
    if views == [] then 0
    else Lines(views[..|views| - 1], date, group) + (if InGroup(views[|views| - 1], date, group) then 1 else 0)
  }

  /** Every employee of the day roster is counted once among attended, on leave, holiday, day off and not checked in. */
  lemma {:induction false} DayCountsPartition(views: seq<View>, date: Date)
    ensures |views| == Lines(views, date, CheckedIn) + Lines(views, date, Leaving) + Lines(views, date, Resting)
                     + Lines(views, date, Off) + Lines(views, date, Expected)
  {
    hide OnLeave, IsWorkingDay;
    if views != [] {
      DayCountsPartition(views[..|views| - 1], date);
    }
  }

  // ---------------------------------------------------------------- a period

  datatype Mark = Working | Away | Holiday | NoCheckIn | Present | Late | NoCheckOut | EmployeeOut | SystemOut

  /** What each counter of the period roster is meant to count. */
  predicate Marked(view: View, date: Date, mark: Mark) {
    var working := IsWorkingDay(view.schedule, Weekday(date));
    var free := working && !OnLeave(view.requests, date);
    var present := free && date !in view.holidays && date in view.sheets;
    match mark
    case Working => working
    case Away => working && OnLeave(view.requests, date)
    case Holiday => free && date in view.holidays
    case NoCheckIn => free && date !in view.holidays && date !in view.sheets
    case Present => present
    case Late => present && view.sheets[date].isLate
    case NoCheckOut => present && Unclosed(view.sheets[date])
    case EmployeeOut => present && ClosedBy(view.sheets[date], T.ByEmployee)
    case SystemOut => present && ClosedBy(view.sheets[date], T.BySystem)
  }

  predicate Unclosed(s: T.Sheet) {
    s.isMissing || (s.isOpen && s.checkOut.None?)
  }

  predicate ClosedBy(s: T.Sheet, source: T.Source) {
    s.checkOut.Some? && !s.isOpen && s.source == Some(source)
  }

  function Days(view: View, mark: Mark, from: Date, last: Date): set<Date> {
    set d | from <= d <= last && Marked(view, d, mark)
  }

  /** The hundredths of leave that the period roster counts for a date. */
  function ReportedOn(view: View, date: Date): int {
    if Marked(view, date, Away) then LeaveCost(view, date) else 0
  }

  function LeaveTotal(view: View, from: Date, last: Date): int
    decreases last - from
  {
    if last < from then 0 else LeaveTotal(view, from, last - 1) + ReportedOn(view, last)
  }

  datatype Summary = Summary(
    workingDays: nat, leaveDays: int, holidayDays: nat, missingCheckInDays: nat, presentDays: nat, lateDays: nat,
    missingCheckOutDays: nat, employeeCheckoutDays: nat, systemCheckoutDays: nat)

  /** The counter of a mark; days under leave are summed by their cost instead. */
  function CountOf(s: Summary, mark: Mark): nat
    requires !mark.Away?
  {
    match mark
    case Working => s.workingDays
    case Holiday => s.holidayDays
    case NoCheckIn => s.missingCheckInDays
    case Present => s.presentDays
    case Late => s.lateDays
    case NoCheckOut => s.missingCheckOutDays
    case EmployeeOut => s.employeeCheckoutDays
    case SystemOut => s.systemCheckoutDays
  }

  /** Every counter is the number of days it is meant to count. */
  ghost predicate Tallies(s: Summary, view: View, from: Date, last: Date) {
    && (forall mark: Mark :: !mark.Away? ==> CountOf(s, mark) == |Days(view, mark, from, last)|)
    && s.leaveDays == LeaveTotal(view, from, last)
  }

  lemma DaysStep(view: View, mark: Mark, from: Date, last: Date)
    requires from <= last
    ensures |Days(view, mark, from, last)| == |Days(view, mark, from, last - 1)| + (if Marked(view, last, mark) then 1 else 0)
  {
    hide Marked;
    if Marked(view, last, mark) {
      assert Days(view, mark, from, last) == Days(view, mark, from, last - 1) + {last};
    } else {
      assert Days(view, mark, from, last) == Days(view, mark, from, last - 1);
    }
  }

  /** `t` counts day `d` on top of what `s` counts. */
  ghost predicate CountsOneMore(s: Summary, t: Summary, view: View, d: Date) {
    && (forall mark: Mark :: !mark.Away? ==> CountOf(t, mark) == CountOf(s, mark) + (if Marked(view, d, mark) then 1 else 0))
    && t.leaveDays == s.leaveDays + ReportedOn(view, d)
  }

  lemma TallyStep(s: Summary, t: Summary, view: View, from: Date, last: Date)
    requires from <= last && Tallies(s, view, from, last - 1) && CountsOneMore(s, t, view, last)
    ensures Tallies(t, view, from, last)
  {
    hide Marked, ReportedOn, CountOf, Days;
    forall mark: Mark | !mark.Away?
      ensures CountOf(t, mark) == |Days(view, mark, from, last)|
    {
      DaysStep(view, mark, from, last);
    }
  }

  /** The per-day loop of `attendancePeriodSummary` for one employee. */
  method TallyPeriod(view: View, from: Date, last: Date) returns (s: Summary)
    ensures Tallies(s, view, from, last)
  {
    hide IsWorkingDay, Tallies, CountsOneMore;
    s := Summary(0, 0, 0, 0, 0, 0, 0, 0, 0);
    if last < from {
      NothingYet(view, from, last);
      return;
    }
    NothingYet(view, from, from - 1);
    var d := from;
    while d <= last
      invariant from <= d <= last + 1
      invariant Tallies(s, view, from, d - 1)
      decreases last - d
    {
      ghost var before := s;
      if IsWorkingDay(view.schedule, Weekday(d)) {
        s := TallyWorkingDay(view, d, s);
      } else {
        DayOffCounts(s, view, d);
      }
      TallyStep(before, s, view, from, d);
      d := d + 1;
    }
  }

  lemma DayOffCounts(s: Summary, view: View, d: Date)
    requires !IsWorkingDay(view.schedule, Weekday(d))
    ensures CountsOneMore(s, s, view, d)
  {
    hide IsWorkingDay, OnLeave;
  }

  /** The search finds a covering request exactly when the employee is on leave. */
  lemma FoundIffOnLeave(requests: seq<Request>, date: Date)
    ensures FirstCover(requests, date, 0).Some? <==> OnLeave(requests, date)
  {
  }

  lemma AwayCounts(s: Summary, view: View, d: Date)
    requires Marked(view, d, Away)
    ensures CountsOneMore(s, s.(workingDays := s.workingDays + 1, leaveDays := s.leaveDays + LeaveCost(view, d)), view, d)
  {
    hide IsWorkingDay, OnLeave, LeaveCost;
  }

  lemma HolidayCounts(s: Summary, view: View, d: Date)
    requires Marked(view, d, Holiday)
    ensures CountsOneMore(s, s.(workingDays := s.workingDays + 1, holidayDays := s.holidayDays + 1), view, d)
  {
    hide IsWorkingDay, OnLeave, LeaveCost;
  }

  lemma NoCheckInCounts(s: Summary, view: View, d: Date)
    requires Marked(view, d, NoCheckIn)
    ensures CountsOneMore(s, s.(workingDays := s.workingDays + 1, missingCheckInDays := s.missingCheckInDays + 1), view, d)
  {
    hide IsWorkingDay, OnLeave, LeaveCost;
  }

  function One(b: bool): nat {
    if b then 1 else 0
  }

  /** The marks of a present day. */
  lemma PresentMark(view: View, d: Date, mark: Mark)
    requires Marked(view, d, Present)
    ensures var sheet := view.sheets[d];
      Marked(view, d, mark) == match mark
        case Working => true
        case Present => true
        case Late => sheet.isLate
        case NoCheckOut => Unclosed(sheet)
        case EmployeeOut => ClosedBy(sheet, T.ByEmployee)
        case SystemOut => ClosedBy(sheet, T.BySystem)
        case _ => false
  {
    hide IsWorkingDay, OnLeave, Unclosed, ClosedBy;
  }

  /**
    * Every working day has one of four marks: approved leave before a holiday, a holiday before a missing check-in, and
    * present only otherwise; the marks of a sheet count on present days.
    */
  lemma MarksIff(view: View, date: Date)
    ensures var working, leave := IsWorkingDay(view.schedule, Weekday(date)), Granted(view.requests, date);
      var attended := working && !leave && date !in view.holidays && date in view.sheets;
      && (Marked(view, date, Working) <==> working)
      && (Marked(view, date, Away) <==> working && leave)
      && (Marked(view, date, Holiday) <==> working && !leave && date in view.holidays)
      && (Marked(view, date, NoCheckIn) <==> working && !leave && date !in view.holidays && date !in view.sheets)
      && (Marked(view, date, Present) <==> attended)
      && (attended ==>
           var s := view.sheets[date];
           && (Marked(view, date, Late) <==> s.isLate)
           && (Marked(view, date, NoCheckOut) <==> s.isMissing || (s.isOpen && s.checkOut == None))
           && (Marked(view, date, EmployeeOut) <==> !s.isOpen && s.checkOut != None && s.source == Some(T.ByEmployee))
           && (Marked(view, date, SystemOut) <==> !s.isOpen && s.checkOut != None && s.source == Some(T.BySystem)))
      && (!attended ==> !Marked(view, date, Late) && !Marked(view, date, NoCheckOut)
                        && !Marked(view, date, EmployeeOut) && !Marked(view, date, SystemOut))
  {
    hide IsWorkingDay, Weekday;
  }

  /** The counters of a summary with one more sheet counted. */
  function PlusSheet(s: Summary, sheet: T.Sheet): Summary {
    s.(presentDays := s.presentDays + 1, lateDays := s.lateDays + One(sheet.isLate),
       missingCheckOutDays := s.missingCheckOutDays + One(Unclosed(sheet)),
       employeeCheckoutDays := s.employeeCheckoutDays + One(ClosedBy(sheet, T.ByEmployee)),
       systemCheckoutDays := s.systemCheckoutDays + One(ClosedBy(sheet, T.BySystem)))
  }

  lemma PresentCounts(s: Summary, view: View, d: Date)
    requires Marked(view, d, Present)
    ensures CountsOneMore(s, PlusSheet(s.(workingDays := s.workingDays + 1), view.sheets[d]), view, d)
  {
    hide IsWorkingDay, OnLeave, LeaveCost, Unclosed, ClosedBy;
    assert !Marked(view, d, Away);
    var t := PlusSheet(s.(workingDays := s.workingDays + 1), view.sheets[d]);
    forall mark: Mark | !mark.Away?
      ensures CountOf(t, mark) == CountOf(s, mark) + One(Marked(view, d, mark))
    {
      PresentMark(view, d, mark);
    }
  }

  /** The body of the loop for a working day. */
  method TallyWorkingDay(view: View, d: Date, before: Summary) returns (s: Summary)
    requires IsWorkingDay(view.schedule, Weekday(d))
    ensures CountsOneMore(before, s, view, d)
  {
    hide IsWorkingDay, Weekday, LeaveFraction, OnLeave, CountsOneMore, W.Covers;
    s := before.(workingDays := before.workingDays + 1);
    FoundIffOnLeave(view.requests, d);
    var leave := FirstCover(view.requests, d, 0);
    if leave.Some? {
      AwayCounts(before, view, d);
      var row := RowFor(view.requests[leave.value].rows, d, 0);
      var cost := if row.Some? then row.value.fraction else LeaveFraction(ScheduleOf(view, d), Weekday(d));
      s := s.(leaveDays := s.leaveDays + cost);
      return;
    }
    if d in view.holidays {
      HolidayCounts(before, view, d);
      s := s.(holidayDays := s.holidayDays + 1);
      return;
    }
    if d !in view.sheets {
      NoCheckInCounts(before, view, d);
      s := s.(missingCheckInDays := s.missingCheckInDays + 1);
      return;
    }
    PresentCounts(before, view, d);
    s := TallySheet(view.sheets[d], s);
  }

  /** The counters of a working day with a sheet. */
  method TallySheet(sheet: T.Sheet, before: Summary) returns (s: Summary)
    ensures s == PlusSheet(before, sheet)
  {
    s := before.(presentDays := before.presentDays + 1);
    if sheet.isLate {
      s := s.(lateDays := s.lateDays + 1);
    }
    if sheet.isMissing || (sheet.isOpen && sheet.checkOut.None?) {
      s := s.(missingCheckOutDays := s.missingCheckOutDays + 1);
    }
    if sheet.checkOut.Some? && !sheet.isOpen {
      if sheet.source == Some(T.BySystem) {
        s := s.(systemCheckoutDays := s.systemCheckoutDays + 1);
      } else if sheet.source == Some(T.ByEmployee) {
        s := s.(employeeCheckoutDays := s.employeeCheckoutDays + 1);
      }
    }
  }

  /** A working day has a schedule. */
  function ScheduleOf(view: View, d: Date): Schedule
    requires IsWorkingDay(view.schedule, Weekday(d))
  {
    view.schedule.value
  }

  lemma NothingYet(view: View, from: Date, last: Date)
    requires last < from
    ensures Tallies(Summary(0, 0, 0, 0, 0, 0, 0, 0, 0), view, from, last)
  {
    forall mark
      ensures Days(view, mark, from, last) == {}
    {
      EmptyPeriod(view, mark, from, last);
    }
  }

  datatype PeriodReply = InvalidDateRange | FutureDateNotAllowed | DateRangeTooLarge | Counted(summary: Summary)

  /** `attendancePeriodSummary` for one employee: no future days, and at most 93 of them. */
  method PeriodSummary(view: View, from: Date, last: Date, today: Date) returns (reply: PeriodReply)
    ensures reply.Counted? <==> from <= last && from <= today && Min(last, today) - from <= 92
    ensures reply.InvalidDateRange? <==> last < from
    ensures reply.FutureDateNotAllowed? <==> today < from <= last
    ensures reply.Counted? ==> Tallies(reply.summary, view, from, Min(last, today))
  {
    if from > last {
      return InvalidDateRange;
    }
    if from > today {
      return FutureDateNotAllowed;
    }
    var lastDay := if last > today then today else last;
    if lastDay - from > 92 {
      return DateRangeTooLarge;
    }
    var summary := TallyPeriod(view, from, lastDay);
    reply := Counted(summary);
  }

  // ---------------------------------------------------------------- conservation

  /**
    * A tallied period conserves days: every working day is present, holiday, under leave or without a check-in;
    * checkouts, late days and missing checkouts are present days; leave is at most a day for each day of leave.
    */
  lemma PeriodConserves(s: Summary, view: View, from: Date, last: Date)
    requires Tallies(s, view, from, last)
    ensures var away := |Days(view, Away, from, last)|;
      && s.workingDays == s.presentDays + s.holidayDays + s.missingCheckInDays + away
      && s.employeeCheckoutDays + s.systemCheckoutDays <= s.presentDays
      && s.lateDays <= s.presentDays && s.missingCheckOutDays <= s.presentDays
      && (StoredAtMostDay(view.requests) ==> s.leaveDays <= 100 * away)
  {
    hide Days, Marked, LeaveTotal, StoredAtMostDay;
    DaysSplit(view, from, last);
    assert CountOf(s, Working) - CountOf(s, Present) - CountOf(s, Holiday) - CountOf(s, NoCheckIn) == |Days(view, Away, from, last)|;
    assert CountOf(s, EmployeeOut) + CountOf(s, SystemOut) <= CountOf(s, Present);
    assert CountOf(s, Late) <= CountOf(s, Present) && CountOf(s, NoCheckOut) <= CountOf(s, Present);
    if StoredAtMostDay(view.requests) {
      LeaveTotalBound(view, from, last);
    }
  }

  lemma {:induction false} DaysSplit(view: View, from: Date, last: Date)
    ensures |Days(view, Working, from, last)| == |Days(view, Present, from, last)| + |Days(view, Holiday, from, last)|
                                             + |Days(view, NoCheckIn, from, last)| + |Days(view, Away, from, last)|
    ensures |Days(view, EmployeeOut, from, last)| + |Days(view, SystemOut, from, last)| <= |Days(view, Present, from, last)|
    ensures |Days(view, Late, from, last)| <= |Days(view, Present, from, last)|
    ensures |Days(view, NoCheckOut, from, last)| <= |Days(view, Present, from, last)|
    decreases last - from
  {
    hide Days, IsWorkingDay, OnLeave;
    if from <= last {
      DaysSplit(view, from, last - 1);
      forall mark
        ensures |Days(view, mark, from, last)| == |Days(view, mark, from, last - 1)| + (if Marked(view, last, mark) then 1 else 0)
      {
        DaysStep(view, mark, from, last);
      }
    } else {
      forall mark
        ensures Days(view, mark, from, last) == {}
      {
        EmptyPeriod(view, mark, from, last);
      }
    }
  }

  lemma EmptyPeriod(view: View, mark: Mark, from: Date, last: Date)
    requires last < from
    ensures Days(view, mark, from, last) == {}
  {
  }

  ghost predicate StoredAtMostDay(requests: seq<Request>) {
    forall r, i :: 0 <= r < |requests| && 0 <= i < |requests[r].rows| ==> requests[r].rows[i].fraction <= 100
  }

  lemma {:induction false} LeaveTotalBound(view: View, from: Date, last: Date)
    requires StoredAtMostDay(view.requests)
    ensures LeaveTotal(view, from, last) <= 100 * |Days(view, Away, from, last)|
    decreases last - from
  {
    hide OnLeave;
    if from <= last {
      LeaveTotalBound(view, from, last - 1);
      DaysStep(view, Away, from, last);
      if Marked(view, last, Away) {
        CostAtMostDay(view, last);
      }
    }
  }

  /** The rows that the leave service stores never exceed a day. */
  lemma SeparateStored(requests: seq<Request>)
    requires DayCharges.Separate(requests)
    ensures StoredAtMostDay(requests)
  {
    forall r, i | 0 <= r < |requests| && 0 <= i < |requests[r].rows|
      ensures requests[r].rows[i].fraction <= 100
    {
      assert DayCharges.PlannedWell(requests[r]);
    }
  }

  lemma CostAtMostDay(view: View, date: Date)
    requires StoredAtMostDay(view.requests) && view.schedule.Some?
    ensures LeaveCost(view, date) <= 100
  {
    hide LeaveFraction;
    FractionAtMostOne(view.schedule.value, Weekday(date));
  }

  // ---------------------------------------------------------------- leave reported and leave approved

  function CostOnDate(q: Request, date: Date): int {
    DayCharges.CostOn(q.rows, date, |q.rows|)
  }

  /** What the rows of the approved ones of the first `n` requests cost on `date`, leaving request `f` out. */
  function OthersOn(requests: seq<Request>, date: Date, f: int, n: nat): int
    requires n <= |requests|
  {
    if n == 0 then 0
    else
      OthersOn(requests, date, f, n - 1)
      + (if n - 1 != f && requests[n - 1].status.Approved? then CostOnDate(requests[n - 1], date) else 0)
  }

  /** What all approved requests cost on `date`. */
  function ApprovedOn(requests: seq<Request>, date: Date): int {
    OthersOn(requests, date, -1, |requests|)
  }

  /** Some approved request other than `f` costs something on `date`. */
  ghost predicate OtherCosts(requests: seq<Request>, date: Date, f: int, n: nat)
    requires n <= |requests|
  {
    exists r :: 0 <= r < n && r != f && requests[r].status.Approved? && CostOnDate(requests[r], date) > 0
  }

  /** A row's cost is that of the first row found for its date; without one, and outside the range, it is 0. */
  lemma CostOnDateMeaning(q: Request, date: Date)
    requires GoodRows(q.rows, q.start, q.end)
    ensures CostOnDate(q, date) == (match RowFor(q.rows, date, 0) case Some(row) => row.fraction case None => 0)
    ensures CostOnDate(q, date) >= 0
    ensures !(q.start <= date <= q.end) ==> CostOnDate(q, date) == 0
  {
    DayCharges.CostIsOneRow(q.rows, q.start, q.end, date, |q.rows|);
  }

  lemma {:induction false} OthersMeaning(requests: seq<Request>, date: Date, f: int, n: nat)
    requires DayCharges.RowsWell(requests) && n <= |requests|
    ensures OthersOn(requests, date, f, n) >= 0
    ensures OthersOn(requests, date, f, n) > 0 <==> OtherCosts(requests, date, f, n)
  {
    hide CostOnDate, GoodRows;
    if n > 0 {
      OthersMeaning(requests, date, f, n - 1);
      CostOnDateMeaning(requests[n - 1], date);
    }
  }

  lemma {:induction false} OthersSplit(requests: seq<Request>, date: Date, f: nat, n: nat)
    requires n <= |requests| && f < |requests| && requests[f].status.Approved?
    ensures OthersOn(requests, date, -1, n) == OthersOn(requests, date, f, n) + (if f < n then CostOnDate(requests[f], date) else 0)
  {
    hide CostOnDate;
    if n > 0 {
      OthersSplit(requests, date, f, n - 1);
    }
  }

  /** Nobody's leave covers the date, and so nothing approved costs anything there. */
  lemma UncoveredCostsNothing(requests: seq<Request>, date: Date)
    requires DayCharges.RowsWell(requests) && !OnLeave(requests, date)
    ensures ApprovedOn(requests, date) == 0
  {
    hide CostOnDate, GoodRows;
    OthersMeaning(requests, date, -1, |requests|);
    forall r | 0 <= r < |requests| && requests[r].status.Approved?
      ensures CostOnDate(requests[r], date) == 0
    {
      assert !W.Covers(requests[r], date);
      CostOnDateMeaning(requests[r], date);
    }
  }

  /**
    * The period roster shows more leave than was approved: the first request that covers the working day has no row
    * for it, and the schedule in force now charges more than all other approved requests do.
    */
  ghost predicate OverReports(view: View, date: Date) {
    match FirstCover(view.requests, date, 0)
    case None => false
    case Some(f) =>
      && IsWorkingDay(view.schedule, Weekday(date))
      && RowFor(view.requests[f].rows, date, 0).None?
      && OthersOn(view.requests, date, f, |view.requests|) < LeaveFraction(view.schedule.value, Weekday(date))
  }

  /**
    * It shows less: the day is no working day any more but some approved request costs something on it; or a second
    * approved request costs something; or, without a row, the schedule in force now charges less than the others.
    */
  ghost predicate UnderReports(view: View, date: Date) {
    match FirstCover(view.requests, date, 0)
    case None => false
    case Some(f) =>
      if !IsWorkingDay(view.schedule, Weekday(date)) then OtherCosts(view.requests, date, -1, |view.requests|)
      else if RowFor(view.requests[f].rows, date, 0).Some? then OtherCosts(view.requests, date, f, |view.requests|)
      else LeaveFraction(view.schedule.value, Weekday(date)) < OthersOn(view.requests, date, f, |view.requests|)
  }

  /**
    * For every schedule, every date and the requests in whatever order they are read: the period roster counts more
    * than was approved exactly when it over-reports, less exactly when it under-reports, and else just that.
    */
  lemma ReportsAllLeaveIff(view: View, date: Date)
    requires DayCharges.RowsWell(view.requests)
    ensures ReportedOn(view, date) > ApprovedOn(view.requests, date) <==> OverReports(view, date)
    ensures ReportedOn(view, date) < ApprovedOn(view.requests, date) <==> UnderReports(view, date)
  {
    hide CostOnDate, OnLeave, FirstCover, OthersOn, OtherCosts, IsWorkingDay, LeaveFraction, GoodRows, RowFor, W.Covers;
    var n := |view.requests|;
    FoundIffOnLeave(view.requests, date);
    OthersMeaning(view.requests, date, -1, n);
    match FirstCover(view.requests, date, 0) {
      case None => UncoveredCostsNothing(view.requests, date);
      case Some(f) =>
        FirstCovers(view.requests, date);
        OthersMeaning(view.requests, date, f, n);
        OthersSplit(view.requests, date, f, n);
        CostOnDateMeaning(view.requests[f], date);
        FractionAtMostOne(ScheduleOrNone(view), Weekday(date));
    }
  }

  /** The schedule of the view, or one without working days. */
  function ScheduleOrNone(view: View): Schedule {
    match view.schedule
    case Some(schedule) => schedule
    case None => Schedule([], None, None, [])
  }

  lemma FirstCovers(requests: seq<Request>, date: Date)
    requires FirstCover(requests, date, 0).Some?
    ensures FirstCover(requests, date, 0).value < |requests|
    ensures requests[FirstCover(requests, date, 0).value].status.Approved?
  {
  }

  // ---------------------------------------------------------------- the two rosters

  /**
    * The day roster and the period roster always agree on who is missing, and they agree on who attended exactly
    * when there is no sheet on a day that the period does not look at: a day off, a leave day or a holiday.
    */
  lemma RostersAgree(view: View, date: Date)
    ensures InGroup(view, date, Expected) <==> Marked(view, date, NoCheckIn)
    ensures Marked(view, date, Present) ==> InGroup(view, date, CheckedIn)
    ensures (InGroup(view, date, CheckedIn) <==> Marked(view, date, Present))
      <==> (date !in view.sheets || (Marked(view, date, Working) && !OnLeave(view.requests, date) && date !in view.holidays))
  {
    hide IsWorkingDay, OnLeave;
  }

  function ViewOf(w: W.Workforce, employee: nat, schedule: Option<Schedule>, holidays: set<Date>): View
    requires employee in w.books
  {
    View(schedule, w.books[employee].requests, holidays,
         map d | d in W.Attended(w.sheets, employee) :: w.sheets[T.Day(employee, d)])
  }

  /**
    * As long as attendance and approved leave exclude each other, leave hides no attendance: the period roster
    * counts every sheet on a working day that is no holiday, and the day roster shows leave for every leave day.
    */
  lemma LeaveHidesNoAttendance(w: W.Workforce, employee: nat, schedule: Option<Schedule>, holidays: set<Date>, date: Date)
    requires W.Excludes(w) && employee in w.books
    ensures var view := ViewOf(w, employee, schedule, holidays);
      && (Marked(view, date, Present) <==> Marked(view, date, Working) && date !in holidays && date in view.sheets)
      && (OnLeave(view.requests, date) <==> DayState(view, date) == OnLeaveState)
  {
    hide IsWorkingDay;
    assert W.BookExcludes(w.books[employee], W.Attended(w.sheets, employee));
  }

  /** In every state that a run of a workforce can reach, the day roster shows no sheet as MISSING_CHECKOUT. */
  lemma NeverShownMissing(hires: map<nat, Date>, events: seq<W.Event>, employee: nat, schedule: Option<Schedule>,
                                             holidays: set<Date>, date: Date)
    ensures var w := W.HappenAll(W.Workforce(map e | e in hires :: EmptyBook(hires[e]), map[]), events);
      employee in w.books ==> DayState(ViewOf(w, employee, schedule, holidays), date) != FromSheet(T.MissingCheckout)
  {
    hide IsWorkingDay, OnLeave, W.HappenAll;
    W.RunWell(hires, events);
    var w := W.HappenAll(W.Workforce(map e | e in hires :: EmptyBook(hires[e]), map[]), events);
    if employee in w.books && T.Day(employee, date) in w.sheets {
      assert TL.SheetFits(w.sheets[T.Day(employee, date)]);
    }
  }

  /** In every state that a run of a workforce can reach, over- and under-reporting of leave are what they are said to be. */
  lemma RunReportsAllLeaveIff(hires: map<nat, Date>, events: seq<W.Event>, employee: nat, schedule: Option<Schedule>,
                              holidays: set<Date>, date: Date)
    ensures var w := W.HappenAll(W.Workforce(map e | e in hires :: EmptyBook(hires[e]), map[]), events);
      employee in w.books ==>
        var view := ViewOf(w, employee, schedule, holidays);
        && (ReportedOn(view, date) > ApprovedOn(view.requests, date) <==> OverReports(view, date))
        && (ReportedOn(view, date) < ApprovedOn(view.requests, date) <==> UnderReports(view, date))
  {
    hide W.HappenAll, DayCharges.Separate, DayCharges.RowsWell, ReportedOn, ApprovedOn, OverReports, UnderReports;
    W.RunWell(hires, events);
    var w := W.HappenAll(W.Workforce(map e | e in hires :: EmptyBook(hires[e]), map[]), events);
    if employee in w.books {
      DayCharges.SeparateWell(w.books[employee].requests);
      ReportsAllLeaveIff(ViewOf(w, employee, schedule, holidays), date);
    }
  }
}
