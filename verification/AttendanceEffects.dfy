/**
  * What each attendance step does to a sheet, told in instants and minutes: when it is refused, how late, early and
  * long a day is counted, and which sheets are missing a checkout.
  */
module AttendanceEffects {
  import opened Basics
  import opened Calendar
  import opened Timesheets
  import opened TimesheetLaws

  /** `minutes` are the whole minutes of `ms` milliseconds, none when `ms` is negative. */
  predicate Whole(minutes: int, ms: int) {
    if ms < 0 then minutes == 0 else minutes * 60000 <= ms < (minutes + 1) * 60000
  }

  lemma WholeMinutesIff(ms: int, minutes: int)
    ensures Whole(minutes, ms) <==> WholeMinutes(ms) == minutes
  {
  }

  /** The tables differ at most in the sheet of day `d`, which the second one has. */
  predicate OnlyWrites(before: Sheets, after: Sheets, d: Day) {
    after.Keys == before.Keys + {d} && forall e :: e in before && e != d ==> after[e] == before[e]
  }

  // ---------------------------------------------------------------- lateness

  /** The first instant that counts as late: the scheduled start, the grace and one more minute. */
  function LateFrom(schedIn: int, grace: int): int {
    schedIn + (grace + 1) * 60000
  }

  /** The late minutes of a sheet are what its check-in says, and it is late exactly when there is at least one. */
  predicate LateTrue(s: Sheet) {
    && Whole(s.late, s.checkIn - (s.schedIn + s.grace * 60000))
    && (s.isLate <==> s.checkIn >= LateFrom(s.schedIn, s.grace))
  }

  // ---------------------------------------------------------------- check-in

  ghost predicate KeyInUse(sheets: Sheets, key: nat) {
    exists d :: d in sheets && sheets[d].inKey == ClientKey(key)
  }

  ghost predicate OwnKey(sheets: Sheets, employee: nat, key: nat) {
    exists d :: d in sheets && sheets[d].inKey == ClientKey(key) && d.employee == employee
  }

  /** Why `checkIn` refuses: the first reason that applies. A lateness reason is due exactly from `LateFrom` on. */
  ghost function CheckInRefusal(sheets: Sheets, q: CheckInRequest): Option<Refusal> {
    var day, excused := Day(q.employee, q.date), q.reasonGiven || q.descriptionGiven;
    if OwnKey(sheets, q.employee, q.key) then None
    else if KeyInUse(sheets, q.key) then Some(KeyConflict)
    else if q.hours == None then Some(NotAWorkingDay)
    else if q.onLeave then Some(OnApprovedLeave)
    else if q.onHoliday then Some(OnPublicHoliday)
    else if !q.present then Some(OutsideOffice)
    else if day in sheets && sheets[day].isOpen then None
    else if day in sheets && sheets[day].source != Some(ByEmployee) then Some(DayAlreadyClosed)
    else
      var late := day !in sheets && q.now >= LateFrom(q.hours.value.schedIn, q.hours.value.grace);
      if late && !q.reasonGiven then Some(LateReasonRequired)
      else if !late && excused then Some(LateReasonNotAllowed)
      else if exists d :: d in sheets && d.employee == q.employee && sheets[d].isOpen then Some(AlreadyCheckedIn)
      else None
  }

  /** The sheet that a first check-in opens. */
  predicate ArrivalMakes(q: CheckInRequest, t: Sheet) {
    && q.hours == Some(Hours(t.schedIn, t.schedOut, t.grace)) && t.checkIn == q.now && LateTrue(t)
    && t.status == (if t.isLate then PresentLate else PresentOnTime) && t.isOpen && t.checkOut == None
    && t.worked == 0 && t.early == 0 && t.overtime == 0 && !t.isEarly && !t.isMissing
    && t.source == None && t.inKey == ClientKey(q.key) && t.outKey == None
  }

  /** A re-entry opens the sheet again and forgets its checkout, but keeps the arrival and its lateness. */
  predicate ReentryMakes(s: Sheet, t: Sheet) {
    && t.isOpen && t.checkOut == None && t.status == (if s.isLate then PresentLate else PresentOnTime)
    && t.worked == 0 && t.early == 0 && t.overtime == 0 && !t.isEarly && !t.isMissing
    && t.source == None && t.outKey == None && t.inKey == s.inKey && SameArrival(s, t)
  }

  /**
    * `checkIn` refuses for the first reason that applies and changes nothing then. A repeated key of the employee and a
    * day that is still open change nothing either; otherwise exactly the sheet of the day is written: opened again when
    * the employee had closed it, and else new, late exactly when the check-in is a full minute past the grace.
    */
  lemma CheckInEffect(sheets: Sheets, q: CheckInRequest)
    ensures var day, reply := Day(q.employee, q.date), CheckIn(sheets, q);
      && reply.refusal == CheckInRefusal(sheets, q)
      && (if reply.refusal.Some? || OwnKey(sheets, q.employee, q.key) || (day in sheets && sheets[day].isOpen)
          then reply.sheets == sheets
          else OnlyWrites(sheets, reply.sheets, day)
               && if day in sheets then ReentryMakes(sheets[day], reply.sheets[day]) else ArrivalMakes(q, reply.sheets[day]))
  {
    KeysAgree(sheets, q.employee, q.key);
    if q.hours.Some? {
      LateByIff(q.hours.value, q.now);
    }
    hide LateBy, LateTrue, Whole, LateFrom;
    if q.hours.Some? {
      FreshLate(q.hours.value, q.now, ClientKey(q.key));
    }
  }

  lemma KeysAgree(sheets: Sheets, employee: nat, key: nat)
    ensures KeyInUse(sheets, key) <==> exists d :: d in sheets && KeyOn(sheets, ClientKey(key), d)
    ensures OwnKey(sheets, employee, key) <==> exists d :: d in sheets && KeyOn(sheets, ClientKey(key), d) && d.employee == employee
  {
    if KeyInUse(sheets, key) {
      var d :| d in sheets && sheets[d].inKey == ClientKey(key);
      assert KeyOn(sheets, ClientKey(key), d);
    }
    if OwnKey(sheets, employee, key) {
      var d :| d in sheets && sheets[d].inKey == ClientKey(key) && d.employee == employee;
      assert KeyOn(sheets, ClientKey(key), d);
    }
  }

  lemma LateByIff(hours: Hours, now: int)
    ensures LateBy(hours, now) > 0 <==> now >= LateFrom(hours.schedIn, hours.grace)
  {
  }

  lemma FreshLate(hours: Hours, now: int, key: Key)
    ensures LateTrue(FreshSheet(hours, now, key))
  {
    LateByIff(hours, now);
    WholeMinutesIff(now - (hours.schedIn + hours.grace * MINUTE), LateBy(hours, now));
  }

  // ---------------------------------------------------------------- closing

  /**
    * The minutes and the status of a closed sheet are what its times call for. A checkout on a later date than the
    * sheet's own counts the day up to its scheduled end.
    */
  predicate Counted(t: Sheet, laterDate: bool) {
    && t.checkOut.Some? && !t.isOpen
    && t.status == (if t.isMissing then MissingCheckout else if t.isLate then CompletedLate else CompletedOnTime)
    && var at := t.checkOut.value;
       if laterDate
       then Whole(t.worked, t.schedOut - t.checkIn) && t.early == 0 && t.overtime == 0 && !t.isEarly
       else Whole(t.worked, at - t.checkIn) && Whole(t.early, t.schedOut - at) && Whole(t.overtime, at - t.schedOut)
            && (t.isEarly <==> t.schedOut - at >= 60000)
  }

  /** Sheet `t` is `s` closed at `at`, with arrival and lateness kept. */
  predicate ClosedAt(s: Sheet, t: Sheet, at: int, laterDate: bool) {
    SameArrival(s, t) && t.inKey == s.inKey && t.checkOut == Some(at) && Counted(t, laterDate)
  }

  lemma ClosedEffect(s: Sheet, workDate: Date, at: int, atDate: Date, source: Source, key: Key)
    ensures var t := Closed(s, workDate, at, atDate, source, key);
      && ClosedAt(s, t, at, atDate > workDate) && t.source == Some(source) && t.outKey == Some(key)
      && (t.isMissing <==> s.isMissing || atDate > workDate || source == BySystem)
  {
    hide WholeMinutes, Whole;
    WholeMinutesIff(s.schedOut - s.checkIn, WholeMinutes(s.schedOut - s.checkIn));
    WholeMinutesIff(at - s.checkIn, WholeMinutes(at - s.checkIn));
    WholeMinutesIff(s.schedOut - at, WholeMinutes(s.schedOut - at));
    WholeMinutesIff(at - s.schedOut, WholeMinutes(at - s.schedOut));
    MinuteOrNone(s.schedOut - at);
    MinuteOrNone(at - s.schedOut);
    WholeMinutesIff(s.schedOut - at, 0);
    WholeMinutesIff(at - s.schedOut, 0);
  }

  lemma MinuteOrNone(ms: int)
    ensures WholeMinutes(ms) > 0 <==> ms >= 60000
    ensures Whole(0, ms) <==> ms < 60000
  {
  }

  ghost predicate OutKeyInUse(sheets: Sheets, key: nat) {
    exists d :: d in sheets && sheets[d].outKey == Some(ClientKey(key))
  }

  ghost predicate OwnOutKey(sheets: Sheets, employee: nat, key: nat) {
    exists d :: d in sheets && sheets[d].outKey == Some(ClientKey(key)) && d.employee == employee
  }

  /** Why `checkOut` refuses: the first reason that applies. */
  ghost function CheckOutRefusal(sheets: Sheets, q: CheckOutRequest): Option<Refusal> {
    if OwnOutKey(sheets, q.employee, q.key) then None
    else if OutKeyInUse(sheets, q.key) then Some(KeyConflict)
    else if forall d :: d in sheets && d.employee == q.employee ==> !sheets[d].isOpen then Some(NoOpenTimesheet)
    else if !q.present then Some(OutsideOffice)
    else None
  }

  /**
    * `checkOut` refuses for the first reason that applies and changes nothing then, nor on a repeated key of the
    * employee. Otherwise it closes exactly the open sheet of the employee at the instant of the request, and flags it
    * exactly when it was flagged before or the checkout falls on a later date than its own.
    */
  lemma CheckOutEffect(sheets: Sheets, q: CheckOutRequest, d: Day)
    requires Sound(sheets)
    ensures var reply := CheckOut(sheets, q);
      && reply.refusal == CheckOutRefusal(sheets, q)
      && (if reply.refusal.Some? || OwnOutKey(sheets, q.employee, q.key) then reply.sheets == sheets
          else d in sheets && d.employee == q.employee && sheets[d].isOpen ==>
            && OnlyWrites(sheets, reply.sheets, d)
            && var s, t := sheets[d], reply.sheets[d];
               && ClosedAt(s, t, q.now, q.date > d.date) && t.source == Some(ByEmployee) && t.outKey == Some(ClientKey(q.key))
               && (t.isMissing <==> s.isMissing || q.date > d.date))
  {
    hide Closed, ClosedAt, AllFit, KeysUnique;
    OutKeysAgree(sheets, q.employee, q.key);
    if d in sheets && d.employee == q.employee && sheets[d].isOpen {
      assert HasOpen(sheets, q.employee);
      assert OpenDay(sheets, q.employee) == d;
      ClosedEffect(sheets[d], d.date, q.now, q.date, ByEmployee, ClientKey(q.key));
    }
  }

  lemma OutKeysAgree(sheets: Sheets, employee: nat, key: nat)
    ensures OutKeyInUse(sheets, key) <==> exists d :: d in sheets && OutKeyOn(sheets, ClientKey(key), d)
    ensures OwnOutKey(sheets, employee, key) <==> exists d :: d in sheets && OutKeyOn(sheets, ClientKey(key), d) && d.employee == employee
  {
    if OutKeyInUse(sheets, key) {
      var d :| d in sheets && sheets[d].outKey == Some(ClientKey(key));
      assert OutKeyOn(sheets, ClientKey(key), d);
    }
    if OwnOutKey(sheets, employee, key) {
      var d :| d in sheets && sheets[d].outKey == Some(ClientKey(key)) && d.employee == employee;
      assert OutKeyOn(sheets, ClientKey(key), d);
    }
  }

  // ---------------------------------------------------------------- the two jobs

  /** The job closes exactly the open sheets of employees with a trigger that has come and lies after the check-in. */
  predicate TriggerCloses(d: Day, s: Sheet, run: AutoRun) {
    s.isOpen && d.employee in run.triggers && s.checkIn < run.triggers[d.employee] <= run.now
  }

  /** What a run of the job makes of sheet `s` of day `d`. */
  predicate AutoMakesRow(d: Day, s: Sheet, t: Sheet, run: AutoRun) {
    if !TriggerCloses(d, s, run) then t == s
    else
      var trigger := run.triggers[d.employee];
      var at := if 0 < s.schedOut <= trigger then s.schedOut else trigger;
      && ClosedAt(s, t, at, run.localDate(d.employee, at) > d.date)
      && t.isMissing && t.source == Some(BySystem) && t.outKey == Some(SystemKey(d))
  }

  ghost predicate AutoMakes(before: Sheets, after: Sheets, run: AutoRun) {
    after.Keys == before.Keys && forall d :: d in before ==> AutoMakesRow(d, before[d], after[d], run)
  }

  lemma AutoRowEffect(d: Day, s: Sheet, run: AutoRun)
    requires SheetFits(s)
    ensures AutoMakesRow(d, s, AutoRow(d, s, run), run)
  {
    hide Closed, ClosedAt;
    if TriggerCloses(d, s, run) {
      var at := SystemCheckoutAt(s.schedOut, run.triggers[d.employee]);
      ClosedEffect(s, d.date, at, run.localDate(d.employee, at), BySystem, SystemKey(d));
    }
  }

  /**
    * The auto-checkout job closes those sheets and no others, at their scheduled end when that is a positive instant
    * not after the trigger and else at the trigger, and flags every one of them as missing its checkout.
    */
  lemma AutoEffect(sheets: Sheets, run: AutoRun)
    requires Sound(sheets)
    ensures AutoMakes(sheets, AutoCheckout(sheets, run), run)
  {
    hide SheetFits, AutoRow, AutoMakesRow, OneOpen, KeysUnique;
    forall d | d in sheets
      ensures AutoMakesRow(d, sheets[d], AutoCheckout(sheets, run)[d], run)
    {
      AutoRowEffect(d, sheets[d], run);
    }
  }

  /** The missing-checkout job flags exactly the open sheets whose scheduled end lies before the cutoff, and only that. */
  lemma FlagEffect(sheets: Sheets, cutoff: int, d: Day)
    requires Sound(sheets) && d in sheets
    ensures var after := FlagMissing(sheets, cutoff);
      after.Keys == sheets.Keys &&
      var s, t := sheets[d], after[d];
      && (t.isMissing <==> s.isMissing || (s.isOpen && s.schedOut < cutoff))
      && t == s.(isMissing := t.isMissing, status := if t.isMissing then MissingCheckout else s.status)
  {
    hide OneOpen, KeysUnique;
    assert SheetFits(sheets[d]);
  }

  // ---------------------------------------------------------------- corrections

  /** Why `correctTimesheet` refuses: the first reason that applies. */
  function CorrectRefusal(sheets: Sheets, d: Day, checkIn: Option<int>, checkOut: Option<int>): Option<Refusal> {
    if d !in sheets then Some(TimesheetNotFound)
    else
      var end := if checkOut == None then sheets[d].checkOut else checkOut;
      if end == None then Some(CheckoutRequired)
      else if (if checkIn == None then sheets[d].checkIn else checkIn.value) >= end.value then Some(InvalidTimeRange)
      else None
  }

  /**
    * A correction takes the times it is given and keeps the others, and recounts all minutes from them and the stored
    * schedule; it closes the sheet for the administrator and clears its missing flag. Refused, it changes nothing.
    */
  lemma CorrectEffect(sheets: Sheets, d: Day, checkIn: Option<int>, checkOut: Option<int>)
    ensures var reply := Correct(sheets, d, checkIn, checkOut);
      && reply.refusal == CorrectRefusal(sheets, d, checkIn, checkOut)
      && (if reply.refusal.Some? then reply.sheets == sheets
          else
            && OnlyWrites(sheets, reply.sheets, d)
            && var s, t := sheets[d], reply.sheets[d];
               && t.checkIn == (if checkIn == None then s.checkIn else checkIn.value)
               && t.checkOut == (if checkOut == None then s.checkOut else checkOut)
               && Counted(t, false) && LateTrue(t)
               && t.source == Some(ByAdmin) && !t.isMissing && t.outKey == s.outKey && t.inKey == s.inKey
               && t.schedIn == s.schedIn && t.schedOut == s.schedOut && t.grace == s.grace)
  {
    hide Corrected, LateTrue, Counted;
    if CorrectRefusal(sheets, d, checkIn, checkOut).None? {
      var s := sheets[d];
      CorrectedEffect(s, if checkIn == None then s.checkIn else checkIn.value, (if checkOut == None then s.checkOut else checkOut).value);
    }
  }

  lemma CorrectedEffect(s: Sheet, checkIn: int, checkOut: int)
    ensures var t := Corrected(s, checkIn, checkOut);
      && t.checkIn == checkIn && t.checkOut == Some(checkOut)
      && Counted(t, false) && LateTrue(t)
      && t.source == Some(ByAdmin) && !t.isMissing && t.outKey == s.outKey && t.inKey == s.inKey
      && t.schedIn == s.schedIn && t.schedOut == s.schedOut && t.grace == s.grace
  {
    hide WholeMinutes, Whole;
    WholeMinutesIff(checkOut - checkIn, WholeMinutes(checkOut - checkIn));
    WholeMinutesIff(s.schedOut - checkOut, WholeMinutes(s.schedOut - checkOut));
    WholeMinutesIff(checkOut - s.schedOut, WholeMinutes(checkOut - s.schedOut));
    WholeMinutesIff(checkIn - (s.schedIn + s.grace * MINUTE), WholeMinutes(checkIn - (s.schedIn + s.grace * MINUTE)));
    MinuteOrNone(s.schedOut - checkOut);
    MinuteOrNone(checkIn - (s.schedIn + s.grace * MINUTE));
  }

  /** The scheduled times of a session: the day, its first half or its second half, cut at the whole millisecond before the middle. */
  predicate SessionTimes(schedIn: int, schedOut: int, session: DayFraction.Session, start: int, end: int) {
    match session
    case Full => start == schedIn && end == schedOut
    case Morning => start == schedIn && schedIn + schedOut - 1 <= 2 * end <= schedIn + schedOut
    case Afternoon => schedIn + schedOut - 1 <= 2 * start <= schedIn + schedOut && end == schedOut
  }

  /** A closed, punctual day with exactly the scheduled times of the session. */
  predicate PunctualSession(t: Sheet, session: DayFraction.Session) {
    && t.checkOut.Some? && SessionTimes(t.schedIn, t.schedOut, session, t.checkIn, t.checkOut.value)
    && Whole(t.worked, t.checkOut.value - t.checkIn)
    && t.late == 0 && t.early == 0 && t.overtime == 0 && !t.isLate && !t.isEarly && !t.isMissing
    && !t.isOpen && t.status == CompletedOnTime
  }

  ghost predicate RandomKeyInUse(sheets: Sheets, inKey: nat, outKey: nat) {
    exists d :: d in sheets && (sheets[d].inKey == RandomKey(inKey) || sheets[d].outKey == Some(RandomKey(outKey)))
  }

  /** Why the approval of a correctness request refuses: the first reason that applies. */
  ghost function ApproveRefusal(sheets: Sheets, a: Approval): Option<Refusal> {
    if a.linked && a.day !in sheets then Some(TimesheetNotFound)
    else if !a.linked && a.hours == None then Some(NotAWorkingDay)
    else if a.day !in sheets && RandomKeyInUse(sheets, a.inKey, a.outKey) then Some(KeyConflict)
    else None
  }

  /**
    * Approving a correctness request makes the sheet of its day, which it creates when there is none, a punctual day of
    * the session asked for; who closed it and its keys stay. Refused, it changes nothing.
    */
  lemma ApproveEffect(sheets: Sheets, a: Approval)
    ensures var reply := ApproveCorrectness(sheets, a);
      && reply.refusal == ApproveRefusal(sheets, a)
      && (if reply.refusal.Some? then reply.sheets == sheets
          else
            && OnlyWrites(sheets, reply.sheets, a.day)
            && var t := reply.sheets[a.day];
               && PunctualSession(t, a.session)
               && if a.day in sheets then
                    var s := sheets[a.day];
                    && t.source == s.source && t.inKey == s.inKey && t.outKey == s.outKey
                    && t.schedIn == s.schedIn && t.schedOut == s.schedOut && t.grace == s.grace
                  else
                    && t.source == None && t.inKey == RandomKey(a.inKey) && t.outKey == Some(RandomKey(a.outKey))
                    && a.hours == Some(Hours(t.schedIn, t.schedOut, t.grace)))
  {
    hide SessionActuals, SessionTimes, Whole;
    if a.day in sheets {
      ActualsEffect(sheets[a.day].schedIn, sheets[a.day].schedOut, a.session);
    } else if a.hours.Some? {
      ActualsEffect(a.hours.value.schedIn, a.hours.value.schedOut, a.session);
    }
  }

  lemma ActualsEffect(schedIn: int, schedOut: int, session: DayFraction.Session)
    ensures var a := SessionActuals(schedIn, schedOut, session);
      SessionTimes(schedIn, schedOut, session, a.checkIn, a.checkOut) && Whole(a.worked, a.checkOut - a.checkIn)
  {
    var a := SessionActuals(schedIn, schedOut, session);
    WholeMinutesIff(a.checkOut - a.checkIn, a.worked);
  }

  // ---------------------------------------------------------------- over whole runs

  /** An approval of a correctness request for day `d` that is not refused once the day has a sheet. */
  predicate Approves(step: Step, d: Day) {
    step.ApproveStep? && step.approval.day == d && (step.approval.linked || step.approval.hours.Some?)
  }

  lemma SameArrivalLate(s: Sheet, t: Sheet)
    requires SameArrival(s, t) && LateTrue(s)
    ensures LateTrue(t)
  {
  }

  lemma StepKeepsLate(sheets: Sheets, step: Step, d: Day)
    requires d in Take(sheets, step) && (d in sheets ==> LateTrue(sheets[d]))
    requires step.ApproveStep? ==> step.approval.day != d
    ensures LateTrue(Take(sheets, step)[d])
  {
    hide CheckIn, CheckOut, Correct, LateTrue, ArrivalMakes, SameArrival;
    if step.CorrectStep? && step.day == d {
      CorrectEffect(sheets, d, step.start, step.end);
    } else if d in sheets {
      StepKeepsArrival(sheets, step, d);
      SameArrivalLate(sheets[d], Take(sheets, step)[d]);
    } else {
      NewByCheckIn(sheets, step, d);
    }
  }

  lemma NewByCheckIn(sheets: Sheets, step: Step, d: Day)
    requires d !in sheets && d in Take(sheets, step) && (step.ApproveStep? ==> step.approval.day != d)
    ensures LateTrue(Take(sheets, step)[d])
  {
    hide CheckIn, LateTrue, SessionActuals, Corrected, Closed, AutoRow, Flagged;
    if step.CheckInStep? {
      CheckInEffect(sheets, step.checkIn);
    }
  }

  /** Along every run that approves no correctness request of the day, the late minutes and the late flag are true. */
  lemma {:induction false} LateInRuns(steps: seq<Step>, d: Day)
    requires forall i :: 0 <= i < |steps| && steps[i].ApproveStep? ==> steps[i].approval.day != d
    ensures var sheets := TakeAll(map[], steps); d in sheets ==> LateTrue(sheets[d])
  {
    hide Take, LateTrue;
    if steps != [] {
      LateInRuns(steps[..|steps| - 1], d);
      if d in TakeAll(map[], steps) {
        StepKeepsLate(TakeAll(map[], steps[..|steps| - 1]), steps[|steps| - 1], d);
      }
    }
  }

  /**
    * A correction that leaves the check-in alone keeps the late minutes and the late flag exactly when they were true
    * of it; they are along every run without an approval for that day.
    */
  lemma CorrectionKeepsLateIff(sheets: Sheets, d: Day, checkOut: Option<int>)
    requires Correct(sheets, d, None, checkOut).refusal.None?
    ensures d in sheets && d in Correct(sheets, d, None, checkOut).sheets
    ensures var s, t := sheets[d], Correct(sheets, d, None, checkOut).sheets[d];
      t.late == s.late && t.isLate == s.isLate <==> LateTrue(s)
  {
    hide Correct, Counted, Whole;
    CorrectEffect(sheets, d, None, checkOut);
    var s, t := sheets[d], Correct(sheets, d, None, checkOut).sheets[d];
    var ms := s.checkIn - (s.schedIn + s.grace * 60000);
    WholeMinutesIff(ms, s.late);
    WholeMinutesIff(ms, t.late);
  }

  /** What every sheet closed by the system shows. */
  predicate SystemMissing(s: Sheet) {
    s.source == Some(BySystem) ==> s.isMissing && !s.isOpen && s.checkOut.Some? && s.status == MissingCheckout
  }

  lemma StepKeepsMissing(sheets: Sheets, step: Step, d: Day)
    requires Sound(sheets) && d in Take(sheets, step) && (d in sheets ==> SystemMissing(sheets[d])) && !Approves(step, d)
    ensures SystemMissing(Take(sheets, step)[d])
  {
    hide CheckIn, CheckOut, Correct, AutoCheckout, FlagMissing, ApproveCorrectness, Sound, Whole, LateTrue, SameArrival;
    TakeSound(sheets, step);
    match step
    case CheckInStep(q) => CheckInEffect(sheets, q);
    case CheckOutStep(q) => CheckOutMissing(sheets, q, d);
    case AutoCheckoutStep(run) => AutoEffect(sheets, run);
    case FlagStep(cutoff) =>
      FlagKeepsDays(sheets, cutoff);
      FlagEffect(sheets, cutoff, d);
    case CorrectStep(day, start, end) => CorrectEffect(sheets, day, start, end);
    case ApproveStep(a) => ApproveEffect(sheets, a);
  }

  lemma FlagKeepsDays(sheets: Sheets, cutoff: int)
    ensures FlagMissing(sheets, cutoff).Keys == sheets.Keys
  {
  }

  lemma CheckOutMissing(sheets: Sheets, q: CheckOutRequest, d: Day)
    requires Sound(sheets) && d in CheckOut(sheets, q).sheets && (d in sheets ==> SystemMissing(sheets[d]))
    ensures SystemMissing(CheckOut(sheets, q).sheets[d])
  {
    hide Sound, Closed, Counted;
    if CheckOut(sheets, q).sheets != sheets {
      var e := OpenDay(sheets, q.employee);
      ClosedEffect(sheets[e], e.date, q.now, q.date, ByEmployee, ClientKey(q.key));
    }
  }

  lemma {:induction false} MissingInRuns(steps: seq<Step>, d: Day)
    requires forall i :: 0 <= i < |steps| ==> !Approves(steps[i], d)
    ensures var sheets := TakeAll(map[], steps); d in sheets ==> SystemMissing(sheets[d])
  {
    hide Take, SystemMissing, Approves, Sound;
    if steps != [] {
      MissingInRuns(steps[..|steps| - 1], d);
      EmptySound();
      StepsSound(map[], steps[..|steps| - 1]);
      if d in TakeAll(map[], steps) {
        StepKeepsMissing(TakeAll(map[], steps[..|steps| - 1]), steps[|steps| - 1], d);
      }
    }
  }

  lemma EmptySound()
    ensures Sound(map[])
  {
  }

  /** Along every run that approves no correctness request of the day, a sheet closed by the system lacks its checkout. */
  lemma SystemClosedMissing(steps: seq<Step>, d: Day)
    requires forall i :: 0 <= i < |steps| ==> !Approves(steps[i], d)
    ensures var sheets := TakeAll(map[], steps);
      d in sheets && sheets[d].source == Some(BySystem) ==>
        sheets[d].isMissing && !sheets[d].isOpen && sheets[d].checkOut.Some? && sheets[d].status == MissingCheckout
  {
    hide TakeAll, Approves;
    MissingInRuns(steps, d);
  }

  lemma StepKeepsSystem(sheets: Sheets, step: Step, d: Day)
    requires d in sheets && PermanentlyClosed(sheets[d])
    ensures d in Take(sheets, step)
    ensures var s, t := sheets[d], Take(sheets, step)[d];
      t.source == Some(BySystem) ==> s.source == Some(BySystem) && (t.isMissing <==> s.isMissing && !Approves(step, d))
  {
    hide SessionActuals, CheckoutMetrics, WholeMinutes;
    if step.CheckOutStep? && CheckOut(sheets, step.checkOut).sheets != sheets {
      assert sheets[OpenDay(sheets, step.checkOut.employee)].isOpen;
    }
  }

  /**
    * From a system close on, whatever steps follow, a sheet still held as closed by the system lacks its checkout
    * exactly when no correctness request of its day was approved since.
    */
  lemma {:induction false} SystemMissingIff(sheets: Sheets, steps: seq<Step>, d: Day)
    requires d in sheets && !sheets[d].isOpen && sheets[d].source == Some(BySystem) && sheets[d].isMissing
    ensures var later := TakeAll(sheets, steps);
      && d in later && PermanentlyClosed(later[d])
      && (later[d].source == Some(BySystem) ==>
            (later[d].isMissing <==> forall i :: 0 <= i < |steps| ==> !Approves(steps[i], d)))
  {
    hide Take, Approves;
    ClosureAbsorbs(sheets, steps, d);
    if steps != [] {
      var rest := steps[..|steps| - 1];
      SystemMissingIff(sheets, rest, d);
      StepKeepsSystem(TakeAll(sheets, rest), steps[|steps| - 1], d);
      assert forall i :: 0 <= i < |rest| ==> rest[i] == steps[i];
    }
  }
}
