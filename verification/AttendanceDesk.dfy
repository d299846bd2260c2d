/** The timesheet table, updated by the attendance services and the two jobs row by row. */
module AttendanceDesk {
  import opened Basics
  import opened Calendar
  import opened Timesheets
  import opened TimesheetLaws
  import opened AttendanceEffects

  class Desk {
    var sheets: Sheets

    ghost predicate Valid()
      reads this
    {
      Sound(sheets)
    }

    constructor ()
      ensures Valid() && sheets == map[]
    {
      sheets := map[];
    }

    /** The sheet with check-in key `key`. */
    method FindByInKey(key: Key) returns (found: Option<Day>)
      ensures found.Some? ==> KeyOn(sheets, key, found.value)
      ensures found.None? ==> !exists d :: d in sheets && KeyOn(sheets, key, d)
    {
      var todo := sheets.Keys;
      while todo != {}
        invariant todo <= sheets.Keys
        invariant forall d :: d in sheets && d !in todo ==> !KeyOn(sheets, key, d)
        decreases todo
      {
        var d := AnyOf(todo);
        if KeyOn(sheets, key, d) {
          return Some(d);
        }
        todo := todo - {d};
      }
      return None;
    }

    method FindByOutKey(key: Key) returns (found: Option<Day>)
      ensures found.Some? ==> OutKeyOn(sheets, key, found.value)
      ensures found.None? ==> !exists d :: d in sheets && OutKeyOn(sheets, key, d)
    {
      var todo := sheets.Keys;
      while todo != {}
        invariant todo <= sheets.Keys
        invariant forall d :: d in sheets && d !in todo ==> !OutKeyOn(sheets, key, d)
        decreases todo
      {
        var d := AnyOf(todo);
        if OutKeyOn(sheets, key, d) {
          return Some(d);
        }
        todo := todo - {d};
      }
      return None;
    }

    /** The open sheet of an employee. */
    method FindOpen(employee: nat) returns (found: Option<Day>)
      requires Valid()
      ensures found.Some? <==> HasOpen(sheets, employee)
      ensures found.Some? ==> found.value == OpenDay(sheets, employee)
    {
      var todo := sheets.Keys;
      while todo != {}
        invariant todo <= sheets.Keys
        invariant forall d :: d in sheets && d !in todo ==> !(d.employee == employee && sheets[d].isOpen)
        decreases todo
      {
        var d := AnyOf(todo);
        if d.employee == employee && sheets[d].isOpen {
          return Some(d);
        }
        todo := todo - {d};
      }
      return None;
    }

    /** `checkIn`. */
    method CheckInDay(q: CheckInRequest) returns (refusal: Option<Refusal>)
      requires Valid()
      modifies this
      ensures Valid() && Reply(sheets, refusal) == CheckIn(old(sheets), q)
      ensures refusal == CheckInRefusal(old(sheets), q)
    {
      hide Sound, CheckInRefusal;
      CheckInEffect(sheets, q);
      CheckInSound(sheets, q);
      var existing := FindByInKey(ClientKey(q.key));
      if existing.Some? {
        KeyHolderUnique(sheets, ClientKey(q.key), existing.value);
        return if existing.value.employee != q.employee then Some(KeyConflict) else None;
      }
      if q.hours.None? {
        return Some(NotAWorkingDay);
      }
      if q.onLeave {
        return Some(OnApprovedLeave);
      }
      if q.onHoliday {
        return Some(OnPublicHoliday);
      }
      if !q.present {
        return Some(OutsideOffice);
      }
      var day := Day(q.employee, q.date);
      if day in sheets && sheets[day].isOpen {
        return None;
      }
      if day in sheets && !CanReCheckIn(sheets[day]) {
        return Some(DayAlreadyClosed);
      }
      var isReentry := day in sheets;
      var late := LateBy(q.hours.value, q.now) > 0;
      if isReentry {
        if q.reasonGiven || q.descriptionGiven {
          return Some(LateReasonNotAllowed);
        }
      } else {
        if late && !q.reasonGiven {
          return Some(LateReasonRequired);
        }
        if !late && (q.reasonGiven || q.descriptionGiven) {
          return Some(LateReasonNotAllowed);
        }
      }
      var open := FindOpen(q.employee);
      if open.Some? {
        return Some(AlreadyCheckedIn);
      }
      sheets := sheets[day := if isReentry then Reopened(sheets[day]) else FreshSheet(q.hours.value, q.now, ClientKey(q.key))];
      return None;
    }

    /** `closeOpenTimesheet`: closes a sheet that is still open. */
    method CloseOpenTimesheet(d: Day, at: int, atDate: Date, source: Source, key: Key) returns (closed: bool)
      requires d in sheets
      modifies this
      ensures closed <==> old(sheets[d].isOpen)
      ensures sheets == if closed then old(sheets)[d := Closed(old(sheets[d]), d.date, at, atDate, source, key)] else old(sheets)
      ensures closed ==> ClosedAt(old(sheets[d]), sheets[d], at, atDate > d.date)
      ensures closed ==> (sheets[d].isMissing <==> old(sheets[d].isMissing) || atDate > d.date || source == BySystem)
    {
      hide ClosedAt;
      ClosedEffect(sheets[d], d.date, at, atDate, source, key);
      var open := sheets[d];
      var metrics := CheckoutMetrics(open, d.date, at, atDate);
      var status := if metrics.isMissing || open.isMissing then MissingCheckout
                    else if open.isLate then CompletedLate else CompletedOnTime;
      var isMissing := open.isMissing || metrics.isMissing;
      if source.BySystem? {
        status := MissingCheckout;
        isMissing := true;
      }
      if !open.isOpen {
        return false;
      }
      sheets := sheets[d := open.(
        checkOut := Some(at), worked := metrics.worked, early := metrics.early, overtime := metrics.overtime,
        isEarly := metrics.isEarly, isMissing := isMissing, isOpen := false, status := status,
        source := Some(source), outKey := Some(key))];
      return true;
    }

    /** `checkOut`. */
    method CheckOutDay(q: CheckOutRequest) returns (refusal: Option<Refusal>)
      requires Valid()
      modifies this
      ensures Valid() && Reply(sheets, refusal) == CheckOut(old(sheets), q)
    {
      hide Sound, Closed;
      CheckOutSound(sheets, q);
      var existing := FindByOutKey(ClientKey(q.key));
      if existing.Some? {
        OutKeyHolderUnique(sheets, ClientKey(q.key), existing.value);
        return if existing.value.employee != q.employee then Some(KeyConflict) else None;
      }
      var open := FindOpen(q.employee);
      if open.None? {
        return Some(NoOpenTimesheet);
      }
      if !q.present {
        return Some(OutsideOffice);
      }
      var _ := CloseOpenTimesheet(open.value, q.now, q.date, ByEmployee, ClientKey(q.key));
      return None;
    }

    /** One round of `autoCheckoutService.run`. */
    method AutoCheckoutRow(d: Day, run: AutoRun) returns (closed: bool)
      requires d in sheets
      modifies this
      ensures closed <==> AutoCloses(d, old(sheets[d]), run)
      ensures sheets == old(sheets)[d := AutoRow(d, old(sheets[d]), run)]
      ensures closed ==> SystemMissing(sheets[d]) && sheets[d].source == Some(BySystem)
    {
      hide Closed, IsEligible, ClosedAt;
      SystemClosedMarks(d, sheets[d], run);
      if d.employee !in run.triggers || sheets[d].checkOut.Some? {
        return false;
      }
      var autoCheckoutAt := run.triggers[d.employee];
      if !IsEligible(sheets[d].checkIn, autoCheckoutAt, run.now) {
        return false;
      }
      var at := SystemCheckoutAt(sheets[d].schedOut, autoCheckoutAt);
      closed := CloseOpenTimesheet(d, at, run.localDate(d.employee, at), BySystem, SystemKey(d));
    }

    /** `autoCheckoutService.run`: `closed` counts the sheets it closed. */
    method RunAutoCheckout(run: AutoRun) returns (closed: nat)
      requires Valid()
      modifies this
      ensures Valid() && sheets == AutoCheckout(old(sheets), run)
      ensures closed == |AutoClosedDays(old(sheets), run)|
      ensures AutoMakes(old(sheets), sheets, run)
    {
      hide Sound, AutoRow, AutoCloses, AutoClosedDays, AutoCheckout, AutoMakes, SystemMissing, OpenDays, AutoProgress;
      AutoCheckoutSound(sheets, run);
      AutoEffect(sheets, run);
      ghost var start, target := sheets, AutoClosedDays(sheets, run);
      AutoClosedMeaning(start, run);
      var todo := OpenDays(sheets);
      closed := 0;
      ghost var done: set<Day> := {};
      while todo != {}
        invariant AutoProgress(start, run, sheets, todo)
        invariant done !! todo && done <= target <= done + todo && closed == |done|
        decreases todo
      {
        var d := AnyOf(todo);
        AutoProgressStep(start, run, sheets, todo, d);
        todo := todo - {d};
        var ok := AutoCheckoutRow(d, run);
        if ok {
          closed := closed + 1;
          done := done + {d};
        }
      }
      assert done == target;
      AutoProgressDone(start, run, sheets);
    }

    /** The missing-checkout job: `marked` counts the sheets it flagged. */
    method RunMissingCheckouts(cutoff: int) returns (marked: nat)
      requires Valid()
      modifies this
      ensures Valid() && sheets == FlagMissing(old(sheets), cutoff)
      ensures marked == |OverdueDays(old(sheets), cutoff)|
    {
      hide Sound, OverdueDays, FlagMissing, Overdue, Flagged, FlagProgress;
      FlagSound(sheets, cutoff);
      ghost var start := sheets;
      var candidates := OverdueDays(sheets, cutoff);
      OverdueMeaning(start, cutoff);
      var todo := candidates;
      marked := 0;
      ghost var done: set<Day> := {};
      while todo != {}
        invariant done !! todo && done + todo == candidates && marked == |done|
        invariant FlagProgress(start, sheets, done)
        decreases todo
      {
        var d := AnyOf(todo);
        FlagProgressStep(start, sheets, done, d);
        todo := todo - {d};
        if !sheets[d].isOpen || sheets[d].isMissing {
          continue;
        }
        sheets := sheets[d := Flagged(sheets[d])];
        marked := marked + 1;
        done := done + {d};
      }
      FlaggedAll(start, cutoff, sheets);
    }

    /** `correctTimesheet`. */
    method CorrectTimesheet(d: Day, checkIn: Option<int>, checkOut: Option<int>) returns (refusal: Option<Refusal>)
      requires Valid()
      modifies this
      ensures Valid() && Reply(sheets, refusal) == Correct(old(sheets), d, checkIn, checkOut)
    {
      hide Sound, Corrected;
      CorrectSound(sheets, d, checkIn, checkOut);
      if d !in sheets {
        return Some(TimesheetNotFound);
      }
      var current := sheets[d];
      var start := if checkIn.Some? then checkIn.value else current.checkIn;
      var end := if checkOut.Some? then checkOut else current.checkOut;
      if end.None? {
        return Some(CheckoutRequired);
      }
      if end.value <= start {
        return Some(InvalidTimeRange);
      }
      sheets := sheets[d := Corrected(current, start, end.value)];
      return None;
    }

    /** The timesheet half of `approve`. */
    method ApproveAsScheduled(a: Approval) returns (refusal: Option<Refusal>)
      requires Valid()
      modifies this
      ensures Valid() && Reply(sheets, refusal) == ApproveCorrectness(old(sheets), a)
    {
      hide Sound, AsScheduled, ScheduledSheet;
      ApproveSound(sheets, a);
      if a.linked {
        if a.day !in sheets {
          return Some(TimesheetNotFound);
        }
        sheets := sheets[a.day := AsScheduled(sheets[a.day], a.session)];
        return None;
      }
      if a.hours.None? {
        return Some(NotAWorkingDay);
      }
      if a.day in sheets {
        sheets := sheets[a.day := AsScheduled(sheets[a.day], a.session)];
        return None;
      }
      var sameIn := FindByInKey(RandomKey(a.inKey));
      var sameOut := FindByOutKey(RandomKey(a.outKey));
      if sameIn.Some? || sameOut.Some? {
        return Some(KeyConflict);
      }
      sheets := sheets[a.day := ScheduledSheet(a.hours.value, a.session, RandomKey(a.inKey), RandomKey(a.outKey))];
      return None;
    }
  }

  lemma SystemClosedMarks(d: Day, s: Sheet, run: AutoRun)
    ensures AutoCloses(d, s, run) ==> SystemMissing(AutoRow(d, s, run)) && AutoRow(d, s, run).source == Some(BySystem)
  {
    hide CheckoutMetrics;
  }

  /** The sheets of `todo` are still to be looked at, the others are as the job leaves them. */
  ghost predicate AutoProgress(start: Sheets, run: AutoRun, sheets: Sheets, todo: set<Day>) {
    && sheets.Keys == start.Keys && todo <= start.Keys
    && forall d :: d in start ==> sheets[d] == if d in todo then start[d] else AutoRow(d, start[d], run)
  }

  lemma AutoClosedMeaning(sheets: Sheets, run: AutoRun)
    ensures AutoClosedDays(sheets, run) <= OpenDays(sheets)
    ensures forall d :: d in AutoClosedDays(sheets, run) <==> d in sheets && AutoCloses(d, sheets[d], run)
    ensures AutoProgress(sheets, run, sheets, OpenDays(sheets))
  {
  }

  lemma AutoProgressStep(start: Sheets, run: AutoRun, sheets: Sheets, todo: set<Day>, d: Day)
    requires AutoProgress(start, run, sheets, todo) && d in todo
    ensures d in sheets && d in start && sheets[d] == start[d]
    ensures AutoProgress(start, run, sheets[d := AutoRow(d, sheets[d], run)], todo - {d})
  {
    hide AutoRow;
  }

  lemma AutoProgressDone(start: Sheets, run: AutoRun, sheets: Sheets)
    requires AutoProgress(start, run, sheets, {})
    ensures sheets == AutoCheckout(start, run)
  {
    hide AutoRow;
  }

  /** The sheets of `done` are flagged, the others as they were. */
  ghost predicate FlagProgress(start: Sheets, sheets: Sheets, done: set<Day>) {
    && sheets.Keys == start.Keys
    && forall d :: d in start ==> sheets[d] == if d in done then Flagged(start[d]) else start[d]
  }

  lemma FlagProgressStep(start: Sheets, sheets: Sheets, done: set<Day>, d: Day)
    requires FlagProgress(start, sheets, done) && d in start && d !in done
    ensures d in sheets && sheets[d] == start[d]
    ensures FlagProgress(start, sheets[d := Flagged(sheets[d])], done + {d})
  {
    hide Flagged;
  }

  lemma OverdueMeaning(sheets: Sheets, cutoff: int)
    ensures forall d :: d in OverdueDays(sheets, cutoff) ==> d in sheets && sheets[d].isOpen && !sheets[d].isMissing
    ensures FlagProgress(sheets, sheets, {})
  {
  }

  lemma FlaggedAll(sheets: Sheets, cutoff: int, after: Sheets)
    requires FlagProgress(sheets, after, OverdueDays(sheets, cutoff))
    ensures after == FlagMissing(sheets, cutoff)
  {
    hide Flagged, Overdue;
  }

  lemma KeyHolderUnique(sheets: Sheets, key: Key, d: Day)
    requires Sound(sheets) && KeyOn(sheets, key, d)
    ensures forall e :: e in sheets && KeyOn(sheets, key, e) ==> e == d
  {
  }

  lemma OutKeyHolderUnique(sheets: Sheets, key: Key, d: Day)
    requires Sound(sheets) && OutKeyOn(sheets, key, d)
    ensures forall e :: e in sheets && OutKeyOn(sheets, key, e) ==> e == d
  {
  }
}
