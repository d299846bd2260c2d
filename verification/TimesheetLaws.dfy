/** What every interleaving of attendance steps keeps of the timesheets. */
module TimesheetLaws {
  import opened Basics
  import opened Calendar
  import opened Timesheets

  // ---------------------------------------------------------------- one sheet

  /** The status that the flags of a sheet call for. */
  function StatusOf(isOpen: bool, isMissing: bool, isLate: bool): SheetStatus {
    if isMissing then MissingCheckout
    else if isOpen then (if isLate then PresentLate else PresentOnTime)
    else (if isLate then CompletedLate else CompletedOnTime)
  }

  /** The redundant columns of a sheet agree. */
  predicate SheetFits(s: Sheet) {
    && (s.isOpen <==> s.checkOut.None?)
    && (s.isOpen ==> s.source.None?)
    && s.status == StatusOf(s.isOpen, s.isMissing, s.isLate)
    && (s.isLate <==> s.late > 0)
    && (s.isEarly <==> s.early > 0)
    && s.late >= 0 && s.worked >= 0 && s.early >= 0 && s.overtime >= 0
    && !(s.early > 0 && s.overtime > 0)
    && (s.isOpen ==> s.worked == 0 && s.early == 0 && s.overtime == 0)
  }

  lemma ClosedFits(s: Sheet, workDate: Date, at: int, atDate: Date, source: Source, key: Key)
    requires SheetFits(s)
    ensures SheetFits(Closed(s, workDate, at, atDate, source, key))
  {
  }

  lemma CorrectedFits(s: Sheet, checkIn: int, checkOut: int)
    ensures SheetFits(Corrected(s, checkIn, checkOut))
  {
    if checkOut <= s.schedOut {
      assert (checkOut - s.schedOut) / MINUTE <= 0;
    } else {
      assert (s.schedOut - checkOut) / MINUTE <= 0;
    }
  }

  lemma ScheduledFits(s: Sheet, session: DayFraction.Session)
    requires SheetFits(s)
    ensures SheetFits(AsScheduled(s, session))
  {
  }

  lemma CreatedFits(hours: Hours, session: DayFraction.Session, inKey: Key, outKey: Key)
    ensures SheetFits(ScheduledSheet(hours, session, inKey, outKey))
  {
  }

  // ---------------------------------------------------------------- the table

  ghost predicate AllFit(sheets: Sheets) {
    forall d :: d in sheets ==> SheetFits(sheets[d])
  }

  ghost predicate OneOpen(sheets: Sheets) {
    forall d, e :: d in sheets && e in sheets && d.employee == e.employee && sheets[d].isOpen && sheets[e].isOpen ==> d == e
  }

  /** No two sheets share a check-in key or a checkout key, and a system key names its own sheet. */
  ghost predicate KeysUnique(sheets: Sheets) {
    && (forall d, e :: d in sheets && e in sheets && sheets[d].inKey == sheets[e].inKey ==> d == e)
    && (forall d, e :: d in sheets && e in sheets && sheets[d].outKey.Some? && sheets[d].outKey == sheets[e].outKey ==> d == e)
    && (forall d :: d in sheets && sheets[d].outKey.Some? && sheets[d].outKey.value.SystemKey? ==> sheets[d].outKey.value.day == d)
  }

  ghost predicate Sound(sheets: Sheets) {
    AllFit(sheets) && OneOpen(sheets) && KeysUnique(sheets)
  }

  datatype Step =
    | CheckInStep(checkIn: CheckInRequest)
    | CheckOutStep(checkOut: CheckOutRequest)
    | AutoCheckoutStep(run: AutoRun)
    | FlagStep(cutoff: int)
    | CorrectStep(day: Day, start: Option<int>, end: Option<int>)
    | ApproveStep(approval: Approval)

  ghost function Take(sheets: Sheets, step: Step): Sheets {
    match step
    case CheckInStep(q) => CheckIn(sheets, q).sheets
    case CheckOutStep(q) => CheckOut(sheets, q).sheets
    case AutoCheckoutStep(run) => AutoCheckout(sheets, run)
    case FlagStep(cutoff) => FlagMissing(sheets, cutoff)
    case CorrectStep(day, start, end) => Correct(sheets, day, start, end).sheets
    case ApproveStep(approval) => ApproveCorrectness(sheets, approval).sheets
  }

  ghost function TakeAll(sheets: Sheets, steps: seq<Step>): Sheets {
    if steps == [] then sheets else Take(TakeAll(sheets, steps[..|steps| - 1]), steps[|steps| - 1])
  }

  /** A row may be written when it fits, opens no second sheet, and its keys are its own. */
  predicate KeysFree(sheets: Sheets, day: Day, s: Sheet) {
    && (forall d :: d in sheets && d != day ==> sheets[d].inKey != s.inKey)
    && (forall d :: d in sheets && d != day && s.outKey.Some? ==> sheets[d].outKey != s.outKey)
    && (s.outKey.Some? && s.outKey.value.SystemKey? ==> s.outKey.value.day == day)
  }

  lemma WriteSound(sheets: Sheets, day: Day, s: Sheet)
    requires Sound(sheets) && SheetFits(s) && KeysFree(sheets, day, s)
    requires s.isOpen ==> !HasOpen(sheets, day.employee) || (day in sheets && sheets[day].isOpen)
    ensures Sound(sheets[day := s])
  {
    hide SheetFits;
  }

  /** Rewriting a row without touching its keys, or clearing its checkout key. */
  lemma OwnKeysFree(sheets: Sheets, day: Day, s: Sheet)
    requires KeysUnique(sheets) && day in sheets
    requires s.inKey == sheets[day].inKey && (s.outKey.None? || s.outKey == sheets[day].outKey)
    ensures KeysFree(sheets, day, s)
  {
  }

  lemma FreshFits(hours: Hours, now: int, key: Key)
    ensures SheetFits(FreshSheet(hours, now, key))
  {
  }

  lemma ReopenedFits(s: Sheet)
    requires SheetFits(s)
    ensures SheetFits(Reopened(s))
  {
  }

  lemma CheckInSound(sheets: Sheets, q: CheckInRequest)
    requires Sound(sheets)
    ensures Sound(CheckIn(sheets, q).sheets)
  {
    hide SheetFits, LateBy, HasOpen, KeyOn, KeysUnique;
    var day := Day(q.employee, q.date);
    if CheckIn(sheets, q).sheets != sheets {
      if day in sheets {
        ReopenedFits(sheets[day]);
        OwnKeysFree(sheets, day, Reopened(sheets[day]));
        WriteSound(sheets, day, Reopened(sheets[day]));
      } else {
        var s := FreshSheet(q.hours.value, q.now, ClientKey(q.key));
        FreshFits(q.hours.value, q.now, ClientKey(q.key));
        NewKeyFree(sheets, day, s);
        WriteSound(sheets, day, s);
      }
    }
  }

  /** A check-in key that no sheet holds is free. */
  lemma NewKeyFree(sheets: Sheets, day: Day, s: Sheet)
    requires !exists d :: d in sheets && KeyOn(sheets, s.inKey, d)
    requires s.outKey.None?
    ensures KeysFree(sheets, day, s)
  {
    forall d | d in sheets
      ensures sheets[d].inKey != s.inKey
    {
      assert !KeyOn(sheets, s.inKey, d);
    }
  }

  lemma CheckOutSound(sheets: Sheets, q: CheckOutRequest)
    requires Sound(sheets)
    ensures Sound(CheckOut(sheets, q).sheets)
  {
    hide SheetFits, CheckoutMetrics;
    if CheckOut(sheets, q).sheets != sheets {
      var day := OpenDay(sheets, q.employee);
      ClosedFits(sheets[day], day.date, q.now, q.date, ByEmployee, ClientKey(q.key));
      forall d | d in sheets
        ensures sheets[d].outKey != Some(ClientKey(q.key))
      {
        assert !OutKeyOn(sheets, ClientKey(q.key), d);
      }
      WriteSound(sheets, day, Closed(sheets[day], day.date, q.now, q.date, ByEmployee, ClientKey(q.key)));
    }
  }

  /** What a run of the auto-checkout job keeps of a row. */
  lemma AutoRowKeeps(d: Day, s: Sheet, run: AutoRun)
    requires SheetFits(s)
    ensures var t := AutoRow(d, s, run);
      && SheetFits(t) && t.inKey == s.inKey && (t.isOpen ==> s.isOpen)
      && (t.outKey == s.outKey || t.outKey == Some(SystemKey(d)))
  {
    hide SheetFits, CheckoutMetrics;
    if AutoCloses(d, s, run) {
      var at := SystemCheckoutAt(s.schedOut, run.triggers[d.employee]);
      ClosedFits(s, d.date, at, run.localDate(d.employee, at), BySystem, SystemKey(d));
    }
  }

  lemma AutoCheckoutSound(sheets: Sheets, run: AutoRun)
    requires Sound(sheets)
    ensures Sound(AutoCheckout(sheets, run))
  {
    hide SheetFits, AutoRow;
    forall d | d in sheets
      ensures var t := AutoRow(d, sheets[d], run);
        && SheetFits(t) && t.inKey == sheets[d].inKey && (t.isOpen ==> sheets[d].isOpen)
        && (t.outKey == sheets[d].outKey || t.outKey == Some(SystemKey(d)))
    {
      AutoRowKeeps(d, sheets[d], run);
    }
  }

  lemma FlaggedFits(s: Sheet)
    requires SheetFits(s)
    ensures SheetFits(Flagged(s))
  {
  }

  lemma FlagSound(sheets: Sheets, cutoff: int)
    requires Sound(sheets)
    ensures Sound(FlagMissing(sheets, cutoff))
  {
    hide SheetFits;
    var after := FlagMissing(sheets, cutoff);
    forall d | d in after
      ensures SheetFits(after[d]) && after[d].inKey == sheets[d].inKey
      ensures after[d].isOpen == sheets[d].isOpen && after[d].outKey == sheets[d].outKey
    {
      FlaggedFits(sheets[d]);
    }
  }

  lemma CorrectSound(sheets: Sheets, day: Day, start: Option<int>, end: Option<int>)
    requires Sound(sheets)
    ensures Sound(Correct(sheets, day, start, end).sheets)
  {
    hide SheetFits, KeysUnique, WholeMinutes;
    if Correct(sheets, day, start, end).sheets != sheets {
      var s := sheets[day];
      var from, to := if start.Some? then start.value else s.checkIn, if end.Some? then end.value else s.checkOut.value;
      CorrectedFits(s, from, to);
      OwnKeysFree(sheets, day, Corrected(s, from, to));
      WriteSound(sheets, day, Corrected(s, from, to));
    }
  }

  lemma ApproveSound(sheets: Sheets, a: Approval)
    requires Sound(sheets)
    ensures Sound(ApproveCorrectness(sheets, a).sheets)
  {
    hide SheetFits, KeysUnique, SessionActuals;
    if ApproveCorrectness(sheets, a).sheets != sheets {
      if a.day in sheets {
        ScheduledFits(sheets[a.day], a.session);
        OwnKeysFree(sheets, a.day, AsScheduled(sheets[a.day], a.session));
        WriteSound(sheets, a.day, AsScheduled(sheets[a.day], a.session));
      } else {
        ScheduledCreated(sheets, a);
      }
    }
  }

  lemma ScheduledCreated(sheets: Sheets, a: Approval)
    requires Sound(sheets) && a.day !in sheets && a.hours.Some? && ApproveCorrectness(sheets, a).refusal.None?
    ensures Sound(ApproveCorrectness(sheets, a).sheets)
  {
    hide SheetFits, KeysUnique, SessionActuals;
    var s := ScheduledSheet(a.hours.value, a.session, RandomKey(a.inKey), RandomKey(a.outKey));
    forall d | d in sheets
      ensures sheets[d].inKey != RandomKey(a.inKey) && sheets[d].outKey != Some(RandomKey(a.outKey))
    {
      assert !KeyOn(sheets, RandomKey(a.inKey), d) && !OutKeyOn(sheets, RandomKey(a.outKey), d);
    }
    CreatedFits(a.hours.value, a.session, RandomKey(a.inKey), RandomKey(a.outKey));
    WriteSound(sheets, a.day, s);
  }

  /** Every attendance step keeps the table sound. */
  lemma TakeSound(sheets: Sheets, step: Step)
    requires Sound(sheets)
    ensures Sound(Take(sheets, step))
  {
    hide Sound, CheckIn, CheckOut, AutoCheckout, FlagMissing, Correct, ApproveCorrectness;
    match step
    case CheckInStep(q) => CheckInSound(sheets, q);
    case CheckOutStep(q) => CheckOutSound(sheets, q);
    case AutoCheckoutStep(run) => AutoCheckoutSound(sheets, run);
    case FlagStep(cutoff) => FlagSound(sheets, cutoff);
    case CorrectStep(day, start, end) => CorrectSound(sheets, day, start, end);
    case ApproveStep(approval) => ApproveSound(sheets, approval);
  }

  /** The table is sound after every interleaving of attendance steps. */
  lemma {:induction false} StepsSound(sheets: Sheets, steps: seq<Step>)
    requires Sound(sheets)
    ensures Sound(TakeAll(sheets, steps))
  {
    hide Sound, Take;
    if steps != [] {
      StepsSound(sheets, steps[..|steps| - 1]);
      TakeSound(TakeAll(sheets, steps[..|steps| - 1]), steps[|steps| - 1]);
    }
  }

  // ---------------------------------------------------------------- what never changes

  /** Closed, and not by the employee: no check-in reopens the day. */
  predicate ClosedForGood(s: Sheet) {
    !s.isOpen && s.source != Some(ByEmployee)
  }

  /** One step neither removes a sheet, nor changes its check-in key, nor reopens what is closed for good. */
  lemma StepKeepsClosure(sheets: Sheets, step: Step, d: Day)
    requires d in sheets
    ensures d in Take(sheets, step) && Take(sheets, step)[d].inKey == sheets[d].inKey
    ensures ClosedForGood(sheets[d]) ==> ClosedForGood(Take(sheets, step)[d])
    ensures PermanentlyClosed(sheets[d]) ==> PermanentlyClosed(Take(sheets, step)[d])
  {
    if step.CheckOutStep? && CheckOut(sheets, step.checkOut).sheets != sheets {
      assert sheets[OpenDay(sheets, step.checkOut.employee)].isOpen;
    }
  }

  /** A day closed by the system or an administrator is closed for good, whatever steps follow. */
  lemma {:induction false} ClosureAbsorbs(sheets: Sheets, steps: seq<Step>, d: Day)
    requires d in sheets
    ensures d in TakeAll(sheets, steps) && TakeAll(sheets, steps)[d].inKey == sheets[d].inKey
    ensures PermanentlyClosed(sheets[d]) ==> PermanentlyClosed(TakeAll(sheets, steps)[d])
    ensures ClosedForGood(sheets[d]) ==> ClosedForGood(TakeAll(sheets, steps)[d])
  {
    hide Take, PermanentlyClosed, ClosedForGood;
    if steps != [] {
      ClosureAbsorbs(sheets, steps[..|steps| - 1], d);
      StepKeepsClosure(TakeAll(sheets, steps[..|steps| - 1]), steps[|steps| - 1], d);
    }
  }

  /** What a first check-in settles. */
  predicate SameArrival(s: Sheet, t: Sheet) {
    s.checkIn == t.checkIn && s.late == t.late && s.isLate == t.isLate
    && s.schedIn == t.schedIn && s.schedOut == t.schedOut && s.grace == t.grace
  }

  /** Whether a step corrects the sheet of day `d`. */
  predicate Corrects(step: Step, d: Day) {
    (step.CorrectStep? && step.day == d) || (step.ApproveStep? && step.approval.day == d)
  }

  lemma StepKeepsArrival(sheets: Sheets, step: Step, d: Day)
    requires d in sheets && !Corrects(step, d)
    ensures d in Take(sheets, step) && SameArrival(sheets[d], Take(sheets, step)[d])
  {
  }

  /** While a day is not corrected its first check-in stands, through any number of re-entries and closings. */
  lemma {:induction false} ArrivalStands(sheets: Sheets, steps: seq<Step>, d: Day)
    requires d in sheets && forall i :: 0 <= i < |steps| ==> !Corrects(steps[i], d)
    ensures d in TakeAll(sheets, steps) && SameArrival(sheets[d], TakeAll(sheets, steps)[d])
  {
    hide Take, SameArrival, Corrects;
    if steps != [] {
      ArrivalStands(sheets, steps[..|steps| - 1], d);
      StepKeepsArrival(TakeAll(sheets, steps[..|steps| - 1]), steps[|steps| - 1], d);
      SameTwice(sheets[d], TakeAll(sheets, steps[..|steps| - 1])[d], TakeAll(sheets, steps)[d]);
    } else {
      SameItself(sheets[d]);
    }
  }

  lemma SameTwice(s: Sheet, t: Sheet, u: Sheet)
    requires SameArrival(s, t) && SameArrival(t, u)
    ensures SameArrival(s, u)
  {
  }

  lemma SameItself(s: Sheet)
    ensures SameArrival(s, s)
  {
  }

  /** A repeated check-in of a new day changes nothing, however many steps lie between. */
  lemma RetryIsIdempotent(sheets: Sheets, q: CheckInRequest, steps: seq<Step>, again: CheckInRequest)
    requires CheckIn(sheets, q).refusal.None? && Day(q.employee, q.date) !in sheets && CheckIn(sheets, q).sheets != sheets
    requires again.employee == q.employee && again.key == q.key
    ensures var later := TakeAll(CheckIn(sheets, q).sheets, steps); CheckIn(later, again) == Reply(later, None)
  {
    var day := Day(q.employee, q.date);
    var first := CheckIn(sheets, q).sheets;
    assert first[day].inKey == ClientKey(q.key);
    ClosureAbsorbs(first, steps, day);
    assert KeyOn(TakeAll(first, steps), ClientKey(q.key), day);
  }

  /** A request for a day that it may enter again. */
  predicate MayReenter(q: CheckInRequest) {
    q.hours.Some? && !q.onLeave && !q.onHoliday && q.present && !q.reasonGiven && !q.descriptionGiven
  }

  /** A request whose key no sheet holds and that finds its day closed by the employee opens that day again. */
  lemma ReentryReopens(sheets: Sheets, q: CheckInRequest)
    requires !HasOpen(sheets, q.employee) && !exists d :: d in sheets && KeyOn(sheets, ClientKey(q.key), d)
    requires MayReenter(q)
    requires Day(q.employee, q.date) in sheets && CanReCheckIn(sheets[Day(q.employee, q.date)])
    ensures var day := Day(q.employee, q.date);
      CheckIn(sheets, q) == Reply(sheets[day := Reopened(sheets[day])], None)
  {
  }

  /**
    * The key of a re-entry is not stored: after an employee checkout of that day the repeated request is taken
    * for another re-entry and opens the day again, so retries are not idempotent across a re-entry.
    */
  lemma ReentryRetryReopens(sheets: Sheets, q: CheckInRequest, at: int, atDate: Date, key: Key)
    requires Sound(sheets)
    requires !HasOpen(sheets, q.employee) && !exists d :: d in sheets && KeyOn(sheets, ClientKey(q.key), d)
    requires MayReenter(q)
    requires Day(q.employee, q.date) in sheets && CanReCheckIn(sheets[Day(q.employee, q.date)])
    ensures var day := Day(q.employee, q.date);
      var open := CheckIn(sheets, q).sheets;
      var left := open[day := Closed(open[day], q.date, at, atDate, ByEmployee, key)];
      open[day].isOpen && !left[day].isOpen && CheckIn(left, q).refusal.None? && CheckIn(left, q).sheets[day].isOpen
  {
    hide CheckoutMetrics, SheetFits, CheckIn;
    var day := Day(q.employee, q.date);
    ReentryReopens(sheets, q);
    var open := CheckIn(sheets, q).sheets;
    var left := open[day := Closed(open[day], q.date, at, atDate, ByEmployee, key)];
    forall d | d in left
      ensures !KeyOn(left, ClientKey(q.key), d)
    {
      assert !KeyOn(sheets, ClientKey(q.key), d);
    }
    ReentryReopens(left, q);
  }

  /** The situation of a re-entry: the employee closed that day, has nothing open, and the key is new. */
  ghost predicate Reenters(sheets: Sheets, q: CheckInRequest) {
    && MayReenter(q) && !HasOpen(sheets, q.employee)
    && (!exists d :: d in sheets && KeyOn(sheets, ClientKey(q.key), d))
    && Day(q.employee, q.date) in sheets && CanReCheckIn(sheets[Day(q.employee, q.date)])
  }

  /**
    * A re-entry repeated after any steps whatever, retries included, changes nothing exactly when its day may not be
    * entered again then, the employee has an open sheet, or some sheet has come to hold the key.
    */
  lemma ReentryRetryIff(sheets: Sheets, q: CheckInRequest, steps: seq<Step>, again: CheckInRequest)
    requires Reenters(sheets, q) && MayReenter(again)
    requires again.employee == q.employee && again.date == q.date && again.key == q.key
    ensures var day := Day(q.employee, q.date);
      var later := TakeAll(CheckIn(sheets, q).sheets, steps);
      && day in later
      && (CheckIn(later, again).sheets == later <==>
           !CanReCheckIn(later[day]) || HasOpen(later, q.employee) || exists d :: d in later && KeyOn(later, ClientKey(q.key), d))
  {
    hide Take, TakeAll;
    var day := Day(q.employee, q.date);
    ReentryReopens(sheets, q);
    var later := TakeAll(CheckIn(sheets, q).sheets, steps);
    ClosureAbsorbs(CheckIn(sheets, q).sheets, steps, day);
    if CanReCheckIn(later[day]) && !HasOpen(later, q.employee) && !exists d :: d in later && KeyOn(later, ClientKey(q.key), d) {
      ReentryReopens(later, again);
    }
  }

  /** A check-in key that no sheet holds stays free while nobody uses it but for a day that has a sheet. */
  lemma StepKeyFree(sheets: Sheets, step: Step, key: nat, day: Day)
    requires day in sheets && !exists d :: d in sheets && KeyOn(sheets, ClientKey(key), d)
    requires step.CheckInStep? && step.checkIn.key == key ==> Day(step.checkIn.employee, step.checkIn.date) == day
    ensures !exists d :: d in Take(sheets, step) && KeyOn(Take(sheets, step), ClientKey(key), d)
  {
    hide CheckIn, CheckOut, Correct, ApproveCorrectness, AutoCheckout, FlagMissing;
    forall d | d in Take(sheets, step)
      ensures Take(sheets, step)[d].inKey != ClientKey(key)
    {
      if d in sheets {
        StepKeepsClosure(sheets, step, d);
        assert !KeyOn(sheets, ClientKey(key), d);
      } else {
        NewSheetKey(sheets, step, d);
      }
    }
  }

  lemma NewSheetKey(sheets: Sheets, step: Step, d: Day)
    requires d !in sheets && d in Take(sheets, step)
    ensures Take(sheets, step)[d].inKey.RandomKey?
         || (step.CheckInStep? && Take(sheets, step)[d].inKey == ClientKey(step.checkIn.key)
             && d == Day(step.checkIn.employee, step.checkIn.date))
  {
    hide SessionActuals, LateBy, Closed, Corrected, AutoRow, Flagged;
  }

  lemma {:induction false} KeyStaysFree(sheets: Sheets, steps: seq<Step>, key: nat, day: Day)
    requires day in sheets && !exists d :: d in sheets && KeyOn(sheets, ClientKey(key), d)
    requires forall i :: 0 <= i < |steps| && steps[i].CheckInStep? && steps[i].checkIn.key == key ==>
      Day(steps[i].checkIn.employee, steps[i].checkIn.date) == day
    ensures var later := TakeAll(sheets, steps);
      day in later && !exists d :: d in later && KeyOn(later, ClientKey(key), d)
  {
    hide Take, KeyOn;
    if steps != [] {
      var before, step := TakeAll(sheets, steps[..|steps| - 1]), steps[|steps| - 1];
      KeyStaysFree(sheets, steps[..|steps| - 1], key, day);
      StepKeyFree(before, step, key, day);
      StepKeepsClosure(before, step, day);
    }
  }

  /** While the key is used for no other day, no sheet comes to hold it: retries of the re-entry itself store no key. */
  lemma RetriesStoreNoKey(sheets: Sheets, q: CheckInRequest, steps: seq<Step>)
    requires Reenters(sheets, q)
    requires forall i :: 0 <= i < |steps| && steps[i].CheckInStep? && steps[i].checkIn.key == q.key ==>
      steps[i].checkIn.employee == q.employee && steps[i].checkIn.date == q.date
    ensures var later := TakeAll(CheckIn(sheets, q).sheets, steps);
      !exists d :: d in later && KeyOn(later, ClientKey(q.key), d)
  {
    hide Take, TakeAll, CheckIn;
    ReentryReopens(sheets, q);
    var first := CheckIn(sheets, q).sheets;
    forall d | d in first
      ensures !KeyOn(first, ClientKey(q.key), d)
    {
      assert !KeyOn(sheets, ClientKey(q.key), d);
    }
    KeyStaysFree(first, steps, q.key, Day(q.employee, q.date));
  }

  // ---------------------------------------------------------------- minutes

  /** For a checkout on the work date after the check-in, the live close and an administrator's correction agree. */
  lemma LiveAgreesWithCorrection(s: Sheet, workDate: Date, at: int, atDate: Date)
    requires s.checkIn < at && atDate <= workDate
    ensures var m, c := CheckoutMetrics(s, workDate, at, atDate), Corrected(s, s.checkIn, at);
      m.worked == c.worked && m.early == c.early && m.overtime == c.overtime && m.isEarly == c.isEarly && !m.isMissing
  {
    if at > s.schedOut {
      assert (s.schedOut - at) / MINUTE <= 0;
    } else {
      assert (at - s.schedOut) / MINUTE <= 0;
    }
  }

  /** Worked plus early less overtime minutes are the scheduled minutes, but for one lost to rounding. */
  lemma MinutesBalance(s: Sheet, workDate: Date, at: int, atDate: Date)
    requires s.checkIn <= at && s.checkIn <= s.schedOut && atDate <= workDate
    ensures var m := CheckoutMetrics(s, workDate, at, atDate);
      var scheduled := WholeMinutes(s.schedOut - s.checkIn);
      if at > s.schedOut then scheduled <= m.worked + m.early - m.overtime <= scheduled + 1
      else scheduled - 1 <= m.worked + m.early - m.overtime <= scheduled
  {
    if at > s.schedOut {
      FloorsAdd(s.schedOut - s.checkIn, at - s.schedOut);
    } else {
      FloorsAdd(at - s.checkIn, s.schedOut - at);
    }
  }

  lemma FloorsAdd(a: int, b: int)
    ensures a / MINUTE + b / MINUTE <= (a + b) / MINUTE <= a / MINUTE + b / MINUTE + 1
  {
  }

  /** A system close of an eligible sheet records a checkout before the check-in exactly when the check-in was after the scheduled end. */
  lemma SystemCheckoutOrder(s: Sheet, autoAt: int, now: int)
    requires IsEligible(s.checkIn, autoAt, now)
    ensures SystemCheckoutAt(s.schedOut, autoAt) < s.checkIn <==> 0 < s.schedOut < s.checkIn
    ensures SystemCheckoutAt(s.schedOut, autoAt) <= now
  {
  }

  /** On a sheet closed by the system, the checkout lies before the check-in exactly when the scheduled end does. */
  predicate SystemOrdered(s: Sheet) {
    s.source == Some(BySystem) ==> s.checkOut.Some? && (s.checkOut.value < s.checkIn <==> 0 < s.schedOut < s.checkIn)
  }

  lemma AutoRowOrdered(d: Day, s: Sheet, run: AutoRun)
    requires SystemOrdered(s)
    ensures SystemOrdered(AutoRow(d, s, run))
  {
    hide CheckoutMetrics, SystemCheckoutAt, IsEligible;
    if AutoCloses(d, s, run) {
      SystemCheckoutOrder(s, run.triggers[d.employee], run.now);
    }
  }

  lemma StepKeepsOrder(sheets: Sheets, step: Step, d: Day)
    requires d in Take(sheets, step) && (d in sheets ==> SystemOrdered(sheets[d]))
    requires step.ApproveStep? ==> step.approval.day != d
    ensures SystemOrdered(Take(sheets, step)[d])
  {
    hide CheckoutMetrics, AutoRow, LateBy, HasOpen, CanReCheckIn;
    if step.AutoCheckoutStep? {
      AutoRowOrdered(d, sheets[d], step.run);
    }
  }

  /**
    * Along every run in which no correctness request of that day is approved, a sheet that the system closed has a
    * checkout, and one before its check-in exactly when the employee checked in after a scheduled end.
    */
  lemma SystemClosesBeforeArrivalIff(steps: seq<Step>, d: Day)
    requires forall i :: 0 <= i < |steps| && steps[i].ApproveStep? ==> steps[i].approval.day != d
    ensures var sheets := TakeAll(map[], steps);
      d in sheets && sheets[d].source == Some(BySystem) ==>
        sheets[d].checkOut.Some? && (sheets[d].checkOut.value < sheets[d].checkIn <==> 0 < sheets[d].schedOut < sheets[d].checkIn)
  {
    hide TakeAll, Take;
    OrderKept(steps, d);
  }

  lemma {:induction false} OrderKept(steps: seq<Step>, d: Day)
    requires forall i :: 0 <= i < |steps| && steps[i].ApproveStep? ==> steps[i].approval.day != d
    ensures d in TakeAll(map[], steps) ==> SystemOrdered(TakeAll(map[], steps)[d])
  {
    hide Take, SystemOrdered;
    if steps != [] {
      OrderKept(steps[..|steps| - 1], d);
      if d in TakeAll(map[], steps) {
        StepKeepsOrder(TakeAll(map[], steps[..|steps| - 1]), steps[|steps| - 1], d);
      }
    }
  }

  /** A check-in at 18:00 on a day scheduled to end at 17:00, closed by the system at 22:00, is checked out at 17:00. */
  lemma LateArrivalLeavesBeforeArriving()
    ensures var hour := 60 * MINUTE;
      IsEligible(18 * hour, 22 * hour, 22 * hour) && SystemCheckoutAt(17 * hour, 22 * hour) < 18 * hour
  {
  }
}
