/** Leave and attendance together: one table of timesheets, and the leave records of every employee. */
module Workforce {
  import opened Calendar
  import opened LeaveBook
  import opened LeaveInvariant
  import opened LeaveRuns
  import DayCharges
  import T = Timesheets
  import TL = TimesheetLaws

  datatype Workforce = Workforce(books: map<nat, Book>, sheets: T.Sheets)

  /** A call of a leave service for an employee, or an attendance step. What the one reads of the other is filled in. */
  datatype Event =
    | LeaveCall(employee: nat, op: LeaveOp)
    | AttendanceCall(step: TL.Step)

  function Attended(sheets: T.Sheets, employee: nat): set<Date> {
    set d | d in sheets && d.employee == employee :: d.date
  }

  predicate Covers(q: Request, date: Date) {
    q.status.Approved? && q.start <= date <= q.end
  }

  /** `assertNotOnApprovedLeave`. */
  predicate OnApprovedLeave(book: Book, date: Date) {
    exists r :: 0 <= r < |book.requests| && Covers(book.requests[r], date)
  }

  /** The operation with the attendance it reads. */
  function Reading(op: LeaveOp, attended: set<Date>): LeaveOp {
    match op
    case Create(input, _, today) => Create(input, attended, today)
    case Decide(r, approve, hasReason, _, today) => Decide(r, approve, hasReason, attended, today)
    case _ => op
  }

  /** What happens on an event; calls for unknown employees are refused. */
  ghost function Happen(w: Workforce, event: Event): Workforce {
    match event
    case LeaveCall(e, op) =>
      if e !in w.books then w
      else w.(books := w.books[e := Perform(w.books[e], Reading(op, Attended(w.sheets, e))).book])
    case AttendanceCall(CheckInStep(q)) =>
      if q.employee !in w.books then w
      else w.(sheets := TL.Take(w.sheets, TL.CheckInStep(q.(onLeave := OnApprovedLeave(w.books[q.employee], q.date)))))
    case AttendanceCall(step) => w.(sheets := TL.Take(w.sheets, step))
  }

  ghost function HappenAll(w: Workforce, events: seq<Event>): Workforce {
    if events == [] then w else Happen(HappenAll(w, events[..|events| - 1]), events[|events| - 1])
  }

  // ---------------------------------------------------------------- attendance and approved leave exclude each other

  /** No timesheet of the employee lies on a date of one of the approved requests. */
  ghost predicate BookExcludes(book: Book, attended: set<Date>) {
    forall r: nat, date :: r < |book.requests| && date in attended ==> !Covers(book.requests[r], date)
  }

  ghost predicate Excludes(w: Workforce) {
    forall e :: e in w.books ==> BookExcludes(w.books[e], Attended(w.sheets, e))
  }

  /** Every request approved by an operation was approved before, or is being decided with no attendance in its range. */
  lemma ApprovedOnly(book: Book, op: LeaveOp, r: nat)
    ensures var after := Perform(book, op).book.requests;
      r < |after| && after[r].status.Approved? ==>
        && r < |book.requests| && after[r] == book.requests[r].(status := Approved)
        && (book.requests[r].status.Approved?
            || (op.Decide? && op.r == r && !AttendedWithin(op.attended, after[r].start, after[r].end)))
  {
    hide Balance, AdjustBalance, Rebuild, ConsumeReserved, Released, CreateLeave, AttendedWithin;
    match op {
      case Create(input, attended, today) => CreateAppends(book, input, attended, today);
      case Decide(_, _, _, _, today) =>
        DayCharges.BalanceRequests(book, today);
        if op.r < |book.requests| {
          DayCharges.SettleRequests(Balance(book, today), op.r, today);
        }
      case Cancel(_) =>
        if op.r < |book.requests| {
          DayCharges.SettleRequests(book, op.r, 0);
        }
      case ReadBalance(asOf) => DayCharges.BalanceRequests(book, asOf);
      case AdjustDays(amount, today) =>
        DayCharges.BalanceRequests(book, today);
        DayCharges.AdjustRequests(Balance(book, today), today, amount);
      case RebuildFrom(hire, today) => DayCharges.RebuildRequests(book, hire, today);
    }
  }

  lemma CreateAppends(book: Book, input: LeaveInput, attended: set<Date>, today: Date)
    ensures var after := CreateLeave(book, input, attended, today).book.requests;
      after == book.requests || (|after| == |book.requests| + 1 && after[..|book.requests|] == book.requests
        && after[|book.requests|].status.Pending?)
  {
    hide Accrue, OpenCapacity, Overlaps, PlannedRows, AttendedWithin, Draws, Flat, WithShares;
    var rows := PlannedRows(input);
    var q := Request(input.tracked, input.start, input.end, rows, DayFraction.SumLeaveDayFractions(rows), Pending);
    AccrueKeepsTables(Submit(book, q), today);
  }

  lemma LeaveCallExcludes(book: Book, op: LeaveOp, attended: set<Date>)
    requires BookExcludes(book, attended)
    ensures BookExcludes(Perform(book, Reading(op, attended)).book, attended)
  {
    hide Perform;
    var after := Perform(book, Reading(op, attended)).book;
    forall r: nat, date | r < |after.requests| && date in attended
      ensures !Covers(after.requests[r], date)
    {
      ApprovedOnly(book, Reading(op, attended), r);
      if after.requests[r].status.Approved? && book.requests[r].status.Approved? {
        assert !Covers(book.requests[r], date);
      }
    }
  }

  /** Only a new day's check-in and an approved correctness request add a timesheet. */
  lemma OnlyCheckInAdds(sheets: T.Sheets, step: TL.Step, d: T.Day)
    requires d !in sheets && d in TL.Take(sheets, step)
    ensures (step.CheckInStep? && d == T.Day(step.checkIn.employee, step.checkIn.date) && !step.checkIn.onLeave)
         || (step.ApproveStep? && d == step.approval.day)
  {
  }

  lemma HappenExcludes(w: Workforce, event: Event)
    requires Excludes(w) && !(event.AttendanceCall? && event.step.ApproveStep?)
    ensures Excludes(Happen(w, event))
  {
    hide Perform, TL.Take, BookExcludes;
    var after := Happen(w, event);
    match event {
      case LeaveCall(e, op) =>
        if e in w.books {
          LeaveCallExcludes(w.books[e], op, Attended(w.sheets, e));
        }
      case AttendanceCall(step) =>
        if after != w {
          AttendanceExcludes(w, step);
        }
    }
  }

  lemma AttendanceExcludes(w: Workforce, step: TL.Step)
    requires Excludes(w) && !step.ApproveStep? && Happen(w, AttendanceCall(step)) != w
    ensures Excludes(Happen(w, AttendanceCall(step)))
  {
    hide TL.Take;
    var after := Happen(w, AttendanceCall(step));
    forall e, r: nat, date | e in after.books && r < |after.books[e].requests| && date in Attended(after.sheets, e)
      ensures !Covers(after.books[e].requests[r], date)
    {
      var d := T.Day(e, date);
      if d in w.sheets {
        assert date in Attended(w.sheets, e);
        assert BookExcludes(w.books[e], Attended(w.sheets, e));
      } else if step.CheckInStep? {
        OnlyCheckInAdds(w.sheets, TL.CheckInStep(step.checkIn.(onLeave := OnApprovedLeave(w.books[step.checkIn.employee], step.checkIn.date))), d);
      } else {
        OnlyCheckInAdds(w.sheets, step, d);
      }
    }
  }

  /**
    * Approving a correctness request keeps attendance and leave apart exactly when no sheet is created for it, as
    * it is linked to one, its day is no working day, has a sheet already or a drawn key is taken, or when no approved
    * leave covers the day.
    */
  lemma ApprovalExcludesIff(w: Workforce, a: T.Approval)
    requires Excludes(w) && a.day.employee in w.books
    ensures Excludes(Happen(w, AttendanceCall(TL.ApproveStep(a)))) <==>
        a.linked || a.hours.None? || a.day in w.sheets || T.KeysTaken(w.sheets, a)
        || !OnApprovedLeave(w.books[a.day.employee], a.day.date)
  {
    hide T.KeysTaken, T.AsScheduled, T.ScheduledSheet;
    var after := Happen(w, AttendanceCall(TL.ApproveStep(a)));
    var e, date := a.day.employee, a.day.date;
    if a.linked || a.hours.None? || a.day in w.sheets || T.KeysTaken(w.sheets, a) {
      SameDaysExclude(w, after);
    } else {
      assert a.day in after.sheets;
      assert date in Attended(after.sheets, e);
      if OnApprovedLeave(w.books[e], date) {
        var r :| 0 <= r < |w.books[e].requests| && Covers(w.books[e].requests[r], date);
        assert !BookExcludes(after.books[e], Attended(after.sheets, e));
      } else {
        forall f | f in after.books
          ensures BookExcludes(after.books[f], Attended(after.sheets, f))
        {
          assert BookExcludes(w.books[f], Attended(w.sheets, f));
          assert forall x :: x in Attended(after.sheets, f) ==> x in Attended(w.sheets, f) || (f == e && x == date);
        }
      }
    }
  }

  /** Whether an event keeps attendance and leave apart by the guards of ApprovalExcludesIff: all but some approvals do. */
  predicate Harmless(w: Workforce, event: Event) {
    event.AttendanceCall? && event.step.ApproveStep? ==>
      var a := event.step.approval;
      a.linked || a.hours.None? || a.day in w.sheets || T.KeysTaken(w.sheets, a)
      || a.day.employee !in w.books || !OnApprovedLeave(w.books[a.day.employee], a.day.date)
  }

  ghost predicate AllHarmless(w: Workforce, events: seq<Event>) {
    forall i :: 0 <= i < |events| ==> Harmless(HappenAll(w, events[..i]), events[i])
  }

  lemma HarmlessPrefix(w: Workforce, events: seq<Event>)
    requires AllHarmless(w, events) && events != []
    ensures AllHarmless(w, events[..|events| - 1]) && Harmless(HappenAll(w, events[..|events| - 1]), events[|events| - 1])
  {
    hide Harmless, HappenAll;
    forall i | 0 <= i < |events| - 1
      ensures Harmless(HappenAll(w, events[..|events| - 1][..i]), events[i])
    {
      assert events[..|events| - 1][..i] == events[..i];
    }
  }

  /** A sheet of somebody whose leave is not kept here touches nobody's leave. */
  lemma StrangerExcludes(w: Workforce, a: T.Approval)
    requires Excludes(w) && a.day.employee !in w.books
    ensures Excludes(Happen(w, AttendanceCall(TL.ApproveStep(a))))
  {
    hide T.KeysTaken, T.AsScheduled, T.ScheduledSheet, BookExcludes;
    var after := Happen(w, AttendanceCall(TL.ApproveStep(a)));
    forall f | f in after.books
      ensures BookExcludes(after.books[f], Attended(after.sheets, f))
    {
      assert Attended(after.sheets, f) == Attended(w.sheets, f);
    }
  }

  lemma HarmlessExcludes(w: Workforce, event: Event)
    requires Excludes(w) && Harmless(w, event)
    ensures Excludes(Happen(w, event))
  {
    hide Excludes, Happen, T.KeysTaken, OnApprovedLeave;
    if event.AttendanceCall? && event.step.ApproveStep? {
      if event.step.approval.day.employee in w.books {
        ApprovalExcludesIff(w, event.step.approval);
      } else {
        StrangerExcludes(w, event.step.approval);
      }
    } else {
      HappenExcludes(w, event);
    }
  }

  /**
    * Over all runs of leave calls and attendance steps, correctness approvals included as long as each meets the guards
    * of ApprovalExcludesIff, nobody has a timesheet on a date of one of their approved requests.
    */
  lemma {:induction false} RunExcludes(w: Workforce, events: seq<Event>)
    requires Excludes(w) && AllHarmless(w, events)
    ensures Excludes(HappenAll(w, events))
  {
    hide Excludes, Happen, AllHarmless, Harmless;
    if events != [] {
      HarmlessPrefix(w, events);
      RunExcludes(w, events[..|events| - 1]);
      HarmlessExcludes(HappenAll(w, events[..|events| - 1]), events[|events| - 1]);
    }
  }

  lemma SameDaysExclude(w: Workforce, after: Workforce)
    requires Excludes(w) && after.books == w.books && after.sheets.Keys == w.sheets.Keys
    ensures Excludes(after)
  {
    forall e | e in after.books
      ensures BookExcludes(after.books[e], Attended(after.sheets, e))
    {
      assert Attended(after.sheets, e) == Attended(w.sheets, e);
      assert BookExcludes(w.books[e], Attended(w.sheets, e));
    }
  }

  // ---------------------------------------------------------------- everything at once

  /** All records of all employees agree, and no date is charged twice. */
  ghost predicate AllWell(w: Workforce) {
    && TL.Sound(w.sheets)
    && forall e :: e in w.books ==> Consistent(w.books[e]) && DayCharges.Separate(w.books[e].requests)
  }

  lemma HappenWell(w: Workforce, event: Event)
    requires AllWell(w)
    ensures AllWell(Happen(w, event))
  {
    hide TL.Sound, TL.Take, Consistent, DayCharges.Separate, Perform, OnApprovedLeave;
    match event
    case LeaveCall(e, op) =>
      if e in w.books {
        PerformKeeps(w.books[e], Reading(op, Attended(w.sheets, e)));
        DayCharges.PerformSeparate(w.books[e], Reading(op, Attended(w.sheets, e)));
      }
    case AttendanceCall(step) =>
      TL.TakeSound(w.sheets, step);
      if step.CheckInStep? && step.checkIn.employee in w.books {
        TL.TakeSound(w.sheets, TL.CheckInStep(step.checkIn.(onLeave := OnApprovedLeave(w.books[step.checkIn.employee], step.checkIn.date))));
      }
  }

  /** Whatever happens to a workforce that starts with no records, all its records agree. */
  lemma {:induction false} RunWell(hires: map<nat, Date>, events: seq<Event>)
    ensures AllWell(HappenAll(Workforce(map e | e in hires :: EmptyBook(hires[e]), map[]), events))
  {
    hide Happen;
    if events == [] {
      forall e | e in hires
        ensures Consistent(EmptyBook(hires[e])) && DayCharges.Separate(EmptyBook(hires[e]).requests)
      {
        EmptyConsistent(hires[e]);
      }
    } else {
      RunWell(hires, events[..|events| - 1]);
      HappenWell(HappenAll(Workforce(map e | e in hires :: EmptyBook(hires[e]), map[]), events[..|events| - 1]), events[|events| - 1]);
    }
  }
}
