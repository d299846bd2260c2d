/** One day is never charged twice: the live leave rows of an employee on a date cost at most one day together. */
module DayCharges {
  import opened Calendar
  import opened DayFraction
  import opened LeaveBook
  import opened LeaveRuns

  // ---------------------------------------------------------------- the invariant

  /** The rows of a request: at least one, in date order inside its range, and summing to its days. */
  ghost predicate PlannedWell(q: Request) {
    |q.rows| > 0 && GoodRows(q.rows, q.start, q.end) && q.days == SumLeaveDayFractions(q.rows)
  }

  /** No row of `q` conflicts with a row of `p` on the same date. */
  ghost predicate Compatible(p: Request, q: Request) {
    forall i, j :: 0 <= i < |p.rows| && 0 <= j < |q.rows| && p.rows[i].date == q.rows[j].date
      ==> !SessionsConflict(p.rows[i].session, q.rows[j].session)
  }

  ghost predicate Separate(requests: seq<Request>) {
    && (forall r :: 0 <= r < |requests| ==> PlannedWell(requests[r]))
    && (forall r, q :: 0 <= r < q < |requests| && IsActive(requests[r]) && IsActive(requests[q])
          ==> Compatible(requests[r], requests[q]))
  }

  /** The rows of every request are in date order and inside its range, and cost nothing negative. */
  ghost predicate RowsWell(requests: seq<Request>) {
    forall r :: 0 <= r < |requests| ==> GoodRows(requests[r].rows, requests[r].start, requests[r].end)
  }

  lemma SeparateWell(requests: seq<Request>)
    requires Separate(requests)
    ensures RowsWell(requests)
  {
    forall r | 0 <= r < |requests|
      ensures GoodRows(requests[r].rows, requests[r].start, requests[r].end)
    {
      assert PlannedWell(requests[r]);
    }
  }

  /** No request changed but for its status, and none became active. */
  ghost predicate Narrowed(before: seq<Request>, after: seq<Request>) {
    && |before| == |after|
    && forall r :: 0 <= r < |before| ==>
      && after[r] == before[r].(status := after[r].status)
      && (IsActive(after[r]) ==> IsActive(before[r]))
  }

  lemma NarrowedSeparate(before: seq<Request>, after: seq<Request>)
    requires Separate(before) && Narrowed(before, after)
    ensures Separate(after)
  {
    forall r | 0 <= r < |after|
      ensures PlannedWell(after[r])
    {
      assert PlannedWell(before[r]);
    }
    forall r, q | 0 <= r < q < |after| && IsActive(after[r]) && IsActive(after[q])
      ensures Compatible(after[r], after[q])
    {
      assert Compatible(before[r], before[q]);
    }
  }

  /** Every operation but `create` only narrows the requests. */
  lemma OthersNarrow(book: Book, op: LeaveOp)
    requires !op.Create?
    ensures Narrowed(book.requests, Perform(book, op).book.requests)
  {
    hide Balance, AdjustBalance, Rebuild, ConsumeReserved, Released;
    match op
    case ReadBalance(asOf) => BalanceRequests(book, asOf);
    case Decide(r, approve, hasReason, attended, today) =>
      BalanceRequests(book, today);
      if r < |book.requests| {
        SettleRequests(Balance(book, today), r, today);
      }
    case Cancel(r) =>
      if r < |book.requests| {
        SettleRequests(book, r, 0);
      }
    case AdjustDays(amount, today) =>
      BalanceRequests(book, today);
      AdjustRequests(Balance(book, today), today, amount);
    case RebuildFrom(hire, today) => RebuildRequests(book, hire, today);
  }

  lemma BalanceRequests(book: Book, asOf: Date)
    ensures Balance(book, asOf).requests == book.requests
  {
  }

  lemma AdjustRequests(book: Book, today: Date, amount: int)
    ensures AdjustBalance(book, today, amount).book.requests == book.requests
  {
    hide OpenCapacity, Flat, Draws;
  }

  lemma SettleRequests(book: Book, r: nat, today: Date)
    requires r < |book.requests|
    ensures ConsumeReserved(book, r, today).requests == book.requests == Released(book, r).requests
  {
  }

  lemma RebuildRequests(book: Book, hire: Date, today: Date)
    ensures Rebuild(book, hire, today).requests == book.requests
  {
  }

  lemma CreateSeparate(book: Book, input: LeaveInput, attended: set<Date>, today: Date)
    requires Separate(book.requests)
    ensures Separate(CreateLeave(book, input, attended, today).book.requests)
  {
    hide Accrue, Charge, OpenCapacity, AttendedWithin;
    var rows := PlannedRows(input);
    var q := Request(input.tracked, input.start, input.end, rows, SumLeaveDayFractions(rows), Pending);
    var reply := CreateLeave(book, input, attended, today);
    AccrueKeepsTables(Submit(book, q), today);
    ChargeRequests(Accrue(Submit(book, q), today), |book.requests|, q.days, Reserving);
    if reply.failure.None? {
      PlannedRowsGood(input.schedule, input.start, input.end, input.picks);
      forall r: nat | r < |book.requests| && IsActive(book.requests[r])
        ensures Compatible(book.requests[r], q)
      {
        NoOverlapCompatible(book.requests, rows, r, q);
      }
    }
  }

  lemma ChargeRequests(book: Book, r: nat, days: int, mode: Mode)
    ensures Charge(book, r, days, mode).requests == book.requests
  {
  }

  /** A row of a live request on a planned date is seen by the overlap check. */
  lemma NoOverlapCompatible(requests: seq<Request>, rows: seq<LeaveDay>, r: nat, q: Request)
    requires r < |requests| && IsActive(requests[r]) && PlannedWell(requests[r])
    requires q.rows == rows && GoodRows(rows, q.start, q.end) && !Overlaps(requests, rows)
    ensures Compatible(requests[r], q)
  {
    var p := requests[r];
    forall i, j | 0 <= i < |p.rows| && 0 <= j < |rows| && p.rows[i].date == rows[j].date
      ensures !SessionsConflict(p.rows[i].session, rows[j].session)
    {
      assert rows[0].date <= rows[j].date <= rows[|rows| - 1].date;
      assert RangesOverlap(p, rows[0].date, rows[|rows| - 1].date);
      assert Occupies(p, rows[j].date, p.rows[i].session);
    }
  }

  /** After every run of operations, no two live requests conflict on any date. */
  lemma {:induction false} RunSeparate(book: Book, ops: seq<LeaveOp>)
    requires Separate(book.requests)
    ensures Separate(Run(book, ops).requests)
  {
    hide Separate, Narrowed, CreateLeave;
    if ops != [] {
      RunSeparate(book, ops[..|ops| - 1]);
      PerformSeparate(Run(book, ops[..|ops| - 1]), ops[|ops| - 1]);
    }
  }

  lemma PerformSeparate(book: Book, op: LeaveOp)
    requires Separate(book.requests)
    ensures Separate(Perform(book, op).book.requests)
  {
    hide Separate, Narrowed, CreateLeave, DecideLeave, CancelLeave, AdjustBalance, Balance, Rebuild;
    if op.Create? {
      CreateSeparate(book, op.input, op.attended, op.today);
    } else {
      OthersNarrow(book, op);
      NarrowedSeparate(book.requests, Perform(book, op).book.requests);
    }
  }

  // ---------------------------------------------------------------- what a date costs

  /** What the first `n` rows cost on `date`. */
  function CostOn(rows: seq<LeaveDay>, date: Date, n: nat): int
    requires n <= |rows|
  {
    if n == 0 then 0 else CostOn(rows, date, n - 1) + (if rows[n - 1].date == date then rows[n - 1].fraction else 0)
  }

  /** What the live ones of the first `n` requests cost on `date`, in hundredths of a day. */
  function ChargedOn(requests: seq<Request>, date: Date, n: nat): int
    requires n <= |requests|
  {
    if n == 0 then 0
    else
      var q := requests[n - 1];
      ChargedOn(requests, date, n - 1) + (if IsActive(q) then CostOn(q.rows, date, |q.rows|) else 0)
  }

  function CostOf(session: Session): int {
    if session.Full? then 100 else 50
  }

  /** Rows in date order have at most one row on a date. */
  lemma {:induction false} CostIsOneRow(rows: seq<LeaveDay>, start: Date, end: Date, date: Date, n: nat)
    requires GoodRows(rows, start, end) && n <= |rows|
    ensures (forall i :: 0 <= i < n ==> rows[i].date != date) ==> CostOn(rows, date, n) == 0
    ensures forall i :: 0 <= i < n && rows[i].date == date ==> CostOn(rows, date, n) == rows[i].fraction
  {
    if n > 0 {
      CostIsOneRow(rows, start, end, date, n - 1);
    }
  }

  /** What the first `n` rows cost on the dates from `start` to `end` together. */
  function CostOver(rows: seq<LeaveDay>, start: Date, end: Date, n: nat): int
    requires n <= |rows|
    decreases end - start
  {
    if end < start then 0 else CostOver(rows, start, end - 1, n) + CostOn(rows, end, n)
  }

  lemma {:induction false} OneMoreRow(rows: seq<LeaveDay>, start: Date, end: Date, n: nat)
    requires 0 < n <= |rows|
    ensures var row := rows[n - 1];
      CostOver(rows, start, end, n)
        == CostOver(rows, start, end, n - 1) + (if start <= row.date <= end then row.fraction else 0)
    decreases end - start
  {
    if start <= end {
      OneMoreRow(rows, start, end - 1, n);
    }
  }

  lemma {:induction false} NoRowNoCost(rows: seq<LeaveDay>, start: Date, end: Date)
    ensures CostOver(rows, start, end, 0) == 0
    decreases end - start
  {
    if start <= end {
      NoRowNoCost(rows, start, end - 1);
    }
  }

  lemma {:induction false} SumIsCostOver(rows: seq<LeaveDay>, start: Date, end: Date, n: nat)
    requires GoodRows(rows, start, end) && n <= |rows|
    ensures FractionSum(rows, n) == CostOver(rows, start, end, n)
  {
    if n == 0 {
      NoRowNoCost(rows, start, end);
    } else {
      SumIsCostOver(rows, start, end, n - 1);
      OneMoreRow(rows, start, end, n);
    }
  }

  /** The days of a request are what its rows cost on the dates of its range together. */
  lemma DaysAreCosts(q: Request)
    requires PlannedWell(q)
    ensures q.days == CostOver(q.rows, q.start, q.end, |q.rows|)
  {
    hide CostOver, FractionSum;
    SumIsCostOver(q.rows, q.start, q.end, |q.rows|);
  }

  /** Whether a live one of the first `n` requests occupies `session` of `date`. */
  ghost predicate Taken(requests: seq<Request>, date: Date, session: Session, n: nat)
    requires n <= |requests|
  {
    exists r :: 0 <= r < n && IsActive(requests[r]) && Occupies(requests[r], date, session)
  }

  ghost function CostIfTaken(requests: seq<Request>, date: Date, session: Session, n: nat): int
    requires n <= |requests|
  {
    if Taken(requests, date, session, n) then CostOf(session) else 0
  }

  /** The cost of the sessions that the live ones of the first `n` requests take on `date`. */
  ghost function TakenCost(requests: seq<Request>, date: Date, n: nat): int
    requires n <= |requests|
  {
    CostIfTaken(requests, date, Full, n) + CostIfTaken(requests, date, Morning, n) + CostIfTaken(requests, date, Afternoon, n)
  }

  /** A live request that costs something takes a session nobody took before. */
  lemma RequestAddsSession(requests: seq<Request>, date: Date, n: nat)
    requires Separate(requests) && 0 < n <= |requests|
    ensures var q := requests[n - 1];
      0 <= (if IsActive(q) then CostOn(q.rows, date, |q.rows|) else 0)
        <= TakenCost(requests, date, n) - TakenCost(requests, date, n - 1)
  {
    hide Taken, Occupies, Compatible, CostOn;
    var q := requests[n - 1];
    assert PlannedWell(q);
    CostIsOneRow(q.rows, q.start, q.end, date, |q.rows|);
    TakenGrows(requests, date, Full, n);
    TakenGrows(requests, date, Morning, n);
    TakenGrows(requests, date, Afternoon, n);
    if IsActive(q) && exists i :: 0 <= i < |q.rows| && q.rows[i].date == date {
      var i :| 0 <= i < |q.rows| && q.rows[i].date == date;
      NewSession(requests, date, n, i);
    }
  }

  lemma NothingTaken(requests: seq<Request>, date: Date)
    ensures TakenCost(requests, date, 0) == 0
  {
  }

  /** The live requests cost no more than the sessions they take. */
  lemma {:induction false} ChargedPerSession(requests: seq<Request>, date: Date, n: nat)
    requires Separate(requests) && n <= |requests|
    ensures 0 <= ChargedOn(requests, date, n) <= TakenCost(requests, date, n)
  {
    hide TakenCost, Separate, CostOn;
    if n == 0 {
      NothingTaken(requests, date);
    } else {
      ChargedPerSession(requests, date, n - 1);
      RequestAddsSession(requests, date, n);
    }
  }

  lemma TakenGrows(requests: seq<Request>, date: Date, session: Session, n: nat)
    requires 0 < n <= |requests|
    ensures Taken(requests, date, session, n - 1) ==> Taken(requests, date, session, n)
  {
  }

  /** A live request takes a session that no earlier live request takes. */
  lemma NewSession(requests: seq<Request>, date: Date, n: nat, i: nat)
    requires Separate(requests) && 0 < n <= |requests| && IsActive(requests[n - 1])
    requires i < |requests[n - 1].rows| && requests[n - 1].rows[i].date == date
    ensures !Taken(requests, date, requests[n - 1].rows[i].session, n - 1)
    ensures Taken(requests, date, requests[n - 1].rows[i].session, n)
  {
    var q := requests[n - 1];
    assert Occupies(q, date, q.rows[i].session);
    forall r | 0 <= r < n - 1 && IsActive(requests[r])
      ensures !Occupies(requests[r], date, q.rows[i].session)
    {
      assert Compatible(requests[r], q) && PlannedWell(requests[r]);
    }
  }

  /** Two live requests on one date take its morning and its afternoon. */
  lemma TwoShareDate(requests: seq<Request>, r: nat, q: nat, date: Date, s: Session, t: Session)
    requires Separate(requests) && r < |requests| && q < |requests| && r != q
    requires IsActive(requests[r]) && IsActive(requests[q])
    requires Occupies(requests[r], date, s) && Occupies(requests[q], date, t)
    ensures (s.Morning? && t.Afternoon?) || (s.Afternoon? && t.Morning?)
  {
    assert PlannedWell(requests[r]) && PlannedWell(requests[q]);
    assert Compatible(requests[if r < q then r else q], requests[if r < q then q else r]);
  }

  /** Never three live requests on one date. */
  lemma NeverThree(requests: seq<Request>, p: nat, q: nat, r: nat, date: Date, s: Session, t: Session, u: Session)
    requires Separate(requests) && p < q < r < |requests|
    requires IsActive(requests[p]) && IsActive(requests[q]) && IsActive(requests[r])
    requires Occupies(requests[p], date, s) && Occupies(requests[q], date, t)
    ensures !Occupies(requests[r], date, u)
  {
    hide Occupies, Separate;
    TwoShareDate(requests, p, q, date, s, t);
    if Occupies(requests[r], date, u) {
      TwoShareDate(requests, p, r, date, s, u);
      TwoShareDate(requests, q, r, date, t, u);
    }
  }

  /** The live requests of an employee never cost more than one day on any date. */
  lemma OneDayOnce(requests: seq<Request>, date: Date)
    requires Separate(requests)
    ensures 0 <= ChargedOn(requests, date, |requests|) <= 100
  {
    var n := |requests|;
    ChargedPerSession(requests, date, n);
    if Taken(requests, date, Full, n) {
      FullExcludes(requests, date, Morning);
      FullExcludes(requests, date, Afternoon);
    }
  }

  lemma FullExcludes(requests: seq<Request>, date: Date, session: Session)
    requires Separate(requests) && !session.Full? && Taken(requests, date, Full, |requests|)
    ensures !Taken(requests, date, session, |requests|)
  {
    hide Occupies, PlannedWell, Compatible;
    var r :| 0 <= r < |requests| && IsActive(requests[r]) && Occupies(requests[r], date, Full);
    forall q | 0 <= q < |requests| && IsActive(requests[q])
      ensures !Occupies(requests[q], date, session)
    {
      if Occupies(requests[q], date, session) {
        OneHolderPerSession(requests, r, q, date, session);
      }
    }
  }

  lemma OneHolderPerSession(requests: seq<Request>, r: nat, q: nat, date: Date, session: Session)
    requires Separate(requests) && r < |requests| && q < |requests|
    requires IsActive(requests[r]) && IsActive(requests[q])
    requires Occupies(requests[r], date, Full) && Occupies(requests[q], date, session)
    ensures session.Full?
  {
    hide Occupies, Compatible;
    if r == q {
      SameRequestOneSession(requests[r], date, Full, session);
    } else {
      TwoShareDate(requests, r, q, date, Full, session);
    }
  }

  lemma SameRequestOneSession(q: Request, date: Date, s: Session, t: Session)
    requires PlannedWell(q) && Occupies(q, date, s) && Occupies(q, date, t)
    ensures s == t
  {
  }
}
