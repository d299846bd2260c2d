/** What holds of the leave records of an employee in every state a run of leave operations can reach. */
module LeaveRuns {
  import opened Basics
  import opened Calendar
  import opened LeaveBook
  import opened LeaveInvariant

  datatype LeaveOp =
    | ReadBalance(asOf: Date)
    | Create(input: LeaveInput, attended: set<Date>, today: Date)
    | Decide(r: nat, approve: bool, hasReason: bool, attended: set<Date>, today: Date)
    | Cancel(r: nat)
    | AdjustDays(amount: int, today: Date)
    | RebuildFrom(hire: Date, today: Date)

  ghost function Perform(book: Book, op: LeaveOp): Reply {
    match op
    case ReadBalance(asOf) => Reply(Balance(book, asOf), None)
    case Create(input, attended, today) => CreateLeave(book, input, attended, today)
    case Decide(r, approve, hasReason, attended, today) => DecideLeave(book, r, approve, hasReason, attended, today)
    case Cancel(r) => CancelLeave(book, r)
    case AdjustDays(amount, today) => AdminAdjust(book, today, amount)
    case RebuildFrom(hire, today) => Reply(Rebuild(book, hire, today), None)
  }

  ghost function Run(book: Book, ops: seq<LeaveOp>): Book {
    if ops == [] then book else Perform(Run(book, ops[..|ops| - 1]), ops[|ops| - 1]).book
  }

  // ---------------------------------------------------------------- the worklist of a sync

  lemma {:induction false} WorklistCounts(requests: seq<Request>, n: nat, r: nat)
    requires n <= |requests|
    ensures multiset(Worklist(requests, n))[r] == if r < n && IsHolder(requests[r]) then 1 else 0
  {
    if n > 0 {
      WorklistCounts(requests, n - 1, r);
    }
  }

  /** By start date, and by request number on equal dates. */
  predicate Before(requests: seq<Request>, q: nat, r: nat)
    requires q < |requests| && r < |requests|
  {
    requests[q].start < requests[r].start || (requests[q].start == requests[r].start && q < r)
  }

  ghost predicate Ordered(requests: seq<Request>, work: seq<nat>) {
    && Within(work, |requests|)
    && forall i, j :: 0 <= i < j < |work| ==> Before(requests, work[i], work[j])
  }

  lemma EnqueueMembers(requests: seq<Request>, work: seq<nat>, r: nat, i: nat)
    requires r < |requests| && Within(work, |requests|) && i < |Enqueue(requests, work, r)|
    ensures Enqueue(requests, work, r)[i] == r || Enqueue(requests, work, r)[i] in work
  {
    hide Enqueue;
    assert Enqueue(requests, work, r)[i] in multiset(Enqueue(requests, work, r));
  }

  /** Appending a request that comes after all others. */
  lemma AppendOrdered(requests: seq<Request>, work: seq<nat>, r: nat)
    requires Ordered(requests, work) && r < |requests|
    requires forall i :: 0 <= i < |work| ==> Before(requests, work[i], r)
    ensures Ordered(requests, work + [r])
  {
    hide Before;
  }

  lemma PrefixOrdered(requests: seq<Request>, work: seq<nat>, n: nat)
    requires Ordered(requests, work) && n <= |work|
    ensures Ordered(requests, work[..n])
  {
    hide Before;
  }

  lemma {:induction false} EnqueueOrdered(requests: seq<Request>, work: seq<nat>, r: nat)
    requires Ordered(requests, work) && r < |requests|
    requires forall i :: 0 <= i < |work| ==> work[i] < r
    ensures Ordered(requests, Enqueue(requests, work, r))
  {
    if work == [] || requests[work[|work| - 1]].start <= requests[r].start {
      forall i | 0 <= i < |work|
        ensures Before(requests, work[i], r)
      {
        assert i < |work| - 1 ==> Before(requests, work[i], work[|work| - 1]);
      }
      AppendOrdered(requests, work, r);
    } else {
      hide Ordered;
      PrefixOrdered(requests, work, |work| - 1);
      EnqueueOrdered(requests, work[..|work| - 1], r);
      EnqueuedBefore(requests, work, r);
      AppendOrdered(requests, Enqueue(requests, work[..|work| - 1], r), work[|work| - 1]);
    }
  }

  /** Whatever is put in front of a later last request comes before it. */
  lemma EnqueuedBefore(requests: seq<Request>, work: seq<nat>, r: nat)
    requires Ordered(requests, work) && r < |requests| && work != []
    requires requests[r].start < requests[work[|work| - 1]].start
    ensures var rest, last := work[..|work| - 1], work[|work| - 1];
      Within(rest, |requests|) && forall i :: 0 <= i < |Enqueue(requests, rest, r)| ==>
        Enqueue(requests, rest, r)[i] < |requests| && Before(requests, Enqueue(requests, rest, r)[i], last)
  {
    hide Enqueue;
    var rest, last := work[..|work| - 1], work[|work| - 1];
    forall i | 0 <= i < |Enqueue(requests, rest, r)|
      ensures Enqueue(requests, rest, r)[i] < |requests| && Before(requests, Enqueue(requests, rest, r)[i], last)
    {
      EnqueueMembers(requests, rest, r, i);
    }
  }

  /** The worklist is in order, and so names nobody twice. */
  lemma {:induction false} WorklistOrdered(requests: seq<Request>, n: nat)
    requires n <= |requests|
    ensures Ordered(requests, Worklist(requests, n))
  {
    if n > 0 {
      WorklistOrdered(requests, n - 1);
      if IsHolder(requests[n - 1]) {
        hide Ordered;
        EnqueueOrdered(requests, Worklist(requests, n - 1), n - 1);
      }
    }
  }

  /** Distinct holders. */
  ghost predicate HoldersOnce(requests: seq<Request>, work: seq<nat>) {
    && Within(work, |requests|)
    && (forall i :: 0 <= i < |work| ==> IsHolder(requests[work[i]]))
    && (forall i, j :: 0 <= i < j < |work| ==> work[i] != work[j])
  }

  /** The worklist names every holder once and nothing else. */
  lemma WorklistExact(requests: seq<Request>)
    ensures HoldersOnce(requests, Worklist(requests, |requests|))
    ensures forall r: nat :: r < |requests| && IsHolder(requests[r]) ==> r in Worklist(requests, |requests|)
  {
    hide Worklist;
    var work := Worklist(requests, |requests|);
    WorklistOrdered(requests, |requests|);
    forall i | 0 <= i < |work|
      ensures IsHolder(requests[work[i]])
    {
      assert work[i] in multiset(work);
      WorklistCounts(requests, |requests|, work[i]);
    }
    forall r: nat | r < |requests| && IsHolder(requests[r])
      ensures r in work
    {
      WorklistCounts(requests, |requests|, r);
      assert r in multiset(work);
    }
  }

  // ---------------------------------------------------------------- every operation keeps the books consistent

  lemma ChargeLeavesOthers(book: Book, r: nat, days: int, mode: Mode, q: nat)
    requires NoShares(book, r) && NoShares(book, q) && q != r && days > 0
    ensures NoShares(Charge(book, r, days, mode), q)
  {
    hide Draws;
    DrawsTotal(book.buckets, days);
    SharesRecorded(book.allocs, r, Draws(book.buckets, days), |book.buckets|);
  }

  lemma {:induction false} SyncedKeeps(book: Book, done: set<nat>, work: seq<nat>, n: nat)
    requires Consistent(book) && n <= |work| && HoldersOnce(book.requests, work)
    requires forall r: nat :: r !in done ==> NoShares(book, r)
    ensures Consistent(Synced(book, done, work, n))
    ensures forall i :: n <= i < |work| && work[i] !in done ==> NoShares(Synced(book, done, work, n), work[i])
  {
    hide PeriodsMatch, SharesFit, ColumnsFit, LedgersFit, TrailsFit, NoShares, Charge;
    if n > 0 {
      SyncedKeeps(book, done, work, n - 1);
      var b, r := Synced(book, done, work, n - 1), work[n - 1];
      if r !in done {
        ChargeKeeps(b, r);
        forall i | n <= i < |work| && work[i] !in done
          ensures NoShares(Synced(book, done, work, n), work[i])
        {
          ChargeLeavesOthers(b, r, b.requests[r].days, ModeOf(b.requests[r]), work[i]);
        }
      }
    }
  }

  lemma SyncKeeps(book: Book)
    requires Consistent(book)
    ensures Consistent(SyncUsage(book))
  {
    WorklistExact(book.requests);
    var work := Worklist(book.requests, |book.requests|);
    NotDoneNoShares(book);
    SyncedKeeps(book, HoldersOf(book.allocs), work, |work|);
  }

  lemma NotDoneNoShares(book: Book)
    ensures forall r: nat :: r !in HoldersOf(book.allocs) <==> NoShares(book, r)
  {
    forall r: nat
      ensures r !in HoldersOf(book.allocs) <==> NoShares(book, r)
    {
      if r in HoldersOf(book.allocs) {
        var k :| k in book.allocs && k.0 == r;
        assert (r, k.1) in book.allocs;
      } else {
        forall b: nat
          ensures (r, b) !in book.allocs
        {
          assert (r, b).0 == r;
        }
      }
    }
  }

  lemma BalanceKeeps(book: Book, asOf: Date)
    requires Consistent(book)
    ensures Consistent(Balance(book, asOf)) && Balance(book, asOf).requests == book.requests
  {
    hide Consistent;
    AccrueKeeps(book, asOf);
    SyncKeeps(Accrue(book, asOf));
    AccrueKeeps(SyncUsage(Accrue(book, asOf)), asOf);
  }

  lemma AdjustKeeps(book: Book, today: Date, amount: int)
    requires Consistent(book)
    ensures Consistent(AdjustBalance(book, today, amount).book)
  {
    hide Consistent, Accrue, RaisedNewest, Deducted;
    var accrued := Accrue(book, today);
    AccrueKeeps(book, today);
    if amount > 0 && Newest(accrued.buckets, |accrued.buckets|) >= 0 {
      RaiseKeeps(accrued, amount);
      AccrueKeeps(RaisedNewest(accrued, amount), today);
    } else if amount < 0 {
      DeductKeeps(accrued, -amount);
      AccrueKeeps(Deducted(accrued, -amount), today);
    }
  }

  /** The emptied tables, with the requests kept, agree. */
  lemma EmptiedConsistent(book: Book, hire: Date)
    requires Consistent(book)
    ensures Consistent(Book(hire, [], map[], [], book.requests))
  {
    hide SharesUpTo, ShareTotal, ColumnsFit;
    var bare := Book(hire, [], map[], [], book.requests);
    forall r: nat | r < |book.requests|
      ensures NoShares(bare, r)
    {
    }
    assert ColumnsFit(bare) by {
      NoBucketNoColumn(bare);
    }
  }

  lemma NoBucketNoColumn(book: Book)
    requires book.buckets == []
    ensures ColumnsFit(book)
  {
  }

  lemma RebuildKeeps(book: Book, hire: Date, today: Date)
    requires Consistent(book)
    ensures Consistent(Rebuild(book, hire, today))
  {
    hide Consistent, Accrue, SyncUsage;
    var bare := Book(hire, [], map[], [], book.requests);
    EmptiedConsistent(book, hire);
    AccrueKeeps(bare, today);
    SyncKeeps(Accrue(bare, today));
  }

  lemma CreateKeeps(book: Book, input: LeaveInput, attended: set<Date>, today: Date)
    requires Consistent(book)
    ensures Consistent(CreateLeave(book, input, attended, today).book)
  {
    hide Consistent, Accrue, Charge, Overlaps, PlannedRows;
    var rows := PlannedRows(input);
    var q := Request(input.tracked, input.start, input.end, rows, DayFraction.SumLeaveDayFractions(rows), Pending);
    if q.days > 0 {
      SubmitKeeps(book, q);
      AccrueKeeps(Submit(book, q), today);
      AccrueKeepsTables(Submit(book, q), today);
      if q.tracked {
        ChargeKeeps(Accrue(Submit(book, q), today), |book.requests|);
      }
    }
  }

  lemma AccrueKeepsTables(book: Book, asOf: Date)
    ensures var after := Accrue(book, asOf);
      after.requests == book.requests && after.allocs == book.allocs && after.hire == book.hire
  {
  }

  /** Approving a tracked pending request. */
  lemma ApproveKeeps(book: Book, r: nat, today: Date)
    requires Consistent(book) && r < |book.requests| && book.requests[r].status.Pending? && book.requests[r].tracked
    ensures Consistent(SetStatus(ConsumeReserved(book, r, today), r, Approved))
  {
    hide PeriodsMatch, SharesFit, ColumnsFit, LedgersFit, TrailsFit, Accrue, Draws;
    if HasShares(book, r) {
      ConsumeKeeps(book, r);
    } else {
      var accrued := Accrue(book, today);
      AccrueKeeps(book, today);
      AccrueKeepsTables(book, today);
      SetStatusKeeps(accrued, r, Approved);
      ChargeKeeps(SetStatus(accrued, r, Approved), r);
    }
  }

  /** An untracked request holds no allocation. */
  lemma UntrackedNoShares(book: Book, r: nat)
    requires Consistent(book) && r < |book.requests| && !book.requests[r].tracked
    ensures NoShares(book, r)
  {
    hide PeriodsMatch, ColumnsFit, LedgersFit, TrailsFit;
  }

  lemma DecideKeeps(book: Book, r: nat, approve: bool, hasReason: bool, attended: set<Date>, today: Date)
    requires Consistent(book)
    ensures Consistent(DecideLeave(book, r, approve, hasReason, attended, today).book)
  {
    hide Consistent, Balance, Released, ConsumeReserved;
    BalanceKeeps(book, today);
    var read := Balance(book, today);
    if r < |book.requests| && book.requests[r].status.Pending? {
      if !book.requests[r].tracked {
        UntrackedNoShares(read, r);
        SetStatusKeeps(read, r, if approve then Approved else Rejected);
      } else if approve {
        ApproveKeeps(read, r, today);
      } else {
        ReleaseKeeps(read, r);
        ReleasedKeepsRequests(read, r);
        SetStatusKeeps(Released(read, r), r, Rejected);
      }
    }
  }

  lemma ReleasedKeepsRequests(book: Book, r: nat)
    ensures Released(book, r).requests == book.requests
  {
  }

  lemma CancelKeeps(book: Book, r: nat)
    requires Consistent(book)
    ensures Consistent(CancelLeave(book, r).book)
  {
    hide Consistent, Released;
    if r < |book.requests| && book.requests[r].status.Pending? {
      if book.requests[r].tracked {
        ReleaseKeeps(book, r);
        ReleasedKeepsRequests(book, r);
        SetStatusKeeps(Released(book, r), r, Cancelled);
      } else {
        UntrackedNoShares(book, r);
        SetStatusKeeps(book, r, Cancelled);
      }
    }
  }

  lemma PerformKeeps(book: Book, op: LeaveOp)
    requires Consistent(book)
    ensures Consistent(Perform(book, op).book)
  {
    hide Consistent, Balance, CreateLeave, DecideLeave, CancelLeave, AdjustBalance, Rebuild;
    match op
    case ReadBalance(asOf) => BalanceKeeps(book, asOf);
    case Create(input, attended, today) => CreateKeeps(book, input, attended, today);
    case Decide(r, approve, hasReason, attended, today) => DecideKeeps(book, r, approve, hasReason, attended, today);
    case Cancel(r) => CancelKeeps(book, r);
    case AdjustDays(amount, today) =>
      BalanceKeeps(book, today);
      AdjustKeeps(Balance(book, today), today, amount);
    case RebuildFrom(hire, today) => RebuildKeeps(book, hire, today);
  }

  /** Bucket columns, allocation rows, ledger and request states agree after every run of operations. */
  lemma {:induction false} RunKeeps(book: Book, ops: seq<LeaveOp>)
    requires Consistent(book)
    ensures Consistent(Run(book, ops))
  {
    hide Consistent, Perform;
    if ops != [] {
      RunKeeps(book, ops[..|ops| - 1]);
      PerformKeeps(Run(book, ops[..|ops| - 1]), ops[|ops| - 1]);
    }
  }

  /**
    * Replaying the ledger: in every state that a run from an empty book reaches, each bucket's granted column is the
    * sum of its GRANT, TOP_UP and positive ADJUST entries, its used column that of its CONSUME less its negative
    * ADJUST entries, its expired column that of its EXPIRE entries; and the reservations less releases of a pending
    * request on it are the request's allocation row.
    */
  lemma LedgerReplays(hire: Date, ops: seq<LeaveOp>, b: nat, r: nat)
    ensures var book := Run(EmptyBook(hire), ops);
      && (b < |book.buckets| ==>
           && book.buckets[b].granted == Total(GrantedOn(b), book.ledger)
           && book.buckets[b].used == Total(UsedOn(b), book.ledger)
           && book.buckets[b].expired == Total(ExpiredOn(b), book.ledger))
      && (r < |book.requests| && book.requests[r].status.Pending? ==>
           Share(book.allocs, r, b) == Total(ReservedBy(b, r), book.ledger))
  {
    hide Run, Total, PeriodsMatch, RowsFit, SharesFit, ColumnsFit;
    EmptyConsistent(hire);
    RunKeeps(EmptyBook(hire), ops);
    var book := Run(EmptyBook(hire), ops);
    assert LedgerFits(book, b) && TrailFits(book, b, r);
  }
}
