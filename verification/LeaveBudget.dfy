/**
  * What keeps every leave year within its grant: what a bucket has used, what it has let expire and what is still
  * reserved on it never exceed what was granted.
  */
module LeaveBudget {
  import opened Basics
  import opened Calendar
  import opened LeavePolicy
  import opened Fifo
  import opened LeaveBook
  import opened LeaveInvariant
  import opened LeaveRuns

  /** Every live request of a tracked type holds allocation rows. */
  ghost predicate Backed(book: Book) {
    forall r: nat :: r < |book.requests| && IsHolder(book.requests[r]) ==> !NoShares(book, r)
  }

  ghost predicate WithinGrant(book: Book, b: nat)
    requires b < |book.buckets|
  {
    book.buckets[b].used + book.buckets[b].expired + SharesOf(book, Pending, b) <= book.buckets[b].granted
  }

  ghost predicate NoOverspend(book: Book) {
    forall b: nat :: b < |book.buckets| ==> WithinGrant(book, b)
  }

  /** The records agree and no leave year is overspent. */
  ghost predicate Solvent(book: Book) {
    Consistent(book) && NoOverspend(book)
  }

  /** And every live request of a tracked type holds its allocation. */
  ghost predicate InBudget(book: Book) {
    Solvent(book) && Backed(book)
  }

  // ---------------------------------------------------------------- what backing means

  /** The allocation rows of every live request of a tracked type sum to its days. */
  lemma BackedSums(book: Book, r: nat)
    requires Consistent(book) && Backed(book) && r < |book.requests| && IsHolder(book.requests[r])
    ensures ShareTotal(book.allocs, r, |book.buckets|) == book.requests[r].days
    ensures HasShares(book, r)
  {
    hide PeriodsMatch, ColumnsFit, LedgersFit, TrailsFit;
    assert FullyShared(book, r);
    ShareTotalWitness(book.allocs, r, |book.buckets|);
  }

  /** Synchronising usage finds nothing to do. */
  lemma {:induction false} SyncedIdle(book: Book, done: set<nat>, work: seq<nat>, n: nat)
    requires n <= |work| && Within(work, |book.requests|)
    requires forall i :: 0 <= i < |work| ==> work[i] in done
    ensures Synced(book, done, work, n) == book
  {
    if n > 0 {
      SyncedIdle(book, done, work, n - 1);
    }
  }

  lemma SyncIdle(book: Book)
    requires Backed(book)
    ensures SyncUsage(book) == book
  {
    WorklistExact(book.requests);
    NotDoneNoShares(book);
    var work := Worklist(book.requests, |book.requests|);
    SyncedIdle(book, HoldersOf(book.allocs), work, |work|);
  }

  // ---------------------------------------------------------------- accrual stays within the grant

  lemma GrantWithin(book: Book, asOf: Date, m: nat, b: nat)
    requires Consistent(book) && NoOverspend(book)
    requires b < |GrantYears(book, asOf, m).buckets|
    ensures WithinGrant(GrantYears(book, asOf, m), b)
  {
    hide Entitlement, PeriodStart, PeriodEnd, ExpiresOn, Flat, ColumnsFit, LedgersFit, TrailsFit, SharesFit;
    var after := GrantYears(book, asOf, m);
    EntitlementMonotone(book.hire, b, asOf, asOf);
    SharesSame(book, after, Pending, b, |book.requests|);
    if b < |book.buckets| {
      assert WithinGrant(book, b);
    } else {
      NoSharesNoSum(book, Pending, b, |book.requests|);
    }
  }

  lemma LapseWithin(book: Book, asOf: Date, b: nat)
    requires Consistent(book) && NoOverspend(book) && b < |book.buckets|
    ensures WithinGrant(Lapse(book, asOf, |book.buckets|), b)
  {
    hide PeriodsMatch, Flat, LedgersFit, TrailsFit, SharesFit, Total;
    assert WithinGrant(book, b) && ColumnFits(book, b);
    SharesSame(book, Lapse(book, asOf, |book.buckets|), Pending, b, |book.requests|);
  }

  lemma AccrueWithin(book: Book, asOf: Date)
    requires Solvent(book)
    ensures Solvent(Accrue(book, asOf))
  {
    hide Consistent, GrantYears, Lapse, WithinGrant, CompletedYears;
    if book.hire <= asOf {
      var m := CompletedYears(book.hire, asOf) + 1;
      var granted := GrantYears(book, asOf, m);
      GrantKeeps(book, asOf, m);
      forall b: nat | b < |granted.buckets|
        ensures WithinGrant(granted, b)
      {
        GrantWithin(book, asOf, m, b);
      }
      LapseTables(granted, asOf);
      LapseKeeps(granted, asOf);
      forall b: nat | b < |granted.buckets|
        ensures WithinGrant(Lapse(granted, asOf, |granted.buckets|), b)
      {
        LapseWithin(granted, asOf, b);
      }
    }
  }

  lemma LapseTables(book: Book, asOf: Date)
    ensures var after := Lapse(book, asOf, |book.buckets|);
      after.allocs == book.allocs && after.requests == book.requests && |after.buckets| == |book.buckets|
  {
  }

  lemma SameRowsBacked(book: Book, after: Book)
    requires Backed(book) && after.allocs == book.allocs && after.requests == book.requests
    ensures Backed(after)
  {
    forall r: nat | r < |after.requests| && IsHolder(after.requests[r])
      ensures !NoShares(after, r)
    {
      assert !NoShares(book, r);
      var b: nat :| (r, b) in book.allocs;
      assert (r, b) in after.allocs;
    }
  }

  /** Within the budget a balance read is two scans: there is nothing to synchronise. */
  lemma BalanceWithin(book: Book, asOf: Date)
    requires InBudget(book)
    ensures InBudget(Balance(book, asOf)) && Balance(book, asOf) == Accrue(Accrue(book, asOf), asOf)
  {
    hide Solvent, Accrue, SyncUsage, Backed;
    AccrueWithin(book, asOf);
    AccrueKeepsTables(book, asOf);
    SameRowsBacked(book, Accrue(book, asOf));
    SyncIdle(Accrue(book, asOf));
    AccrueWithin(Accrue(book, asOf), asOf);
    AccrueKeepsTables(Accrue(book, asOf), asOf);
    SameRowsBacked(Accrue(book, asOf), Accrue(Accrue(book, asOf), asOf));
  }

  // ---------------------------------------------------------------- reserving stays within the grant

  /** When capacity suffices, no draw exceeds what its bucket has left. */
  lemma DrawsWithinRoom(buckets: seq<Bucket>, days: int)
    requires 0 < days <= OpenCapacity(buckets)
    ensures var draws := Draws(buckets, days);
      forall i :: 0 <= i < |draws| && draws[i] > 0 ==> buckets[i].status.Open? && draws[i] <= Remaining(buckets[i])
    ensures Newest(buckets, |buckets|) >= 0
  {
    TakenPlusShort(Rooms(buckets), days);
    NewestIsLast(buckets, |buckets|);
    if Newest(buckets, |buckets|) < 0 {
      CapacityZero(Rooms(buckets), |buckets|);
    }
  }

  lemma {:induction false} CapacityZero(rem: seq<int>, n: nat)
    requires n <= |rem| && forall i :: 0 <= i < n ==> rem[i] <= 0
    ensures Capacity(rem, n) == 0
  {
    if n > 0 {
      CapacityZero(rem, n - 1);
    }
  }

  lemma ReserveWithin(book: Book, r: nat, b: nat)
    requires Consistent(book) && r < |book.requests| && book.requests[r].status.Pending? && NoShares(book, r)
    requires b < |book.buckets| && WithinGrant(book, b)
    requires book.requests[r].days <= OpenCapacity(book.buckets)
    ensures WithinGrant(Charge(book, r, book.requests[r].days, Reserving), b)
  {
    hide PeriodsMatch, LedgersFit, TrailsFit, SharesFit, Total, Flat, WithShares, Draws, Newest, OpenCapacity;
    var days := book.requests[r].days;
    DrawsTotal(book.buckets, days);
    DrawsWithinRoom(book.buckets, days);
    assert ColumnFits(book, b);
    DrawnTerms(book, r, Draws(book.buckets, days), Reserving, Pending, b);
  }

  /** Reserving a request that fits backs it, and leaves every other request backed. */
  lemma ReserveBacked(book: Book, r: nat)
    requires Consistent(book) && r < |book.requests| && IsHolder(book.requests[r]) && NoShares(book, r)
    requires book.requests[r].days <= OpenCapacity(book.buckets)
    requires forall q: nat :: q < |book.requests| && q != r && IsHolder(book.requests[q]) ==> !NoShares(book, q)
    ensures Backed(Charge(book, r, book.requests[r].days, Reserving))
  {
    hide PeriodsMatch, ColumnsFit, LedgersFit, TrailsFit, SharesFit, Draws, Flat, WithShares, OpenCapacity, Newest;
    var days := book.requests[r].days;
    var draws := Draws(book.buckets, days);
    var after := Charge(book, r, days, Reserving);
    DrawsWithinRoom(book.buckets, days);
    DrawsTotal(book.buckets, days);
    SharesRecorded(book.allocs, r, draws, |draws|);
    forall q: nat | q < |after.requests| && IsHolder(after.requests[q])
      ensures !NoShares(after, q)
    {
      if q == r {
        SomePositive(draws, |draws|);
        var b: nat :| b < |draws| && draws[b] > 0;
        assert (r, b) in after.allocs;
      } else {
        var b: nat :| (q, b) in book.allocs;
        assert (q, b) in after.allocs;
      }
    }
  }

  lemma {:induction false} SomePositive(s: seq<int>, n: nat)
    requires n <= |s| && SumTo(s, n) > 0
    ensures exists i: nat :: i < n && s[i] > 0
  {
    if s[n - 1] <= 0 {
      SomePositive(s, n - 1);
    }
  }

  lemma CreateWithin(book: Book, input: LeaveInput, attended: set<Date>, today: Date)
    requires Solvent(book)
    ensures Solvent(CreateLeave(book, input, attended, today).book)
  {
    hide Consistent, Accrue, Charge, Overlaps, PlannedRows, WithinGrant, NoShares, OpenCapacity;
    CreateKeeps(book, input, attended, today);
    var rows := PlannedRows(input);
    var q := Request(input.tracked, input.start, input.end, rows, DayFraction.SumLeaveDayFractions(rows), Pending);
    if q.days > 0 {
      SubmitKeeps(book, q);
      SubmitWithin(book, q);
      var submitted := Submit(book, q);
      if q.tracked {
        var accrued := Accrue(submitted, today);
        AccrueKeepsTables(submitted, today);
        AccrueWithin(submitted, today);
        SubmittedBare(book, accrued);
        if q.days <= OpenCapacity(accrued.buckets) {
          ChargeTables(accrued, |book.requests|, q.days, Reserving);
          forall b: nat | b < |accrued.buckets|
            ensures WithinGrant(Charge(accrued, |book.requests|, q.days, Reserving), b)
          {
            ReserveWithin(accrued, |book.requests|, b);
          }
        }
      }
    }
  }

  /** A request that was just submitted holds no row. */
  lemma SubmittedBare(book: Book, after: Book)
    requires Consistent(book) && after.allocs == book.allocs
    ensures NoShares(after, |book.requests|)
  {
  }

  lemma ChargeTables(book: Book, r: nat, days: int, mode: Mode)
    ensures |Charge(book, r, days, mode).buckets| == |book.buckets|
  {
  }

  lemma AccrueOfSubmit(book: Book, q: Request, today: Date)
    ensures Accrue(Submit(book, q), today) == Submit(Accrue(book, today), q)
  {
    hide CompletedYears, Entitlement, PeriodStart, PeriodEnd, ExpiresOn, Flat, FreshBucket, ToppedUp;
    var m := CompletedYears(book.hire, today) + 1;
    assert GrantBatches(Submit(book, q), today, m) == GrantBatches(book, today, m);
    assert GrantedBuckets(Submit(book, q), today, m) == GrantedBuckets(book, today, m);
  }

  /** A new request without rows spends nothing. */
  lemma SubmitWithin(book: Book, q: Request)
    requires Solvent(book) && q.days > 0 && q.status.Pending?
    ensures Solvent(Submit(book, q))
  {
    hide Consistent;
    SubmitKeeps(book, q);
    SubmittedBare(book, Submit(book, q));
    forall b: nat | b < |book.buckets|
      ensures WithinGrant(Submit(book, q), b)
    {
      assert WithinGrant(book, b);
      SharesSame(book, Submit(book, q), Pending, b, |book.requests|);
    }
  }

  // ---------------------------------------------------------------- settling stays within the grant

  lemma ConsumedWithin(book: Book, r: nat, b: nat)
    requires RowsFit(book) && b < |book.buckets| && WithinGrant(book, b)
    requires r < |book.requests| && book.requests[r].status.Pending?
    ensures WithinGrant(SetStatus(Consumed(book, r, |book.buckets|), r, Approved), b)
  {
    hide Flat;
    SharesChanged(book, SetStatus(Consumed(book, r, |book.buckets|), r, Approved), Pending, b, |book.requests|, r);
  }

  lemma ReleasedWithin(book: Book, r: nat, status: RequestStatus, b: nat)
    requires RowsFit(book) && b < |book.buckets| && WithinGrant(book, b) && !status.Pending?
    requires r < |book.requests| && book.requests[r].status.Pending?
    ensures WithinGrant(SetStatus(Released(book, r), r, status), b)
  {
    hide Flat;
    SharesChanged(book, SetStatus(Released(book, r), r, status), Pending, b, |book.requests|, r);
  }

  lemma ReleasedBacked(book: Book, r: nat, status: RequestStatus)
    requires Backed(book) && r < |book.requests| && (status.Rejected? || status.Cancelled?)
    ensures Backed(SetStatus(Released(book, r), r, status))
  {
    hide Flat;
    var after := SetStatus(Released(book, r), r, status);
    forall q: nat | q < |after.requests| && IsHolder(after.requests[q])
      ensures !NoShares(after, q)
    {
      assert !NoShares(book, q);
      var b: nat :| (q, b) in book.allocs;
      assert (q, b) in after.allocs;
    }
  }

  /** Approving a request that holds allocation rows. */
  lemma ConsumeWithin(book: Book, r: nat)
    requires Solvent(book) && r < |book.requests| && book.requests[r].status.Pending?
    ensures Solvent(SetStatus(Consumed(book, r, |book.buckets|), r, Approved))
  {
    hide PeriodsMatch, ColumnsFit, LedgersFit, TrailsFit, SharesFit, WithinGrant, Flat;
    ConsumeKeeps(book, r);
    forall b: nat | b < |book.buckets|
      ensures WithinGrant(SetStatus(Consumed(book, r, |book.buckets|), r, Approved), b)
    {
      ConsumedWithin(book, r, b);
    }
  }

  /** Within the budget the first step of `consumeReserved`, taking a request without allocation rows, is never taken. */
  lemma ApproveWithin(book: Book, r: nat, today: Date)
    requires InBudget(book) && r < |book.requests| && book.requests[r].status.Pending? && book.requests[r].tracked
    ensures HasShares(book, r)
    ensures InBudget(SetStatus(ConsumeReserved(book, r, today), r, Approved))
  {
    hide PeriodsMatch, ColumnsFit, LedgersFit, TrailsFit, SharesFit, WithinGrant, Flat, NoShares;
    BackedSums(book, r);
    ConsumeWithin(book, r);
    var after := SetStatus(Consumed(book, r, |book.buckets|), r, Approved);
    forall q: nat | q < |after.requests| && IsHolder(after.requests[q])
      ensures !NoShares(after, q)
    {
      SameRowsSame(book, after, q);
    }
  }

  lemma SameRowsSame(book: Book, after: Book, q: nat)
    requires after.allocs == book.allocs && !NoShares(book, q)
    ensures !NoShares(after, q)
  {
    var b: nat :| (q, b) in book.allocs;
    assert (q, b) in after.allocs;
  }

  /** Releasing a pending request and rejecting or cancelling it. */
  lemma ReleaseWithin(book: Book, r: nat, status: RequestStatus)
    requires Solvent(book) && r < |book.requests| && book.requests[r].status.Pending? && (status.Rejected? || status.Cancelled?)
    ensures Solvent(SetStatus(Released(book, r), r, status))
  {
    hide PeriodsMatch, ColumnsFit, LedgersFit, TrailsFit, SharesFit, WithinGrant, Flat, NoShares;
    ReleaseKeeps(book, r);
    ReleasedKeepsRequests(book, r);
    SetStatusKeeps(Released(book, r), r, status);
    forall b: nat | b < |book.buckets|
      ensures WithinGrant(SetStatus(Released(book, r), r, status), b)
    {
      ReleasedWithin(book, r, status, b);
    }
  }

  /** A request without rows changes status without touching the budget. */
  lemma BareWithin(book: Book, r: nat, status: RequestStatus)
    requires Solvent(book) && r < |book.requests| && book.requests[r].status.Pending? && NoShares(book, r)
    ensures Solvent(SetStatus(book, r, status))
  {
    hide PeriodsMatch, ColumnsFit, LedgersFit, TrailsFit, SharesFit;
    SetStatusKeeps(book, r, status);
    var after := SetStatus(book, r, status);
    forall b: nat | b < |book.buckets|
      ensures WithinGrant(after, b)
    {
      assert WithinGrant(book, b);
      SharesChanged(book, after, Pending, b, |book.requests|, r);
    }
  }

  lemma CancelWithin(book: Book, r: nat)
    requires Solvent(book)
    ensures Solvent(CancelLeave(book, r).book)
  {
    hide Consistent, NoOverspend, Released, NoShares;
    if r < |book.requests| && book.requests[r].status.Pending? {
      if book.requests[r].tracked {
        ReleaseWithin(book, r, Cancelled);
      } else {
        UntrackedNoShares(book, r);
        BareWithin(book, r, Cancelled);
      }
    }
  }

  // ---------------------------------------------------------------- adjusting stays within the grant

  lemma RaiseWithin(book: Book, amount: int)
    requires Solvent(book) && amount > 0 && Newest(book.buckets, |book.buckets|) >= 0
    ensures Solvent(RaisedNewest(book, amount))
  {
    hide PeriodsMatch, ColumnsFit, LedgersFit, TrailsFit, SharesFit, NoShares;
    RaiseKeeps(book, amount);
    var after := RaisedNewest(book, amount);
    forall b: nat | b < |book.buckets|
      ensures WithinGrant(after, b)
    {
      assert WithinGrant(book, b);
      SharesSame(book, after, Pending, b, |book.requests|);
    }
  }

  lemma DeductWithin(book: Book, need: int)
    requires Solvent(book) && 0 < need
    ensures Solvent(Deducted(book, need))
  {
    hide PeriodsMatch, LedgersFit, TrailsFit, SharesFit, NoShares, Flat, Total;
    DeductKeeps(book, need);
    var after := Deducted(book, need);
    forall b: nat | b < |book.buckets|
      ensures WithinGrant(after, b)
    {
      assert WithinGrant(book, b) && ColumnFits(book, b);
      SharesSame(book, after, Pending, b, |book.requests|);
    }
  }

  lemma AdjustWithin(book: Book, today: Date, amount: int)
    requires Solvent(book)
    ensures Solvent(AdjustBalance(book, today, amount).book)
  {
    hide Solvent, Accrue, RaisedNewest, Deducted;
    var accrued := Accrue(book, today);
    AccrueWithin(book, today);
    if amount > 0 && Newest(accrued.buckets, |accrued.buckets|) >= 0 {
      RaiseWithin(accrued, amount);
      AccrueWithin(RaisedNewest(accrued, amount), today);
    } else if amount < 0 {
      DeductWithin(accrued, -amount);
      AccrueWithin(Deducted(accrued, -amount), today);
    }
  }

  lemma EmptyWithin(hire: Date)
    ensures InBudget(EmptyBook(hire))
  {
  }

  // ---------------------------------------------------------------- days that lapse while reserved

  /** Days of bucket `b` that are neither used, nor expired, nor reserved. */
  function Idle(book: Book, b: nat): int
    requires b < |book.buckets|
  {
    book.buckets[b].granted - book.buckets[b].used - book.buckets[b].expired - SharesOf(book, Pending, b)
  }

  /**
    * Turning a pending request down makes its share of a bucket idle again. They can be reserved anew exactly
    * while the bucket is open: on an expired bucket nothing but the pending sum changes, so the days are neither
    * returned nor recorded as expired.
    */
  lemma ReleasedDaysIdle(book: Book, r: nat, status: RequestStatus, b: nat)
    requires Consistent(book) && b < |book.buckets| && (status.Rejected? || status.Cancelled?)
    requires r < |book.requests| && book.requests[r].status.Pending?
    ensures var after := SetStatus(Released(book, r), r, status);
      && Idle(after, b) == Idle(book, b) + Share(book.allocs, r, b)
      && (if book.buckets[b].status.Open? then Remaining(after.buckets[b]) == Idle(after, b) else after.buckets[b] == book.buckets[b])
  {
    hide Consistent, SharesUpTo, Flat, Released;
    ReleasedRow(book, r, b);
    var after := SetStatus(Released(book, r), r, status);
    BucketColumns(book, b);
    SharesChanged(book, after, Pending, b, |book.requests|, r);
    if book.buckets[b].status.Open? {
      ClampNeverBites(book, r, b);
    } else {
      SharePositive(book, r, b);
    }
  }

  lemma BucketColumns(book: Book, b: nat)
    requires Consistent(book) && b < |book.buckets|
    ensures RowsFit(book) && ColumnFits(book, b)
  {
  }

  lemma SharePositive(book: Book, r: nat, b: nat)
    requires RowsFit(book)
    ensures Share(book.allocs, r, b) >= 0
  {
  }
}
