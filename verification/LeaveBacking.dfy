/**
  * Every live request of a tracked type stays backed by allocation rows that sum to its days, also across rebuilds
  * from hire dates that have come; and cancelling a request undoes its creation.
  */
module LeaveBacking {
  import opened Basics
  import opened Calendar
  import opened LeaveBook
  import opened LeaveInvariant
  import opened LeaveRuns
  import opened LeaveBudget
  import opened RebuildLaws

  ghost predicate Covered(book: Book) {
    Consistent(book) && Backed(book)
  }

  lemma AccrueBacked(book: Book, asOf: Date)
    requires Backed(book)
    ensures Backed(Accrue(book, asOf))
  {
    hide Accrue, Backed;
    AccrueKeepsTables(book, asOf);
    SameRowsBacked(book, Accrue(book, asOf));
  }

  lemma BalanceBacked(book: Book, asOf: Date)
    requires Backed(book)
    ensures Backed(Balance(book, asOf))
  {
    hide Accrue, Backed, SyncUsage;
    AccrueBacked(book, asOf);
    SyncIdle(Accrue(book, asOf));
    AccrueBacked(Accrue(book, asOf), asOf);
  }

  /** A new request leaves all others backed. */
  lemma SubmitBacked(book: Book, q: Request)
    requires Backed(book)
    ensures forall r: nat :: r < |book.requests| && IsHolder(book.requests[r]) ==> !NoShares(Submit(book, q), r)
    ensures !IsHolder(q) ==> Backed(Submit(book, q))
  {
    var after := Submit(book, q);
    forall r: nat | r < |book.requests| && IsHolder(book.requests[r])
      ensures !NoShares(after, r)
    {
      var b: nat :| (r, b) in book.allocs;
      assert (r, b) in after.allocs;
    }
  }

  lemma CreateBacked(book: Book, input: LeaveInput, attended: set<Date>, today: Date)
    requires Covered(book)
    ensures Backed(CreateLeave(book, input, attended, today).book)
  {
    hide Consistent, Accrue, Charge, Overlaps, PlannedRows, AttendedWithin, Backed, OpenCapacity;
    var rows := PlannedRows(input);
    var q := Request(input.tracked, input.start, input.end, rows, DayFraction.SumLeaveDayFractions(rows), Pending);
    if q.days > 0 {
      SubmitBacked(book, q);
      if q.tracked {
        var submitted := Submit(book, q);
        var accrued := Accrue(submitted, today);
        SubmitKeeps(book, q);
        AccrueKeeps(submitted, today);
        AccrueKeepsTables(submitted, today);
        FreshHasNone(book, accrued);
        if q.days <= OpenCapacity(accrued.buckets) {
          ReserveBacked(accrued, |book.requests|);
        }
      }
    }
  }

  lemma FreshHasNone(book: Book, after: Book)
    requires Consistent(book) && after.allocs == book.allocs
    ensures NoShares(after, |book.requests|)
  {
  }

  lemma DecideBacked(book: Book, r: nat, approve: bool, hasReason: bool, attended: set<Date>, today: Date)
    requires Covered(book)
    ensures Backed(DecideLeave(book, r, approve, hasReason, attended, today).book)
  {
    hide Consistent, Backed, Balance, Released, Consumed, Accrue, Charge, AttendedWithin;
    BalanceBacked(book, today);
    DayCharges.BalanceRequests(book, today);
    BalanceKeeps(book, today);
    var read := Balance(book, today);
    if r < |book.requests| && book.requests[r].status.Pending? {
      if !book.requests[r].tracked {
        SettledBacked(read, SetStatus(read, r, if approve then Approved else Rejected), r);
      } else if approve {
        BackedSums(read, r);
        ConsumedTables(read, r);
        SettledBacked(read, SetStatus(Consumed(read, r, |read.buckets|), r, Approved), r);
      } else {
        ReleasedBacked(read, r, Rejected);
      }
    }
  }

  lemma ConsumedTables(book: Book, r: nat)
    ensures Consumed(book, r, |book.buckets|).allocs == book.allocs
    ensures Consumed(book, r, |book.buckets|).requests == book.requests
  {
  }

  /** A request that changes its status, with all allocation rows left in place. */
  lemma SettledBacked(book: Book, after: Book, r: nat)
    requires Backed(book) && after.allocs == book.allocs && r < |book.requests| == |after.requests|
    requires forall q :: 0 <= q < |book.requests| && IsHolder(after.requests[q]) ==> IsHolder(book.requests[q])
    ensures Backed(after)
  {
    forall q: nat | q < |after.requests| && IsHolder(after.requests[q])
      ensures !NoShares(after, q)
    {
      SameRowsSame(book, after, q);
    }
  }

  lemma CancelBacked(book: Book, r: nat)
    requires Backed(book)
    ensures Backed(CancelLeave(book, r).book)
  {
    hide Backed, Released;
    if r < |book.requests| && book.requests[r].status.Pending? {
      if book.requests[r].tracked {
        ReleasedBacked(book, r, Cancelled);
      } else {
        SettledBacked(book, SetStatus(book, r, Cancelled), r);
      }
    }
  }

  lemma AdjustBacked(book: Book, today: Date, amount: int)
    requires Backed(book)
    ensures Backed(AdjustBalance(book, today, amount).book)
  {
    hide Backed, Accrue, OpenCapacity, DeductBatches, Flat;
    var accrued := Accrue(book, today);
    AccrueBacked(book, today);
    if amount > 0 && Newest(accrued.buckets, |accrued.buckets|) >= 0 {
      SameRowsBacked(accrued, RaisedNewest(accrued, amount));
      AccrueBacked(RaisedNewest(accrued, amount), today);
    } else if amount < 0 {
      SameRowsBacked(accrued, Deducted(accrued, -amount));
      AccrueBacked(Deducted(accrued, -amount), today);
    }
  }

  lemma AdjustRows(book: Book, today: Date, amount: int)
    ensures var after := AdjustBalance(book, today, amount).book;
      after.allocs == book.allocs && after.requests == book.requests
  {
    hide OpenCapacity, DeductBatches, Flat, Accrue;
    var accrued := Accrue(book, today);
    AccrueKeepsTables(book, today);
    if amount > 0 && Newest(accrued.buckets, |accrued.buckets|) >= 0 {
      AccrueKeepsTables(RaisedNewest(accrued, amount), today);
    } else if amount < 0 {
      AccrueKeepsTables(Deducted(accrued, -amount), today);
    }
  }

  lemma SameRowsIff(book: Book, after: Book)
    requires after.allocs == book.allocs && after.requests == book.requests
    ensures Backed(after) <==> Backed(book)
  {
    hide Backed;
    if Backed(book) {
      SameRowsBacked(book, after);
    }
    if Backed(after) {
      SameRowsBacked(after, book);
    }
  }

  /**
    * An administrator's adjustment, refused or not, first charges what lacks rows: it leaves every live tracked request
    * backed exactly when some year is open on that day or none was unbacked.
    */
  lemma AdminAdjustBacksIff(book: Book, today: Date, amount: int)
    requires Consistent(book)
    ensures Backed(AdminAdjust(book, today, amount).book) <==> SomeOpen(Accrue(book, today)) || Backed(book)
  {
    hide Consistent, Accrue, SyncUsage, Backed, SomeOpen, AdjustBalance;
    var accrued := Accrue(book, today);
    AccrueKeeps(book, today);
    AccrueKeepsTables(book, today);
    SameRowsIff(book, accrued);
    SyncBacksIff(accrued);
    AccrueKeepsTables(SyncUsage(accrued), today);
    SameRowsIff(SyncUsage(accrued), Balance(book, today));
    AdjustRows(Balance(book, today), today, amount);
    SameRowsIff(Balance(book, today), AdjustBalance(Balance(book, today), today, amount).book);
  }

  lemma PerformCovered(book: Book, op: LeaveOp)
    requires Covered(book) && (op.RebuildFrom? ==> op.hire <= op.today)
    ensures Covered(Perform(book, op).book)
  {
    hide Consistent, Backed, Balance, CreateLeave, DecideLeave, CancelLeave, AdjustBalance, Rebuild;
    PerformKeeps(book, op);
    match op
    case ReadBalance(asOf) => BalanceBacked(book, asOf);
    case Create(input, attended, today) => CreateBacked(book, input, attended, today);
    case Decide(r, approve, hasReason, attended, today) => DecideBacked(book, r, approve, hasReason, attended, today);
    case Cancel(r) => CancelBacked(book, r);
    case AdjustDays(amount, today) =>
      BalanceBacked(book, today);
      AdjustBacked(Balance(book, today), today, amount);
    case RebuildFrom(hire, today) => RebuildBacksIff(book, hire, today);
  }

  lemma {:induction false} RunCovered(book: Book, ops: seq<LeaveOp>)
    requires Covered(book)
    requires forall i :: 0 <= i < |ops| && ops[i].RebuildFrom? ==> ops[i].hire <= ops[i].today
    ensures Covered(Run(book, ops))
  {
    hide Covered, Perform;
    if ops != [] {
      RunCovered(book, ops[..|ops| - 1]);
      PerformCovered(Run(book, ops[..|ops| - 1]), ops[|ops| - 1]);
    }
  }

  /**
    * In every state that a run from an empty book reaches, in which no rebuild is dated before the hire: each
    * pending or approved request of a tracked type holds allocation rows that sum to its days, and every other
    * request holds none; the pending column of an open bucket is the sum of the rows of pending requests on it,
    * that of an expired bucket is 0.
    */
  lemma RunAllocates(hire: Date, ops: seq<LeaveOp>, r: nat, b: nat)
    requires forall i :: 0 <= i < |ops| && ops[i].RebuildFrom? ==> ops[i].hire <= ops[i].today
    ensures var book := Run(EmptyBook(hire), ops);
      && (r < |book.requests| ==>
           if IsHolder(book.requests[r]) then ShareTotal(book.allocs, r, |book.buckets|) == book.requests[r].days
           else NoShares(book, r))
      && (b < |book.buckets| ==>
           book.buckets[b].pending == if book.buckets[b].status.Open? then SharesOf(book, Pending, b) else 0)
  {
    hide Run, ShareTotal, SharesUpTo, TrailsFit, LedgersFit, PeriodsMatch, RowsFit;
    EmptyConsistent(hire);
    RunCovered(EmptyBook(hire), ops);
    var book := Run(EmptyBook(hire), ops);
    if r < |book.requests| && IsHolder(book.requests[r]) {
      BackedSums(book, r);
    }
    if b < |book.buckets| {
      assert ColumnFits(book, b);
    }
  }

  // ---------------------------------------------------------------- cancelling undoes creating

  /** The allocation rows of a fresh reservation are exactly its positive draws. */
  lemma ReservedRows(book: Book, r: nat, days: int)
    requires NoShares(book, r) && days > 0
    ensures var draws, after := Draws(book.buckets, days), Charge(book, r, days, Reserving).allocs;
      && (forall i :: 0 <= i < |draws| ==> draws[i] >= 0)
      && (forall q: nat, b: nat :: q != r
            ==> ((q, b) in after <==> (q, b) in book.allocs) && Share(after, q, b) == Share(book.allocs, q, b))
      && (forall b: nat :: (r, b) in after <==> b < |draws| && draws[b] > 0)
      && (forall b: nat :: (r, b) in after ==> after[(r, b)] == draws[b])
  {
    hide Draws, Flat, DrawBatches, ChargedBuckets;
    DrawsTotal(book.buckets, days);
    SharesRecorded(book.allocs, r, Draws(book.buckets, days), |book.buckets|);
  }

  lemma ReservedBucket(book: Book, r: nat, days: int, i: nat)
    requires i < |book.buckets|
    ensures var b, draws, after := book.buckets[i], Draws(book.buckets, days), Charge(book, r, days, Reserving).buckets;
      |after| == |book.buckets| && after[i] == if draws[i] > 0 then b.(pending := b.pending + draws[i]) else b
  {
    hide Draws, Flat, WithShares, DrawBatches;
  }

  lemma FreedBucket(book: Book, r: nat, i: nat)
    requires i < |book.buckets|
    ensures var b, after := book.buckets[i], Released(book, r).buckets;
      && |after| == |book.buckets|
      && after[i] == if (r, i) in book.allocs then b.(pending := Max0(b.pending - book.allocs[(r, i)])) else b
  {
    hide Flat, ShareBatches;
  }

  lemma ReserveReleasedBucket(book: Book, r: nat, days: int, i: nat)
    requires Consistent(book) && NoShares(book, r) && days > 0 && i < |book.buckets|
    ensures |Released(Charge(book, r, days, Reserving), r).buckets| == |book.buckets|
    ensures Released(Charge(book, r, days, Reserving), r).buckets[i] == book.buckets[i]
  {
    hide Draws, Charge, Released, Consistent;
    ReservedRows(book, r, days);
    PendingNotNegative(book, i);
    ReservedBucket(book, r, days, i);
    FreedBucket(Charge(book, r, days, Reserving), r, i);
  }

  lemma ReserveReleasedRows(book: Book, r: nat, days: int)
    requires NoShares(book, r) && days > 0
    ensures Released(Charge(book, r, days, Reserving), r).allocs == book.allocs
  {
    hide Draws, Flat, WithShares, DrawBatches, ShareBatches, ChargedBuckets;
    ReservedRows(book, r, days);
    var undone := Released(Charge(book, r, days, Reserving), r).allocs;
    forall q: nat, b: nat
      ensures (q, b) in undone <==> (q, b) in book.allocs
      ensures (q, b) in undone ==> undone[(q, b)] == book.allocs[(q, b)]
    {
    }
    assert forall k :: k in undone ==> k == (k.0, k.1);
    assert forall k :: k in book.allocs ==> k == (k.0, k.1);
  }

  lemma ReleasedLength(book: Book, r: nat)
    ensures |Released(book, r).buckets| == |book.buckets|
  {
  }

  lemma PendingNotNegative(book: Book, b: nat)
    requires Consistent(book) && b < |book.buckets|
    ensures book.buckets[b].pending >= 0
  {
    assert ColumnFits(book, b);
    SharesBound(book, Pending, b, |book.requests|);
  }

  /**
    * Cancelling a request right after creating it leaves the buckets and allocation rows that a scan on that day
    * leaves by itself: the reservation is undone in full.
    */
  lemma CancelUndoesCreate(book: Book, input: LeaveInput, attended: set<Date>, today: Date)
    requires Consistent(book) && input.tracked
    ensures var created := CreateLeave(book, input, attended, today);
      created.failure.None? ==>
        var cancelled := CancelLeave(created.book, |book.requests|);
        && cancelled.failure.None?
        && cancelled.book.buckets == Accrue(book, today).buckets && cancelled.book.allocs == book.allocs
        && cancelled.book.requests == book.requests + [created.book.requests[|book.requests|].(status := Cancelled)]
  {
    hide Consistent, Accrue, Charge, Overlaps, PlannedRows, AttendedWithin, OpenCapacity, Released;
    if CreateLeave(book, input, attended, today).failure.None? {
      var rows := PlannedRows(input);
      var q := Request(input.tracked, input.start, input.end, rows, DayFraction.SumLeaveDayFractions(rows), Pending);
      var submitted := Submit(book, q);
      var accrued := Accrue(submitted, today);
      SubmitKeeps(book, q);
      AccrueKeeps(submitted, today);
      AccrueKeepsTables(submitted, today);
      AccrueOfSubmit(book, q, today);
      FreshHasNone(book, accrued);
      var undone := Released(Charge(accrued, |book.requests|, q.days, Reserving), |book.requests|);
      forall i: nat | i < |accrued.buckets|
        ensures |undone.buckets| == |accrued.buckets| && undone.buckets[i] == accrued.buckets[i]
      {
        ReserveReleasedBucket(accrued, |book.requests|, q.days, i);
      }
      ChargeTables(accrued, |book.requests|, q.days, Reserving);
      ReleasedKeepsRequests(Charge(accrued, |book.requests|, q.days, Reserving), |book.requests|);
      ReleasedLength(Charge(accrued, |book.requests|, q.days, Reserving), |book.requests|);
      ReserveReleasedRows(accrued, |book.requests|, q.days);
      DayCharges.ChargeRequests(accrued, |book.requests|, q.days, Reserving);
    }
  }
}
