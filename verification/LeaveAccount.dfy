/** The leave account of one employee: the tables of the leave services, updated row by row. */
module LeaveAccount {
  import opened Basics
  import opened Calendar
  import opened LeavePolicy
  import opened Fifo
  import opened DayFraction
  import opened LeaveBook
  import opened LeaveInvariant
  import opened LeaveRuns
  import opened AccrualLaws
  import opened AllocationRows
  import opened LeaveOverlap
  import opened LeaveEffects
  import DayCharges

  class Account {
    var hire: Date
    var buckets: seq<Bucket>
    var allocs: map<(nat, nat), int>
    var ledger: seq<Entry>
    var requests: seq<Request>

    function Records(): (book: Book)
      reads this
      ensures book.hire == hire && book.buckets == buckets && book.allocs == allocs
      ensures book.ledger == ledger && book.requests == requests
    {
      Book(hire, buckets, allocs, ledger, requests)
    }

    ghost predicate Valid()
      reads this
    {
      Consistent(Records())
    }

    constructor (hire: Date)
      ensures Valid() && Records() == EmptyBook(hire)
    {
      this.hire := hire;
      buckets, allocs, ledger, requests := [], map[], [], [];
      new;
      EmptyConsistent(hire);
    }

    /** `writeLedger`. */
    method WriteLedger(bucket: nat, request: Option<nat>, kind: EntryKind, days: int)
      modifies this`ledger
      ensures ledger == old(ledger) + [Entry(bucket, request, kind, days)]
    {
      ledger := ledger + [Entry(bucket, request, kind, days)];
    }

    /** The bucket that starts on `start`, or -1. */
    method FindBucket(start: Date) returns (k: int)
      ensures -1 <= k < |buckets|
      ensures k >= 0 ==> buckets[k].periodStart == start
      ensures k < 0 ==> forall i :: 0 <= i < |buckets| ==> buckets[i].periodStart != start
    {
      for i := 0 to |buckets|
        invariant forall j :: 0 <= j < i ==> buckets[j].periodStart != start
      {
        if buckets[i].periodStart == start {
          return i;
        }
      }
      return -1;
    }

    /** One round of the granting loop of `ensureAccrual`: leave year `n`. */
    method GrantYear(n: nat, asOf: Date, ghost start: Book)
      requires PeriodsMatch(start) && Records() == GrantYears(start, asOf, n)
      modifies this
      ensures Records() == GrantYears(start, asOf, n + 1)
      ensures n < |buckets| && forall days :: YearGrants(start.hire, n, asOf, days) ==>
        buckets[n].granted == Max(Row(start, n).granted, days)
    {
      hide CompletedYears, Entitlement, PeriodStart, PeriodEnd, ExpiresOn, Flat, YearGrants, Row;
      GrantStep(start, asOf, n);
      GrantedRow(start, asOf, n);
      var granted := Entitlement(hire, n, asOf);
      var found := FindBucket(PeriodStart(hire, n));
      FoundYear(Records(), n, found);
      if found < 0 {
        buckets := buckets + [FreshBucket(hire, n, asOf)];
        WriteLedger(|buckets| - 1, None, Grant, granted);
        return;
      }
      var current := buckets[found].granted;
      if granted > current {
        buckets := buckets[found := buckets[found].(
          granted := granted, periodEnd := PeriodEnd(hire, n), expiresOn := ExpiresOn(PeriodStart(hire, n)))];
        WriteLedger(found, None, TopUp, granted - current);
      }
    }

    /** `ensureAccrual`. */
    method EnsureAccrual(asOf: Date)
      requires PeriodsMatch(Records())
      modifies this
      ensures Records() == Accrue(old(Records()), asOf)
      ensures PeriodsMatch(Records())
      ensures hire <= asOf ==> AllGranted(old(Records()), Records(), asOf)
    {
      hide PeriodsMatch, CompletedYears, GrantYears, Lapse, AllGranted, YearGrants;
      if asOf < hire {
        return;
      }
      ghost var start := Records();
      ScanGrantsAll(start, asOf);
      AccrueMatches(start, asOf);
      var yearsStarted := CompletedYears(hire, asOf);
      var n := 0;
      GrantNothing(start, asOf);
      while n <= yearsStarted
        invariant n <= yearsStarted + 1
        invariant Records() == GrantYears(start, asOf, n)
      {
        GrantYear(n, asOf, start);
        n := n + 1;
      }
      ghost var granted := Records();
      GrantHire(start, asOf, n);
      LapseNothing(granted, asOf);
      var i := 0;
      while i < |buckets|
        invariant i <= |buckets| == |granted.buckets|
        invariant Records() == Lapse(granted, asOf, i)
      {
        LapseStep(granted, asOf, i);
        LapseLength(granted, asOf, i);
        var row := buckets[i];
        i := i + 1;
        if row.status.Expired? || row.expiresOn > asOf {
          continue;
        }
        var leftover := Max0(Remaining(row));
        buckets := buckets[i - 1 := row.(status := Expired, expired := row.expired + leftover, pending := 0)];
        if leftover > 0 {
          WriteLedger(i - 1, None, Expire, leftover);
        }
      }
    }

    /** `openBucketsOldestFirst`. */
    method OpenBucketsOldestFirst() returns (open: seq<FifoBucket>)
      ensures open == OpenList(buckets, |buckets|)
    {
      open := [];
      for i := 0 to |buckets|
        invariant open == OpenList(buckets, i)
      {
        if buckets[i].status.Open? {
          open := open + [FifoBucket(i, Remaining(buckets[i]))];
        }
      }
    }

    /** The allocation rows for `days`, with any shortfall put on the newest open bucket. */
    method AllocateOverdrawn(open: seq<FifoBucket>, days: int) returns (fits: bool, allocations: seq<Allocation>)
      requires open == OpenList(buckets, |buckets|)
      ensures fits <==> days <= OpenCapacity(buckets)
      ensures allocations == Rows(Draws(buckets, days), |buckets|)
    {
      hide Capacity, Positives, Take, Takes, Draws, Newest, OpenList, Remainings, Ids;
      ghost var n, takes, draws := |buckets|, Takes(Rooms(buckets), days), Draws(buckets, days);
      OpenListCapacity(buckets, n);
      OpenListAllocates(buckets, days, n);
      OpenListNewest(buckets, n);
      DrawsVersusTakes(buckets, days);
      var result := AllocateFifo(open, days);
      allocations := result.allocations;
      fits := result.Fits?;
      if result.Short? && |open| > 0 {
        var newest := open[|open| - 1].id;
        OverdrawnRows(takes, draws, newest);
        for k := 0 to |allocations|
          invariant forall j :: 0 <= j < k ==> allocations[j].id != newest
        {
          if allocations[k].id == newest {
            allocations := allocations[k := Allocation(newest, allocations[k].days + result.shortfall)];
            return;
          }
        }
        allocations := allocations + [Allocation(newest, result.shortfall)];
      } else {
        PositivesPrefix(Indices(n), Indices(n), takes, draws, n);
      }
    }

    /** `applyToBuckets`. */
    method ApplyToBuckets(r: nat, days: int, mode: Mode, allowOverdraw: bool) returns (ok: bool)
      modifies this
      ensures ok <==> allowOverdraw || days <= OpenCapacity(old(buckets))
      ensures Records() == if ok then Charge(old(Records()), r, days, mode) else old(Records())
    {
      hide Draws, Drawn, OpenCapacity, OpenList, Positives;
      ghost var start, n := Records(), |buckets|;
      var open := OpenBucketsOldestFirst();
      var fits, allocations := AllocateOverdrawn(open, days);
      if !fits && !allowOverdraw {
        return false;
      }
      ghost var draws := Draws(buckets, days);
      var rows := buckets;
      var k := 0;
      ghost var m: nat := 0;
      DrawNothing(start, r, draws, mode);
      while k < |allocations|
        invariant k <= |allocations| && m <= n
        invariant Rows(draws, m) == allocations[..k]
        invariant Records() == Drawn(start, r, draws, mode, m)
      {
        var allocation := allocations[k];
        ghost var j := allocation.id;
        NextRow(draws, n, k, m);
        DrawnSkip(start, r, draws, mode, m, j);
        DrawnStep(start, r, draws, mode, j);
        DrawnLength(start, r, draws, mode, j);
        var row := rows[allocation.id];
        match mode {
          case Reserving =>
            buckets := buckets[allocation.id := row.(pending := row.pending + allocation.days)];
            WriteLedger(allocation.id, Some(r), Reserve, allocation.days);
          case Consuming =>
            buckets := buckets[allocation.id := row.(used := row.used + allocation.days)];
            WriteLedger(allocation.id, Some(r), Consume, allocation.days);
        }
        allocs := allocs[(r, allocation.id) := allocation.days];
        k, m := k + 1, j + 1;
      }
      RowsEqualSkip(draws, m, n);
      DrawnSkip(start, r, draws, mode, m, n);
      return true;
    }

    /** `reserve`. */
    method ReserveDays(r: nat, days: int, today: Date) returns (ok: bool)
      requires PeriodsMatch(Records())
      modifies this
      ensures ok <==> days <= OpenCapacity(Accrue(old(Records()), today).buckets)
      ensures var accrued := Accrue(old(Records()), today);
        Records() == if ok then Charge(accrued, r, days, Reserving) else accrued
    {
      EnsureAccrual(today);
      ok := ApplyToBuckets(r, days, Reserving, false);
    }

    /** `consumeReserved`. */
    method ConsumeReservedDays(r: nat, today: Date)
      requires r < |requests| && PeriodsMatch(Records())
      modifies this
      ensures Records() == ConsumeReserved(old(Records()), r, today)
    {
      hide PeriodsMatch, Accrue, Charge, Consumed, OpenCapacity;
      ghost var start := Records();
      var holds := exists b: nat :: b < |buckets| && (r, b) in allocs;
      if !holds {
        EnsureAccrual(today);
        AccrueKeepsTables(start, today);
        var _ := ApplyToBuckets(r, requests[r].days, Consuming, true);
        return;
      }
      ConsumeNothing(start, r);
      for b := 0 to |buckets|
        invariant |buckets| == |start.buckets| && allocs == start.allocs
        invariant Records() == Consumed(start, r, b)
      {
        ConsumeStep(start, r, b);
        if (r, b) in allocs {
          var bucket, days := buckets[b], allocs[(r, b)];
          buckets := buckets[b := bucket.(pending := Max0(bucket.pending - days), used := bucket.used + days)];
          WriteLedger(b, Some(r), Consume, days);
        }
      }
    }

    /** `release` in mode "pending". */
    method ReleasePending(r: nat)
      modifies this
      ensures Records() == Released(old(Records()), r)
    {
      hide ReleasedTo;
      ghost var start := Records();
      ReleaseNothing(start, r);
      for b := 0 to |buckets|
        invariant |buckets| == |start.buckets| && allocs == start.allocs
        invariant Records() == ReleasedTo(start, r, b)
      {
        ReleaseStep(start, r, b);
        if (r, b) in allocs {
          var bucket, days := buckets[b], allocs[(r, b)];
          buckets := buckets[b := bucket.(pending := Max0(bucket.pending - days))];
          WriteLedger(b, Some(r), Release, days);
        }
      }
      allocs := map k | k in allocs && k.0 != r :: allocs[k];
    }

    /** `syncUsageFromRequests`. */
    method SyncUsageFromRequests()
      modifies this
      ensures Records() == SyncUsage(old(Records()))
    {
      hide OpenCapacity, Drawn, Draws;
      ghost var start := Records();
      var done := HoldersOf(allocs);
      var work := Worklist(requests, |requests|);
      for i := 0 to |work|
        invariant requests == start.requests && Records() == Synced(start, done, work, i)
      {
        var r := work[i];
        if r !in done {
          var _ := ApplyToBuckets(r, requests[r].days, ModeOf(requests[r]), true);
        }
        assert Records() == Synced(start, done, work, i + 1);
      }
    }

    /** `balanceForEmployee`. */
    method BalanceForEmployee(asOf: Date)
      requires Valid()
      modifies this
      ensures Valid() && Records() == Balance(old(Records()), asOf)
    {
      hide Consistent, Accrue, SyncUsage, PeriodsMatch;
      ghost var start := Records();
      ConsistentMatches(start);
      BalanceKeeps(start, asOf);
      AccrueKeeps(start, asOf);
      SyncKeeps(Accrue(start, asOf));
      EnsureAccrual(asOf);
      SyncUsageFromRequests();
      ConsistentMatches(Records());
      EnsureAccrual(asOf);
    }

    /** `rebuild`, after the hire date was changed to `hireDate`. */
    method RebuildYears(hireDate: Date, today: Date)
      requires Valid()
      modifies this
      ensures Valid() && Records() == Rebuild(old(Records()), hireDate, today)
    {
      hide Consistent, Accrue, SyncUsage;
      ghost var start := Records();
      RebuildKeeps(start, hireDate, today);
      hire := hireDate;
      allocs := map[];
      ledger := [];
      buckets := [];
      EnsureAccrual(today);
      SyncUsageFromRequests();
    }

    /** The transaction is undone: all tables are as they were. */
    method RollBack(book: Book)
      modifies this
      ensures Records() == book
    {
      hire, buckets, allocs, ledger, requests := book.hire, book.buckets, book.allocs, book.ledger, book.requests;
    }

    /** `adjust`. */
    method AdjustDays(amount: int, today: Date) returns (failure: Option<Failure>)
      requires Valid()
      modifies this
      ensures Valid() && Reply(Records(), failure) == AdjustBalance(old(Records()), today, amount)
      ensures amount < 0 && failure.None? ==> DeductionMakes(Accrue(old(Records()), today), Records(), -amount)
    {
      hide Consistent, Accrue, Deducted, RaisedNewest, OpenCapacity, OpenList, PeriodsMatch, DeductionMakes, AllGranted, CanGiveTo;
      var start := Records();
      if amount < 0 {
        DeductEffect(start, today, -amount);
      }
      AdjustKeeps(start, today, amount);
      ConsistentMatches(start);
      if amount == 0 {
        return Some(InvalidAdjustment);
      }
      EnsureAccrual(today);
      AccrueKeeps(start, today);
      if amount > 0 {
        var current := Newest(buckets, |buckets|);
        if current < 0 {
          RollBack(start);
          return Some(NoLeaveBucket);
        }
        RaiseKeeps(Records(), amount);
        RaiseGrant(current, amount);
      } else {
        var ok := DeductDays(-amount);
        if !ok {
          RollBack(start);
          return Some(InsufficientBalance);
        }
        DeductKeeps(Accrue(start, today), -amount);
      }
      ConsistentMatches(Records());
      EnsureAccrual(today);
      return None;
    }

    method RaiseGrant(current: nat, amount: int)
      requires current == Newest(buckets, |buckets|)
      modifies this
      ensures Records() == RaisedNewest(old(Records()), amount)
    {
      buckets := buckets[current := buckets[current].(granted := buckets[current].granted + amount)];
      WriteLedger(current, None, Adjust, amount);
    }

    /** The deducting half of `adjust`. */
    method DeductDays(need: int) returns (ok: bool)
      requires need > 0
      modifies this
      ensures ok <==> need <= OpenCapacity(old(buckets))
      ensures Records() == if ok then Deducted(old(Records()), need) else old(Records())
      ensures ok ==> DeductionMakes(old(Records()), Records(), need)
    {
      hide DeductedTo, OpenCapacity, OpenList, Positives, Takes, DeductionMakes;
      ghost var start, n := Records(), |buckets|;
      var open := OpenBucketsOldestFirst();
      var result := AllocateFifo(open, need);
      OpenListCapacity(buckets, n);
      OpenListAllocates(buckets, need, n);
      CapacityMeaning(buckets);
      if result.Short? {
        return false;
      }
      CapacityIs(buckets, n);
      DeductedMakes(start, need);
      ghost var takes := Takes(Rooms(buckets), need);
      TakesMeaning(Rooms(buckets), need);
      var rows, allocations := buckets, result.allocations;
      var k := 0;
      ghost var m: nat := 0;
      DeductNothing(start, takes);
      while k < |allocations|
        invariant k <= |allocations| && m <= n
        invariant Rows(takes, m) == allocations[..k]
        invariant Records() == DeductedTo(start, takes, m)
      {
        var allocation := allocations[k];
        ghost var j := allocation.id;
        NextRow(takes, n, k, m);
        DeductedSkip(start, takes, m, j);
        DeductedStep(start, takes, j);
        DeductedLength(start, takes, j);
        var row := rows[allocation.id];
        buckets := buckets[allocation.id := row.(used := row.used + allocation.days)];
        WriteLedger(allocation.id, None, Adjust, -allocation.days);
        k, m := k + 1, j + 1;
      }
      RowsEqualSkip(takes, m, n);
      DeductedSkip(start, takes, m, n);
      return true;
    }

    /** `leaveService.create`. */
    method CreateRequest(input: LeaveInput, attended: set<Date>, today: Date) returns (failure: Option<Failure>)
      requires Valid()
      modifies this
      ensures Valid() && Reply(Records(), failure) == CreateLeave(old(Records()), input, attended, today)
    {
      hide Consistent, Accrue, Charge, OpenCapacity, Overlaps, WorkingDays, WithSessions, FractionSum, PeriodsMatch;
      var start := Records();
      CreateKeeps(start, input, attended, today);
      if !input.active {
        return Some(InvalidLeaveType);
      }
      if input.end < input.start {
        return Some(InvalidLeaveRange);
      }
      var working := WorkingLeaveDays(input.schedule, input.start, input.end);
      var planned := ApplyLeaveSessions(working, input.picks);
      var days := SumLeaveDayFractions(planned);
      if days <= 0 {
        return Some(NoWorkingDays);
      }
      if AttendedWithin(attended, input.start, input.end) {
        return Some(LeaveAttendanceConflict);
      }
      var overlap := FindOverlap(requests, planned);
      if overlap {
        return Some(OverlappingLeave);
      }
      var r := |requests|;
      var q := Request(input.tracked, input.start, input.end, planned, days, Pending);
      requests := requests + [q];
      if input.tracked {
        SubmitKeeps(start, q);
        ConsistentMatches(Records());
        var ok := ReserveDays(r, days, today);
        if !ok {
          RollBack(start);
          return Some(InsufficientBalance);
        }
      }
      return None;
    }

    method MarkStatus(r: nat, status: RequestStatus)
      requires r < |requests|
      modifies this`requests
      ensures Records() == SetStatus(old(Records()), r, status)
    {
      requests := requests[r := requests[r].(status := status)];
    }

    /** `leaveService.decide`. */
    method DecideRequest(r: nat, approve: bool, hasReason: bool, attended: set<Date>, today: Date) returns (failure: Option<Failure>)
      requires Valid()
      modifies this
      ensures Valid() && Reply(Records(), failure) == DecideLeave(old(Records()), r, approve, hasReason, attended, today)
    {
      hide Consistent, Balance, Released, ConsumeReserved, AttendedWithin, PeriodsMatch;
      DecideKeeps(Records(), r, approve, hasReason, attended, today);
      BalanceKeeps(Records(), today);
      if r >= |requests| {
        return Some(LeaveNotFound);
      }
      var current := requests[r];
      BalanceForEmployee(today);
      if !current.status.Pending? {
        return Some(LeaveAlreadyDecided);
      }
      if !approve && !hasReason {
        return Some(RejectionReasonRequired);
      }
      if approve && AttendedWithin(attended, current.start, current.end) {
        return Some(LeaveAttendanceConflict);
      }
      ConsistentMatches(Records());
      DayCharges.SettleRequests(Records(), r, today);
      if current.tracked {
        if approve {
          ConsumeReservedDays(r, today);
        } else {
          ReleasePending(r);
        }
      }
      MarkStatus(r, if approve then Approved else Rejected);
      return None;
    }

    /** `leaveService.cancel`. */
    method CancelRequest(r: nat) returns (failure: Option<Failure>)
      requires Valid()
      modifies this
      ensures Valid() && Reply(Records(), failure) == CancelLeave(old(Records()), r)
    {
      hide Consistent, Released;
      CancelKeeps(Records(), r);
      if r >= |requests| {
        return Some(LeaveNotFound);
      }
      var current := requests[r];
      if !current.status.Pending? {
        return Some(LeaveNotCancellable);
      }
      ReleasedKeepsRequests(Records(), r);
      if current.tracked {
        ReleasePending(r);
      }
      MarkStatus(r, Cancelled);
      return None;
    }
  }

  // ---------------------------------------------------------------- first steps of the loops

  /** Leave year `n` is found at place `n`, and is missing only when it is the next one. */
  lemma FoundYear(book: Book, n: nat, found: int)
    requires PeriodsMatch(book) && n <= |book.buckets| && -1 <= found < |book.buckets|
    requires found >= 0 ==> book.buckets[found].periodStart == PeriodStart(book.hire, n)
    requires found < 0 ==> forall i :: 0 <= i < |book.buckets| ==> book.buckets[i].periodStart != PeriodStart(book.hire, n)
    ensures found == if n < |book.buckets| then n else -1
  {
    hide PeriodStart, PeriodEnd, ExpiresOn;
    assert n < |book.buckets| ==> book.buckets[n].periodStart == PeriodStart(book.hire, n);
    if 0 <= found < n {
      PeriodStartsOrdered(book.hire, found, n);
    } else if n < found {
      PeriodStartsOrdered(book.hire, n, found);
    }
  }

  lemma GrantNothing(book: Book, asOf: Date)
    ensures GrantYears(book, asOf, 0) == book
  {
    hide Entitlement, PeriodStart, PeriodEnd, ExpiresOn;
    assert GrantedBuckets(book, asOf, 0) == book.buckets;
  }

  lemma GrantHire(book: Book, asOf: Date, m: nat)
    ensures GrantYears(book, asOf, m).hire == book.hire
  {
  }

  lemma LapseNothing(book: Book, asOf: Date)
    ensures Lapse(book, asOf, 0) == book
  {
    assert LapsedBuckets(book.buckets, asOf, 0) == book.buckets;
  }

  lemma LapseLength(book: Book, asOf: Date, m: nat)
    requires m < |book.buckets|
    ensures |Lapse(book, asOf, m).buckets| == |Lapse(book, asOf, m + 1).buckets| == |book.buckets|
  {
  }

  lemma DrawNothing(book: Book, r: nat, draws: seq<int>, mode: Mode)
    requires |draws| == |book.buckets|
    ensures Drawn(book, r, draws, mode, 0) == book && Rows(draws, 0) == []
  {
    assert ChargedBuckets(book.buckets, draws, mode, 0) == book.buckets;
  }

  lemma DrawnLength(book: Book, r: nat, draws: seq<int>, mode: Mode, m: nat)
    requires m <= |draws| == |book.buckets|
    ensures |Drawn(book, r, draws, mode, m).buckets| == |book.buckets|
  {
  }

  lemma ConsumeNothing(book: Book, r: nat)
    ensures Consumed(book, r, 0) == book
  {
    assert Consumed(book, r, 0).buckets == book.buckets;
  }

  lemma ReleaseNothing(book: Book, r: nat)
    ensures ReleasedTo(book, r, 0) == book
  {
    assert ReleasedTo(book, r, 0).buckets == book.buckets;
  }

  lemma DeductNothing(book: Book, takes: seq<int>)
    requires |takes| == |book.buckets|
    ensures DeductedTo(book, takes, 0) == book && Rows(takes, 0) == []
  {
    assert ChargedBuckets(book.buckets, takes, Consuming, 0) == book.buckets;
  }

  lemma DeductedLength(book: Book, takes: seq<int>, m: nat)
    requires m <= |takes| == |book.buckets|
    ensures |DeductedTo(book, takes, m).buckets| == |book.buckets|
  {
  }

  /** The draws are the takes, with the shortfall added on the newest open bucket. */
  lemma DrawsVersusTakes(buckets: seq<Bucket>, days: int)
    ensures var takes, draws, w := Takes(Rooms(buckets), days), Draws(buckets, days), Newest(buckets, |buckets|);
      && |takes| == |buckets|
      && (forall i :: 0 <= i < |takes| ==> takes[i] >= 0 && draws[i] == takes[i] + (if i == w then Shortfall(Rooms(buckets), days) else 0))
      && (forall i :: w < i < |takes| ==> takes[i] == 0)
  {
    NewestIsLast(buckets, |buckets|);
  }

  lemma CapacityMeaning(buckets: seq<Bucket>)
    ensures OpenCapacity(buckets) == Capacity(Rooms(buckets), |buckets|)
  {
  }

  lemma TakesMeaning(rem: seq<int>, days: int)
    ensures |Takes(rem, days)| == |rem| && forall i :: 0 <= i < |rem| ==> Takes(rem, days)[i] >= 0
  {
  }
}
