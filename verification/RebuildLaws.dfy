/**
  * What the balance tells, and when charging the requests that hold no allocation, as every balance read and every
  * rebuild does, leaves each leave year within its grant.
  */
module RebuildLaws {
  import opened Basics
  import opened Calendar
  import opened LeavePolicy
  import opened Fifo
  import opened LeaveBook
  import opened LeaveInvariant
  import opened LeaveRuns
  import opened LeaveBudget
  import opened AccrualLaws
  import DayCharges

  // ---------------------------------------------------------------- the balance

  /** Remaining days of the open ones of the first `n` buckets, overdrawn ones counting negatively. */
  function OpenRemaining(buckets: seq<Bucket>, n: nat): int
    requires n <= |buckets|
  {
    if n == 0 then 0
    else OpenRemaining(buckets, n - 1) + (if buckets[n - 1].status.Open? then Remaining(buckets[n - 1]) else 0)
  }

  /** `available` of the balance shown to the employee. */
  function Available(book: Book): int {
    Max0(OpenRemaining(book.buckets, |book.buckets|))
  }

  predicate NoneOverdrawn(buckets: seq<Bucket>) {
    forall i :: 0 <= i < |buckets| && buckets[i].status.Open? ==> Remaining(buckets[i]) >= 0
  }

  lemma {:induction false} CapacityIsRemaining(buckets: seq<Bucket>, n: nat)
    requires n <= |buckets| && NoneOverdrawn(buckets)
    ensures Capacity(Rooms(buckets), n) == OpenRemaining(buckets, n)
  {
    if n > 0 {
      CapacityIsRemaining(buckets, n - 1);
    }
  }

  lemma {:induction false} RemainingAtMostCapacity(buckets: seq<Bucket>, n: nat)
    requires n <= |buckets|
    ensures OpenRemaining(buckets, n) <= Capacity(Rooms(buckets), n)
    ensures OpenRemaining(buckets, n) == Capacity(Rooms(buckets), n) ==>
      forall i :: 0 <= i < n && buckets[i].status.Open? ==> Remaining(buckets[i]) >= 0
  {
    if n > 0 {
      RemainingAtMostCapacity(buckets, n - 1);
    }
  }

  lemma CapacityMeaning(buckets: seq<Bucket>)
    ensures OpenCapacity(buckets) == Capacity(Rooms(buckets), |buckets|) >= 0
  {
  }

  /**
    * The balance never shows more than can be reserved, and shows just that exactly when no open bucket is overdrawn
    * or nothing can be reserved: an overdrawn year lowers what is shown, but takes no room from the others.
    */
  lemma BalanceTellsCapacity(book: Book)
    ensures Available(book) <= OpenCapacity(book.buckets)
    ensures Available(book) == OpenCapacity(book.buckets) <==> NoneOverdrawn(book.buckets) || OpenCapacity(book.buckets) == 0
  {
    hide OpenCapacity, OpenRemaining, Rooms, Remaining;
    CapacityMeaning(book.buckets);
    RemainingAtMostCapacity(book.buckets, |book.buckets|);
    if NoneOverdrawn(book.buckets) {
      CapacityIsRemaining(book.buckets, |book.buckets|);
    }
  }

  /** Within the budget no open bucket is overdrawn, and so the balance shown is exactly what can be reserved. */
  lemma BalanceWithinBudget(book: Book)
    requires Solvent(book)
    ensures NoneOverdrawn(book.buckets)
    ensures Available(book) == OpenCapacity(book.buckets)
  {
    hide PeriodsMatch, LedgersFit, TrailsFit, SharesFit, OpenCapacity, OpenRemaining;
    forall i: nat | i < |book.buckets| && book.buckets[i].status.Open?
      ensures Remaining(book.buckets[i]) >= 0
    {
      assert ColumnFits(book, i) && WithinGrant(book, i);
    }
    BalanceTellsCapacity(book);
  }

  /** Whether `create` finds nothing wrong with a request of a tracked type but, possibly, its size. */
  ghost predicate Admissible(book: Book, input: LeaveInput, attended: set<Date>) {
    && input.tracked && input.active && input.start <= input.end
    && DayFraction.SumLeaveDayFractions(PlannedRows(input)) > 0
    && !AttendedWithin(attended, input.start, input.end) && !Overlaps(book.requests, PlannedRows(input))
  }

  /** On every book, an admissible request is turned down exactly when its days exceed the capacity of that day. */
  lemma CreateSizeIff(book: Book, input: LeaveInput, attended: set<Date>, today: Date)
    requires Admissible(book, input, attended)
    ensures CreateLeave(book, input, attended, today).failure
         == (if DayFraction.SumLeaveDayFractions(PlannedRows(input)) > OpenCapacity(Accrue(book, today).buckets)
             then Some(InsufficientBalance) else None)
  {
    hide PlannedRows, Overlaps, Accrue, Charge, AttendedWithin, OpenCapacity;
    var rows := PlannedRows(input);
    var q := Request(input.tracked, input.start, input.end, rows, DayFraction.SumLeaveDayFractions(rows), Pending);
    AccrueOfSubmit(book, q, today);
  }

  /**
    * A request made on the day the balance is read, on whatever book: its size is judged by the balance that was shown
    * exactly unless it lies above that and within the capacity, and then it is accepted although the balance shows less.
    */
  lemma CreateFollowsBalance(book: Book, input: LeaveInput, attended: set<Date>, today: Date)
    requires Admissible(book, input, attended)
    ensures var read, days := Balance(book, today), DayFraction.SumLeaveDayFractions(PlannedRows(input));
      var failure := CreateLeave(read, input, attended, today).failure;
      && failure == (if days > OpenCapacity(read.buckets) then Some(InsufficientBalance) else None)
      && ((failure.Some? <==> days > Available(read)) <==> !(Available(read) < days <= OpenCapacity(read.buckets)))
  {
    hide PlannedRows, Overlaps, Accrue, SyncUsage, AttendedWithin, OpenCapacity, Available, CreateLeave;
    var read := Balance(book, today);
    DayCharges.BalanceRequests(book, today);
    ScanTwice(SyncUsage(Accrue(book, today)), today);
    CreateSizeIff(read, input, attended, today);
    BalanceTellsCapacity(read);
  }

  /** Within the budget an admissible request is turned down exactly when it asks for more than the balance of that day. */
  lemma CreateWithinBudget(book: Book, input: LeaveInput, attended: set<Date>, today: Date)
    requires Solvent(book) && Admissible(book, input, attended)
    ensures CreateLeave(book, input, attended, today).failure
         == (if DayFraction.SumLeaveDayFractions(PlannedRows(input)) > Available(Accrue(book, today))
             then Some(InsufficientBalance) else None)
  {
    hide Solvent, Admissible, PlannedRows, Accrue, OpenCapacity, Available, CreateLeave;
    CreateSizeIff(book, input, attended, today);
    AccrueWithin(book, today);
    BalanceWithinBudget(Accrue(book, today));
  }

  // ---------------------------------------------------------------- the days to be charged

  /** Days of the holders among the first `n` requests, those in `done` left out. */
  function HolderDays(requests: seq<Request>, done: set<nat>, n: nat): int
    requires n <= |requests|
  {
    if n == 0 then 0
    else HolderDays(requests, done, n - 1) + (if IsHolder(requests[n - 1]) && n - 1 !in done then requests[n - 1].days else 0)
  }

  /** Days of the live requests of tracked types that hold no allocation rows. */
  function UnbackedDays(book: Book): int {
    HolderDays(book.requests, HoldersOf(book.allocs), |book.requests|)
  }

  function DaysUnless(requests: seq<Request>, done: set<nat>, r: nat): int
    requires r < |requests|
  {
    if r in done then 0 else requests[r].days
  }

  function WorkDays(requests: seq<Request>, done: set<nat>, work: seq<nat>, n: nat): int
    requires n <= |work| && Within(work, |requests|)
  {
    if n == 0 then 0 else WorkDays(requests, done, work, n - 1) + DaysUnless(requests, done, work[n - 1])
  }

  lemma {:induction false} WorkDaysPrefix(requests: seq<Request>, done: set<nat>, work: seq<nat>, longer: seq<nat>, n: nat)
    requires n <= |work| && n <= |longer| && Within(work, |requests|) && Within(longer, |requests|)
    requires forall i :: 0 <= i < n ==> work[i] == longer[i]
    ensures WorkDays(requests, done, work, n) == WorkDays(requests, done, longer, n)
  {
    if n > 0 {
      WorkDaysPrefix(requests, done, work, longer, n - 1);
    }
  }

  lemma AppendAdds(requests: seq<Request>, done: set<nat>, work: seq<nat>, r: nat)
    requires r < |requests| && Within(work, |requests|)
    ensures Within(work + [r], |requests|)
    ensures WorkDays(requests, done, work + [r], |work| + 1) == WorkDays(requests, done, work, |work|) + DaysUnless(requests, done, r)
  {
    WorkDaysPrefix(requests, done, work, work + [r], |work|);
  }

  lemma EnqueueStep(requests: seq<Request>, work: seq<nat>, r: nat)
    requires r < |requests| && Within(work, |requests|)
    requires work != [] && requests[work[|work| - 1]].start > requests[r].start
    ensures Enqueue(requests, work, r) == Enqueue(requests, work[..|work| - 1], r) + [work[|work| - 1]]
  {
  }

  lemma {:induction false} EnqueueAdds(requests: seq<Request>, done: set<nat>, work: seq<nat>, r: nat)
    requires r < |requests| && Within(work, |requests|)
    ensures Within(Enqueue(requests, work, r), |requests|)
    ensures WorkDays(requests, done, Enqueue(requests, work, r), |Enqueue(requests, work, r)|)
         == WorkDays(requests, done, work, |work|) + DaysUnless(requests, done, r)
  {
    hide WorkDays, DaysUnless;
    if work == [] || requests[work[|work| - 1]].start <= requests[r].start {
      AppendAdds(requests, done, work, r);
    } else {
      hide Enqueue;
      var rest, last := work[..|work| - 1], work[|work| - 1];
      var queue := Enqueue(requests, rest, r);
      EnqueueStep(requests, work, r);
      EnqueueAdds(requests, done, rest, r);
      assert work == rest + [last];
      AppendAdds(requests, done, rest, last);
      AppendAdds(requests, done, queue, last);
    }
  }

  lemma WorklistStep(requests: seq<Request>, n: nat)
    requires 0 < n <= |requests|
    ensures Worklist(requests, n)
         == if IsHolder(requests[n - 1]) then Enqueue(requests, Worklist(requests, n - 1), n - 1) else Worklist(requests, n - 1)
  {
    hide Enqueue;
  }

  lemma NoWork(requests: seq<Request>, done: set<nat>)
    ensures Worklist(requests, 0) == [] && WorkDays(requests, done, [], 0) == HolderDays(requests, done, 0)
  {
  }

  lemma WorklistDaysStep(requests: seq<Request>, done: set<nat>, n: nat)
    requires 0 < n <= |requests| && Within(Worklist(requests, n - 1), |requests|)
    requires WorkDays(requests, done, Worklist(requests, n - 1), |Worklist(requests, n - 1)|) == HolderDays(requests, done, n - 1)
    ensures Within(Worklist(requests, n), |requests|)
    ensures WorkDays(requests, done, Worklist(requests, n), |Worklist(requests, n)|) == HolderDays(requests, done, n)
  {
    hide Worklist, WorkDays, Enqueue, Within;
    WorklistStep(requests, n);
    if IsHolder(requests[n - 1]) {
      EnqueueAdds(requests, done, Worklist(requests, n - 1), n - 1);
    }
  }

  lemma {:induction false} WorklistDays(requests: seq<Request>, done: set<nat>, n: nat)
    requires n <= |requests|
    ensures Within(Worklist(requests, n), |requests|)
    ensures WorkDays(requests, done, Worklist(requests, n), |Worklist(requests, n)|) == HolderDays(requests, done, n)
  {
    hide Worklist, WorkDays, HolderDays, Enqueue;
    if n == 0 {
      NoWork(requests, done);
    } else {
      WorklistDays(requests, done, n - 1);
      WorklistDaysStep(requests, done, n);
    }
  }

  lemma {:induction false} WorkDaysGrow(requests: seq<Request>, done: set<nat>, work: seq<nat>, m: nat, n: nat)
    requires m <= n <= |work| && Within(work, |requests|)
    requires forall r :: 0 <= r < |requests| ==> requests[r].days > 0
    ensures WorkDays(requests, done, work, m) <= WorkDays(requests, done, work, n)
  {
    if m < n {
      WorkDaysGrow(requests, done, work, m, n - 1);
    }
  }

  lemma WorkDaysStep(requests: seq<Request>, done: set<nat>, work: seq<nat>, n: nat)
    requires 0 < n <= |work| && Within(work, |requests|)
    ensures WorkDays(requests, done, work, n) == WorkDays(requests, done, work, n - 1) + DaysUnless(requests, done, work[n - 1])
  {
  }

  lemma {:induction false} HolderDaysPositive(requests: seq<Request>, done: set<nat>, n: nat)
    requires n <= |requests| && forall r :: 0 <= r < |requests| ==> requests[r].days > 0
    ensures HolderDays(requests, done, n) >= 0
    ensures HolderDays(requests, done, n) == 0 <==> forall r: nat :: r < n && IsHolder(requests[r]) ==> r in done
  {
    if n > 0 {
      HolderDaysPositive(requests, done, n - 1);
    }
  }

  lemma PositiveDays(book: Book)
    requires Consistent(book)
    ensures forall r :: 0 <= r < |book.requests| ==> book.requests[r].days > 0
  {
  }

  /** Nothing is left to be charged exactly when every live request is backed. */
  lemma UnbackedIff(book: Book)
    requires Consistent(book)
    ensures UnbackedDays(book) >= 0 && (UnbackedDays(book) == 0 <==> Backed(book))
  {
    hide Consistent, NoShares, HoldersOf, HolderDays;
    PositiveDays(book);
    NotDoneNoShares(book);
    HolderDaysPositive(book.requests, HoldersOf(book.allocs), |book.requests|);
  }

  // ---------------------------------------------------------------- charging the requests without rows

  lemma {:induction false} RemainingDrops(buckets: seq<Bucket>, draws: seq<int>, mode: Mode, n: nat)
    requires DrawsOpen(buckets, draws) && n <= |buckets|
    ensures OpenRemaining(ChargedBuckets(buckets, draws, mode, |draws|), n) == OpenRemaining(buckets, n) - SumTo(draws, n)
  {
    if n > 0 {
      RemainingDrops(buckets, draws, mode, n - 1);
    }
  }

  lemma {:induction false} NewestStays(buckets: seq<Bucket>, others: seq<Bucket>, n: nat)
    requires n <= |buckets| == |others|
    requires forall i :: 0 <= i < n ==> buckets[i].status == others[i].status
    ensures Newest(buckets, n) == Newest(others, n)
  {
    if n > 0 {
      NewestStays(buckets, others, n - 1);
    }
  }

  /** The rows of `a` are rows of `b`, and what `b` has beyond them lies on open buckets. */
  ghost predicate RowsAdded(a: Book, b: Book) {
    && (forall k :: k in a.allocs ==> k in b.allocs && b.allocs[k] == a.allocs[k])
    && (forall k :: k in b.allocs && k !in a.allocs ==> k.1 < |a.buckets| && a.buckets[k.1].status.Open?)
  }

  /** `b` has the same years as `a`, and the expired ones untouched. */
  predicate OpenChanged(a: seq<Bucket>, b: seq<Bucket>) {
    |a| == |b| && forall i :: 0 <= i < |a| ==>
      b[i].status == a[i].status && b[i].expiresOn == a[i].expiresOn && b[i].granted == a[i].granted
      && (a[i].status.Expired? ==> b[i] == a[i])
  }

  /** What charging a holder to buckets of which one is open does: its days leave the open buckets, and only those. */
  lemma ChargeMeaning(book: Book, r: nat, days: int, mode: Mode)
    requires days > 0 && NoShares(book, r) && Newest(book.buckets, |book.buckets|) >= 0
    ensures var after := Charge(book, r, days, mode);
      && after.requests == book.requests && OpenChanged(book.buckets, after.buckets) && RowsAdded(book, after)
      && Newest(after.buckets, |after.buckets|) == Newest(book.buckets, |book.buckets|)
      && OpenRemaining(after.buckets, |after.buckets|) == OpenRemaining(book.buckets, |book.buckets|) - days
      && !NoShares(after, r)
  {
    hide Draws, Flat, WithShares, DrawBatches;
    var draws := Draws(book.buckets, days);
    var after := Charge(book, r, days, mode);
    DrawsTotal(book.buckets, days);
    RemainingDrops(book.buckets, draws, mode, |draws|);
    NewestStays(book.buckets, after.buckets, |draws|);
    SomePositive(draws, |draws|);
    var b: nat :| b < |draws| && draws[b] > 0;
    ChargeRows(book, r, days, mode);
    assert (r, b) in after.allocs;
  }

  lemma ChargeRows(book: Book, r: nat, days: int, mode: Mode)
    requires days > 0 && NoShares(book, r)
    ensures RowsAdded(book, Charge(book, r, days, mode))
    ensures var draws := Draws(book.buckets, days);
      forall b: nat :: b < |draws| && draws[b] > 0 ==> (r, b) in Charge(book, r, days, mode).allocs
  {
    hide Draws, Flat, WithShares, DrawBatches, ChargedBuckets;
    var draws := Draws(book.buckets, days);
    var after := Charge(book, r, days, mode);
    DrawsTotal(book.buckets, days);
    SharesRecorded(book.allocs, r, draws, |draws|);
    forall k | k in book.allocs
      ensures k in after.allocs && after.allocs[k] == book.allocs[k]
    {
      assert (k.0, k.1) in book.allocs;
      assert Share(after.allocs, k.0, k.1) == Share(book.allocs, k.0, k.1);
    }
    forall k | k in after.allocs && k !in book.allocs
      ensures k.1 < |book.buckets| && book.buckets[k.1].status.Open?
    {
      assert (k.0, k.1) in after.allocs && (k.0, k.1) !in book.allocs;
    }
  }

  /** Without an open bucket nothing is charged. */
  lemma ChargeNothing(book: Book, r: nat, days: int, mode: Mode)
    requires days > 0 && Newest(book.buckets, |book.buckets|) < 0
    ensures Charge(book, r, days, mode) == book
  {
    hide Draws, Newest;
    var draws := Draws(book.buckets, days);
    DrawsTotal(book.buckets, days);
    FlatNothing(DrawBatches(r, draws, mode), |draws|);
    NoDrawsNoShares(book.allocs, r, draws, |draws|);
    assert ChargedBuckets(book.buckets, draws, mode, |draws|) == book.buckets;
  }

  lemma {:induction false} NoDrawsNoShares(allocs: map<(nat, nat), int>, r: nat, draws: seq<int>, m: nat)
    requires m <= |draws| && forall i :: 0 <= i < |draws| ==> draws[i] == 0
    ensures WithShares(allocs, r, draws, m) == allocs
  {
    if m > 0 {
      NoDrawsNoShares(allocs, r, draws, m - 1);
    }
  }

  /** After `n` requests of the worklist: their days have left the open buckets, and each holds rows. */
  ghost predicate SyncProgress(base: Book, done: set<nat>, work: seq<nat>, n: nat)
    requires n <= |work| && Within(work, |base.requests|)
  {
    var b := Synced(base, done, work, n);
    && Newest(b.buckets, |b.buckets|) == Newest(base.buckets, |base.buckets|)
    && OpenRemaining(b.buckets, |b.buckets|) == OpenRemaining(base.buckets, |base.buckets|) - WorkDays(base.requests, done, work, n)
    && OpenChanged(base.buckets, b.buckets) && RowsAdded(base, b)
    && (forall i :: 0 <= i < n ==> !NoShares(b, work[i]))
  }

  /** Where a sync starts: the requests in `done` are those that hold rows, and some bucket is open. */
  ghost predicate SyncStart(base: Book, done: set<nat>, work: seq<nat>) {
    && Consistent(base) && Newest(base.buckets, |base.buckets|) >= 0 && HoldersOnce(base.requests, work)
    && forall r: nat :: r !in done <==> NoShares(base, r)
  }

  lemma RowsKept(a: Book, b: Book, r: nat)
    requires RowsAdded(a, b) && !NoShares(a, r)
    ensures !NoShares(b, r)
  {
    var k: nat :| (r, k) in a.allocs;
    assert (r, k) in b.allocs;
  }

  lemma RowsAddedTwice(a: Book, b: Book, c: Book)
    requires RowsAdded(a, b) && RowsAdded(b, c) && OpenChanged(a.buckets, b.buckets)
    ensures RowsAdded(a, c)
  {
    forall k | k in c.allocs && k !in a.allocs
      ensures k.1 < |a.buckets| && a.buckets[k.1].status.Open?
    {
      if k !in b.allocs {
        assert k.1 < |b.buckets| && b.buckets[k.1].status.Open?;
      }
    }
  }

  lemma {:induction false} SyncedProgress(base: Book, done: set<nat>, work: seq<nat>, n: nat)
    requires SyncStart(base, done, work) && n <= |work|
    ensures SyncProgress(base, done, work, n)
  {
    hide Consistent, Charge, NoShares, OpenRemaining, Newest, RowsAdded;
    if n == 0 {
      NothingAdded(base);
    } else {
      SyncedProgress(base, done, work, n - 1);
      SyncedKeeps(base, done, work, n - 1);
      var b, r := Synced(base, done, work, n - 1), work[n - 1];
      if r in done {
        RowsKept(base, b, r);
      } else {
        PositiveDays(base);
        ChargeMeaning(b, r, b.requests[r].days, ModeOf(b.requests[r]));
        var after := Charge(b, r, b.requests[r].days, ModeOf(b.requests[r]));
        RowsAddedTwice(base, b, after);
        forall i | 0 <= i < n
          ensures !NoShares(after, work[i])
        {
          if i < n - 1 {
            RowsKept(b, after, work[i]);
          }
        }
      }
    }
  }

  lemma NothingAdded(book: Book)
    ensures RowsAdded(book, book)
  {
  }

  /** Charges that fit overdraw nothing. */
  lemma ChargeFits(book: Book, r: nat, days: int, mode: Mode)
    requires 0 < days <= OpenCapacity(book.buckets) && NoneOverdrawn(book.buckets)
    ensures NoneOverdrawn(Charge(book, r, days, mode).buckets)
  {
    hide Draws, Flat, WithShares, DrawBatches;
    DrawsTotal(book.buckets, days);
    DrawsWithinRoom(book.buckets, days);
  }

  lemma {:induction false} SyncedNoneOverdrawn(base: Book, done: set<nat>, work: seq<nat>, n: nat)
    requires SyncStart(base, done, work) && n <= |work|
    requires NoneOverdrawn(base.buckets)
    requires WorkDays(base.requests, done, work, |work|) <= OpenRemaining(base.buckets, |base.buckets|)
    ensures NoneOverdrawn(Synced(base, done, work, n).buckets)
  {
    hide Consistent, Charge, NoShares, OpenRemaining, Newest, NoneOverdrawn, WorkDays, RowsAdded, OpenChanged;
    if n > 0 {
      SyncedNoneOverdrawn(base, done, work, n - 1);
      SyncedProgress(base, done, work, n - 1);
      var b, r := Synced(base, done, work, n - 1), work[n - 1];
      if r !in done {
        PositiveDays(base);
        WorkDaysGrow(base.requests, done, work, n, |work|);
        WorkDaysStep(base.requests, done, work, n);
        CapacityIsRemaining(b.buckets, |b.buckets|);
        ChargeFits(b, r, b.requests[r].days, ModeOf(b.requests[r]));
      }
    }
  }

  /** When only open buckets changed, and rows were added on open ones only, a book is within its grants as long as no open bucket is overdrawn. */
  lemma NoneOverdrawnWithin(book: Book, base: Book)
    requires Consistent(book) && Solvent(base) && book.requests == base.requests
    requires OpenChanged(base.buckets, book.buckets) && RowsAdded(base, book)
    ensures NoneOverdrawn(book.buckets) <==> NoOverspend(book)
  {
    hide PeriodsMatch, SharesFit, LedgersFit, TrailsFit, SharesUpTo;
    forall b: nat | b < |book.buckets|
      ensures book.buckets[b].status.Open? ==> (WithinGrant(book, b) <==> Remaining(book.buckets[b]) >= 0)
      ensures book.buckets[b].status.Expired? ==> WithinGrant(book, b)
    {
      assert ColumnFits(book, b);
      if book.buckets[b].status.Expired? {
        ExpiredSharesSame(book, base, b);
        assert WithinGrant(base, b);
      }
    }
  }

  lemma ExpiredSharesSame(book: Book, base: Book, b: nat)
    requires book.requests == base.requests && RowsAdded(base, book) && b < |base.buckets| && base.buckets[b].status.Expired?
    ensures SharesOf(book, Pending, b) == SharesOf(base, Pending, b)
  {
    forall r | 0 <= r < |book.requests|
      ensures Term(book, Pending, b, r) == Term(base, Pending, b, r)
    {
      assert (r, b) in book.allocs <==> (r, b) in base.allocs;
    }
    SharesSame(book, base, Pending, b, |book.requests|);
  }

  // ---------------------------------------------------------------- synchronising

  /** Whether some bucket is open. */
  predicate SomeOpen(book: Book) {
    Newest(book.buckets, |book.buckets|) >= 0
  }

  /** The days that a sync would charge fit into the open years, or there is no open year to charge them to. */
  predicate SyncFits(book: Book) {
    !SomeOpen(book) || UnbackedDays(book) <= OpenCapacity(book.buckets)
  }

  lemma SyncReady(base: Book)
    requires Consistent(base)
    ensures var done, work := HoldersOf(base.allocs), Worklist(base.requests, |base.requests|);
      && HoldersOnce(base.requests, work)
      && (SomeOpen(base) ==> SyncStart(base, done, work))
      && (forall r: nat :: r < |base.requests| && IsHolder(base.requests[r]) ==> r in work)
      && WorkDays(base.requests, done, work, |work|) == UnbackedDays(base)
      && SyncUsage(base) == Synced(base, done, work, |work|)
  {
    hide Consistent, Synced, Worklist, HoldersOf, NoShares, WorkDays, HolderDays, HoldersOnce;
    WorklistExact(base.requests);
    NotDoneNoShares(base);
    WorklistDays(base.requests, HoldersOf(base.allocs), |base.requests|);
    HoldersWithin(base.requests, Worklist(base.requests, |base.requests|));
  }

  lemma HoldersWithin(requests: seq<Request>, work: seq<nat>)
    requires HoldersOnce(requests, work)
    ensures Within(work, |requests|)
  {
  }

  lemma {:induction false} SyncedNothing(base: Book, done: set<nat>, work: seq<nat>, n: nat)
    requires Consistent(base) && !SomeOpen(base) && n <= |work| && Within(work, |base.requests|)
    ensures Synced(base, done, work, n) == base
  {
    hide Consistent, Charge, Newest;
    if n > 0 {
      SyncedNothing(base, done, work, n - 1);
      PositiveDays(base);
      var r := work[n - 1];
      ChargeNothing(base, r, base.requests[r].days, ModeOf(base.requests[r]));
    }
  }

  lemma SyncNothing(base: Book)
    requires Consistent(base) && !SomeOpen(base)
    ensures SyncUsage(base) == base
  {
    hide Consistent, Synced, SomeOpen;
    var work := Worklist(base.requests, |base.requests|);
    SyncedNothing(base, HoldersOf(base.allocs), work, |work|);
  }

  /** A sync backs every live request exactly when some year is open or none lacks rows. */
  lemma SyncBacksIff(base: Book)
    requires Consistent(base)
    ensures Backed(SyncUsage(base)) <==> SomeOpen(base) || Backed(base)
  {
    hide Consistent, Synced, SyncUsage, NoShares, RowsAdded, OpenChanged, WorkDays, SomeOpen, OpenRemaining, HoldersOf, Worklist;
    if SomeOpen(base) {
      var done, work := HoldersOf(base.allocs), Worklist(base.requests, |base.requests|);
      SyncReady(base);
      SyncedProgress(base, done, work, |work|);
      assert SyncUsage(base).requests == base.requests;
    } else {
      SyncNothing(base);
    }
  }

  /** A sync of a solvent book leaves it solvent exactly when the days it charges fit into the open years. */
  lemma SyncSolventIff(base: Book)
    requires Solvent(base)
    ensures Solvent(SyncUsage(base)) <==> SyncFits(base)
  {
    hide Consistent, NoOverspend, Synced, SyncUsage, NoShares, WorkDays, SomeOpen, OpenRemaining, OpenCapacity, NoneOverdrawn;
    hide HoldersOf, Worklist, RowsAdded, OpenChanged, UnbackedDays;
    SyncKeeps(base);
    if SomeOpen(base) {
      var done, work := HoldersOf(base.allocs), Worklist(base.requests, |base.requests|);
      var after := SyncUsage(base);
      SyncReady(base);
      SyncedProgress(base, done, work, |work|);
      NoneOverdrawnWithin(after, base);
      BalanceWithinBudget(base);
      CapacityOf(base.buckets);
      if WorkDays(base.requests, done, work, |work|) <= OpenRemaining(base.buckets, |base.buckets|) {
        SyncedNoneOverdrawn(base, done, work, |work|);
      } else if NoneOverdrawn(after.buckets) {
        CapacityOf(after.buckets);
      }
    } else {
      SyncNothing(base);
    }
  }

  lemma CapacityOf(buckets: seq<Bucket>)
    requires NoneOverdrawn(buckets)
    ensures 0 <= OpenCapacity(buckets) == OpenRemaining(buckets, |buckets|)
  {
    CapacityIsRemaining(buckets, |buckets|);
  }

  /** Without an open year nothing can be reserved. */
  lemma NoneOpenNoRoom(book: Book)
    requires !SomeOpen(book)
    ensures OpenCapacity(book.buckets) == 0
  {
    NewestIsLast(book.buckets, |book.buckets|);
    CapacityZero(Rooms(book.buckets), |book.buckets|);
  }

  /** A sync of a solvent book leaves it within the budget exactly when the days of the unbacked requests fit. */
  lemma SyncWithinIff(base: Book)
    requires Solvent(base)
    ensures InBudget(SyncUsage(base)) <==> UnbackedDays(base) <= OpenCapacity(base.buckets)
  {
    hide Consistent, NoOverspend, Backed, SyncUsage, UnbackedDays, OpenCapacity, SomeOpen;
    SyncSolventIff(base);
    SyncBacksIff(base);
    UnbackedIff(base);
    if !SomeOpen(base) {
      NoneOpenNoRoom(base);
    }
  }

  // ---------------------------------------------------------------- reading the balance

  /** The scan after the sync of a balance read finds nothing to do. */
  lemma BalanceIsSync(book: Book, asOf: Date)
    requires Consistent(book)
    ensures Balance(book, asOf) == SyncUsage(Accrue(book, asOf))
  {
    hide Consistent, Accrue, SyncUsage, UpToDate;
    AccrueKeeps(book, asOf);
    AccruedUpToDate(book, asOf);
    SyncUpToDate(Accrue(book, asOf), asOf);
    ScanIdleIff(SyncUsage(Accrue(book, asOf)), asOf);
  }

  lemma SyncUpToDate(base: Book, asOf: Date)
    requires Consistent(base) && UpToDate(base, asOf)
    ensures UpToDate(SyncUsage(base), asOf)
  {
    hide Consistent, Synced, SyncUsage, NoShares, WorkDays, SomeOpen, OpenRemaining, HoldersOf, Worklist, RowsAdded;
    hide Entitlement, CompletedYears;
    if SomeOpen(base) {
      var done, work := HoldersOf(base.allocs), Worklist(base.requests, |base.requests|);
      SyncReady(base);
      SyncedProgress(base, done, work, |work|);
    } else {
      SyncNothing(base);
    }
  }

  /** Reading the balance of a solvent book leaves it solvent exactly when the unbacked days fit on that date. */
  lemma ReadSolventIff(book: Book, asOf: Date)
    requires Solvent(book)
    ensures Solvent(Balance(book, asOf)) <==> SyncFits(Accrue(book, asOf))
  {
    hide Consistent, NoOverspend, Balance, Accrue, SyncUsage, SyncFits;
    AccrueWithin(book, asOf);
    BalanceIsSync(book, asOf);
    SyncSolventIff(Accrue(book, asOf));
  }

  /** And it leaves it within the budget exactly when they fit into open years. */
  lemma ReadWithinIff(book: Book, asOf: Date)
    requires Solvent(book)
    ensures InBudget(Balance(book, asOf))
       <==> UnbackedDays(Accrue(book, asOf)) <= OpenCapacity(Accrue(book, asOf).buckets)
  {
    hide Consistent, NoOverspend, Backed, Balance, Accrue, SyncUsage, UnbackedDays, OpenCapacity;
    AccrueWithin(book, asOf);
    BalanceIsSync(book, asOf);
    SyncWithinIff(Accrue(book, asOf));
  }

  // ---------------------------------------------------------------- rebuilding

  /** The leave years of a hire date, before any usage is charged to them. */
  function BareYears(hire: Date, requests: seq<Request>, today: Date): Book {
    Accrue(Book(hire, [], map[], [], requests), today)
  }

  lemma BareYearsMeaning(hire: Date, requests: seq<Request>, today: Date)
    requires hire <= today
    ensures var bare, k := BareYears(hire, requests, today), CompletedYears(hire, today);
      && |bare.buckets| == k + 1 && bare.allocs == map[] && bare.requests == requests
      && bare.buckets[k].status.Open?
      && forall i :: 0 <= i <= k ==> bare.buckets[i] == Lapsed(FreshBucket(hire, i, today), today)
  {
    hide CompletedYears, Entitlement, PeriodStart, PeriodEnd, ExpiresOn, Flat;
    AliveYears(hire, CompletedYears(hire, today), today);
  }

  lemma BareSolvent(book: Book, hire: Date, today: Date)
    requires Consistent(book)
    ensures Solvent(BareYears(hire, book.requests, today))
    ensures BareYears(hire, book.requests, today).allocs == map[]
    ensures BareYears(hire, book.requests, today).requests == book.requests
  {
    hide Consistent, Accrue;
    EmptiedConsistent(book, hire);
    AccrueWithin(Book(hire, [], map[], [], book.requests), today);
    AccrueKeepsTables(Book(hire, [], map[], [], book.requests), today);
  }

  lemma BareOpenIff(hire: Date, requests: seq<Request>, today: Date)
    ensures SomeOpen(BareYears(hire, requests, today)) <==> hire <= today
  {
    hide CompletedYears, Lapsed, FreshBucket;
    if hire <= today {
      BareYearsMeaning(hire, requests, today);
      hide BareYears;
      NewestIsLast(BareYears(hire, requests, today).buckets, |BareYears(hire, requests, today).buckets|);
    }
  }

  lemma NoRowsUnbacked(book: Book)
    requires book.allocs == map[]
    ensures UnbackedDays(book) == HolderDays(book.requests, {}, |book.requests|)
    ensures Backed(book) <==> forall r: nat :: r < |book.requests| ==> !IsHolder(book.requests[r])
  {
    assert HoldersOf(map[]) == {};
  }

  /** A rebuild backs every live request exactly when the hire date has come or there is none to back. */
  lemma RebuildBacksIff(book: Book, hire: Date, today: Date)
    requires Consistent(book)
    ensures Backed(Rebuild(book, hire, today))
       <==> hire <= today || forall r: nat :: r < |book.requests| ==> !IsHolder(book.requests[r])
  {
    hide Consistent, Solvent, BareYears, Backed, SyncUsage, SomeOpen;
    RebuildIsSync(book, hire, today);
    BareSolvent(book, hire, today);
    SolventConsistent(BareYears(hire, book.requests, today));
    SyncBacksIff(BareYears(hire, book.requests, today));
    BareOpenIff(hire, book.requests, today);
    NoRowsUnbacked(BareYears(hire, book.requests, today));
  }

  lemma RebuildIsSync(book: Book, hire: Date, today: Date)
    ensures Rebuild(book, hire, today) == SyncUsage(BareYears(hire, book.requests, today))
  {
    hide SyncUsage, Accrue;
  }

  lemma SolventConsistent(book: Book)
    requires Solvent(book)
    ensures Consistent(book)
  {
    hide Consistent;
  }

  /**
    * A rebuild overspends no leave year and backs every live request exactly when the days of all live requests of
    * tracked types fit into the open years of the new hire date together; before that date there are none.
    */
  lemma RebuildWithinIff(book: Book, hire: Date, today: Date)
    requires Consistent(book)
    ensures InBudget(Rebuild(book, hire, today))
       <==> HolderDays(book.requests, {}, |book.requests|) <= OpenCapacity(BareYears(hire, book.requests, today).buckets)
  {
    hide Consistent, Solvent, Rebuild, BareYears, HolderDays, OpenCapacity, Backed, InBudget, SyncUsage, UnbackedDays;
    RebuildIsSync(book, hire, today);
    BareSolvent(book, hire, today);
    SyncWithinIff(BareYears(hire, book.requests, today));
    NoRowsUnbacked(BareYears(hire, book.requests, today));
  }
}
