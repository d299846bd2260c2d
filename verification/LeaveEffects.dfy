/**
  * What each leave operation moves, told on the tables alone: by how much which column of which bucket changes, which
  * entries the ledger gains, and on which conditions the operation refuses.
  */
module LeaveEffects {
  import opened Basics
  import opened Calendar
  import opened LeavePolicy
  import opened Fifo
  import opened DayFraction
  import opened LeaveBook
  import opened LeaveInvariant
  import opened LeaveRuns
  import opened AccrualLaws
  import opened LeaveBudget
  import DayCharges

  // ---------------------------------------------------------------- a scan

  const Missing := Bucket(0, 0, 0, 0, 0, 0, 0, 0, Open)

  /** Bucket `n`, or one without any days when the table has none. */
  function Row(book: Book, n: nat): Bucket {
    if n < |book.buckets| then book.buckets[n] else Missing
  }

  /** What a scan makes of a bucket when its leave year is to grant `days`. */
  predicate ScanMakes(was: Bucket, b: Bucket, days: int, asOf: Date) {
    && b.granted == Max(was.granted, days) && b.used == was.used
    && if was.status.Open? && b.expiresOn <= asOf
       then b.status.Expired? && b.pending == 0
            && b.expired == was.expired + Max0(b.granted - was.used - was.pending - was.expired)
       else b.status == was.status && b.pending == was.pending && b.expired == was.expired
  }

  /**
    * A scan leaves one bucket for every started leave year, each granted what its year grants unless it had more, and
    * lets exactly the open ones expire whose expiry date has come: their unused days move to the expired column.
    */
  lemma ScanEffect(book: Book, asOf: Date, n: nat, days: int)
    requires book.hire <= asOf && PeriodsMatch(book) && YearGrants(book.hire, n, asOf, days)
    ensures var after := Accrue(book, asOf);
      && |after.buckets| >= |book.buckets|
      && (PeriodStart(book.hire, n) <= asOf ==> n < |after.buckets|)
      && (|book.buckets| <= n < |after.buckets| ==> PeriodStart(book.hire, n) <= asOf)
      && (n < |after.buckets| ==>
           && after.buckets[n].periodStart == PeriodStart(book.hire, n)
           && after.buckets[n].periodEnd == PeriodStart(book.hire, n + 1) - 1
           && after.buckets[n].expiresOn == ExpiresOn(PeriodStart(book.hire, n))
           && after.buckets[n].serviceYears == n
           && ScanMakes(Row(book, n), after.buckets[n],
                        if PeriodStart(book.hire, n) <= asOf then days else Row(book, n).granted, asOf))
  {
    hide CompletedYears, Entitlement, AddYears, PeriodStart, PeriodEnd, ExpiresOn, Accrue, YearGrants;
    AccruedBuckets(book, asOf);
    AccrueMatches(book, asOf);
    GrantExact(book.hire, n, asOf, days);
    StartedIff(book.hire, n, asOf);
    LeaveYearsTile(book.hire, n, asOf);
    EntitlementMonotone(book.hire, n, asOf, asOf);
  }

  /** The granting loop leaves year `n` granted what it is to grant, unless it had more. */
  lemma GrantedRow(book: Book, asOf: Date, n: nat)
    ensures var after := GrantYears(book, asOf, n + 1).buckets;
      n < |after| && forall days :: YearGrants(book.hire, n, asOf, days) ==> after[n].granted == Max(Row(book, n).granted, days)
  {
    hide Entitlement, PeriodStart, PeriodEnd, ExpiresOn, YearGrants;
    EntitlementMonotone(book.hire, n, asOf, asOf);
    forall days | YearGrants(book.hire, n, asOf, days)
      ensures days == Entitlement(book.hire, n, asOf)
    {
      GrantExact(book.hire, n, asOf, days);
    }
  }

  /** After a scan every started year is granted what it is to grant, unless it had more. */
  ghost predicate AllGranted(before: Book, after: Book, asOf: Date) {
    forall n: nat, days :: YearGrants(before.hire, n, asOf, days) && PeriodStart(before.hire, n) <= asOf ==>
      n < |after.buckets| && after.buckets[n].granted == Max(Row(before, n).granted, days)
  }

  lemma ScanGrantsAll(book: Book, asOf: Date)
    requires book.hire <= asOf && PeriodsMatch(book)
    ensures AllGranted(book, Accrue(book, asOf), asOf)
  {
    hide Accrue, YearGrants, PeriodsMatch, PeriodStart, Row;
    forall n: nat, days | YearGrants(book.hire, n, asOf, days) && PeriodStart(book.hire, n) <= asOf
      ensures n < |Accrue(book, asOf).buckets| && Accrue(book, asOf).buckets[n].granted == Max(Row(book, n).granted, days)
    {
      ScanEffect(book, asOf, n, days);
    }
  }

  /** The tables but for the buckets and the ledger stay, and before the hire date everything does. */
  lemma ScanLeaves(book: Book, asOf: Date)
    ensures var after := Accrue(book, asOf);
      && after.allocs == book.allocs && after.requests == book.requests && after.hire == book.hire
      && (asOf < book.hire ==> after == book)
  {
  }

  /** Two ledgers have the same total of a kind on a bucket, but for `more` days. */
  predicate Gains(before: seq<Entry>, after: seq<Entry>, b: nat, kind: EntryKind, more: int) {
    Total(OfKind(b, kind), after) == Total(OfKind(b, kind), before) + more
  }

  lemma GrantedLedger(book: Book, asOf: Date, m: nat, n: nat, kind: EntryKind)
    requires n < |GrantYears(book, asOf, m).buckets|
    ensures var after := GrantYears(book, asOf, m);
      && Gains(book.ledger, after.ledger, n, kind,
               if kind.Grant? && n >= |book.buckets| then after.buckets[n].granted
               else if kind.TopUp? && n < |book.buckets| then after.buckets[n].granted - book.buckets[n].granted else 0)
      && after.buckets[n].expired == Row(book, n).expired
      && |after.buckets| >= |book.buckets|
  {
    hide Entitlement, PeriodStart, PeriodEnd, ExpiresOn, Flat, Total;
    TotalAfter(book.ledger, GrantBatches(book, asOf, m), n);
    assert OfKind(n, kind).bucket == n;
  }

  lemma LapsedLedger(book: Book, asOf: Date, n: nat, kind: EntryKind)
    requires n < |book.buckets|
    ensures var after := Lapse(book, asOf, |book.buckets|);
      && |after.buckets| == |book.buckets|
      && Gains(book.ledger, after.ledger, n, kind, if kind.Expire? then after.buckets[n].expired - book.buckets[n].expired else 0)
      && after.buckets[n].granted == book.buckets[n].granted
  {
    hide Flat, Total;
    TotalAfter(book.ledger, LapseBatches(book.buckets, asOf), n);
    assert OfKind(n, kind).bucket == n;
  }

  /** And of all kinds only the totals of `only` differ. */
  ghost predicate GainsOnly(before: seq<Entry>, after: seq<Entry>, b: nat, only: EntryKind, more: int) {
    forall kind: EntryKind :: Total(OfKind(b, kind), after) == Total(OfKind(b, kind), before) + (if kind == only then more else 0)
  }

  /**
    * The ledger of a scan: a new bucket is booked as GRANT, growth of an existing one as TOP_UP, and what it lets expire
    * as EXPIRE; on each bucket these entries sum to what its columns moved, and there are no others.
    */
  lemma ScanLedger(book: Book, asOf: Date, n: nat, kind: EntryKind)
    requires n < |Accrue(book, asOf).buckets|
    ensures var after := Accrue(book, asOf);
      Gains(book.ledger, after.ledger, n, kind,
            match kind
            case Grant => if n < |book.buckets| then 0 else after.buckets[n].granted
            case TopUp => if n < |book.buckets| then after.buckets[n].granted - book.buckets[n].granted else 0
            case Expire => after.buckets[n].expired - Row(book, n).expired
            case _ => 0)
  {
    hide CompletedYears, GrantYears, Lapse, Total;
    if book.hire <= asOf {
      var m := CompletedYears(book.hire, asOf) + 1;
      var granted := GrantYears(book, asOf, m);
      LapsedSize(granted, asOf);
      GrantedLedger(book, asOf, m, n, kind);
      LapsedLedger(granted, asOf, n, kind);
    }
  }

  lemma LapsedSize(book: Book, asOf: Date)
    ensures |Lapse(book, asOf, |book.buckets|).buckets| == |book.buckets|
  {
  }

  // ---------------------------------------------------------------- a charge

  /** What an open bucket still has to give; an expired or overdrawn one gives nothing. */
  function CanGive(b: Bucket): (days: nat) {
    if b.status.Open? && b.granted > b.used + b.pending + b.expired then b.granted - (b.used + b.pending + b.expired) else 0
  }

  /** What the oldest `n` buckets can give together. */
  function CanGiveTo(buckets: seq<Bucket>, n: nat): (days: nat)
    requires n <= |buckets|
  {
    if n == 0 then 0 else CanGive(buckets[n - 1]) + CanGiveTo(buckets, n - 1)
  }

  lemma {:induction false} CapacityIs(buckets: seq<Bucket>, n: nat)
    requires n <= |buckets|
    ensures Capacity(Rooms(buckets), n) == CanGiveTo(buckets, n)
  {
    if n > 0 {
      CapacityIs(buckets, n - 1);
    }
  }

  ghost predicate AnyOpen(buckets: seq<Bucket>, from: nat) {
    exists i :: from <= i < |buckets| && buckets[i].status.Open?
  }

  /** By how much a column grew on each bucket. */
  function Growth(before: seq<Bucket>, after: seq<Bucket>, mode: Mode): (g: seq<int>)
    requires |before| == |after|
    ensures |g| == |before|
  {
    seq(|before|, i requires 0 <= i < |before| =>
      if mode.Reserving? then after[i].pending - before[i].pending else after[i].used - before[i].used)
  }

  /** Only the column of `mode` changed, it nowhere shrank, and it grew on open buckets only. */
  predicate OnlyGrew(before: seq<Bucket>, after: seq<Bucket>, mode: Mode) {
    && |after| == |before|
    && forall i :: 0 <= i < |before| ==>
      && after[i] == (if mode.Reserving? then before[i].(pending := after[i].pending) else before[i].(used := after[i].used))
      && after[i].pending >= before[i].pending && after[i].used >= before[i].used
      && (after[i] != before[i] ==> before[i].status.Open?)
  }

  lemma ChargedRows(book: Book, r: nat, days: int, mode: Mode)
    requires days > 0
    ensures var after := Charge(book, r, days, mode).buckets;
      OnlyGrew(book.buckets, after, mode) && Growth(book.buckets, after, mode) == Draws(book.buckets, days)
  {
    hide Draws, Flat, WithShares, DrawBatches;
    DrawsTotal(book.buckets, days);
  }

  /** The draws from the oldest `n` buckets. */
  lemma DrawsPrefix(buckets: seq<Bucket>, days: int, n: nat)
    requires days > 0 && n <= |buckets|
    ensures SumTo(Draws(buckets, days), n)
         == if !AnyOpen(buckets, 0) then 0 else if AnyOpen(buckets, n) then Min(days, CanGiveTo(buckets, n)) else days
  {
    hide Draws, Take, Rooms, CanGiveTo;
    var w, rooms, draws := Newest(buckets, |buckets|), Rooms(buckets), Draws(buckets, days);
    var takes := Takes(rooms, days);
    NewestIsLast(buckets, |buckets|);
    DrawsTotal(buckets, days);
    DrawsSplit(buckets, days);
    CapacityIs(buckets, n);
    PrefixTaken(rooms, days, n);
    if w < 0 {
      NoSum(draws, n);
    } else if n <= w {
      SumToCongruent(takes, draws, n);
      assert buckets[w].status.Open?;
    } else {
      RestNothing(draws, n, |draws|);
    }
  }

  lemma DrawsSplit(buckets: seq<Bucket>, days: int)
    ensures var takes, draws := Takes(Rooms(buckets), days), Draws(buckets, days);
      && |takes| == |draws| == |buckets| == |Rooms(buckets)|
      && forall i :: 0 <= i < |takes| && i != Newest(buckets, |buckets|) ==> draws[i] == takes[i]
  {
  }

  lemma {:induction false} NoSum(s: seq<int>, n: nat)
    requires n <= |s| && forall i :: 0 <= i < n ==> s[i] == 0
    ensures SumTo(s, n) == 0
  {
    if n > 0 {
      NoSum(s, n - 1);
    }
  }

  lemma {:induction false} RestNothing(s: seq<int>, m: nat, n: nat)
    requires m <= n <= |s| && forall i :: m <= i < n ==> s[i] == 0
    ensures SumTo(s, m) == SumTo(s, n)
    decreases n
  {
    if m < n {
      RestNothing(s, m, n - 1);
    }
  }

  /**
    * A charge takes the oldest days first. As long as an open bucket follows, the oldest `n` buckets give all they can up
    * to the days asked for; what then is missing comes from the newest open bucket, so that with any open bucket all days
    * are charged, and without one none.
    */
  lemma ChargeOldestFirst(book: Book, r: nat, days: int, mode: Mode, n: nat)
    requires days > 0 && n <= |book.buckets|
    ensures var before, after := book.buckets, Charge(book, r, days, mode).buckets;
      && OnlyGrew(before, after, mode)
      && SumTo(Growth(before, after, mode), n)
           == if !AnyOpen(before, 0) then 0 else if AnyOpen(before, n) then Min(days, CanGiveTo(before, n)) else days
  {
    hide Charge, Draws, AnyOpen, OnlyGrew, Growth;
    ChargedRows(book, r, days, mode);
    DrawsPrefix(book.buckets, days, n);
  }

  /** A charge that fits takes from every prefix of the buckets the lesser of the days and what it can give. */
  lemma FittingCharge(book: Book, r: nat, days: int, mode: Mode, n: nat)
    requires 0 < days <= CanGiveTo(book.buckets, |book.buckets|) && n <= |book.buckets|
    ensures var before, after := book.buckets, Charge(book, r, days, mode).buckets;
      OnlyGrew(before, after, mode) && SumTo(Growth(before, after, mode), n) == Min(days, CanGiveTo(before, n))
  {
    hide Charge, OnlyGrew, Growth;
    ChargeOldestFirst(book, r, days, mode, n);
    if !AnyOpen(book.buckets, n) {
      ClosedGiveNothing(book.buckets, n, |book.buckets|);
      if !AnyOpen(book.buckets, 0) {
        ClosedGiveNothing(book.buckets, 0, |book.buckets|);
      }
    }
  }

  lemma {:induction false} ClosedGiveNothing(buckets: seq<Bucket>, m: nat, n: nat)
    requires m <= n <= |buckets| && !AnyOpen(buckets, m)
    ensures CanGiveTo(buckets, n) == CanGiveTo(buckets, m)
    decreases n
  {
    if m < n {
      ClosedGiveNothing(buckets, m, n - 1);
    }
  }

  /** The ledger gains on bucket `b` what the column of `mode` grew by there, as RESERVE or as CONSUME. */
  predicate ChargeBooked(before: Book, after: Book, mode: Mode, b: nat, kind: EntryKind)
    requires |before.buckets| == |after.buckets| && b < |before.buckets|
  {
    Gains(before.ledger, after.ledger, b, kind,
          if kind == (if mode.Reserving? then Reserve else Consume)
          then Growth(before.buckets, after.buckets, mode)[b] else 0)
  }

  /** The ledger books a charge on each bucket. */
  lemma ChargeLedger(book: Book, r: nat, days: int, mode: Mode, b: nat, kind: EntryKind)
    requires days > 0 && b < |book.buckets|
    ensures var after := Charge(book, r, days, mode);
      |after.buckets| == |book.buckets| && ChargeBooked(book, after, mode, b, kind)
  {
    hide Draws, Flat, Total, WithShares, ChargedBuckets, Growth;
    ChargedRows(book, r, days, mode);
    DrawsTotal(book.buckets, days);
    TotalAfter(book.ledger, DrawBatches(r, Draws(book.buckets, days), mode), b);
    assert OfKind(b, kind).bucket == b;
  }

  /** The allocation rows of a request that had none are what its charge moved, and no other row changes. */
  lemma ChargeShares(book: Book, r: nat, days: int, mode: Mode)
    requires days > 0 && NoShares(book, r)
    ensures var after := Charge(book, r, days, mode);
      && |after.buckets| == |book.buckets|
      && (forall b: nat :: b < |book.buckets| ==>
            var moved := Growth(book.buckets, after.buckets, mode)[b];
            ((r, b) in after.allocs <==> moved > 0) && Share(after.allocs, r, b) == moved)
      && (forall b: nat :: b >= |book.buckets| ==> (r, b) !in after.allocs)
      && (forall q: nat, b: nat :: q != r ==>
            ((q, b) in after.allocs <==> (q, b) in book.allocs) && Share(after.allocs, q, b) == Share(book.allocs, q, b))
      && after.requests == book.requests && after.hire == book.hire
  {
    hide Draws, Flat, WithShares, DrawBatches, ChargedBuckets, Growth;
    ChargedRows(book, r, days, mode);
    DrawsTotal(book.buckets, days);
    SharesRecorded(book.allocs, r, Draws(book.buckets, days), |book.buckets|);
  }

  // ---------------------------------------------------------------- an adjustment

  /** What `adjust` leaves is up to date: the scan that follows it changes nothing. */
  lemma SettledScan(accrued: Book, after: Book, asOf: Date)
    requires UpToDate(accrued, asOf) && after.hire == accrued.hire && |after.buckets| == |accrued.buckets|
    requires forall i :: 0 <= i < |accrued.buckets| ==>
      && after.buckets[i].granted >= accrued.buckets[i].granted
      && after.buckets[i].status == accrued.buckets[i].status && after.buckets[i].expiresOn == accrued.buckets[i].expiresOn
    ensures Accrue(after, asOf) == after
  {
    hide Accrue, Entitlement, CompletedYears;
    ScanIdleIff(after, asOf);
  }

  /**
    * A positive adjustment raises the granted column of the newest open bucket by its amount, books it there as one
    * ADJUST entry and changes nothing else of what a scan leaves; it is refused exactly when no bucket is open.
    */
  lemma RaiseEffect(book: Book, today: Date, amount: int, k: nat)
    requires amount > 0
    ensures var accrued, reply := Accrue(book, today), AdjustBalance(book, today, amount);
      && (!AnyOpen(accrued.buckets, 0) ==> reply == Reply(book, Some(NoLeaveBucket)))
      && (k < |accrued.buckets| && accrued.buckets[k].status.Open? && !AnyOpen(accrued.buckets, k + 1) ==>
           && reply.failure.None?
           && reply.book == accrued.(
                buckets := accrued.buckets[k := accrued.buckets[k].(granted := accrued.buckets[k].granted + amount)],
                ledger := accrued.ledger + [Entry(k, None, Adjust, amount)]))
  {
    hide Accrue, UpToDate;
    var accrued := Accrue(book, today);
    NewestIsLast(accrued.buckets, |accrued.buckets|);
    var w := Newest(accrued.buckets, |accrued.buckets|);
    if w >= 0 {
      assert AnyOpen(accrued.buckets, 0) by {
        assert accrued.buckets[w].status.Open?;
      }
      AccruedUpToDate(book, today);
      SettledScan(accrued, RaisedNewest(accrued, amount), today);
    }
  }

  /** The days of a stretch of ledger entries. */
  function DaysOf(entries: seq<Entry>): int {
    if entries == [] then 0 else DaysOf(entries[..|entries| - 1]) + entries[|entries| - 1].days
  }

  lemma {:induction false} DaysOfAppend(a: seq<Entry>, b: seq<Entry>)
    ensures DaysOf(a + b) == DaysOf(a) + DaysOf(b)
  {
    if b == [] {
      assert a + b == a;
    } else {
      DaysOfAppend(a, b[..|b| - 1]);
      assert (a + b)[..|a + b| - 1] == a + b[..|b| - 1];
    }
  }

  /** Deductions, each of at least a hundredth, from no request. */
  predicate AreDeductions(entries: seq<Entry>) {
    forall i :: 0 <= i < |entries| ==> entries[i].kind.Adjust? && entries[i].request.None? && entries[i].days < 0
  }

  lemma {:induction false} DeductionEntries(takes: seq<int>, n: nat)
    requires n <= |takes| == |DeductBatches(takes)| && forall i :: 0 <= i < |takes| ==> takes[i] >= 0
    ensures var entries := Flat(DeductBatches(takes), n); AreDeductions(entries) && DaysOf(entries) == -SumTo(takes, n)
  {
    hide DeductBatches, DaysOf;
    if n == 0 {
      NoEntries();
    } else {
      DeductionEntries(takes, n - 1);
      DaysOfAppend(Flat(DeductBatches(takes), n - 1), DeductBatches(takes)[n - 1]);
      OneDeduction(takes, n - 1);
    }
  }

  lemma NoEntries()
    ensures DaysOf([]) == 0
  {
  }

  lemma OneDeduction(takes: seq<int>, i: nat)
    requires i < |takes| && takes[i] >= 0
    ensures var batch := DeductBatches(takes)[i]; AreDeductions(batch) && DaysOf(batch) == -takes[i]
  {
    if takes[i] != 0 {
      assert DeductBatches(takes)[i][..0] == [];
    }
  }

  lemma DeductedRows(book: Book, need: int)
    ensures var after := Deducted(book, need).buckets;
      OnlyGrew(book.buckets, after, Consuming) && Growth(book.buckets, after, Consuming) == Takes(Rooms(book.buckets), need)
  {
    hide Flat, DeductBatches;
  }

  lemma DeductedEntries(book: Book, need: int, b: nat)
    requires b < |book.buckets|
    ensures var after, takes := Deducted(book, need), Takes(Rooms(book.buckets), need);
      && after == book.(buckets := after.buckets, ledger := book.ledger + Flat(DeductBatches(takes), |takes|))
      && |takes| == |DeductBatches(takes)| == |book.buckets| && (forall i :: 0 <= i < |takes| ==> takes[i] >= 0)
      && Gains(book.ledger, after.ledger, b, Adjust, -takes[b])
  {
    hide Flat, Total, Take, Rooms;
    TakesOpen(book.buckets, need);
    TotalAfter(book.ledger, DeductBatches(Takes(Rooms(book.buckets), need)), b);
    assert OfKind(b, Adjust).bucket == b;
  }

  /** What an accepted deduction of `days` makes of a scanned book. */
  ghost predicate DeductionMakes(accrued: Book, after: Book, days: int) {
    && OnlyGrew(accrued.buckets, after.buckets, Consuming)
    && Sum(Growth(accrued.buckets, after.buckets, Consuming)) == days
    && (forall n: nat :: n <= |accrued.buckets| ==>
          SumTo(Growth(accrued.buckets, after.buckets, Consuming), n) == Min(days, CanGiveTo(accrued.buckets, n)))
    && accrued.ledger <= after.ledger
    && AreDeductions(after.ledger[|accrued.ledger|..]) && DaysOf(after.ledger[|accrued.ledger|..]) == -days
    && (forall b: nat :: b < |accrued.buckets| ==>
          Gains(accrued.ledger, after.ledger, b, Adjust, -Growth(accrued.buckets, after.buckets, Consuming)[b]))
    && after.allocs == accrued.allocs && after.requests == accrued.requests && after.hire == accrued.hire
  }

  lemma DeductedMakes(accrued: Book, days: int)
    requires 0 < days <= CanGiveTo(accrued.buckets, |accrued.buckets|)
    ensures DeductionMakes(accrued, Deducted(accrued, days), days)
  {
    hide Deducted, OnlyGrew, Growth, CanGiveTo, Rooms, Flat, DeductBatches, Gains, AreDeductions;
    var after, takes := Deducted(accrued, days), Takes(Rooms(accrued.buckets), days);
    DeductedRows(accrued, days);
    assert |takes| == |accrued.buckets|;
    forall n: nat | n <= |accrued.buckets|
      ensures SumTo(takes, n) == Min(days, CanGiveTo(accrued.buckets, n))
    {
      CapacityIs(accrued.buckets, n);
      PrefixTaken(Rooms(accrued.buckets), days, n);
    }
    forall b: nat | b < |accrued.buckets|
      ensures Gains(accrued.ledger, after.ledger, b, Adjust, -takes[b])
    {
      DeductedEntries(accrued, days, b);
    }
    SomeBucket(accrued.buckets);
    DeductedEntries(accrued, days, 0);
    DeductionEntries(takes, |takes|);
    assert after.ledger[|accrued.ledger|..] == Flat(DeductBatches(takes), |takes|);
  }

  lemma SomeBucket(buckets: seq<Bucket>)
    requires CanGiveTo(buckets, |buckets|) > 0
    ensures |buckets| > 0
  {
  }

  /**
    * A negative adjustment of `days` is refused exactly when the open buckets of the scanned book cannot give as much,
    * and then nothing changes. Otherwise the used columns grow by `days` in all, on open buckets only and oldest first:
    * every prefix of the buckets gives the lesser of `days` and what it can. The entries it books are ADJUST deductions
    * that sum to `days` in all and on each bucket to what its used column grew by; nothing else changes.
    */
  lemma DeductEffect(book: Book, today: Date, days: int)
    requires days > 0
    ensures var accrued, reply := Accrue(book, today), AdjustBalance(book, today, -days);
      if days > CanGiveTo(accrued.buckets, |accrued.buckets|) then reply == Reply(book, Some(InsufficientBalance))
      else reply.failure.None? && DeductionMakes(accrued, reply.book, days)
  {
    hide Accrue, Deducted, DeductionMakes, UpToDate, CanGiveTo, Capacity, Rooms;
    var accrued := Accrue(book, today);
    CapacityIs(accrued.buckets, |accrued.buckets|);
    if days <= CanGiveTo(accrued.buckets, |accrued.buckets|) {
      AccruedUpToDate(book, today);
      DeductedMakes(accrued, days);
      DeductedSettled(accrued, days, today);
    }
  }

  lemma DeductedSettled(accrued: Book, days: int, today: Date)
    requires UpToDate(accrued, today)
    ensures Accrue(Deducted(accrued, days), today) == Deducted(accrued, days)
  {
    hide Accrue, UpToDate, Takes, Flat, DeductBatches;
    SettledScan(accrued, Deducted(accrued, days), today);
  }

  /** An adjustment of nothing is refused. */
  lemma ZeroAdjustment(book: Book, today: Date)
    ensures AdjustBalance(book, today, 0) == Reply(book, Some(InvalidAdjustment))
  {
  }

  // ---------------------------------------------------------------- creating a request

  /** What a charge of request `r`, which had no allocation rows, makes of a book. */
  ghost predicate ChargeMakes(before: Book, after: Book, r: nat, days: int, mode: Mode) {
    && OnlyGrew(before.buckets, after.buckets, mode)
    && (forall n: nat :: n <= |before.buckets| ==>
          SumTo(Growth(before.buckets, after.buckets, mode), n)
            == if !AnyOpen(before.buckets, 0) then 0
               else if AnyOpen(before.buckets, n) then Min(days, CanGiveTo(before.buckets, n)) else days)
    && (forall b: nat, kind :: b < |before.buckets| ==> ChargeBooked(before, after, mode, b, kind))
    && (forall b: nat :: b < |before.buckets| ==>
          var moved := Growth(before.buckets, after.buckets, mode)[b];
          ((r, b) in after.allocs <==> moved > 0) && Share(after.allocs, r, b) == moved)
    && (forall b: nat :: b >= |before.buckets| ==> (r, b) !in after.allocs)
    && OtherRowsStay(before, after, r)
    && after.requests == before.requests && after.hire == before.hire
  }

  ghost predicate OtherRowsStay(before: Book, after: Book, r: nat) {
    forall q: nat, b: nat :: q != r ==>
      ((q, b) in after.allocs <==> (q, b) in before.allocs) && Share(after.allocs, q, b) == Share(before.allocs, q, b)
  }

  lemma ChargeEffect(book: Book, r: nat, days: int, mode: Mode)
    requires days > 0 && NoShares(book, r)
    ensures ChargeMakes(book, Charge(book, r, days, mode), r, days, mode)
  {
    hide Charge, AnyOpen, CanGiveTo, Growth, ChargeBooked, OnlyGrew, Share, NoShares;
    var after := Charge(book, r, days, mode);
    ChargeOldestFirst(book, r, days, mode, 0);
    ChargeShares(book, r, days, mode);
    forall n: nat | n <= |book.buckets|
      ensures SumTo(Growth(book.buckets, after.buckets, mode), n)
           == if !AnyOpen(book.buckets, 0) then 0
              else if AnyOpen(book.buckets, n) then Min(days, CanGiveTo(book.buckets, n)) else days
    {
      ChargeOldestFirst(book, r, days, mode, n);
    }
    forall b: nat, kind | b < |book.buckets|
      ensures ChargeBooked(book, after, mode, b, kind)
    {
      ChargeLedger(book, r, days, mode, b, kind);
    }
  }

  /** A pending or approved request takes what a planned row asks for; without rows it takes its whole range. */
  predicate ClashesOn(p: Request, row: LeaveDay) {
    && (p.status.Pending? || p.status.Approved?)
    && if p.rows == [] then p.start <= row.date <= p.end
       else (exists i :: 0 <= i < |p.rows| && p.rows[i].date == row.date
                         && (p.rows[i].session == row.session || p.rows[i].session.Full? || row.session.Full?))
  }

  ghost predicate Clash(requests: seq<Request>, rows: seq<LeaveDay>) {
    exists r, j :: 0 <= r < |requests| && 0 <= j < |rows| && ClashesOn(requests[r], rows[j])
  }

  /** In every state that a run from an empty book reaches the rows of each request lie in its range. */
  lemma ReachedInRange(hire: Date, ops: seq<LeaveOp>)
    ensures DayCharges.RowsWell(Run(EmptyBook(hire), ops).requests)
  {
    hide Run, DayCharges.RowsWell;
    DayCharges.RunSeparate(EmptyBook(hire), ops);
    DayCharges.SeparateWell(Run(EmptyBook(hire), ops).requests);
  }

  /** A request with rows clashes on a date exactly when it occupies a session there that the planned one excludes. */
  lemma ClashesOnIff(p: Request, row: LeaveDay)
    ensures ClashesOn(p, row) <==>
      IsActive(p) && exists session :: Occupies(p, row.date, session) && SessionsConflict(session, row.session)
  {
    if ClashesOn(p, row) {
      if p.rows == [] {
        assert Occupies(p, row.date, Full) && SessionsConflict(Full, row.session);
      } else {
        var i :| 0 <= i < |p.rows| && p.rows[i].date == row.date
                 && (p.rows[i].session == row.session || p.rows[i].session.Full? || row.session.Full?);
        assert Occupies(p, row.date, p.rows[i].session) && SessionsConflict(p.rows[i].session, row.session);
      }
    }
  }

  /** While rows lie in the ranges of their requests, the shortcut by ranges of the overlap check misses no clash. */
  lemma OverlapsIff(requests: seq<Request>, rows: seq<LeaveDay>, start: Date, end: Date)
    requires DayCharges.RowsWell(requests) && GoodRows(rows, start, end)
    ensures Overlaps(requests, rows) <==> Clash(requests, rows)
  {
    hide ClashesOn, SessionsConflict, Occupies;
    if Overlaps(requests, rows) {
      var r, j, session :|
        0 <= r < |requests| && IsActive(requests[r]) && RangesOverlap(requests[r], rows[0].date, rows[|rows| - 1].date)
        && 0 <= j < |rows| && Occupies(requests[r], rows[j].date, session) && SessionsConflict(session, rows[j].session);
      ClashesOnIff(requests[r], rows[j]);
    }
    if Clash(requests, rows) {
      var r, j :| 0 <= r < |requests| && 0 <= j < |rows| && ClashesOn(requests[r], rows[j]);
      ClashesOnIff(requests[r], rows[j]);
      var session :| Occupies(requests[r], rows[j].date, session) && SessionsConflict(session, rows[j].session);
      OccupiesInRange(requests[r], rows[j].date, session);
      assert rows[0].date <= rows[j].date <= rows[|rows| - 1].date;
    }
  }

  lemma OccupiesInRange(q: Request, date: Date, session: Session)
    requires GoodRows(q.rows, q.start, q.end) && Occupies(q, date, session)
    ensures q.start <= date <= q.end
  {
  }

  /** Why `create` refuses: the first reason that applies. */
  ghost function CreateRefusal(book: Book, input: LeaveInput, attended: set<Date>, today: Date): Option<Failure> {
    var rows := PlannedRows(input);
    var days := SumLeaveDayFractions(rows);
    var buckets := Accrue(book, today).buckets;
    if !input.active then Some(InvalidLeaveType)
    else if input.start > input.end then Some(InvalidLeaveRange)
    else if days <= 0 then Some(NoWorkingDays)
    else if exists d :: d in attended && input.start <= d && d <= input.end then Some(LeaveAttendanceConflict)
    else if Clash(book.requests, rows) then Some(OverlappingLeave)
    else if input.tracked && days > CanGiveTo(buckets, |buckets|) then Some(InsufficientBalance)
    else None
  }

  /** What an accepted request makes of the book. */
  ghost predicate CreationMakes(book: Book, after: Book, input: LeaveInput, today: Date) {
    var rows, r, accrued := PlannedRows(input), |book.requests|, Accrue(book, today);
    var days := SumLeaveDayFractions(rows);
    && after.requests == book.requests + [Request(input.tracked, input.start, input.end, rows, days, Pending)]
    && (if !input.tracked then after == book.(requests := after.requests)
        else ChargeMakes(accrued.(requests := after.requests), after, r, days, Reserving)
             && forall n: nat :: n <= |accrued.buckets| ==>
                  SumTo(Growth(accrued.buckets, after.buckets, Reserving), n) == Min(days, CanGiveTo(accrued.buckets, n)))
  }

  /**
    * `create` refuses for the first reason that applies and then changes nothing. Otherwise it adds a pending request
    * with its planned rows, and for a tracked leave type reserves its days on the scanned buckets, oldest first.
    */
  lemma CreateEffect(book: Book, input: LeaveInput, attended: set<Date>, today: Date)
    requires Consistent(book) && DayCharges.RowsWell(book.requests)
    ensures var reply := CreateLeave(book, input, attended, today);
      && reply.failure == CreateRefusal(book, input, attended, today)
      && (if reply.failure.Some? then reply.book == book else CreationMakes(book, reply.book, input, today))
  {
    hide Consistent, Accrue, Charge, Overlaps, Clash, PlannedRows, FractionSum, ChargeMakes, Growth, CanGiveTo, Capacity, Rooms, DayCharges.RowsWell;
    var rows := PlannedRows(input);
    var days, r := SumLeaveDayFractions(rows), |book.requests|;
    var q := Request(input.tracked, input.start, input.end, rows, days, Pending);
    var accrued := Accrue(book, today);
    PlansGood(input);
    OverlapsIff(book.requests, rows, input.start, input.end);
    CapacityIs(accrued.buckets, |accrued.buckets|);
    AccrueOfSubmit(book, q, today);
    if CreateLeave(book, input, attended, today).failure.None? && input.tracked {
      var submitted := Submit(accrued, q);
      AccrueKeepsTables(book, today);
      SubmittedBare(book, submitted);
      ChargeEffect(submitted, r, days, Reserving);
      ChargeRequestsKept(submitted, r, days);
      forall n: nat | n <= |accrued.buckets|
        ensures |Charge(submitted, r, days, Reserving).buckets| == |accrued.buckets|
        ensures SumTo(Growth(accrued.buckets, Charge(submitted, r, days, Reserving).buckets, Reserving), n)
             == Min(days, CanGiveTo(accrued.buckets, n))
      {
        FittingCharge(submitted, r, days, Reserving, n);
      }
    }
  }

  lemma PlansGood(input: LeaveInput)
    ensures GoodRows(PlannedRows(input), input.start, input.end)
  {
    PlannedRowsGood(input.schedule, input.start, input.end, input.picks);
  }

  lemma ChargeRequestsKept(book: Book, r: nat, days: int)
    ensures Charge(book, r, days, Reserving).requests == book.requests
    ensures |Charge(book, r, days, Reserving).buckets| == |book.buckets|
  {
  }

  // ---------------------------------------------------------------- settling a request

  /** The days that request `r` has on bucket `b` leave the pending column of an open bucket; the used one grows by `used`. */
  predicate SettledRow(was: Bucket, b: Bucket, share: int, used: int) {
    b == was.(pending := was.pending - (if was.status.Open? then share else 0), used := was.used + used)
  }

  /** What consuming the allocation of request `r` makes of a book. */
  ghost predicate ConsumptionMakes(before: Book, after: Book, r: nat) {
    && |after.buckets| == |before.buckets| && after.allocs == before.allocs
    && forall b: nat :: b < |before.buckets| ==>
      var share := Share(before.allocs, r, b);
      && SettledRow(before.buckets[b], after.buckets[b], share, share)
      && GainsOnly(before.ledger, after.ledger, b, Consume, share)
  }

  /** What releasing the allocation of request `r` makes of a book. */
  ghost predicate ReleaseMakes(before: Book, after: Book, r: nat) {
    && |after.buckets| == |before.buckets| && OtherRowsStay(before, after, r) && NoShares(after, r)
    && forall b: nat :: b < |before.buckets| ==>
      var share := Share(before.allocs, r, b);
      && SettledRow(before.buckets[b], after.buckets[b], share, 0)
      && GainsOnly(before.ledger, after.ledger, b, Release, share)
  }

  lemma ConsumedLedger(book: Book, r: nat, b: nat)
    requires b < |book.buckets|
    ensures GainsOnly(book.ledger, Consumed(book, r, |book.buckets|).ledger, b, Consume, Share(book.allocs, r, b))
  {
    hide Total, Flat, Consumed;
    ConsumedRow(book, r, b);
    TotalAfter(book.ledger, ShareBatches(book, r, Consume), b);
    assert forall kind: EntryKind :: OfKind(b, kind).bucket == b;
  }

  lemma ReleasedLedger(book: Book, r: nat, b: nat)
    requires b < |book.buckets|
    ensures GainsOnly(book.ledger, Released(book, r).ledger, b, Release, Share(book.allocs, r, b))
  {
    hide Total, Flat, Released;
    ReleasedRow(book, r, b);
    TotalAfter(book.ledger, ShareBatches(book, r, Release), b);
    assert forall kind: EntryKind :: OfKind(b, kind).bucket == b;
  }

  /** A pending share fits the pending column of an open bucket, and an expired bucket has nothing pending. */
  lemma ShareFitsColumn(book: Book, r: nat, b: nat)
    requires Consistent(book) && r < |book.requests| && book.requests[r].status.Pending? && b < |book.buckets|
    ensures 0 <= Share(book.allocs, r, b)
    ensures if book.buckets[b].status.Open? then Share(book.allocs, r, b) <= book.buckets[b].pending else book.buckets[b].pending == 0
  {
    hide Total, SharesUpTo;
    assert ColumnFits(book, b);
    if book.buckets[b].status.Open? {
      ClampNeverBites(book, r, b);
    }
  }

  lemma ConsumedRowEffect(book: Book, r: nat, b: nat)
    requires Consistent(book) && r < |book.requests| && book.requests[r].status.Pending? && b < |book.buckets|
    ensures var after, share := Consumed(book, r, |book.buckets|), Share(book.allocs, r, b);
      |after.buckets| == |book.buckets| && SettledRow(book.buckets[b], after.buckets[b], share, share)
  {
    hide Consistent, Consumed;
    ConsumedRow(book, r, b);
    ShareFitsColumn(book, r, b);
  }

  lemma ReleasedRowEffect(book: Book, r: nat, b: nat)
    requires Consistent(book) && r < |book.requests| && book.requests[r].status.Pending? && b < |book.buckets|
    ensures var after, share := Released(book, r), Share(book.allocs, r, b);
      |after.buckets| == |book.buckets| && SettledRow(book.buckets[b], after.buckets[b], share, 0)
  {
    hide Consistent, Released;
    ReleasedRow(book, r, b);
    ShareFitsColumn(book, r, b);
  }

  lemma ConsumeEffect(book: Book, r: nat)
    requires Consistent(book) && r < |book.requests| && book.requests[r].status.Pending?
    ensures ConsumptionMakes(book, Consumed(book, r, |book.buckets|), r)
  {
    hide Consistent, Consumed, SettledRow, GainsOnly, Share;
    ConsumedRow(book, r, 0);
    forall b: nat | b < |book.buckets|
      ensures var after, share := Consumed(book, r, |book.buckets|), Share(book.allocs, r, b);
        && SettledRow(book.buckets[b], after.buckets[b], share, share)
        && GainsOnly(book.ledger, after.ledger, b, Consume, share)
    {
      ConsumedRowEffect(book, r, b);
      ConsumedLedger(book, r, b);
    }
  }

  lemma ReleaseEffect(book: Book, r: nat)
    requires Consistent(book) && r < |book.requests| && book.requests[r].status.Pending?
    ensures ReleaseMakes(book, Released(book, r), r)
  {
    hide Consistent, Released, SettledRow, GainsOnly, Share;
    ReleasedRow(book, r, 0);
    ReleasedKeys(book, r);
    forall b: nat | b < |book.buckets|
      ensures var after, share := Released(book, r), Share(book.allocs, r, b);
        && SettledRow(book.buckets[b], after.buckets[b], share, 0)
        && GainsOnly(book.ledger, after.ledger, b, Release, share)
    {
      ReleasedRowEffect(book, r, b);
      ReleasedLedger(book, r, b);
    }
  }

  lemma ReleasedKeys(book: Book, r: nat)
    ensures forall q: nat, b: nat :: (q, b) in Released(book, r).allocs <==> (q, b) in book.allocs && q != r
    ensures forall q: nat, b: nat :: q != r ==> Share(Released(book, r).allocs, q, b) == Share(book.allocs, q, b)
  {
    hide Flat, ShareBatches;
  }

  /** The requests after one of them got a status. */
  predicate OnlyStatus(before: seq<Request>, after: seq<Request>, r: nat, status: RequestStatus)
    requires r < |before|
  {
    after == before[r := before[r].(status := status)]
  }

  /** Why `decide` refuses: the first reason that applies. */
  ghost function DecideRefusal(book: Book, r: nat, approve: bool, hasReason: bool, attended: set<Date>): Option<Failure> {
    if r >= |book.requests| then Some(LeaveNotFound)
    else if book.requests[r].status != Pending then Some(LeaveAlreadyDecided)
    else if !approve && !hasReason then Some(RejectionReasonRequired)
    else if approve && exists d :: d in attended && book.requests[r].start <= d && d <= book.requests[r].end
    then Some(LeaveAttendanceConflict)
    else None
  }

  /**
    * `decide` refuses for the first reason that applies, and leaves then what reading the balance left. Otherwise it
    * approves or rejects the request and touches no other. Of a tracked request, approval moves the allocated days from
    * the pending to the used columns, or charges the days afresh when there are no rows; rejection takes them out of
    * the pending columns and deletes the rows.
    */
  lemma DecideEffect(book: Book, r: nat, approve: bool, hasReason: bool, attended: set<Date>, today: Date)
    requires Consistent(book)
    ensures var reply, read := DecideLeave(book, r, approve, hasReason, attended, today), Balance(book, today);
      && reply.failure == DecideRefusal(book, r, approve, hasReason, attended)
      && (reply.failure == Some(LeaveNotFound) ==> reply.book == book)
      && (reply.failure.Some? && r < |book.requests| ==> reply.book == read)
      && (reply.failure.None? ==>
           && OnlyStatus(book.requests, reply.book.requests, r, if approve then Approved else Rejected)
           && var settled := reply.book.(requests := book.requests);
              if !book.requests[r].tracked then settled == read
              else if !approve then ReleaseMakes(read, settled, r)
              else if NoShares(read, r) then ChargeMakes(read, settled, r, book.requests[r].days, Consuming)
              else ConsumptionMakes(read, settled, r))
  {
    hide Consistent, Balance, Released, Consumed, Charge, ReleaseMakes, ConsumptionMakes, ChargeMakes, Accrue, NoShares;
    BalanceKeeps(book, today);
    if DecideLeave(book, r, approve, hasReason, attended, today).failure.None? && book.requests[r].tracked {
      var read := Balance(book, today);
      DayCharges.SettleRequests(read, r, today);
      if !approve {
        ReleaseEffect(read, r);
      } else {
        ApproveSettles(book, read, r, today);
      }
    }
  }

  lemma ApproveSettles(book: Book, read: Book, r: nat, today: Date)
    requires Consistent(read) && read == Balance(book, today)
    requires r < |read.requests| && read.requests[r].status.Pending? && read.requests[r].tracked
    ensures var settled := ConsumeReserved(read, r, today);
      && settled.requests == read.requests
      && if NoShares(read, r) then ChargeMakes(read, settled, r, read.requests[r].days, Consuming)
         else ConsumptionMakes(read, settled, r)
  {
    hide PeriodsMatch, SharesFit, ColumnsFit, LedgersFit, TrailsFit, Consumed, Charge, ChargeMakes, ConsumptionMakes, Accrue, SyncUsage;
    DayCharges.SettleRequests(read, r, today);
    ScanTwice(SyncUsage(Accrue(book, today)), today);
    if NoShares(read, r) {
      ChargeEffect(read, r, read.requests[r].days, Consuming);
    } else {
      var b: nat :| (r, b) in read.allocs;
      assert b < |read.buckets|;
      ConsumeEffect(read, r);
    }
  }

  /**
    * `cancel` refuses a request that does not exist or is not pending, and changes nothing then. Otherwise the request
    * is cancelled, no other touched, and the days of a tracked one leave the pending columns together with its rows.
    */
  lemma CancelEffect(book: Book, r: nat)
    requires Consistent(book)
    ensures var reply := CancelLeave(book, r);
      && (reply.failure.Some? ==> reply.book == book)
      && (reply.failure == Some(LeaveNotFound) <==> r >= |book.requests|)
      && (reply.failure.None? <==> r < |book.requests| && book.requests[r].status == Pending)
      && (reply.failure.Some? && r < |book.requests| ==> reply.failure == Some(LeaveNotCancellable))
      && (reply.failure.None? ==>
           && OnlyStatus(book.requests, reply.book.requests, r, Cancelled)
           && var settled := reply.book.(requests := book.requests);
              if book.requests[r].tracked then ReleaseMakes(book, settled, r) else settled == book)
  {
    hide Consistent, Released, ReleaseMakes;
    if r < |book.requests| && book.requests[r].status.Pending? {
      ReleasedKeepsRequests(book, r);
      ReleaseEffect(book, r);
      assert Released(book, r).(requests := book.requests) == Released(book, r);
    }
  }

  // ---------------------------------------------------------------- synchronising

  lemma {:induction false} SyncedPrefixIdle(book: Book, done: set<nat>, work: seq<nat>, n: nat)
    requires n <= |work| && Within(work, |book.requests|)
    requires forall i :: 0 <= i < n ==> work[i] in done
    ensures Synced(book, done, work, n) == book
  {
    if n > 0 {
      SyncedPrefixIdle(book, done, work, n - 1);
    }
  }

  /** The charge of `work[i]`, when all before it were done, can be made before the others instead. */
  lemma {:induction false} SyncedAhead(book: Book, done: set<nat>, work: seq<nat>, i: nat, n: nat)
    requires i < n <= |work| && HoldersOnce(book.requests, work)
    requires work[i] !in done && forall k :: 0 <= k < i ==> work[k] in done
    ensures var r := work[i];
      var charged := Charge(book, r, book.requests[r].days, ModeOf(book.requests[r]));
      charged.requests == book.requests && Synced(book, done, work, n) == Synced(charged, done + {r}, work, n)
    decreases n
  {
    hide Charge, ModeOf;
    var r := work[i];
    var charged := Charge(book, r, book.requests[r].days, ModeOf(book.requests[r]));
    DayCharges.ChargeRequests(book, r, book.requests[r].days, ModeOf(book.requests[r]));
    if n == i + 1 {
      SyncedPrefixIdle(book, done, work, i);
      SyncedPrefixIdle(charged, done + {r}, work, n);
    } else {
      SyncedAhead(book, done, work, i, n - 1);
      assert work[n - 1] != r;
    }
  }

  lemma {:induction false} SomeGrowth(g: seq<int>, n: nat)
    requires n <= |g| && SumTo(g, n) > 0
    ensures exists b: nat :: b < n && g[b] > 0
  {
    if g[n - 1] <= 0 {
      SomeGrowth(g, n - 1);
    }
  }

  /** While a bucket is open a charge leaves rows, and no request gains or loses them but the one charged. */
  lemma ChargedHolders(book: Book, r: nat, days: int, mode: Mode)
    requires days > 0 && NoShares(book, r) && AnyOpen(book.buckets, 0)
    ensures HoldersOf(Charge(book, r, days, mode).allocs) == HoldersOf(book.allocs) + {r}
  {
    hide Charge, Growth, AnyOpen, CanGiveTo, Share;
    var after := Charge(book, r, days, mode);
    ChargeShares(book, r, days, mode);
    ChargeOldestFirst(book, r, days, mode, |book.buckets|);
    AnyOpenEnds(book.buckets);
    SomeGrowth(Growth(book.buckets, after.buckets, mode), |book.buckets|);
    NotDoneNoShares(book);
    NotDoneNoShares(after);
    forall q: nat
      ensures q in HoldersOf(after.allocs) <==> q in HoldersOf(book.allocs) || q == r
    {
      if q == r {
        var b: nat :| b < |book.buckets| && Growth(book.buckets, after.buckets, mode)[b] > 0;
        assert (r, b) in after.allocs;
      } else if NoShares(book, q) {
        assert NoShares(after, q);
      } else {
        var b: nat :| (q, b) in book.allocs;
        assert (q, b) in after.allocs;
      }
    }
  }

  lemma AnyOpenEnds(buckets: seq<Bucket>)
    ensures !AnyOpen(buckets, |buckets|)
  {
  }

  /**
    * Synchronising usage charges the live tracked requests without rows one after the other, by start date and then by
    * age: while a bucket is open it is the same to charge the first of them, as used when approved and as pending
    * otherwise, and to synchronise the rest.
    */
  lemma SyncTakesFirst(book: Book, r: nat)
    requires RowsFit(book) && r < |book.requests| && IsHolder(book.requests[r]) && NoShares(book, r)
    requires forall q: nat :: q < |book.requests| && q != r && IsHolder(book.requests[q]) && NoShares(book, q) ==>
      Before(book.requests, r, q)
    requires AnyOpen(book.buckets, 0)
    ensures var mode := if book.requests[r].status == Approved then Consuming else Reserving;
      SyncUsage(book) == SyncUsage(Charge(book, r, book.requests[r].days, mode))
  {
    hide Charge, NoShares, AnyOpen, Worklist, Before, IsHolder;
    var work, done := Worklist(book.requests, |book.requests|), HoldersOf(book.allocs);
    WorklistExact(book.requests);
    WorklistOrdered(book.requests, |book.requests|);
    NotDoneNoShares(book);
    var i: nat :| i < |work| && work[i] == r;
    forall k | 0 <= k < i
      ensures work[k] in done
    {
      assert Before(book.requests, work[k], r);
      NeverBothBefore(book.requests, work[k], r);
    }
    SyncedAhead(book, done, work, i, |work|);
    ChargedHolders(book, r, book.requests[r].days, ModeOf(book.requests[r]));
  }

  lemma NeverBothBefore(requests: seq<Request>, q: nat, r: nat)
    requires q < |requests| && r < |requests| && Before(requests, q, r)
    ensures !Before(requests, r, q)
  {
  }
}
