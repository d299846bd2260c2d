/** Accrual over time: scans are idempotent and path independent, and leave lapses in the order it was granted. */
module AccrualLaws {
  import opened Basics
  import opened Calendar
  import opened LeavePolicy
  import opened Fifo
  import opened LeaveBook
  import opened LeaveInvariant
  import opened LeaveRuns

  // ---------------------------------------------------------------- a second scan

  /** All started years granted in full, nothing left to lapse. */
  predicate UpToDate(book: Book, asOf: Date) {
    asOf < book.hire ||
    var k := CompletedYears(book.hire, asOf);
    && k < |book.buckets|
    && (forall i :: 0 <= i <= k ==> Entitlement(book.hire, i, asOf) <= book.buckets[i].granted)
    && (forall i :: 0 <= i < |book.buckets| ==> !Lapses(book.buckets[i], asOf))
  }

  lemma {:induction false} FlatNothing(batches: seq<seq<Entry>>, n: nat)
    requires n <= |batches| && forall i :: 0 <= i < n ==> batches[i] == []
    ensures Flat(batches, n) == []
  {
    if n > 0 {
      FlatNothing(batches, n - 1);
    }
  }

  /** A scan changes nothing, and writes no ledger row, exactly when the book is up to date. */
  lemma ScanIdleIff(book: Book, asOf: Date)
    ensures Accrue(book, asOf) == book <==> UpToDate(book, asOf)
  {
    hide CompletedYears, Entitlement, PeriodStart, PeriodEnd, ExpiresOn, Flat;
    var k := CompletedYears(book.hire, asOf);
    var granted := GrantYears(book, asOf, k + 1);
    if book.hire <= asOf && UpToDate(book, asOf) {
      FlatNothing(GrantBatches(book, asOf, k + 1), k + 1);
      assert granted.buckets == book.buckets;
      FlatNothing(LapseBatches(book.buckets, asOf), |book.buckets|);
      assert Lapse(book, asOf, |book.buckets|).buckets == book.buckets;
    } else if book.hire <= asOf && Accrue(book, asOf) == book {
      AccruedUpToDate(book, asOf);
    }
  }

  lemma AccruedUpToDate(book: Book, asOf: Date)
    ensures UpToDate(Accrue(book, asOf), asOf)
  {
    hide CompletedYears, Entitlement, PeriodStart, PeriodEnd, ExpiresOn, Flat;
  }

  /** In any state a second scan on the same date changes nothing. */
  lemma ScanTwice(book: Book, asOf: Date)
    ensures Accrue(Accrue(book, asOf), asOf) == Accrue(book, asOf)
  {
    hide Accrue, UpToDate;
    AccruedUpToDate(book, asOf);
    ScanIdleIff(Accrue(book, asOf), asOf);
  }

  // ---------------------------------------------------------------- path independence

  /** Bucket `i` after a scan: `before` is the bucket the table held, if any. */
  function Scanned(hire: Date, i: nat, before: Option<Bucket>, asOf: Date): Bucket {
    Lapsed(match before
      case None => FreshBucket(hire, i, asOf)
      case Some(b) => if i <= CompletedYears(hire, asOf) then ToppedUp(b, hire, i, asOf) else b, asOf)
  }

  predicate PeriodMatches(b: Bucket, hire: Date, i: nat) {
    b.periodStart == PeriodStart(hire, i) && b.periodEnd == PeriodEnd(hire, i)
    && b.expiresOn == ExpiresOn(PeriodStart(hire, i)) && b.serviceYears == i
  }

  function At(book: Book, i: nat): Option<Bucket> {
    if i < |book.buckets| then Some(book.buckets[i]) else None
  }

  lemma AccruedBuckets(book: Book, asOf: Date)
    requires book.hire <= asOf
    ensures var after, k := Accrue(book, asOf), CompletedYears(book.hire, asOf);
      && |after.buckets| == Max(|book.buckets|, k + 1)
      && forall i: nat :: i < |after.buckets| ==> after.buckets[i] == Scanned(book.hire, i, At(book, i), asOf)
  {
    hide CompletedYears, Entitlement, PeriodStart, PeriodEnd, ExpiresOn, Flat;
  }

  /** One bucket scanned at `s` and then at `t` is the bucket scanned at `t`. */
  lemma BucketScans(hire: Date, i: nat, b: Bucket, s: Date, t: Date)
    requires hire <= s <= t && PeriodMatches(b, hire, i)
    ensures Scanned(hire, i, Some(Scanned(hire, i, Some(b), s)), t) == Scanned(hire, i, Some(b), t)
  {
    hide CompletedYears, Entitlement, PeriodStart, PeriodEnd, ExpiresOn;
    CompletedYearsMonotone(hire, s, t);
    EntitlementMonotone(hire, i, s, t);
    YearOutlastsPeriod(hire, i, s);
  }

  /** A leave year that has lapsed by `s` was over, and so had started, by then. */
  lemma YearOutlastsPeriod(hire: Date, i: nat, s: Date)
    requires hire <= s
    ensures ExpiresOn(PeriodStart(hire, i)) <= s ==> PeriodEnd(hire, i) < s && i <= CompletedYears(hire, s)
  {
    hide CompletedYears, PeriodStart, PeriodEnd, ExpiresOn;
    ExpiriesOrdered(hire, i, i + 1);
    LeaveYearsTile(hire, i, s);
    StartedIff(hire, i, s);
  }

  lemma FreshScans(hire: Date, i: nat, s: Date, t: Date)
    requires hire <= s <= t
    requires i <= CompletedYears(hire, s)
    ensures Scanned(hire, i, Some(Scanned(hire, i, None, s)), t) == Scanned(hire, i, None, t)
  {
    hide CompletedYears, Entitlement, PeriodStart, PeriodEnd, ExpiresOn;
    CompletedYearsMonotone(hire, s, t);
    EntitlementMonotone(hire, i, s, t);
    YearOutlastsPeriod(hire, i, s);
  }

  /** Scanning at `s` on the way to `t` makes no difference to the buckets, whatever was used, pending or adjusted. */
  lemma ScansCompose(book: Book, s: Date, t: Date)
    requires PeriodsMatch(book) && s <= t
    ensures Accrue(Accrue(book, s), t).buckets == Accrue(book, t).buckets
  {
    hide CompletedYears, PeriodStart, PeriodEnd, ExpiresOn, Accrue, Scanned;
    if s < book.hire {
      AccrueTooEarly(book, s);
    } else {
      AccrueKeepsTables(book, s);
      AccruedBuckets(book, s);
      AccruedBuckets(Accrue(book, s), t);
      AccruedBuckets(book, t);
      CompletedYearsMonotone(book.hire, s, t);
      var twice, once := Accrue(Accrue(book, s), t).buckets, Accrue(book, t).buckets;
      forall i: nat | i < |once|
        ensures twice[i] == once[i]
      {
        if i < |book.buckets| {
          BucketScans(book.hire, i, book.buckets[i], s, t);
        } else if i <= CompletedYears(book.hire, s) {
          FreshScans(book.hire, i, s, t);
        }
      }
    }
  }

  lemma AccrueTooEarly(book: Book, s: Date)
    requires s < book.hire
    ensures Accrue(book, s) == book
  {
  }

  lemma AccrueMatches(book: Book, asOf: Date)
    requires PeriodsMatch(book)
    ensures PeriodsMatch(Accrue(book, asOf))
  {
    hide CompletedYears, Entitlement, PeriodStart, PeriodEnd, ExpiresOn, Flat;
  }

  /** A book scanned on each of `dates` in turn. */
  function ScanAll(book: Book, dates: seq<Date>): Book {
    if dates == [] then book else Accrue(ScanAll(book, dates[..|dates| - 1]), dates[|dates| - 1])
  }

  /** Any run of scans on non-decreasing dates leaves the buckets that one scan on the last date leaves. */
  lemma {:induction false} ScansPathIndependent(book: Book, dates: seq<Date>)
    requires PeriodsMatch(book) && dates != []
    requires forall i, j :: 0 <= i <= j < |dates| ==> dates[i] <= dates[j]
    ensures ScanAll(book, dates).buckets == Accrue(book, dates[|dates| - 1]).buckets
    ensures ScanAll(book, dates).hire == book.hire && PeriodsMatch(ScanAll(book, dates))
  {
    hide Accrue, PeriodsMatch;
    var rest, t := dates[..|dates| - 1], dates[|dates| - 1];
    if rest == [] {
      AccrueMatches(book, t);
      AccrueKeepsTables(book, t);
    } else {
      ScansPathIndependent(book, rest);
      AccrueMatches(ScanAll(book, rest), t);
      AccrueKeepsTables(ScanAll(book, rest), t);
      AccrueKeepsTables(book, rest[|rest| - 1]);
      SameBucketsSameScan(ScanAll(book, rest), Accrue(book, rest[|rest| - 1]), t);
      ScansCompose(book, rest[|rest| - 1], t);
    }
  }

  lemma SameBucketsSameScan(a: Book, b: Book, t: Date)
    requires a.buckets == b.buckets && a.hire == b.hire
    ensures Accrue(a, t).buckets == Accrue(b, t).buckets
  {
    hide Accrue, Scanned;
    if t < a.hire {
      AccrueTooEarly(a, t);
      AccrueTooEarly(b, t);
    } else {
      AccruedBuckets(a, t);
      AccruedBuckets(b, t);
    }
  }

  // ---------------------------------------------------------------- which years are open

  /** Nothing in the book is ahead of date `t`: its years have started, and those expired have lapsed. */
  predicate NotAhead(book: Book, t: Date) {
    forall i :: 0 <= i < |book.buckets| ==>
      && book.buckets[i].periodStart <= t
      && (book.buckets[i].status.Expired? ==> book.buckets[i].expiresOn <= t)
  }

  /** What charging, settling and adjusting leave of the buckets. */
  predicate SameYears(a: seq<Bucket>, b: seq<Bucket>) {
    |a| == |b| && forall i :: 0 <= i < |a| ==>
      a[i].periodStart == b[i].periodStart && a[i].expiresOn == b[i].expiresOn && a[i].status == b[i].status
  }

  lemma AccrueNotAhead(book: Book, s: Date, t: Date)
    requires NotAhead(book, t) && s <= t
    requires PeriodsMatch(book)
    ensures NotAhead(Accrue(book, s), t)
  {
    hide CompletedYears, Entitlement, PeriodStart, PeriodEnd, ExpiresOn, Accrue;
    if s < book.hire {
      AccrueTooEarly(book, s);
    } else {
      AccruedBuckets(book, s);
      forall i: nat | i <= CompletedYears(book.hire, s)
        ensures PeriodStart(book.hire, i) <= s
      {
        StartedIff(book.hire, i, s);
      }
    }
  }

  lemma {:induction false} SyncedSameYears(book: Book, done: set<nat>, work: seq<nat>, n: nat)
    requires n <= |work| && Within(work, |book.requests|)
    ensures SameYears(book.buckets, Synced(book, done, work, n).buckets)
  {
    hide Flat, WithShares, Draws;
    if n > 0 {
      SyncedSameYears(book, done, work, n - 1);
    }
  }

  lemma BalanceNotAhead(book: Book, asOf: Date, t: Date)
    requires NotAhead(book, t) && asOf <= t && Consistent(book)
    ensures NotAhead(Balance(book, asOf), t)
  {
    hide Consistent, Accrue, Synced;
    ConsistentMatches(book);
    AccrueNotAhead(book, asOf, t);
    AccrueKeeps(book, asOf);
    var accrued := Accrue(book, asOf);
    var work := Worklist(accrued.requests, |accrued.requests|);
    SyncedSameYears(accrued, HoldersOf(accrued.allocs), work, |work|);
    SyncKeeps(accrued);
    ConsistentMatches(SyncUsage(accrued));
    AccrueNotAhead(SyncUsage(accrued), asOf, t);
  }

  lemma ConsistentMatches(book: Book)
    requires Consistent(book)
    ensures PeriodsMatch(book)
  {
  }

  /** The date of an operation. */
  predicate DatedBy(op: LeaveOp, t: Date) {
    match op
    case ReadBalance(asOf) => asOf <= t
    case Create(_, _, today) => today <= t
    case Decide(_, _, _, _, today) => today <= t
    case Cancel(_) => true
    case AdjustDays(_, today) => today <= t
    case RebuildFrom(_, today) => today <= t
  }

  lemma AdjustedSameYears(book: Book, amount: int)
    ensures Newest(book.buckets, |book.buckets|) >= 0 ==> SameYears(book.buckets, RaisedNewest(book, amount).buckets)
    ensures SameYears(book.buckets, Deducted(book, -amount).buckets)
  {
    hide Flat, Takes, DeductBatches;
  }

  lemma AdjustNotAhead(book: Book, today: Date, amount: int, t: Date)
    requires NotAhead(book, t) && today <= t && Consistent(book)
    ensures NotAhead(AdjustBalance(book, today, amount).book, t)
  {
    hide Consistent, NotAhead, SameYears, Accrue, RaisedNewest, Deducted;
    var accrued := Accrue(book, today);
    AccrueKeeps(book, today);
    ConsistentMatches(book);
    AccrueNotAhead(book, today, t);
    AdjustedSameYears(accrued, amount);
    if amount > 0 && Newest(accrued.buckets, |accrued.buckets|) >= 0 {
      RaiseKeeps(accrued, amount);
      ConsistentMatches(RaisedNewest(accrued, amount));
      SameYearsNotAhead(accrued, RaisedNewest(accrued, amount), t);
      AccrueNotAhead(RaisedNewest(accrued, amount), today, t);
    } else if amount < 0 {
      DeductKeeps(accrued, -amount);
      ConsistentMatches(Deducted(accrued, -amount));
      SameYearsNotAhead(accrued, Deducted(accrued, -amount), t);
      AccrueNotAhead(Deducted(accrued, -amount), today, t);
    }
  }

  lemma SettledSameYears(book: Book, r: nat, days: int, mode: Mode)
    ensures SameYears(book.buckets, Released(book, r).buckets)
    ensures SameYears(book.buckets, Consumed(book, r, |book.buckets|).buckets)
    ensures SameYears(book.buckets, Charge(book, r, days, mode).buckets)
  {
    hide Flat, WithShares, Draws;
  }

  lemma DecideNotAhead(book: Book, op: LeaveOp, t: Date)
    requires NotAhead(book, t) && DatedBy(op, t) && Consistent(book) && op.Decide?
    ensures NotAhead(Perform(book, op).book, t)
  {
    hide Consistent, Balance, Accrue, Charge, Released, Consumed;
    var read := Balance(book, op.today);
    BalanceNotAhead(book, op.today, t);
    BalanceKeeps(book, op.today);
    ConsistentMatches(read);
    AccrueNotAhead(read, op.today, t);
    if op.r < |book.requests| {
      SettledSameYears(read, op.r, book.requests[op.r].days, Consuming);
      SettledSameYears(Accrue(read, op.today), op.r, book.requests[op.r].days, Consuming);
    }
  }

  lemma SameYearsNotAhead(book: Book, after: Book, t: Date)
    requires NotAhead(book, t) && SameYears(book.buckets, after.buckets)
    ensures NotAhead(after, t)
  {
  }

  lemma CreateNotAhead(book: Book, op: LeaveOp, t: Date)
    requires NotAhead(book, t) && DatedBy(op, t) && Consistent(book) && op.Create?
    ensures NotAhead(Perform(book, op).book, t)
  {
    hide Consistent, Accrue, Charge, PlannedRows, Overlaps, OpenCapacity, NotAhead, SameYears, PeriodsMatch, AttendedWithin;
    var rows := PlannedRows(op.input);
    var days := DayFraction.SumLeaveDayFractions(rows);
    var submitted := Submit(book, Request(op.input.tracked, op.input.start, op.input.end, rows, days, Pending));
    var accrued := Accrue(submitted, op.today);
    SubmitSameYears(book, submitted.requests[|book.requests|], t);
    AccrueNotAhead(submitted, op.today, t);
    SettledSameYears(accrued, |book.requests|, days, Reserving);
    SameYearsNotAhead(accrued, Charge(accrued, |book.requests|, days, Reserving), t);
  }

  lemma SubmitSameYears(book: Book, q: Request, t: Date)
    requires NotAhead(book, t) && Consistent(book)
    ensures NotAhead(Submit(book, q), t) && PeriodsMatch(Submit(book, q))
  {
  }

  lemma PerformNotAhead(book: Book, op: LeaveOp, t: Date)
    requires NotAhead(book, t) && DatedBy(op, t) && Consistent(book)
    ensures NotAhead(Perform(book, op).book, t)
  {
    hide Consistent, Balance, CreateLeave, DecideLeave, AdjustBalance, SyncUsage, Accrue, Released;
    match op
    case ReadBalance(asOf) => BalanceNotAhead(book, asOf, t);
    case Create(_, _, _) => CreateNotAhead(book, op, t);
    case Decide(_, _, _, _, _) => DecideNotAhead(book, op, t);
    case Cancel(r) =>
      if r < |book.requests| {
        SettledSameYears(book, r, 0, Reserving);
      }
    case AdjustDays(amount, today) =>
      BalanceNotAhead(book, today, t);
      BalanceKeeps(book, today);
      AdjustNotAhead(Balance(book, today), today, amount, t);
    case RebuildFrom(hire, today) => RebuildNotAhead(book, hire, today, t);
  }

  lemma RebuildNotAhead(book: Book, hire: Date, today: Date, t: Date)
    requires today <= t
    ensures NotAhead(Rebuild(book, hire, today), t)
  {
    hide Accrue, Synced;
    var bare := Book(hire, [], map[], [], book.requests);
    AccrueNotAhead(bare, today, t);
    var accrued := Accrue(bare, today);
    var work := Worklist(accrued.requests, |accrued.requests|);
    SyncedSameYears(accrued, HoldersOf(accrued.allocs), work, |work|);
  }

  lemma {:induction false} RunNotAhead(book: Book, ops: seq<LeaveOp>, t: Date)
    requires NotAhead(book, t) && Consistent(book)
    requires forall i :: 0 <= i < |ops| ==> DatedBy(ops[i], t)
    ensures NotAhead(Run(book, ops), t)
  {
    hide Consistent, NotAhead, Perform;
    if ops != [] {
      RunNotAhead(book, ops[..|ops| - 1], t);
      RunKeeps(book, ops[..|ops| - 1]);
      PerformNotAhead(Run(book, ops[..|ops| - 1]), ops[|ops| - 1], t);
    }
  }

  /**
    * After a scan at `t`, of a book no operation on which is dated later, exactly the current leave year and the
    * two before it are open, but for one that lapses on the eve of a 29 February anniversary.
    */
  lemma OpenYears(book: Book, t: Date, n: nat)
    requires PeriodsMatch(book) && NotAhead(book, t) && book.hire <= t
    ensures var after, k := Accrue(book, t), CompletedYears(book.hire, t);
      && |after.buckets| == k + 1
      && (n <= k ==> (after.buckets[n].status.Open? <==>
            k <= n + 2 && !(k == n + 2 && LapsesOnEve(book.hire, n) && t == PeriodEnd(book.hire, k))))
      && after.buckets[k].status.Open?
  {
    hide CompletedYears, Entitlement, PeriodStart, PeriodEnd, ExpiresOn, Accrue, LapsesOnEve;
    var k := CompletedYears(book.hire, t);
    AccruedBuckets(book, t);
    if |book.buckets| > 0 {
      StartedIff(book.hire, |book.buckets| - 1, t);
    }
    AliveYears(book.hire, k, t);
    if n <= k {
      AliveYears(book.hire, n, t);
    }
  }

  /**
    * In every state that a run from an empty book dated up to `t` reaches, a scan at `t` leaves exactly the current
    * leave year of the last hire date and the two before it open, but for one that lapses on an eve.
    */
  lemma ReachedOpenYears(hire: Date, ops: seq<LeaveOp>, t: Date, n: nat)
    requires forall i :: 0 <= i < |ops| ==> DatedBy(ops[i], t)
    ensures var book := Run(EmptyBook(hire), ops);
      book.hire <= t ==>
        var after, k := Accrue(book, t), CompletedYears(book.hire, t);
        && |after.buckets| == k + 1 && after.buckets[k].status.Open?
        && (n <= k ==> (after.buckets[n].status.Open? <==>
             k <= n + 2 && !(k == n + 2 && LapsesOnEve(book.hire, n) && t == PeriodEnd(book.hire, k))))
  {
    hide Run, Accrue, Consistent, NotAhead, PeriodsMatch, CompletedYears, LapsesOnEve, PeriodEnd;
    EmptyConsistent(hire);
    EmptyNotAhead(hire, t);
    RunKeeps(EmptyBook(hire), ops);
    RunNotAhead(EmptyBook(hire), ops, t);
    var book := Run(EmptyBook(hire), ops);
    ConsistentMatches(book);
    if book.hire <= t {
      OpenYears(book, t, n);
    }
  }

  lemma EmptyNotAhead(hire: Date, t: Date)
    ensures NotAhead(EmptyBook(hire), t)
  {
  }

  /**
    * A positive adjustment goes to the current leave year. Of it, later scans keep what exceeds the growth of that
    * year's entitlement: all of it exactly when the entitlement at `t` is no more than was granted before the
    * adjustment, so always after the first leave year; in the first year, top-ups absorb it.
    */
  lemma RaiseKeptIff(book: Book, amount: int, s: Date, t: Date)
    requires PeriodsMatch(book) && NotAhead(book, s) && book.hire <= s <= t && amount > 0
    ensures var now, k := Accrue(book, s), CompletedYears(book.hire, s);
      && Newest(now.buckets, |now.buckets|) == k
      && var plain, raised := GrantedAt(now, k, t), GrantedAt(RaisedNewest(now, amount), k, t);
      && plain <= raised <= plain + amount
      && (raised == plain + amount <==> Entitlement(book.hire, k, t) <= now.buckets[k].granted)
      && (k >= 1 ==> raised == plain + amount)
      && (raised == plain <==> now.buckets[k].granted + amount <= Entitlement(book.hire, k, t))
  {
    hide CompletedYears, Entitlement, PeriodStart, PeriodEnd, ExpiresOn, LapsesOnEve, Accrue, NotAhead;
    var now, k := Accrue(book, s), CompletedYears(book.hire, s);
    OpenYears(book, s, k);
    AccrueKeepsTables(book, s);
    var raised := RaisedNewest(now, amount);
    AccruedUpToDate(book, s);
    AccruedBuckets(now, t);
    AccruedBuckets(raised, t);
    CompletedYearsMonotone(book.hire, s, t);
    if k >= 1 {
      LaterYearsFixed(book.hire, k, s, t);
    }
  }

  /** The days granted to leave year `k` after a scan at `t`. */
  function GrantedAt(book: Book, k: nat, t: Date): int {
    if k < |Accrue(book, t).buckets| then Accrue(book, t).buckets[k].granted else 0
  }

  lemma LaterYearsFixed(hire: Date, n: nat, s: Date, t: Date)
    requires n >= 1
    ensures Entitlement(hire, n, s) == Entitlement(hire, n, t)
  {
  }

  // ---------------------------------------------------------------- oldest first is earliest expiry first

  /** Amounts on the buckets that lapse by `cutoff`, among the first `n`. */
  function LapsingBy(buckets: seq<Bucket>, amounts: seq<int>, cutoff: Date, n: nat): int
    requires n <= |buckets| && n <= |amounts|
  {
    if n == 0 then 0
    else LapsingBy(buckets, amounts, cutoff, n - 1) + (if buckets[n - 1].expiresOn <= cutoff then amounts[n - 1] else 0)
  }

  /** Number of the first `n` buckets that lapse by `cutoff`. */
  function LapsingCount(buckets: seq<Bucket>, cutoff: Date, n: nat): (m: nat)
    requires n <= |buckets|
    ensures m <= n
  {
    if n == 0 then 0 else LapsingCount(buckets, cutoff, n - 1) + (if buckets[n - 1].expiresOn <= cutoff then 1 else 0)
  }

  lemma {:induction false} LapsingIsPrefix(book: Book, amounts: seq<int>, cutoff: Date, n: nat)
    requires PeriodsMatch(book) && n <= |book.buckets| && n <= |amounts|
    ensures LapsingBy(book.buckets, amounts, cutoff, n) == SumTo(amounts, LapsingCount(book.buckets, cutoff, n))
    ensures n > 0 && book.buckets[n - 1].expiresOn <= cutoff ==> LapsingCount(book.buckets, cutoff, n) == n
  {
    hide PeriodStart, PeriodEnd, ExpiresOn;
    if n > 0 {
      LapsingIsPrefix(book, amounts, cutoff, n - 1);
      if n > 1 {
        ExpiriesOrdered(book.hire, n - 2, n - 1);
      }
    }
  }

  /**
    * Oldest first is earliest expiry first, and wastes least: for every cutoff date, no other way to take the same
    * days from the open buckets takes more from those that lapse by the cutoff.
    */
  lemma FifoWastesLeast(book: Book, days: int, other: seq<int>, cutoff: Date)
    requires PeriodsMatch(book) && Feasible(Rooms(book.buckets), days, other)
    ensures LapsingBy(book.buckets, other, cutoff, |book.buckets|)
         <= LapsingBy(book.buckets, Takes(Rooms(book.buckets), days), cutoff, |book.buckets|)
  {
    hide PeriodStart, PeriodEnd, ExpiresOn;
    var n := |book.buckets|;
    LapsingIsPrefix(book, other, cutoff, n);
    LapsingIsPrefix(book, Takes(Rooms(book.buckets), days), cutoff, n);
    FifoTakesOldestMost(Rooms(book.buckets), days, other, LapsingCount(book.buckets, cutoff, n));
  }
}
