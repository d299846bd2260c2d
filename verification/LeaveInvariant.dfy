/**
  * What every leave operation keeps: the redundant records of a book (bucket columns, allocation rows,
  * ledger entries and request states) agree with each other.
  */
module LeaveInvariant {
  import opened Basics
  import opened Calendar
  import opened LeavePolicy
  import opened Fifo
  import opened LeaveBook

  // ---------------------------------------------------------------- replaying the ledger

  /** What is read off the ledger about one bucket, or about one request on one bucket. */
  datatype Measure =
    | GrantedOn(bucket: nat)
    | UsedOn(bucket: nat)
    | ExpiredOn(bucket: nat)
    | DeductedOn(bucket: nat)
    | ReservedBy(bucket: nat, request: nat)
    | ConsumedBy(bucket: nat, request: nat)
    | OfKind(bucket: nat, kind: EntryKind)

  function Weight(m: Measure, e: Entry): int {
    if e.bucket != m.bucket then 0
    else match m
      case GrantedOn(_) => if e.kind.Grant? || e.kind.TopUp? || (e.kind.Adjust? && e.days > 0) then e.days else 0
      case UsedOn(_) => if e.kind.Consume? then e.days else if e.kind.Adjust? && e.days < 0 then -e.days else 0
      case ExpiredOn(_) => if e.kind.Expire? then e.days else 0
      case DeductedOn(_) => if e.kind.Adjust? && e.days < 0 then -e.days else 0
      case ReservedBy(_, r) =>
        if e.request != Some(r) then 0 else if e.kind.Reserve? then e.days else if e.kind.Release? then -e.days else 0
      case ConsumedBy(_, r) => if e.request == Some(r) && e.kind.Consume? then e.days else 0
      case OfKind(_, kind) => if e.kind == kind then e.days else 0
  }

  function Total(m: Measure, ledger: seq<Entry>): int {
    if ledger == [] then 0 else Total(m, ledger[..|ledger| - 1]) + Weight(m, ledger[|ledger| - 1])
  }

  lemma {:induction false} TotalAppend(m: Measure, a: seq<Entry>, b: seq<Entry>)
    ensures Total(m, a + b) == Total(m, a) + Total(m, b)
  {
    if b == [] {
      assert a + b == a;
    } else {
      TotalAppend(m, a, b[..|b| - 1]);
      assert (a + b)[..|a + b| - 1] == a + b[..|b| - 1];
    }
  }

  lemma TotalOne(m: Measure, e: Entry)
    ensures Total(m, [e]) == Weight(m, e)
  {
    assert [e][..0] == [];
  }

  /** Batch `i` is at most one entry, on bucket `i`. */
  ghost predicate Single(batches: seq<seq<Entry>>) {
    forall i :: 0 <= i < |batches| ==> |batches[i]| <= 1 && (|batches[i]| == 1 ==> batches[i][0].bucket == i)
  }

  /** What the batches add to a measure. */
  function Moved(m: Measure, batches: seq<seq<Entry>>): int {
    if m.bucket < |batches| && |batches[m.bucket]| == 1 then Weight(m, batches[m.bucket][0]) else 0
  }

  lemma TotalBatch(m: Measure, batches: seq<seq<Entry>>, i: nat)
    requires Single(batches) && i < |batches|
    ensures Total(m, batches[i]) == if m.bucket == i then Moved(m, batches) else 0
  {
    if batches[i] != [] {
      assert batches[i] == [batches[i][0]];
      TotalOne(m, batches[i][0]);
    }
  }

  lemma {:induction false} TotalFlat(m: Measure, batches: seq<seq<Entry>>, n: nat)
    requires Single(batches) && n <= |batches|
    ensures Total(m, Flat(batches, n)) == if m.bucket < n then Moved(m, batches) else 0
  {
    if n > 0 {
      TotalFlat(m, batches, n - 1);
      TotalAppend(m, Flat(batches, n - 1), batches[n - 1]);
      TotalBatch(m, batches, n - 1);
    }
  }

  /** Appending one batch per bucket moves every measure by what its own batch says. */
  lemma TotalAfter(ledger: seq<Entry>, batches: seq<seq<Entry>>, b: nat)
    requires Single(batches)
    ensures forall m: Measure :: m.bucket == b ==>
      Total(m, ledger + Flat(batches, |batches|)) == Total(m, ledger) + Moved(m, batches)
  {
    forall m: Measure | m.bucket == b
      ensures Total(m, ledger + Flat(batches, |batches|)) == Total(m, ledger) + Moved(m, batches)
    {
      TotalAppend(m, ledger, Flat(batches, |batches|));
      TotalFlat(m, batches, |batches|);
    }
  }

  // ---------------------------------------------------------------- sums of allocation rows

  /** Allocation of request `r` on bucket `b`, counted while the request has status `status`. */
  function Term(book: Book, status: RequestStatus, b: nat, r: nat): int
    requires r < |book.requests|
  {
    if book.requests[r].status == status then Share(book.allocs, r, b) else 0
  }

  /** Allocation rows on bucket `b` of the requests with status `status`, among the first `n`. */
  function SharesUpTo(book: Book, status: RequestStatus, b: nat, n: nat): int
    requires n <= |book.requests|
  {
    if n == 0 then 0 else SharesUpTo(book, status, b, n - 1) + Term(book, status, b, n - 1)
  }

  function SharesOf(book: Book, status: RequestStatus, b: nat): int {
    SharesUpTo(book, status, b, |book.requests|)
  }

  /** Allocation rows of request `r` on the first `n` buckets. */
  function ShareTotal(allocs: map<(nat, nat), int>, r: nat, n: nat): int {
    if n == 0 then 0 else ShareTotal(allocs, r, n - 1) + Share(allocs, r, n - 1)
  }

  lemma {:induction false} SharesSame(book: Book, other: Book, status: RequestStatus, b: nat, n: nat)
    requires n <= |book.requests| && n <= |other.requests|
    requires forall r :: 0 <= r < n ==> Term(book, status, b, r) == Term(other, status, b, r)
    ensures SharesUpTo(book, status, b, n) == SharesUpTo(other, status, b, n)
  {
    if n > 0 {
      SharesSame(book, other, status, b, n - 1);
    }
  }

  lemma {:induction false} SharesChanged(book: Book, other: Book, status: RequestStatus, b: nat, n: nat, r: nat)
    requires r < n <= |book.requests| && n <= |other.requests|
    requires forall q :: 0 <= q < n && q != r ==> Term(book, status, b, q) == Term(other, status, b, q)
    ensures SharesUpTo(other, status, b, n)
         == SharesUpTo(book, status, b, n) - Term(book, status, b, r) + Term(other, status, b, r)
  {
    if n - 1 == r {
      SharesSame(book, other, status, b, r);
    } else {
      SharesChanged(book, other, status, b, n - 1, r);
    }
  }

  lemma {:induction false} SharesBound(book: Book, status: RequestStatus, b: nat, n: nat)
    requires n <= |book.requests|
    requires forall k :: k in book.allocs ==> book.allocs[k] > 0
    ensures SharesUpTo(book, status, b, n) >= 0
    ensures forall r :: 0 <= r < n ==> Term(book, status, b, r) <= SharesUpTo(book, status, b, n)
  {
    if n > 0 {
      SharesBound(book, status, b, n - 1);
    }
  }

  lemma {:induction false} NoSharesNoSum(book: Book, status: RequestStatus, b: nat, n: nat)
    requires n <= |book.requests|
    requires forall r :: 0 <= r < n ==> Share(book.allocs, r, b) == 0
    ensures SharesUpTo(book, status, b, n) == 0
  {
    if n > 0 {
      NoSharesNoSum(book, status, b, n - 1);
    }
  }

  lemma {:induction false} ShareTotalSame(a: map<(nat, nat), int>, c: map<(nat, nat), int>, r: nat, n: nat)
    requires forall b: nat :: b < n ==> Share(a, r, b) == Share(c, r, b)
    ensures ShareTotal(a, r, n) == ShareTotal(c, r, n)
  {
    if n > 0 {
      ShareTotalSame(a, c, r, n - 1);
    }
  }

  lemma {:induction false} ShareTotalExtends(a: map<(nat, nat), int>, r: nat, m: nat, n: nat)
    requires m <= n
    requires forall b: nat :: m <= b < n ==> Share(a, r, b) == 0
    ensures ShareTotal(a, r, n) == ShareTotal(a, r, m)
  {
    if m < n {
      ShareTotalExtends(a, r, m, n - 1);
    }
  }

  lemma {:induction false} ShareTotalIsSum(a: map<(nat, nat), int>, r: nat, draws: seq<int>, n: nat)
    requires n <= |draws|
    requires forall b: nat :: b < n ==> Share(a, r, b) == draws[b]
    ensures ShareTotal(a, r, n) == SumTo(draws, n)
  {
    if n > 0 {
      ShareTotalIsSum(a, r, draws, n - 1);
    }
  }

  lemma {:induction false} ShareTotalWitness(a: map<(nat, nat), int>, r: nat, n: nat)
    requires ShareTotal(a, r, n) != 0
    ensures exists b: nat :: b < n && (r, b) in a
  {
    if (r, n - 1) !in a {
      ShareTotalWitness(a, r, n - 1);
    }
  }

  // ---------------------------------------------------------------- the invariant

  /** Bucket `i` is the bucket of leave year `i`. */
  predicate PeriodsMatch(book: Book) {
    forall i :: 0 <= i < |book.buckets| ==>
      && book.buckets[i].periodStart == PeriodStart(book.hire, i)
      && book.buckets[i].periodEnd == PeriodEnd(book.hire, i)
      && book.buckets[i].expiresOn == ExpiresOn(PeriodStart(book.hire, i))
      && book.buckets[i].serviceYears == i
  }

  /** Allocation rows belong to existing requests and buckets and are positive; so is every request. */
  ghost predicate RowsFit(book: Book) {
    && (forall k :: k in book.allocs ==> k.0 < |book.requests| && k.1 < |book.buckets| && book.allocs[k] > 0)
    && (forall r :: 0 <= r < |book.requests| ==> book.requests[r].days > 0)
  }

  ghost predicate NoShares(book: Book, r: nat) {
    forall b: nat :: (r, b) !in book.allocs
  }

  /** The allocation rows of a request sum to its days; only live requests of tracked types hold rows. */
  ghost predicate FullyShared(book: Book, r: nat)
    requires r < |book.requests|
  {
    IsHolder(book.requests[r]) && ShareTotal(book.allocs, r, |book.buckets|) == book.requests[r].days
  }

  ghost predicate SharesFit(book: Book) {
    forall r: nat :: r < |book.requests| ==> NoShares(book, r) || FullyShared(book, r)
  }

  /** The pending and used columns are what the allocation rows and the deductions say. */
  ghost predicate ColumnFits(book: Book, b: nat)
    requires b < |book.buckets|
  {
    && book.buckets[b].pending == (if book.buckets[b].status.Open? then SharesOf(book, Pending, b) else 0)
    && book.buckets[b].used == SharesOf(book, Approved, b) + Total(DeductedOn(b), book.ledger)
  }

  ghost predicate ColumnsFit(book: Book) {
    forall b: nat :: b < |book.buckets| ==> ColumnFits(book, b)
  }

  /** Replaying the ledger gives the granted, used and expired columns of bucket `b`. */
  ghost predicate LedgerFits(book: Book, b: nat) {
    if b < |book.buckets| then
      && Total(GrantedOn(b), book.ledger) == book.buckets[b].granted
      && Total(UsedOn(b), book.ledger) == book.buckets[b].used
      && Total(ExpiredOn(b), book.ledger) == book.buckets[b].expired
    else
      && Total(GrantedOn(b), book.ledger) == 0
      && Total(UsedOn(b), book.ledger) == 0
      && Total(ExpiredOn(b), book.ledger) == 0
      && Total(DeductedOn(b), book.ledger) == 0
  }

  ghost predicate LedgersFit(book: Book) {
    forall b: nat :: LedgerFits(book, b)
  }

  /** The ledger trail of request `r` on bucket `b`: its net reservation while pending, its consumption once approved. */
  ghost predicate TrailFits(book: Book, b: nat, r: nat) {
    var net := Total(ReservedBy(b, r), book.ledger);
    var consumed := Total(ConsumedBy(b, r), book.ledger);
    if r >= |book.requests| then net == 0 && consumed == 0
    else if book.requests[r].status.Approved? then consumed == Share(book.allocs, r, b) && (net == consumed || net == 0)
    else net == Share(book.allocs, r, b) && consumed == 0
  }

  ghost predicate TrailsFit(book: Book) {
    forall b: nat, r: nat :: TrailFits(book, b, r)
  }

  ghost predicate Consistent(book: Book) {
    PeriodsMatch(book) && RowsFit(book) && SharesFit(book) && ColumnsFit(book) && LedgersFit(book) && TrailsFit(book)
  }

  lemma EmptyConsistent(hire: Date)
    ensures Consistent(EmptyBook(hire))
  {
  }

  // ---------------------------------------------------------------- accrual keeps it

  lemma GrantKeepsBucket(book: Book, asOf: Date, m: nat, b: nat)
    requires Consistent(book)
    ensures var after := GrantYears(book, asOf, m); LedgerFits(after, b) && (b < |after.buckets| ==> ColumnFits(after, b))
  {
    hide Entitlement, PeriodStart, PeriodEnd, ExpiresOn, Total, Flat, SharesUpTo;
    var after := GrantYears(book, asOf, m);
    TotalAfter(book.ledger, GrantBatches(book, asOf, m), b);
    assert LedgerFits(book, b);
    SharesSame(book, after, Pending, b, |book.requests|);
    SharesSame(book, after, Approved, b, |book.requests|);
    if b >= |book.buckets| {
      NoSharesNoSum(book, Pending, b, |book.requests|);
      NoSharesNoSum(book, Approved, b, |book.requests|);
    } else {
      assert ColumnFits(book, b);
    }
  }

  lemma GrantKeeps(book: Book, asOf: Date, m: nat)
    requires Consistent(book)
    ensures Consistent(GrantYears(book, asOf, m))
  {
    hide Entitlement, PeriodStart, PeriodEnd, ExpiresOn, Total, Flat, SharesUpTo, ShareTotal;
    var after := GrantYears(book, asOf, m);
    forall r: nat | r < |book.requests|
      ensures NoShares(after, r) || FullyShared(after, r)
    {
      assert NoShares(book, r) || FullyShared(book, r);
      ShareTotalExtends(book.allocs, r, |book.buckets|, |after.buckets|);
    }
    forall b: nat
      ensures LedgerFits(after, b) && (b < |after.buckets| ==> ColumnFits(after, b))
    {
      GrantKeepsBucket(book, asOf, m, b);
    }
    forall b: nat, r: nat
      ensures TrailFits(after, b, r)
    {
      assert TrailFits(book, b, r);
      TotalAfter(book.ledger, GrantBatches(book, asOf, m), b);
    }
  }

  /** Moving columns by entries of no request leaves every trail and every allocation alone. */
  lemma OthersKept(book: Book, after: Book, batches: seq<seq<Entry>>)
    requires Consistent(book)
    requires after == book.(buckets := after.buckets, ledger := book.ledger + Flat(batches, |batches|))
    requires |after.buckets| == |book.buckets| && PeriodsMatch(after)
    requires Single(batches) && forall i :: 0 <= i < |batches| && |batches[i]| == 1 ==> batches[i][0].request == None
    ensures RowsFit(after) && SharesFit(after) && TrailsFit(after)
  {
    hide Total, Flat, SharesUpTo, ShareTotal;
    forall r: nat | r < |book.requests|
      ensures NoShares(after, r) || FullyShared(after, r)
    {
      assert NoShares(book, r) || FullyShared(book, r);
    }
    forall b: nat, r: nat
      ensures TrailFits(after, b, r)
    {
      assert TrailFits(book, b, r);
      TotalAfter(book.ledger, batches, b);
    }
  }

  lemma LapsedBucket(book: Book, asOf: Date, b: nat)
    requires LedgerFits(book, b) && (b < |book.buckets| ==> ColumnFits(book, b))
    ensures var after := Lapse(book, asOf, |book.buckets|);
      LedgerFits(after, b) && (b < |after.buckets| ==> ColumnFits(after, b))
  {
    hide Total, Flat, SharesUpTo;
    var after := Lapse(book, asOf, |book.buckets|);
    TotalAfter(book.ledger, LapseBatches(book.buckets, asOf), b);
    SharesSame(book, after, Pending, b, |book.requests|);
    SharesSame(book, after, Approved, b, |book.requests|);
  }

  lemma LapseKeeps(book: Book, asOf: Date)
    requires Consistent(book)
    ensures Consistent(Lapse(book, asOf, |book.buckets|))
  {
    hide PeriodStart, PeriodEnd, ExpiresOn, LedgerFits, ColumnFits, TrailFits, Total, Flat, SharesUpTo, ShareTotal;
    var after := Lapse(book, asOf, |book.buckets|);
    OthersKept(book, after, LapseBatches(book.buckets, asOf));
    forall b: nat
      ensures LedgerFits(after, b) && (b < |after.buckets| ==> ColumnFits(after, b))
    {
      LapsedBucket(book, asOf, b);
    }
  }

  lemma AccrueKeeps(book: Book, asOf: Date)
    requires Consistent(book)
    ensures Consistent(Accrue(book, asOf))
  {
    hide Consistent, GrantYears, Lapse, CompletedYears;
    if book.hire <= asOf {
      GrantKeeps(book, asOf, CompletedYears(book.hire, asOf) + 1);
      LapseKeeps(GrantYears(book, asOf, CompletedYears(book.hire, asOf) + 1), asOf);
    }
  }

  // ---------------------------------------------------------------- charging keeps it

  lemma {:induction false} NewestIsLast(buckets: seq<Bucket>, n: nat)
    requires n <= |buckets|
    ensures forall i :: Newest(buckets, n) < i < n ==> buckets[i].status.Expired?
  {
    if n > 0 && buckets[n - 1].status.Expired? {
      NewestIsLast(buckets, n - 1);
    }
  }

  /** Draws of at least 0, and only from open buckets. */
  predicate DrawsOpen(buckets: seq<Bucket>, draws: seq<int>) {
    && |draws| == |buckets|
    && forall i :: 0 <= i < |draws| ==> draws[i] >= 0 && (draws[i] > 0 ==> buckets[i].status.Open?)
  }

  /** A request draws exactly its days, and only from open buckets; without any open bucket it draws nothing. */
  lemma DrawsTotal(buckets: seq<Bucket>, days: int)
    requires days > 0
    ensures var draws, k := Draws(buckets, days), Newest(buckets, |buckets|);
      && DrawsOpen(buckets, draws)
      && (k >= 0 ==> Sum(draws) == days)
      && (k < 0 ==> forall i :: 0 <= i < |draws| ==> draws[i] == 0)
  {
    var rooms, draws, k := Rooms(buckets), Draws(buckets, days), Newest(buckets, |buckets|);
    NewestIsLast(buckets, |buckets|);
    TakenPlusShort(rooms, days);
    if k >= 0 {
      SumToChangedAt(Takes(rooms, days), draws, |draws|, k);
    }
  }

  /** Recording draws sets the shares of `r` on the first `m` buckets and no others. */
  lemma {:induction false} SharesRecorded(allocs: map<(nat, nat), int>, r: nat, draws: seq<int>, m: nat)
    requires m <= |draws| && (forall b: nat :: (r, b) !in allocs)
    requires forall i :: 0 <= i < |draws| ==> draws[i] >= 0
    ensures var after := WithShares(allocs, r, draws, m);
      && (forall q: nat, b: nat :: q != r ==> ((q, b) in after <==> (q, b) in allocs) && Share(after, q, b) == Share(allocs, q, b))
      && (forall b: nat :: (r, b) in after <==> b < m && draws[b] > 0)
      && (forall b: nat :: Share(after, r, b) == if b < m then draws[b] else 0)
  {
    if m > 0 {
      SharesRecorded(allocs, r, draws, m - 1);
    }
  }

  lemma DrawnShares(book: Book, r: nat, draws: seq<int>, mode: Mode, q: nat)
    requires RowsFit(book) && DrawsOpen(book.buckets, draws) && q < |book.requests|
    requires r < |book.requests| && IsHolder(book.requests[r]) && NoShares(book, r)
    requires Sum(draws) == book.requests[r].days || forall i :: 0 <= i < |draws| ==> draws[i] == 0
    requires NoShares(book, q) || FullyShared(book, q)
    ensures var after := Drawn(book, r, draws, mode, |draws|); NoShares(after, q) || FullyShared(after, q)
  {
    hide WithShares, Flat, DrawBatches, ChargedBuckets;
    var after := Drawn(book, r, draws, mode, |draws|);
    SharesRecorded(book.allocs, r, draws, |draws|);
    if q != r {
      ShareTotalSame(book.allocs, after.allocs, q, |draws|);
    } else if Sum(draws) == book.requests[r].days {
      ShareTotalIsSum(after.allocs, r, draws, |draws|);
    }
  }

  lemma DrawnBucket(book: Book, r: nat, draws: seq<int>, b: nat)
    requires DrawsOpen(book.buckets, draws)
    requires LedgerFits(book, b) && (b < |book.buckets| ==> ColumnFits(book, b))
    requires r < |book.requests| && IsHolder(book.requests[r]) && NoShares(book, r)
    ensures var after := Drawn(book, r, draws, ModeOf(book.requests[r]), |draws|);
      LedgerFits(after, b) && (b < |after.buckets| ==> ColumnFits(after, b))
  {
    hide Total, Flat, SharesUpTo, WithShares;
    var mode := ModeOf(book.requests[r]);
    var after := Drawn(book, r, draws, mode, |draws|);
    TotalAfter(book.ledger, DrawBatches(r, draws, mode), b);
    if b < |book.buckets| {
      DrawnTerms(book, r, draws, mode, Pending, b);
      DrawnTerms(book, r, draws, mode, Approved, b);
    }
  }

  /** A draw adds to the allocation rows of its request's status only. */
  lemma DrawnTerms(book: Book, r: nat, draws: seq<int>, mode: Mode, status: RequestStatus, b: nat)
    requires DrawsOpen(book.buckets, draws) && b < |draws|
    requires r < |book.requests| && NoShares(book, r)
    ensures SharesOf(Drawn(book, r, draws, mode, |draws|), status, b)
         == SharesOf(book, status, b) + (if book.requests[r].status == status then draws[b] else 0)
  {
    hide WithShares, Flat, DrawBatches, ChargedBuckets, SharesUpTo;
    var after := Drawn(book, r, draws, mode, |draws|);
    SharesRecorded(book.allocs, r, draws, |draws|);
    SharesChanged(book, after, status, b, |book.requests|, r);
  }

  lemma DrawnTrail(book: Book, r: nat, draws: seq<int>, b: nat, p: nat)
    requires DrawsOpen(book.buckets, draws)
    requires TrailFits(book, b, p)
    requires r < |book.requests| && IsHolder(book.requests[r]) && NoShares(book, r)
    ensures TrailFits(Drawn(book, r, draws, ModeOf(book.requests[r]), |draws|), b, p)
  {
    hide Total, Flat, SharesUpTo, WithShares;
    TotalAfter(book.ledger, DrawBatches(r, draws, ModeOf(book.requests[r])), b);
    SharesRecorded(book.allocs, r, draws, |draws|);
  }

  lemma DrawnRowsFit(book: Book, r: nat, draws: seq<int>)
    requires PeriodsMatch(book) && RowsFit(book) && |draws| == |book.buckets| && r < |book.requests|
    ensures var after := Drawn(book, r, draws, ModeOf(book.requests[r]), |draws|);
      && PeriodsMatch(after) && RowsFit(after)
      && after.requests == book.requests && |after.buckets| == |book.buckets|
  {
    hide PeriodStart, PeriodEnd, ExpiresOn, Flat, DrawBatches, WithShares;
    SharesPositive(book.allocs, r, draws, |draws|);
  }

  lemma {:induction false} SharesPositive(allocs: map<(nat, nat), int>, r: nat, draws: seq<int>, m: nat)
    requires m <= |draws| && (forall k :: k in allocs ==> allocs[k] > 0)
    ensures var after := WithShares(allocs, r, draws, m);
      forall k :: k in after ==> after[k] > 0 && (k in allocs || (k.0 == r && k.1 < m))
  {
    if m > 0 {
      SharesPositive(allocs, r, draws, m - 1);
    }
  }

  lemma DrawnKeeps(book: Book, r: nat, draws: seq<int>)
    requires Consistent(book) && DrawsOpen(book.buckets, draws)
    requires r < |book.requests| && IsHolder(book.requests[r]) && NoShares(book, r)
    requires Sum(draws) == book.requests[r].days || forall i :: 0 <= i < |draws| ==> draws[i] == 0
    ensures Consistent(Drawn(book, r, draws, ModeOf(book.requests[r]), |draws|))
  {
    hide PeriodsMatch, RowsFit, NoShares, LedgerFits, ColumnFits, TrailFits, FullyShared, Drawn, Sum;
    DrawnRowsFit(book, r, draws);
    var mode := ModeOf(book.requests[r]);
    var after := Drawn(book, r, draws, mode, |draws|);
    forall p: nat | p < |book.requests|
      ensures NoShares(after, p) || FullyShared(after, p)
    {
      DrawnShares(book, r, draws, mode, p);
    }
    forall b: nat
      ensures LedgerFits(after, b) && (b < |after.buckets| ==> ColumnFits(after, b))
    {
      DrawnBucket(book, r, draws, b);
    }
    forall b: nat, p: nat
      ensures TrailFits(after, b, p)
    {
      DrawnTrail(book, r, draws, b, p);
    }
  }

  /** Charging a live request of a tracked type that holds no allocation yet. */
  lemma ChargeKeeps(book: Book, r: nat)
    requires Consistent(book)
    requires r < |book.requests| && IsHolder(book.requests[r]) && NoShares(book, r)
    ensures Consistent(Charge(book, r, book.requests[r].days, ModeOf(book.requests[r])))
  {
    hide PeriodsMatch, SharesFit, ColumnsFit, LedgersFit, TrailsFit, Draws;
    DrawsTotal(book.buckets, book.requests[r].days);
    DrawnKeeps(book, r, Draws(book.buckets, book.requests[r].days));
  }

  // ---------------------------------------------------------------- settling keeps it

  /** On an open bucket no pending request's share exceeds the pending column: the clamp to 0 never bites. */
  lemma ClampNeverBites(book: Book, r: nat, b: nat)
    requires RowsFit(book) && b < |book.buckets| && ColumnFits(book, b) && book.buckets[b].status.Open?
    requires r < |book.requests| && book.requests[r].status.Pending?
    ensures 0 <= Share(book.allocs, r, b) <= book.buckets[b].pending
  {
    SharesBound(book, Pending, b, |book.requests|);
    assert Term(book, Pending, b, r) <= SharesOf(book, Pending, b);
  }

  /** Bucket `b` after the rows of `r` were released. */
  lemma ReleasedRow(book: Book, r: nat, b: nat)
    ensures var after := Released(book, r);
      && after.ledger == book.ledger + Flat(ShareBatches(book, r, Release), |book.buckets|)
      && |after.buckets| == |book.buckets| == |ShareBatches(book, r, Release)| && after.requests == book.requests
    ensures b < |book.buckets| ==> var row := book.buckets[b];
      Released(book, r).buckets[b]
        == if (r, b) in book.allocs then row.(pending := Max0(row.pending - book.allocs[(r, b)])) else row
    ensures forall q: nat :: Share(Released(book, r).allocs, q, b) == if q == r then 0 else Share(book.allocs, q, b)
  {
    hide Flat;
  }

  lemma ReleasedBucket(book: Book, r: nat, b: nat)
    requires RowsFit(book) && LedgerFits(book, b) && (b < |book.buckets| ==> ColumnFits(book, b))
    requires r < |book.requests| && book.requests[r].status.Pending?
    ensures LedgerFits(Released(book, r), b) && (b < |book.buckets| ==> ColumnFits(Released(book, r), b))
  {
    hide Total, Flat, SharesUpTo, Released;
    var after := Released(book, r);
    ReleasedRow(book, r, b);
    TotalAfter(book.ledger, ShareBatches(book, r, Release), b);
    if b < |book.buckets| {
      SharesChanged(book, after, Pending, b, |book.requests|, r);
      SharesChanged(book, after, Approved, b, |book.requests|, r);
      if book.buckets[b].status.Open? {
        ClampNeverBites(book, r, b);
      }
    }
  }

  lemma ReleasedTrail(book: Book, r: nat, b: nat, q: nat)
    requires RowsFit(book) && TrailFits(book, b, q)
    requires r < |book.requests| && book.requests[r].status.Pending?
    ensures TrailFits(Released(book, r), b, q)
  {
    hide Total, Flat, Released;
    ReleasedRow(book, r, b);
    TotalAfter(book.ledger, ShareBatches(book, r, Release), b);
  }

  lemma ConsumedTrail(book: Book, r: nat, b: nat, q: nat)
    requires RowsFit(book) && TrailFits(book, b, q)
    requires r < |book.requests| && book.requests[r].status.Pending?
    ensures TrailFits(SetStatus(Consumed(book, r, |book.buckets|), r, Approved), b, q)
  {
    hide Total, Flat, Consumed;
    ConsumedRow(book, r, b);
    TotalAfter(book.ledger, ShareBatches(book, r, Consume), b);
  }

  lemma ReleasedShares(book: Book, r: nat, q: nat)
    requires q < |book.requests| && (NoShares(book, q) || FullyShared(book, q))
    ensures NoShares(Released(book, r), r)
    ensures NoShares(Released(book, r), q) || FullyShared(Released(book, r), q)
  {
    if q != r {
      ShareTotalSame(book.allocs, Released(book, r).allocs, q, |book.buckets|);
    }
  }

  /** Releasing a pending request takes all its allocation rows away. */
  lemma ReleaseKeeps(book: Book, r: nat)
    requires Consistent(book) && r < |book.requests| && book.requests[r].status.Pending?
    ensures Consistent(Released(book, r)) && NoShares(Released(book, r), r)
  {
    hide PeriodStart, PeriodEnd, ExpiresOn, LedgerFits, ColumnFits, TrailFits, FullyShared, Total, Flat, SharesUpTo, ShareTotal;
    var after := Released(book, r);
    forall q: nat | q < |book.requests|
      ensures NoShares(after, q) || FullyShared(after, q)
    {
      ReleasedShares(book, r, q);
    }
    forall b: nat
      ensures LedgerFits(after, b) && (b < |after.buckets| ==> ColumnFits(after, b))
    {
      ReleasedBucket(book, r, b);
    }
    forall b: nat, q: nat
      ensures TrailFits(after, b, q)
    {
      ReleasedTrail(book, r, b, q);
    }
  }

  /** Bucket `b` after the rows of `r` were consumed. */
  lemma ConsumedRow(book: Book, r: nat, b: nat)
    ensures var after := Consumed(book, r, |book.buckets|);
      && after.ledger == book.ledger + Flat(ShareBatches(book, r, Consume), |book.buckets|)
      && |after.buckets| == |book.buckets| == |ShareBatches(book, r, Consume)|
      && after.allocs == book.allocs && after.requests == book.requests
    ensures b < |book.buckets| ==> var row, days := book.buckets[b], Share(book.allocs, r, b);
      Consumed(book, r, |book.buckets|).buckets[b]
        == if (r, b) in book.allocs then row.(pending := Max0(row.pending - days), used := row.used + days) else row
  {
    hide Flat;
  }

  lemma ConsumedBucket(book: Book, r: nat, b: nat)
    requires RowsFit(book) && LedgerFits(book, b) && (b < |book.buckets| ==> ColumnFits(book, b))
    requires r < |book.requests| && book.requests[r].status.Pending?
    ensures var after := SetStatus(Consumed(book, r, |book.buckets|), r, Approved);
      LedgerFits(after, b) && (b < |book.buckets| ==> ColumnFits(after, b))
  {
    hide Total, Flat, SharesUpTo, Consumed;
    ConsumedRow(book, r, b);
    var after := SetStatus(Consumed(book, r, |book.buckets|), r, Approved);
    TotalAfter(book.ledger, ShareBatches(book, r, Consume), b);
    if b < |book.buckets| {
      SharesChanged(book, after, Pending, b, |book.requests|, r);
      SharesChanged(book, after, Approved, b, |book.requests|, r);
      if book.buckets[b].status.Open? {
        ClampNeverBites(book, r, b);
      }
    }
  }

  /** Consuming the allocation of a pending request and approving it. */
  lemma ConsumeKeeps(book: Book, r: nat)
    requires Consistent(book) && r < |book.requests| && book.requests[r].status.Pending?
    ensures Consistent(SetStatus(Consumed(book, r, |book.buckets|), r, Approved))
  {
    hide PeriodStart, PeriodEnd, ExpiresOn, LedgerFits, ColumnFits, TrailFits, Total, Flat, SharesUpTo, ShareTotal;
    var after := SetStatus(Consumed(book, r, |book.buckets|), r, Approved);
    forall q: nat | q < |book.requests|
      ensures NoShares(after, q) || FullyShared(after, q)
    {
      assert NoShares(book, q) || FullyShared(book, q);
    }
    forall b: nat
      ensures LedgerFits(after, b) && (b < |after.buckets| ==> ColumnFits(after, b))
    {
      ConsumedBucket(book, r, b);
    }
    forall b: nat, q: nat
      ensures TrailFits(after, b, q)
    {
      ConsumedTrail(book, r, b, q);
    }
  }

  /** A pending request without allocation rows may change its status. */
  lemma SetStatusKeeps(book: Book, r: nat, status: RequestStatus)
    requires Consistent(book) && r < |book.requests| && book.requests[r].status.Pending? && NoShares(book, r)
    ensures Consistent(SetStatus(book, r, status))
  {
    hide PeriodStart, PeriodEnd, ExpiresOn, LedgerFits, ColumnFits, Total, Flat, SharesUpTo, ShareTotal;
    var after := SetStatus(book, r, status);
    forall q: nat | q < |book.requests|
      ensures NoShares(after, q) || FullyShared(after, q)
    {
      assert NoShares(book, q) || FullyShared(book, q);
    }
    forall b: nat
      ensures LedgerFits(after, b) && (b < |after.buckets| ==> ColumnFits(after, b))
    {
      StatusBucket(book, r, status, b);
    }
    forall b: nat, q: nat
      ensures TrailFits(after, b, q)
    {
      assert TrailFits(book, b, q);
    }
  }

  lemma StatusBucket(book: Book, r: nat, status: RequestStatus, b: nat)
    requires LedgerFits(book, b) && (b < |book.buckets| ==> ColumnFits(book, b))
    requires r < |book.requests| && NoShares(book, r)
    ensures var after := SetStatus(book, r, status);
      LedgerFits(after, b) && (b < |after.buckets| ==> ColumnFits(after, b))
  {
    hide Total, Flat, SharesUpTo;
    if b < |book.buckets| {
      SharesChanged(book, SetStatus(book, r, status), Pending, b, |book.requests|, r);
      SharesChanged(book, SetStatus(book, r, status), Approved, b, |book.requests|, r);
    }
  }

  lemma SubmitKeeps(book: Book, q: Request)
    requires Consistent(book) && q.days > 0 && q.status.Pending?
    ensures Consistent(Submit(book, q)) && NoShares(Submit(book, q), |book.requests|)
  {
    hide PeriodStart, PeriodEnd, ExpiresOn, Total, Flat, SharesUpTo, ShareTotal;
    var after := Submit(book, q);
    forall p: nat | p < |after.requests|
      ensures NoShares(after, p) || FullyShared(after, p)
    {
      if p < |book.requests| {
        assert NoShares(book, p) || FullyShared(book, p);
      }
    }
    forall b: nat
      ensures LedgerFits(after, b) && (b < |after.buckets| ==> ColumnFits(after, b))
    {
      SubmittedBucket(book, q, b);
    }
    forall b: nat, p: nat
      ensures TrailFits(after, b, p)
    {
      assert TrailFits(book, b, p);
    }
  }

  lemma SubmittedBucket(book: Book, q: Request, b: nat)
    requires RowsFit(book) && LedgerFits(book, b) && (b < |book.buckets| ==> ColumnFits(book, b))
    ensures LedgerFits(Submit(book, q), b) && (b < |book.buckets| ==> ColumnFits(Submit(book, q), b))
  {
    hide Total;
    SharesSame(book, Submit(book, q), Pending, b, |book.requests|);
    SharesSame(book, Submit(book, q), Approved, b, |book.requests|);
  }

  // ---------------------------------------------------------------- adjusting keeps it

  lemma RaiseKeeps(book: Book, amount: int)
    requires Consistent(book) && amount > 0 && Newest(book.buckets, |book.buckets|) >= 0
    ensures Consistent(RaisedNewest(book, amount))
  {
    hide PeriodStart, PeriodEnd, ExpiresOn, Total, Flat, SharesUpTo, ShareTotal;
    var after := RaisedNewest(book, amount);
    var k := Newest(book.buckets, |book.buckets|);
    var e := Entry(k, None, Adjust, amount);
    forall m: Measure
      ensures Total(m, after.ledger) == Total(m, book.ledger) + Weight(m, e)
    {
      TotalAppend(m, book.ledger, [e]);
      TotalOne(m, e);
    }
    forall r: nat | r < |book.requests|
      ensures NoShares(after, r) || FullyShared(after, r)
    {
      assert NoShares(book, r) || FullyShared(book, r);
    }
    forall b: nat
      ensures LedgerFits(after, b) && (b < |after.buckets| ==> ColumnFits(after, b))
    {
      assert LedgerFits(book, b);
      SharesSame(book, after, Pending, b, |book.requests|);
      SharesSame(book, after, Approved, b, |book.requests|);
      if b < |book.buckets| {
        assert ColumnFits(book, b);
      }
    }
    forall b: nat, r: nat
      ensures TrailFits(after, b, r)
    {
      assert TrailFits(book, b, r);
    }
  }

  lemma DeductedBucket(book: Book, takes: seq<int>, b: nat)
    requires DrawsOpen(book.buckets, takes)
    requires LedgerFits(book, b) && (b < |book.buckets| ==> ColumnFits(book, b))
    ensures var after := DeductedTo(book, takes, |takes|);
      LedgerFits(after, b) && (b < |after.buckets| ==> ColumnFits(after, b))
  {
    hide Total, Flat, SharesUpTo;
    var after := DeductedTo(book, takes, |takes|);
    TotalAfter(book.ledger, DeductBatches(takes), b);
    SharesSame(book, after, Pending, b, |book.requests|);
    SharesSame(book, after, Approved, b, |book.requests|);
  }

  lemma TakesOpen(buckets: seq<Bucket>, need: int)
    ensures DrawsOpen(buckets, Takes(Rooms(buckets), need))
  {
  }

  lemma DeductKeeps(book: Book, need: int)
    requires Consistent(book) && need > 0
    ensures Consistent(Deducted(book, need))
  {
    hide PeriodStart, PeriodEnd, ExpiresOn, LedgerFits, ColumnFits, TrailFits, Total, Flat, SharesUpTo, ShareTotal;
    var after := Deducted(book, need);
    var takes := Takes(Rooms(book.buckets), need);
    TakesOpen(book.buckets, need);
    OthersKept(book, after, DeductBatches(takes));
    forall b: nat
      ensures LedgerFits(after, b) && (b < |after.buckets| ==> ColumnFits(after, b))
    {
      DeductedBucket(book, takes, b);
    }
  }
}
