/**
  * The leave records of one employee and what every leave operation does to them.
  *
  * A bucket is numbered by its place in the bucket table, a request by its place in the request table.
  * The functions state the effect of an operation on whole tables; the loops that bring it about row by
  * row are in module LeaveAccount.
  */
module LeaveBook {
  import opened Basics
  import opened Calendar
  import opened LeavePolicy
  import opened Fifo
  import opened DayFraction

  datatype BucketStatus = Open | Expired

  datatype Bucket = Bucket(
    periodStart: Date, periodEnd: Date, expiresOn: Date, serviceYears: nat,
    granted: int, used: int, pending: int, expired: int, status: BucketStatus)

  datatype EntryKind = Grant | TopUp | Reserve | Release | Consume | Expire | Adjust

  datatype Entry = Entry(bucket: nat, request: Option<nat>, kind: EntryKind, days: int)

  datatype RequestStatus = Pending | Approved | Rejected | Cancelled

  datatype Request = Request(
    tracked: bool, start: Date, end: Date, rows: seq<LeaveDay>, days: int, status: RequestStatus)

  /** `allocs[(r, b)]` is the allocation row of request `r` on bucket `b`. */
  datatype Book = Book(
    hire: Date, buckets: seq<Bucket>, allocs: map<(nat, nat), int>, ledger: seq<Entry>, requests: seq<Request>)

  datatype Failure =
    | InvalidLeaveType | InvalidLeaveRange | NoWorkingDays | LeaveAttendanceConflict | OverlappingLeave
    | InsufficientBalance | LeaveNotFound | LeaveAlreadyDecided | LeaveNotCancellable | RejectionReasonRequired
    | InvalidAdjustment | NoLeaveBucket

  datatype Reply = Reply(book: Book, failure: Option<Failure>)

  datatype Mode = Reserving | Consuming

  function EmptyBook(hire: Date): Book {
    Book(hire, [], map[], [], [])
  }

  // ---------------------------------------------------------------- buckets and rows

  function Remaining(b: Bucket): int {
    b.granted - b.used - b.pending - b.expired
  }

  /** Allocation of request `r` on bucket `b`, 0 without a row. */
  function Share(allocs: map<(nat, nat), int>, r: nat, b: nat): int {
    if (r, b) in allocs then allocs[(r, b)] else 0
  }

  /** What each bucket can still give to a request: nothing once it has expired. */
  function Rooms(buckets: seq<Bucket>): seq<int> {
    seq(|buckets|, i requires 0 <= i < |buckets| => if buckets[i].status.Open? then Remaining(buckets[i]) else 0)
  }

  function OpenCapacity(buckets: seq<Bucket>): int {
    Capacity(Rooms(buckets), |buckets|)
  }

  /** The newest open one of the first `n` buckets, or -1. */
  function Newest(buckets: seq<Bucket>, n: nat): (k: int)
    requires n <= |buckets|
    ensures -1 <= k < n
    ensures k >= 0 ==> buckets[k].status.Open?
  {
    if n == 0 then -1
    else if buckets[n - 1].status.Open? then n - 1
    else Newest(buckets, n - 1)
  }

  /** The first `n` batches of ledger entries, one batch per bucket. */
  function Flat(batches: seq<seq<Entry>>, n: nat): seq<Entry>
    requires n <= |batches|
  {
    if n == 0 then [] else Flat(batches, n - 1) + batches[n - 1]
  }

  /** One entry of `days` on bucket `b`, or none when there is nothing to record. */
  function EntryUnlessZero(b: nat, request: Option<nat>, kind: EntryKind, days: int): seq<Entry> {
    if days != 0 then [Entry(b, request, kind, days)] else []
  }

  // ---------------------------------------------------------------- accrual

  function FreshBucket(hire: Date, n: nat, asOf: Date): Bucket {
    Bucket(PeriodStart(hire, n), PeriodEnd(hire, n), ExpiresOn(PeriodStart(hire, n)), n,
           Entitlement(hire, n, asOf), 0, 0, 0, Open)
  }

  function ToppedUp(b: Bucket, hire: Date, n: nat, asOf: Date): Bucket {
    var granted := Entitlement(hire, n, asOf);
    if granted > b.granted
    then b.(granted := granted, periodEnd := PeriodEnd(hire, n), expiresOn := ExpiresOn(PeriodStart(hire, n)))
    else b
  }

  /** The buckets after the leave years before `m` were granted. */
  function GrantedBuckets(book: Book, asOf: Date, m: nat): seq<Bucket> {
    seq(Max(|book.buckets|, m), i requires 0 <= i < Max(|book.buckets|, m) =>
      if i >= |book.buckets| then FreshBucket(book.hire, i, asOf)
      else if i < m then ToppedUp(book.buckets[i], book.hire, i, asOf)
      else book.buckets[i])
  }

  function GrantBatches(book: Book, asOf: Date, m: nat): seq<seq<Entry>> {
    seq(m, i requires 0 <= i < m =>
      var granted := Entitlement(book.hire, i, asOf);
      if i >= |book.buckets| then [Entry(i, None, Grant, granted)]
      else EntryUnlessZero(i, None, TopUp, Max0(granted - book.buckets[i].granted)))
  }

  /** Leave years before `m` granted: missing buckets created, grown entitlements topped up. */
  function GrantYears(book: Book, asOf: Date, m: nat): Book {
    book.(buckets := GrantedBuckets(book, asOf, m), ledger := book.ledger + Flat(GrantBatches(book, asOf, m), m))
  }

  predicate Lapses(b: Bucket, asOf: Date) {
    b.status.Open? && b.expiresOn <= asOf
  }

  function Lapsed(b: Bucket, asOf: Date): Bucket {
    if Lapses(b, asOf) then b.(status := Expired, expired := b.expired + Max0(Remaining(b)), pending := 0) else b
  }

  function LapsedBuckets(buckets: seq<Bucket>, asOf: Date, m: nat): seq<Bucket> {
    seq(|buckets|, i requires 0 <= i < |buckets| => if i < m then Lapsed(buckets[i], asOf) else buckets[i])
  }

  function LapseBatches(buckets: seq<Bucket>, asOf: Date): seq<seq<Entry>> {
    seq(|buckets|, i requires 0 <= i < |buckets| =>
      if Lapses(buckets[i], asOf) then EntryUnlessZero(i, None, Expire, Max0(Remaining(buckets[i]))) else [])
  }

  /** The first `m` buckets expired where their time has come. */
  function Lapse(book: Book, asOf: Date, m: nat): Book
    requires m <= |book.buckets|
  {
    book.(buckets := LapsedBuckets(book.buckets, asOf, m),
          ledger := book.ledger + Flat(LapseBatches(book.buckets, asOf), m))
  }

  /** `ensureAccrual`. */
  function Accrue(book: Book, asOf: Date): Book {
    if asOf < book.hire then book
    else
      var granted := GrantYears(book, asOf, CompletedYears(book.hire, asOf) + 1);
      Lapse(granted, asOf, |granted.buckets|)
  }

  // ---------------------------------------------------------------- reservation, consumption, release

  /** Days drawn from each bucket: oldest first, and any shortfall from the newest open bucket. */
  function Draws(buckets: seq<Bucket>, days: int): (draws: seq<int>)
    ensures |draws| == |buckets|
  {
    seq(|buckets|, i requires 0 <= i < |buckets| =>
      Take(Rooms(buckets), days, i) + (if i == Newest(buckets, |buckets|) then Shortfall(Rooms(buckets), days) else 0))
  }

  function ChargedBucket(b: Bucket, days: int, mode: Mode): Bucket {
    match mode
    case Reserving => b.(pending := b.pending + days)
    case Consuming => b.(used := b.used + days)
  }

  function ChargedBuckets(buckets: seq<Bucket>, draws: seq<int>, mode: Mode, m: nat): (charged: seq<Bucket>)
    requires |draws| == |buckets|
    ensures |charged| == |buckets|
  {
    seq(|buckets|, i requires 0 <= i < |buckets| =>
      if i < m && draws[i] > 0 then ChargedBucket(buckets[i], draws[i], mode) else buckets[i])
  }

  /** The allocation rows after the first `m` draws of request `r` were recorded. */
  function WithShares(allocs: map<(nat, nat), int>, r: nat, draws: seq<int>, m: nat): map<(nat, nat), int>
    requires m <= |draws|
  {
    if m == 0 then allocs
    else
      var before := WithShares(allocs, r, draws, m - 1);
      if draws[m - 1] > 0 then before[(r, m - 1) := draws[m - 1]] else before
  }

  function DrawBatches(r: nat, draws: seq<int>, mode: Mode): seq<seq<Entry>> {
    seq(|draws|, i requires 0 <= i < |draws| =>
      if draws[i] > 0 then [Entry(i, Some(r), if mode.Reserving? then Reserve else Consume, draws[i])] else [])
  }

  /** The effect of drawing `draws` for request `r` on the first `m` buckets. */
  function Drawn(book: Book, r: nat, draws: seq<int>, mode: Mode, m: nat): Book
    requires |draws| == |book.buckets| && m <= |draws|
  {
    book.(buckets := ChargedBuckets(book.buckets, draws, mode, m),
          allocs := WithShares(book.allocs, r, draws, m),
          ledger := book.ledger + Flat(DrawBatches(r, draws, mode), m))
  }

  /** `applyToBuckets` when it does not fail. */
  function Charge(book: Book, r: nat, days: int, mode: Mode): Book {
    Drawn(book, r, Draws(book.buckets, days), mode, |book.buckets|)
  }

  predicate HasShares(book: Book, r: nat) {
    exists b: nat :: b < |book.buckets| && (r, b) in book.allocs
  }

  function Consumed(book: Book, r: nat, m: nat): Book
    requires m <= |book.buckets|
  {
    book.(buckets := seq(|book.buckets|, i requires 0 <= i < |book.buckets| =>
            var b := book.buckets[i];
            if i < m && (r, i) in book.allocs
            then b.(pending := Max0(b.pending - book.allocs[(r, i)]), used := b.used + book.allocs[(r, i)])
            else b),
          ledger := book.ledger + Flat(ShareBatches(book, r, Consume), m))
  }

  function ShareBatches(book: Book, r: nat, kind: EntryKind): seq<seq<Entry>> {
    seq(|book.buckets|, i requires 0 <= i < |book.buckets| =>
      if (r, i) in book.allocs then [Entry(i, Some(r), kind, book.allocs[(r, i)])] else [])
  }

  /** `consumeReserved`. */
  function ConsumeReserved(book: Book, r: nat, today: Date): Book
    requires r < |book.requests|
  {
    if HasShares(book, r) then Consumed(book, r, |book.buckets|)
    else Charge(Accrue(book, today), r, book.requests[r].days, Consuming)
  }

  function ReleasedTo(book: Book, r: nat, m: nat): Book
    requires m <= |book.buckets|
  {
    book.(buckets := seq(|book.buckets|, i requires 0 <= i < |book.buckets| =>
            var b := book.buckets[i];
            if i < m && (r, i) in book.allocs then b.(pending := Max0(b.pending - book.allocs[(r, i)])) else b),
          ledger := book.ledger + Flat(ShareBatches(book, r, Release), m))
  }

  /** `release` in mode "pending". */
  function Released(book: Book, r: nat): Book {
    ReleasedTo(book, r, |book.buckets|).(allocs := map k | k in book.allocs && k.0 != r :: book.allocs[k])
  }

  // ---------------------------------------------------------------- adjustment

  function RaisedNewest(book: Book, amount: int): Book
    requires Newest(book.buckets, |book.buckets|) >= 0
  {
    var k := Newest(book.buckets, |book.buckets|);
    book.(buckets := book.buckets[k := book.buckets[k].(granted := book.buckets[k].granted + amount)],
          ledger := book.ledger + [Entry(k, None, Adjust, amount)])
  }

  function DeductBatches(takes: seq<int>): seq<seq<Entry>> {
    seq(|takes|, i requires 0 <= i < |takes| => EntryUnlessZero(i, None, Adjust, -takes[i]))
  }

  function DeductedTo(book: Book, takes: seq<int>, m: nat): Book
    requires |takes| == |book.buckets| && m <= |takes|
  {
    book.(buckets := ChargedBuckets(book.buckets, takes, Consuming, m),
          ledger := book.ledger + Flat(DeductBatches(takes), m))
  }

  function Deducted(book: Book, need: int): Book {
    DeductedTo(book, Takes(Rooms(book.buckets), need), |book.buckets|)
  }

  /** `adjust`: a failed adjustment rolls its accrual back. */
  function AdjustBalance(book: Book, today: Date, amount: int): Reply {
    var accrued := Accrue(book, today);
    if amount == 0 then Reply(book, Some(InvalidAdjustment))
    else if amount > 0 then
      if Newest(accrued.buckets, |accrued.buckets|) < 0 then Reply(book, Some(NoLeaveBucket))
      else Reply(Accrue(RaisedNewest(accrued, amount), today), None)
    else if -amount > OpenCapacity(accrued.buckets) then Reply(book, Some(InsufficientBalance))
    else Reply(Accrue(Deducted(accrued, -amount), today), None)
  }

  // ---------------------------------------------------------------- usage of requests without allocations

  predicate IsActive(q: Request) {
    q.status.Pending? || q.status.Approved?
  }

  /** Requests that must hold an allocation. */
  predicate IsHolder(q: Request) {
    q.tracked && IsActive(q)
  }

  predicate Within(work: seq<nat>, n: nat) {
    forall i :: 0 <= i < |work| ==> work[i] < n
  }

  /** Puts request `r` behind the requests of `work` that start no later. */
  function Enqueue(requests: seq<Request>, work: seq<nat>, r: nat): (queue: seq<nat>)
    requires r < |requests| && Within(work, |requests|)
    ensures multiset(queue) == multiset(work) + multiset{r}
  {
    if work == [] || requests[work[|work| - 1]].start <= requests[r].start then work + [r]
    else
      assert work == work[..|work| - 1] + [work[|work| - 1]];
      Enqueue(requests, work[..|work| - 1], r) + [work[|work| - 1]]
  }

  /** The holders among the first `n` requests, by start date and then by the order of the requests. */
  function Worklist(requests: seq<Request>, n: nat): (work: seq<nat>)
    requires n <= |requests|
    ensures Within(work, n)
  {
    if n == 0 then []
    else if !IsHolder(requests[n - 1]) then Worklist(requests, n - 1)
    else
      var queue := Enqueue(requests, Worklist(requests, n - 1), n - 1);
      assert forall i :: 0 <= i < |queue| ==> queue[i] in multiset(queue);
      queue
  }

  function HoldersOf(allocs: map<(nat, nat), int>): set<nat> {
    set k | k in allocs :: k.0
  }

  function ModeOf(q: Request): Mode {
    if q.status.Approved? then Consuming else Reserving
  }

  /** The first `n` requests of `work` charged to the buckets, except those that were done before. */
  function Synced(book: Book, done: set<nat>, work: seq<nat>, n: nat): (b: Book)
    requires n <= |work| && Within(work, |book.requests|)
    ensures b.requests == book.requests && b.hire == book.hire && |b.buckets| == |book.buckets|
  {
    if n == 0 then book
    else
      var b, r := Synced(book, done, work, n - 1), work[n - 1];
      if r in done then b else Charge(b, r, b.requests[r].days, ModeOf(b.requests[r]))
  }

  /** `syncUsageFromRequests`. */
  function SyncUsage(book: Book): Book {
    var work := Worklist(book.requests, |book.requests|);
    Synced(book, HoldersOf(book.allocs), work, |work|)
  }

  /** `balanceForEmployee`. */
  function Balance(book: Book, today: Date): Book {
    Accrue(SyncUsage(Accrue(book, today)), today)
  }

  /** `rebuild`, after the hire date was set to `hire`. */
  function Rebuild(book: Book, hire: Date, today: Date): Book {
    SyncUsage(Accrue(Book(hire, [], map[], [], book.requests), today))
  }

  // ---------------------------------------------------------------- requests

  predicate RangesOverlap(q: Request, start: Date, end: Date) {
    q.start <= end && start <= q.end
  }

  /** Whether request `q` occupies `session` of `date`; a request without rows occupies its whole range. */
  predicate Occupies(q: Request, date: Date, session: Session) {
    if q.rows == [] then q.start <= date <= q.end && session.Full?
    else exists i :: 0 <= i < |q.rows| && q.rows[i].date == date && q.rows[i].session == session
  }

  /** Whether some planned row conflicts with an active request that overlaps the planned range. */
  ghost predicate Overlaps(requests: seq<Request>, rows: seq<LeaveDay>) {
    |rows| > 0 && exists r, i, session ::
      0 <= r < |requests| && IsActive(requests[r]) && RangesOverlap(requests[r], rows[0].date, rows[|rows| - 1].date)
      && 0 <= i < |rows| && Occupies(requests[r], rows[i].date, session) && SessionsConflict(session, rows[i].session)
  }

  function SetStatus(book: Book, r: nat, status: RequestStatus): Book
    requires r < |book.requests|
  {
    book.(requests := book.requests[r := book.requests[r].(status := status)])
  }

  function Submit(book: Book, q: Request): Book {
    book.(requests := book.requests + [q])
  }

  datatype LeaveInput = LeaveInput(
    active: bool, tracked: bool, start: Date, end: Date, schedule: Schedule, picks: seq<Pick>)

  function PlannedRows(input: LeaveInput): seq<LeaveDay> {
    WithSessions(WorkingDays(input.schedule, input.start, input.end), input.picks)
  }

  predicate AttendedWithin(attended: set<Date>, start: Date, end: Date) {
    exists d :: d in attended && start <= d <= end
  }

  /** `leaveService.create`: `attended` are the employee's dates with a timesheet. */
  ghost function CreateLeave(book: Book, input: LeaveInput, attended: set<Date>, today: Date): Reply {
    var rows := PlannedRows(input);
    var days := SumLeaveDayFractions(rows);
    if !input.active then Reply(book, Some(InvalidLeaveType))
    else if input.end < input.start then Reply(book, Some(InvalidLeaveRange))
    else if days <= 0 then Reply(book, Some(NoWorkingDays))
    else if AttendedWithin(attended, input.start, input.end) then Reply(book, Some(LeaveAttendanceConflict))
    else if Overlaps(book.requests, rows) then Reply(book, Some(OverlappingLeave))
    else
      var submitted := Submit(book, Request(input.tracked, input.start, input.end, rows, days, Pending));
      if !input.tracked then Reply(submitted, None)
      else
        var accrued := Accrue(submitted, today);
        if days > OpenCapacity(accrued.buckets) then Reply(book, Some(InsufficientBalance))
        else Reply(Charge(accrued, |book.requests|, days, Reserving), None)
  }

  /** `leaveService.decide`: reading the request brings the balance up to date first. */
  function DecideLeave(book: Book, r: nat, approve: bool, hasReason: bool, attended: set<Date>, today: Date): Reply {
    if r >= |book.requests| then Reply(book, Some(LeaveNotFound))
    else
      var read := Balance(book, today);
      var q := book.requests[r];
      if !q.status.Pending? then Reply(read, Some(LeaveAlreadyDecided))
      else if !approve && !hasReason then Reply(read, Some(RejectionReasonRequired))
      else if approve && AttendedWithin(attended, q.start, q.end) then Reply(read, Some(LeaveAttendanceConflict))
      else
        var settled := if !q.tracked then read else if approve then ConsumeReserved(read, r, today) else Released(read, r);
        Reply(SetStatus(settled, r, if approve then Approved else Rejected), None)
  }

  /** `leaveService.cancel`. */
  function CancelLeave(book: Book, r: nat): Reply {
    if r >= |book.requests| then Reply(book, Some(LeaveNotFound))
    else if !book.requests[r].status.Pending? then Reply(book, Some(LeaveNotCancellable))
    else
      var settled := if book.requests[r].tracked then Released(book, r) else book;
      Reply(SetStatus(settled, r, Cancelled), None)
  }

  /** `adminAdjustBalance`: the balance is read, and so brought up to date, before it is adjusted. */
  function AdminAdjust(book: Book, today: Date, amount: int): Reply {
    AdjustBalance(Balance(book, today), today, amount)
  }
}
