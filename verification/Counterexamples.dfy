/** Inputs and runs on which properties one might expect fail, each on the failing side of its exact condition. */
module Counterexamples {
  import opened Basics
  import opened Calendar
  import opened LeavePolicy
  import opened Fifo
  import opened DayFraction
  import opened LeaveBook
  import opened LeaveInvariant
  import opened LeaveRuns
  import opened LeaveBudget
  import opened RebuildLaws
  import opened LeaveBacking
  import opened AccrualLaws
  import Csv
  import DayCharges
  import Roster
  import Supervisors
  import AE = AttendanceEffects
  import T = Timesheets
  import TL = TimesheetLaws
  import W = Workforce

  // ---------------------------------------------------------------- the calendar

  /** The leap day of 1972. */
  lemma LeapDay()
    ensures IsCivil(Civil(1972, 2, 29)) && !IsLeap(1973) && IsLeap(1976)
    ensures CivilOf(DayNumber(Civil(1972, 2, 29))) == Civil(1972, 2, 29) && YearOf(DayNumber(Civil(1972, 2, 29))) == 1972
  {
    hide YearOf, CivilOf, DayNumber;
    DayNumberRoundTrip(Civil(1972, 2, 29));
    CivilYear(DayNumber(Civil(1972, 2, 29)));
  }

  lemma EveOfLeapDay(hire: Date)
    requires CivilOf(hire) == Civil(1972, 2, 29) && YearOf(hire) == 1972 && !IsLeap(1973) && IsLeap(1976)
    ensures LapsesOnEve(hire, 1)
  {
    hide YearOf, CivilOf, IsLeap;
  }

  /** Hired on 29 February 1972, leave of the year that started on 28 February 1973 lapses a day before 29 February 1976. */
  lemma LeapDayHireLapsesEarly()
    ensures IsCivil(Civil(1972, 2, 29))
    ensures var hire := DayNumber(Civil(1972, 2, 29));
      LapsesOnEve(hire, 1) && ExpiresOn(PeriodStart(hire, 1)) == PeriodStart(hire, 4) - 1
  {
    hide YearOf, CivilOf, IsCivil, IsLeap, DayNumber, LapsesOnEve, ExpiresOn, PeriodStart;
    LeapDay();
    var hire := DayNumber(Civil(1972, 2, 29));
    EveOfLeapDay(hire);
    ExpiryVersusAnniversary(hire, 1);
  }

  // ---------------------------------------------------------------- a first leave year

  /** Hired on 1 January 1970: the first leave year is the current one up to the 52nd day. */
  lemma FirstYear(t: Date)
    requires 0 <= t <= 52
    ensures CompletedYears(0, t) == 0
  {
    hide YearOf, AddYears;
    YearOfIff(0, 1970);
    YearOfIff(t, 1970);
    AddZeroYears(0);
  }

  /** 26 days of service are one month and grant 1.33 days, 52 are two and grant 2.67. */
  lemma FirstMonths(t: Date)
    requires 0 <= t <= 52
    ensures Entitlement(0, 0, t) == if t < 26 then 0 else if t < 52 then 133 else 267
  {
    hide YearOf, AddYears, PeriodEnd;
    FirstYear(t);
    FirstYearTestsAgree(0, t);
  }

  /** After 26 days 1.33 days of leave are available. */
  lemma OneMonth(requests: seq<Request>)
    ensures var book := BareYears(0, requests, 26);
      |book.buckets| == 1 && book.buckets[0].status.Open? && book.buckets[0].granted == 133
      && Remaining(book.buckets[0]) == 133 && Available(book) == 133
  {
    hide Entitlement, PeriodStart, PeriodEnd, ExpiresOn, CompletedYears;
    FirstYear(26);
    FirstMonths(26);
    BareYearsMeaning(0, requests, 26);
    var buckets := BareYears(0, requests, 26).buckets;
    assert OpenRemaining(buckets, 1) == OpenRemaining(buckets, 0) + Remaining(buckets[0]);
  }

  /** An adjustment of one day after 26 days of service is gone after 52: the top-up absorbs it. */
  lemma FirstYearRaiseAbsorbed()
    ensures var now := Accrue(EmptyBook(0), 26);
      Newest(now.buckets, |now.buckets|) == 0 && GrantedAt(RaisedNewest(now, 100), 0, 52) == GrantedAt(now, 0, 52)
  {
    hide Accrue, Entitlement, CompletedYears;
    var now := Accrue(EmptyBook(0), 26);
    FirstYear(26);
    FirstMonths(52);
    EmptyConsistent(0);
    EmptyNotAhead(0, 26);
    ConsistentMatches(EmptyBook(0));
    OneMonth([]);
    assert BareYears(0, [], 26) == now;
    RaiseKeptIff(EmptyBook(0), 100, 26, 52);
  }

  // ---------------------------------------------------------------- one day of leave

  /** A schedule with one working day a week. */
  function OnlyOn(weekday: int): Schedule {
    Schedule([weekday], None, None, [])
  }

  lemma OnlyOnCosts(weekday: int, w: int)
    ensures LeaveFraction(OnlyOn(weekday), w) == if w == weekday then 100 else 0
  {
    assert Longest(OnlyOn(weekday), 1) == Max(Longest(OnlyOn(weekday), 0), MinutesAt(OnlyOn(weekday), weekday));
    FractionAtMostOne(OnlyOn(weekday), w);
  }

  /** A request for `session` of one day, and the row planned for it. */
  function OneDay(tracked: bool, date: Date, session: Session): LeaveInput {
    LeaveInput(true, tracked, date, date, OnlyOn(Weekday(date)), [Pick(date, session)])
  }

  function RowOn(date: Date, session: Session): LeaveDay {
    LeaveDay(date, session, if session.Full? then 100 else 50)
  }

  lemma OneDayRow(tracked: bool, date: Date, session: Session)
    ensures PlannedRows(OneDay(tracked, date, session)) == [RowOn(date, session)]
    ensures SumLeaveDayFractions(PlannedRows(OneDay(tracked, date, session))) == RowOn(date, session).fraction
  {
    hide LeaveFraction, Weekday;
    var schedule, picks := OnlyOn(Weekday(date)), [Pick(date, session)];
    OnlyOnCosts(Weekday(date), Weekday(date));
    assert WorkingDays(schedule, date, date - 1) == [];
    assert WorkingDays(schedule, date, date) == [LeaveDay(date, Full, 100)];
    assert PickedSession(picks, date, 1) == session;
    assert WithSessions([LeaveDay(date, Full, 100)], picks) == [RowOn(date, session)];
    assert FractionSum([RowOn(date, session)], 1) == FractionSum([RowOn(date, session)], 0) + RowOn(date, session).fraction;
  }

  function OneDayRequest(tracked: bool, date: Date, session: Session, status: RequestStatus): Request {
    Request(tracked, date, date, [RowOn(date, session)], RowOn(date, session).fraction, status)
  }

  // ---------------------------------------------------------------- one day reserved

  const RESERVED := OneDayRequest(true, 30, Full, Pending)

  /** A day of leave is requested after 26 days of service. */
  function Reserving(): LeaveOp {
    Create(OneDay(true, 30, Full), {}, 26)
  }

  lemma RunOne(book: Book, op: LeaveOp)
    ensures Run(book, [op]) == Perform(book, op).book
  {
    hide Perform;
    assert [op][..0] == [];
    assert Run(book, []) == book;
  }

  lemma RunAlso(book: Book, ops: seq<LeaveOp>, op: LeaveOp)
    ensures Run(book, ops + [op]) == Perform(Run(book, ops), op).book
  {
    hide Perform;
    assert (ops + [op])[..|ops|] == ops;
  }

  lemma ReservedCreated()
    ensures var reply := CreateLeave(EmptyBook(0), OneDay(true, 30, Full), {}, 26);
      reply.failure.None? && reply.book == Charge(Submit(BareYears(0, [], 26), RESERVED), 0, 100, LeaveBook.Reserving)
  {
    hide Accrue, Charge, PlannedRows, SumLeaveDayFractions, Overlaps, OpenRemaining, Remaining, OpenCapacity;
    OneDayRow(true, 30, Full);
    NoRequestNoOverlap(PlannedRows(OneDay(true, 30, Full)));
    EmptyWithin(0);
    OneMonth([]);
    assert BareYears(0, [], 26) == Accrue(EmptyBook(0), 26);
    CreateWithinBudget(EmptyBook(0), OneDay(true, 30, Full), {}, 26);
    AccrueOfSubmit(EmptyBook(0), RESERVED, 26);
  }

  lemma NoRequestNoOverlap(rows: seq<LeaveDay>)
    ensures !Overlaps([], rows)
  {
  }

  /** The state after the request: one pending request that holds its whole day of the first leave year. */
  lemma ReservedState()
    ensures var book := Run(EmptyBook(0), [Reserving()]);
      && InBudget(book) && book.hire == 0 && book.requests == [RESERVED]
      && |book.buckets| == 1 && Share(book.allocs, 0, 0) == 100
  {
    hide Consistent, NoOverspend, Backed, Accrue, Charge, CreateLeave, BareYears;
    var book := Run(EmptyBook(0), [Reserving()]);
    RunOne(EmptyBook(0), Reserving());
    ReservedCreated();
    EmptyWithin(0);
    CreateWithin(EmptyBook(0), OneDay(true, 30, Full), {}, 26);
    CreateBacked(EmptyBook(0), OneDay(true, 30, Full), {}, 26);
    OneMonth([]);
    BareTables();
    var submitted := Submit(BareYears(0, [], 26), RESERVED);
    ChargeTables(submitted, 0, 100, LeaveBook.Reserving);
    DayCharges.ChargeRequests(submitted, 0, 100, LeaveBook.Reserving);
    ChargeHire(submitted, 0, 100);
    HeldShare(book);
  }

  lemma BareTables()
    ensures BareYears(0, [], 26).hire == 0 && BareYears(0, [], 26).requests == []
  {
    hide Accrue;
    AccrueKeepsTables(EmptyBook(0), 26);
  }

  lemma ChargeHire(book: Book, r: nat, days: int)
    ensures Charge(book, r, days, LeaveBook.Reserving).hire == book.hire
  {
  }

  lemma HeldShare(book: Book)
    requires InBudget(book) && book.requests == [RESERVED] && |book.buckets| == 1
    ensures Share(book.allocs, 0, 0) == 100
  {
    hide Consistent, Backed, NoOverspend;
    assert ShareTotal(book.allocs, 0, 1) == ShareTotal(book.allocs, 0, 0) + Share(book.allocs, 0, 0);
    BackedSums(book, 0);
  }

  lemma RebuiltRun(hire: Date)
    ensures Run(EmptyBook(0), [Reserving(), RebuildFrom(hire, 26)]) == Rebuild(Run(EmptyBook(0), [Reserving()]), hire, 26)
  {
    hide Run, Rebuild;
    RunAlso(EmptyBook(0), [Reserving()], RebuildFrom(hire, 26));
    assert [Reserving()] + [RebuildFrom(hire, 26)] == [Reserving(), RebuildFrom(hire, 26)];
  }

  /** The hire date is moved to the future: the pending request holds nothing any more. */
  lemma RebuildUnbacks()
    ensures !Backed(Run(EmptyBook(0), [Reserving(), RebuildFrom(27, 26)]))
  {
    hide Run, Rebuild, Consistent, Backed, NoOverspend;
    var book := Run(EmptyBook(0), [Reserving()]);
    ReservedState();
    RebuiltRun(27);
    RebuildBacksIff(book, 27, 26);
    assert IsHolder(book.requests[0]);
  }

  /** The hire date is moved to a week before: the pending day exceeds what is granted by then. */
  lemma RebuildOverspends()
    ensures var book := Run(EmptyBook(0), [Reserving(), RebuildFrom(20, 26)]);
      Backed(book) && !NoOverspend(book)
  {
    hide Run, Rebuild, Consistent, Backed, NoOverspend, HolderDays, OpenCapacity, BareYears;
    var book := Run(EmptyBook(0), [Reserving()]);
    ReservedState();
    RebuiltRun(20);
    RebuildKeeps(book, 20, 26);
    RebuildBacksIff(book, 20, 26);
    RebuildWithinIff(book, 20, 26);
    ReservedDays();
    NothingGranted();
  }

  /** On the day of hire nothing is granted. */
  lemma HireDayGrantsNothing()
    ensures CompletedYears(27, 27) == 0 && Entitlement(27, 0, 27) == 0
  {
    hide YearOf, AddYears, PeriodEnd;
    AddZeroYears(27);
    FirstYearTestsAgree(27, 27);
  }

  lemma HireDayFresh()
    ensures Remaining(Lapsed(FreshBucket(27, 0, 27), 27)) <= 0
  {
    hide CompletedYears, Entitlement, PeriodStart, PeriodEnd, ExpiresOn;
    HireDayGrantsNothing();
  }

  lemma HireDayNoRoom()
    ensures var bare := BareYears(27, [RESERVED], 27);
      OpenCapacity(bare.buckets) == 0 && bare.requests == [RESERVED] && bare.allocs == map[]
  {
    hide CompletedYears, Entitlement, PeriodStart, PeriodEnd, ExpiresOn, BareYears, OpenCapacity, Remaining, Lapsed, FreshBucket;
    HireDayGrantsNothing();
    BareYearsMeaning(27, [RESERVED], 27);
    HireDayFresh();
    OneBucketRoom(BareYears(27, [RESERVED], 27).buckets);
  }

  /** After the rebuild to the hire date to come there is nothing but the request. */
  lemma RebuiltToCome()
    ensures var book := Run(EmptyBook(0), [Reserving(), RebuildFrom(27, 26)]);
      book == Book(27, [], map[], [], [RESERVED]) && Solvent(book)
  {
    hide Run, Rebuild, Consistent, Backed, SyncUsage;
    var before := Run(EmptyBook(0), [Reserving()]);
    ReservedState();
    RebuiltRun(27);
    RebuildIsSync(before, 27, 26);
    BareSolvent(before, 27, 26);
    assert BareYears(27, [RESERVED], 26) == Book(27, [], map[], [], [RESERVED]);
    SyncNothing(BareYears(27, [RESERVED], 26));
  }

  /** Once that date has come, reading the balance charges the request to a year that has granted nothing. */
  lemma ReadOverspends()
    ensures var ops := [Reserving(), RebuildFrom(27, 26)];
      Solvent(Run(EmptyBook(0), ops)) && !NoOverspend(Run(EmptyBook(0), ops + [ReadBalance(27)]))
  {
    hide Run, Consistent, NoOverspend, Balance, SyncUsage, SomeOpen, OpenCapacity, HolderDays, Accrue;
    var ops := [Reserving(), RebuildFrom(27, 26)];
    var before := Run(EmptyBook(0), ops);
    RebuiltToCome();
    RunAlso(EmptyBook(0), ops, ReadBalance(27));
    var accrued := Accrue(before, 27);
    assert accrued == BareYears(27, [RESERVED], 27);
    HireDayNoRoom();
    BareOpenIff(27, [RESERVED], 27);
    NoRowsUnbacked(accrued);
    ReservedDays();
    ReadSolventIff(before, 27);
    BalanceKeeps(before, 27);
  }

  lemma ReservedDays()
    ensures HolderDays([RESERVED], {}, 1) == 100
  {
    assert HolderDays([RESERVED], {}, 0) == 0;
  }

  /** In the first 26 days of service nothing is granted. */
  lemma SixDaysGrantNothing()
    ensures CompletedYears(20, 26) == 0 && Entitlement(20, 0, 26) == 0
  {
    hide YearOf, AddYears, PeriodEnd;
    YearOfIff(20, 1970);
    YearOfIff(26, 1970);
    AddZeroYears(20);
    FirstYearTestsAgree(20, 26);
  }

  lemma OneBucketRoom(buckets: seq<Bucket>)
    requires |buckets| == 1
    ensures OpenCapacity(buckets) == if buckets[0].status.Open? then Max0(Remaining(buckets[0])) else 0
  {
    hide Remaining;
    assert Capacity(Rooms(buckets), 1) == Capacity(Rooms(buckets), 0) + Max0(Rooms(buckets)[0]);
  }

  lemma NothingFresh()
    ensures Remaining(Lapsed(FreshBucket(20, 0, 26), 26)) <= 0
  {
    hide CompletedYears, Entitlement, PeriodStart, PeriodEnd, ExpiresOn;
    SixDaysGrantNothing();
  }

  lemma NothingGranted()
    ensures OpenCapacity(BareYears(20, [RESERVED], 26).buckets) == 0
  {
    hide CompletedYears, Entitlement, PeriodStart, PeriodEnd, ExpiresOn, BareYears, OpenCapacity, Remaining, Lapsed, FreshBucket;
    SixDaysGrantNothing();
    BareYearsMeaning(20, [RESERVED], 26);
    NothingFresh();
    OneBucketRoom(BareYears(20, [RESERVED], 26).buckets);
  }

  /** The first leave year lapses while the request is pending: its share is now on an expired bucket. */
  lemma LapsedWhileReserved()
    ensures var book := Run(EmptyBook(0), [Reserving(), ReadBalance(ExpiresOn(PeriodStart(0, 0)))]);
      && InBudget(book) && book.requests == [RESERVED] && |book.buckets| > 0
      && book.buckets[0].status.Expired? && Share(book.allocs, 0, 0) == 100
  {
    hide Consistent, Backed, NoOverspend, CreateLeave, Balance, Accrue, ExpiresOn, PeriodStart, PeriodsMatch, UpToDate;
    var t := ExpiresOn(PeriodStart(0, 0));
    var before := Run(EmptyBook(0), [Reserving()]);
    ReservedState();
    assert [Reserving()] + [ReadBalance(t)] == [Reserving(), ReadBalance(t)];
    RunAlso(EmptyBook(0), [Reserving()], ReadBalance(t));
    BalanceWithin(before, t);
    AccrueKeeps(before, t);
    AccrueKeepsTables(before, t);
    AccrueKeepsTables(Accrue(before, t), t);
    ExpiresAfterHire();
    var scanned := Accrue(Accrue(before, t), t);
    AccrueKeeps(Accrue(before, t), t);
    AccruedUpToDate(Accrue(before, t), t);
    ConsistentMatches(scanned);
    if |scanned.buckets| > 0 {
      FirstExpiry(scanned);
    }
    LapsedBy(scanned, t);
  }

  /** At its expiry date the first leave year is expired by a scan. */
  lemma LapsedBy(scanned: Book, t: Date)
    requires UpToDate(scanned, t) && scanned.hire <= t
    requires |scanned.buckets| > 0 ==> scanned.buckets[0].expiresOn <= t
    ensures |scanned.buckets| > 0 && scanned.buckets[0].status.Expired?
  {
    hide CompletedYears, Entitlement;
  }

  lemma FirstExpiry(book: Book)
    requires PeriodsMatch(book) && book.hire == 0 && |book.buckets| > 0
    ensures book.buckets[0].expiresOn == ExpiresOn(PeriodStart(0, 0))
  {
    hide PeriodStart, PeriodEnd, ExpiresOn;
  }

  lemma ExpiresAfterHire()
    ensures 0 <= ExpiresOn(PeriodStart(0, 0))
  {
    hide ExpiresOn, PeriodStart, PeriodEnd, CompletedYears;
    ExpiriesOrdered(0, 0, 1);
    LeaveYearsTile(0, 0, 0);
  }

  // ---------------------------------------------------------------- an overdrawn year beside one with room

  /** Anniversaries of a hire on 1 January. */
  lemma NewYears(y: int, n: nat)
    ensures AddYears(YearStart(y), n) == YearStart(y + n)
  {
    hide YearOf, CivilOf;
    FirstOfJanuary(y);
    FirstOfJanuary(y + n);
    AddYearsMeaning(YearStart(y), n);
    CivilRoundTrip(AddYears(YearStart(y), n));
  }

  lemma FirstOfJanuary(y: int)
    ensures CivilOf(YearStart(y)) == Civil(y, 1, 1) && YearOf(YearStart(y)) == y
  {
    hide YearOf, CivilOf;
    assert DayNumber(Civil(y, 1, 1)) == YearStart(y);
    DayNumberRoundTrip(Civil(y, 1, 1));
    CivilYear(YearStart(y));
  }

  lemma NewYearsService(y: int, n: nat)
    ensures YearStart(y) <= YearStart(y + n) && CompletedYears(YearStart(y), YearStart(y + n)) == n
  {
    hide YearOf, AddYears, YearStart;
    FirstOfJanuary(y);
    FirstOfJanuary(y + n);
    NewYears(y, n);
    YearsAscend(y, y + n);
  }

  /** 1 January of 1970, 1971 and 1972. */
  lemma FirstYears()
    ensures YearStart(1970) == 0 && YearStart(1971) == 365 && YearStart(1972) == 730
  {
  }

  /** Hired on 1 January 1970, there are two open years with 16 days each a year later. */
  lemma SecondYear(hire: Date, today: Date)
    requires (hire == 0 && today == 365) || (hire == 365 && today == 730)
    ensures CompletedYears(hire, today) == 1
    ensures Entitlement(hire, 0, today) == 1600 && Entitlement(hire, 1, today) == 1600
    ensures today < ExpiresOn(PeriodStart(hire, 0)) && today < ExpiresOn(PeriodStart(hire, 1))
  {
    hide YearOf, AddYears, CivilOf, ExpiresOn, PeriodStart, PeriodEnd, YearStart;
    FirstYears();
    NewYearsService(if hire == 0 then 1970 else 1971, 1);
    FirstYearTestsAgree(hire, today);
    hide CompletedYears;
    AliveYears(hire, 0, today);
    AliveYears(hire, 1, today);
  }

  lemma TwoYearsRoom()
    ensures var book := BareYears(0, [], 365);
      OpenCapacity(book.buckets) == 3200 && Solvent(EmptyBook(0))
  {
    hide Entitlement, PeriodStart, PeriodEnd, ExpiresOn, CompletedYears, Consistent;
    SecondYear(0, 365);
    EmptyWithin(0);
    BareYearsMeaning(0, [], 365);
    var buckets := BareYears(0, [], 365).buckets;
    assert Capacity(Rooms(buckets), 2) == Capacity(Rooms(buckets), 1) + Max0(Rooms(buckets)[1]);
    assert Capacity(Rooms(buckets), 1) == Capacity(Rooms(buckets), 0) + Max0(Rooms(buckets)[0]);
  }

  /** Every day of the week is a working day. */
  const EVERY_DAY := Schedule([1, 2, 3, 4, 5, 6, 7], None, None, [])

  lemma EveryDayCosts(w: int)
    requires 1 <= w <= 7
    ensures LeaveFraction(EVERY_DAY, w) == 100
  {
    forall v
      ensures MinutesAt(EVERY_DAY, v) == if 1 <= v <= 7 then 540 else 0
    {
      EveryDayRule(v);
    }
    LongestIsLongest(EVERY_DAY);
    assert MinutesAt(EVERY_DAY, 1) <= Longest(EVERY_DAY, |Listed(EVERY_DAY)|);
    FractionAtMostOne(EVERY_DAY, w);
  }

  lemma EveryDayRule(v: int)
    ensures MinutesAt(EVERY_DAY, v) == if 1 <= v <= 7 then 540 else 0
  {
    assert v in EVERY_DAY.workingDays <==> 1 <= v <= 7 by {
      if 1 <= v <= 7 {
        assert EVERY_DAY.workingDays[v - 1] == v;
      }
    }
  }

  lemma {:induction false} EveryDayRows(start: Date, n: nat)
    ensures var rows := WorkingDays(EVERY_DAY, start, start + n - 1);
      |rows| == n && forall i :: 0 <= i < n ==> rows[i] == LeaveDay(start + i, Full, 100)
  {
    hide LeaveFraction, Weekday;
    if n > 0 {
      EveryDayRows(start, n - 1);
      EveryDayCosts(Weekday(start + n - 1));
    }
  }

  lemma {:induction false} HundredEach(rows: seq<LeaveDay>, n: nat)
    requires n <= |rows| && forall i :: 0 <= i < |rows| ==> rows[i].fraction == 100
    ensures FractionSum(rows, n) == 100 * n
  {
    if n > 0 {
      HundredEach(rows, n - 1);
    }
  }

  /** Twenty days of leave in a row. */
  const TWENTY := LeaveInput(true, true, 400, 419, EVERY_DAY, [])

  function Twenty(): Request {
    Request(true, 400, 419, PlannedRows(TWENTY), 2000, Pending)
  }

  lemma TwentyDays()
    ensures SumLeaveDayFractions(PlannedRows(TWENTY)) == 2000
  {
    hide LeaveFraction, WorkingDays, FractionSum;
    EveryDayRows(400, 20);
    HundredEach(PlannedRows(TWENTY), 20);
  }

  /** After a year twenty days are requested. */
  lemma TwentyReserved()
    ensures var book := Run(EmptyBook(0), [Create(TWENTY, {}, 365)]);
      Solvent(book) && book.requests == [Twenty()]
  {
    hide Solvent, Accrue, Charge, PlannedRows, SumLeaveDayFractions, Overlaps, OpenCapacity, Submit;
    RunOne(EmptyBook(0), Create(TWENTY, {}, 365));
    TwentyDays();
    TwoYearsRoom();
    NoRequestNoOverlap(PlannedRows(TWENTY));
    assert BareYears(0, [], 365) == Accrue(EmptyBook(0), 365);
    CreateSizeIff(EmptyBook(0), TWENTY, {}, 365);
    CreateWithin(EmptyBook(0), TWENTY, {}, 365);
    TwentyTable();
  }

  lemma TwentyTable()
    ensures var reply := CreateLeave(EmptyBook(0), TWENTY, {}, 365);
      reply.failure.None? ==> reply.book.requests == [Twenty()]
  {
    hide Accrue, Charge, PlannedRows, SumLeaveDayFractions, Overlaps, OpenCapacity;
    TwentyDays();
    var accrued := Accrue(Submit(EmptyBook(0), Twenty()), 365);
    AccrueKeepsTables(Submit(EmptyBook(0), Twenty()), 365);
    ChargeRequests(accrued, 0, 2000, LeaveBook.Reserving);
  }

  lemma ChargeRequests(book: Book, r: nat, days: int, mode: Mode)
    ensures Charge(book, r, days, mode).requests == book.requests
  {
  }

  /** Then the hire date is moved to that very day: the one year open then has granted nothing and is overdrawn by twenty days. */
  lemma TwentyOverdrawn()
    ensures var book := Run(EmptyBook(0), [Create(TWENTY, {}, 365), RebuildFrom(365, 365)]);
      && Consistent(book) && Backed(book) && book.hire == 365 && |book.buckets| == 1 && book.buckets[0].status.Open?
      && book.buckets[0].granted == 0 && book.buckets[0].used == 0 && book.buckets[0].pending == 2000 && book.buckets[0].expired == 0
  {
    hide Run, Rebuild, Consistent, Backed, NoOverspend, PlannedRows, Charge, Accrue;
    var before := Run(EmptyBook(0), [Create(TWENTY, {}, 365)]);
    TwentyReserved();
    RebuiltTwenty();
    RebuildKeeps(before, 365, 365);
    RebuildBacksIff(before, 365, 365);
    RebuildIsSync(before, 365, 365);
    NewHire();
    SyncOne(BareYears(365, [Twenty()], 365));
    var bare := BareYears(365, [Twenty()], 365);
    DrawsTotal(bare.buckets, 2000);
    OneDraw(Draws(bare.buckets, 2000));
    ReservedBucket(bare, 0, 2000, 0);
    ChargeHire(bare, 0, 2000);
  }

  lemma RebuiltTwenty()
    ensures Run(EmptyBook(0), [Create(TWENTY, {}, 365), RebuildFrom(365, 365)])
         == Rebuild(Run(EmptyBook(0), [Create(TWENTY, {}, 365)]), 365, 365)
  {
    hide Run, Rebuild, PlannedRows;
    RunAlso(EmptyBook(0), [Create(TWENTY, {}, 365)], RebuildFrom(365, 365));
    assert [Create(TWENTY, {}, 365)] + [RebuildFrom(365, 365)] == [Create(TWENTY, {}, 365), RebuildFrom(365, 365)];
  }

  lemma OneDraw(draws: seq<int>)
    requires |draws| == 1
    ensures Sum(draws) == draws[0]
  {
    assert SumTo(draws, 1) == SumTo(draws, 0) + draws[0];
  }

  lemma NewHire()
    ensures var bare := BareYears(365, [Twenty()], 365);
      && bare.hire == 365 && bare.allocs == map[] && bare.requests == [Twenty()] && |bare.buckets| == 1
      && bare.buckets[0].status.Open? && bare.buckets[0].granted == 0 && bare.buckets[0].used == 0
      && bare.buckets[0].pending == 0 && bare.buckets[0].expired == 0 && Newest(bare.buckets, 1) == 0
  {
    hide YearOf, AddYears, PeriodStart, PeriodEnd, ExpiresOn, PlannedRows, Accrue, YearStart;
    FirstYears();
    NewYearsService(1971, 0);
    FirstYearTestsAgree(365, 365);
    assert Entitlement(365, 0, 365) == 0;
    hide CompletedYears, Entitlement;
    AccrueKeepsTables(Book(365, [], map[], [], [Twenty()]), 365);
    BareYearsMeaning(365, [Twenty()], 365);
  }

  /** The sync reserves the one request. */
  lemma SyncOne(base: Book)
    requires |base.requests| == 1 && base.requests[0].tracked && base.requests[0].status.Pending? && base.allocs == map[]
    ensures SyncUsage(base) == Charge(base, 0, base.requests[0].days, LeaveBook.Reserving)
  {
    hide Charge;
    assert Worklist(base.requests, 0) == [];
    assert Worklist(base.requests, 1) == [0];
    assert HoldersOf(map[]) == {};
    assert Synced(base, {}, [0], 0) == base;
  }

  /**
    * A year later the overdrawn year lacks four days, and a new one grants sixteen. The balance read that day shows
    * twelve days, but a request for sixteen would be accepted.
    */
  lemma OverdrawnYearHidden()
    ensures var book := Run(EmptyBook(0), [Create(TWENTY, {}, 365), RebuildFrom(365, 365), ReadBalance(730)]);
      Available(book) == 1200 && OpenCapacity(book.buckets) == 1600
  {
    hide Run, Consistent, Backed, Accrue, PlannedRows, SyncUsage, Entitlement, PeriodStart, PeriodEnd, ExpiresOn, CompletedYears;
    var ops := [Create(TWENTY, {}, 365), RebuildFrom(365, 365)];
    var before := Run(EmptyBook(0), ops);
    TwentyOverdrawn();
    RunAlso(EmptyBook(0), ops, ReadBalance(730));
    assert ops + [ReadBalance(730)] == [Create(TWENTY, {}, 365), RebuildFrom(365, 365), ReadBalance(730)];
    BalanceIsSync(before, 730);
    AccrueBacked(before, 730);
    SyncIdle(Accrue(before, 730));
    SecondYear(365, 730);
    AccruedBuckets(before, 730);
    ConsistentMatches(before);
    assert PeriodMatches(before.buckets[0], 365, 0);
    TwoBuckets(Accrue(before, 730).buckets, -400, 1600);
  }

  lemma TwoBuckets(buckets: seq<Bucket>, a: int, b: int)
    requires |buckets| == 2 && buckets[0].status.Open? && buckets[1].status.Open?
    requires Remaining(buckets[0]) == a && Remaining(buckets[1]) == b
    ensures OpenRemaining(buckets, 2) == a + b && OpenCapacity(buckets) == Max0(a) + Max0(b)
  {
    assert OpenRemaining(buckets, 1) == OpenRemaining(buckets, 0) + a;
    assert Capacity(Rooms(buckets), 2) == Capacity(Rooms(buckets), 1) + Max0(Rooms(buckets)[1]);
    assert Capacity(Rooms(buckets), 1) == Capacity(Rooms(buckets), 0) + Max0(Rooms(buckets)[0]);
  }

  // ---------------------------------------------------------------- approved leave and the rosters

  /** Requesting leave and approving it, as request number `r`. */
  function Granting(input: LeaveInput, r: nat): seq<LeaveOp> {
    [Create(input, {}, 0), Decide(r, true, true, {}, 0)]
  }

  function Granted(input: LeaveInput): Request {
    Request(input.tracked, input.start, input.end, PlannedRows(input), SumLeaveDayFractions(PlannedRows(input)), Approved)
  }

  /** Untracked leave that overlaps nothing is created and approved. */
  lemma GrantedRun(book: Book, ops: seq<LeaveOp>, input: LeaveInput)
    requires !input.tracked && input.active && input.start <= input.end
    requires SumLeaveDayFractions(PlannedRows(input)) > 0 && !Overlaps(Run(book, ops).requests, PlannedRows(input))
    ensures var before := Run(book, ops);
      Run(book, ops + Granting(input, |before.requests|)).requests == before.requests + [Granted(input)]
  {
    hide Run, PlannedRows, SumLeaveDayFractions, Overlaps, Balance;
    var before := Run(book, ops);
    var r := |before.requests|;
    var create, decide := Create(input, {}, 0), Decide(r, true, true, {}, 0);
    RunAlso(book, ops, create);
    RunAlso(book, ops + [create], decide);
    assert ops + Granting(input, r) == ops + [create] + [decide];
    var created := Run(book, ops + [create]);
    assert created.requests == before.requests + [Granted(input).(status := Pending)];
    DayCharges.BalanceRequests(created, 0);
  }

  /** A morning and an afternoon of one day, both approved. */
  function TwoHalves(): seq<LeaveOp> {
    Granting(OneDay(false, 5, Morning), 0) + Granting(OneDay(false, 5, Afternoon), 1)
  }

  lemma TwoHalvesGranted()
    ensures Run(EmptyBook(0), TwoHalves()).requests
         == [OneDayRequest(false, 5, Morning, Approved), OneDayRequest(false, 5, Afternoon, Approved)]
  {
    hide PlannedRows, SumLeaveDayFractions, Perform;
    var first, second := OneDay(false, 5, Morning), OneDay(false, 5, Afternoon);
    OneDayRow(false, 5, Morning);
    OneDayRow(false, 5, Afternoon);
    NoRequestNoOverlap(PlannedRows(first));
    assert [] + Granting(first, 0) == Granting(first, 0);
    GrantedRun(EmptyBook(0), [], first);
    HalvesApart();
    GrantedRun(EmptyBook(0), Granting(first, 0), second);
  }

  lemma HalvesApart()
    ensures !Overlaps([OneDayRequest(false, 5, Morning, Approved)], [RowOn(5, Afternoon)])
  {
  }

  /** The period roster reports half of that day of leave. */
  lemma TwoHalvesUnderReported()
    ensures var requests := Run(EmptyBook(0), TwoHalves()).requests;
      var view := Roster.View(Some(OnlyOn(Weekday(5))), requests, {}, map[]);
      DayCharges.RowsWell(requests) && Roster.ReportedOn(view, 5) == 50 && Roster.ApprovedOn(requests, 5) == 100
  {
    hide Run;
    TwoHalvesGranted();
    var a, b := OneDayRequest(false, 5, Morning, Approved), OneDayRequest(false, 5, Afternoon, Approved);
    OneRowCosts(a, 5);
    OneRowCosts(b, 5);
    TwoCosts(a, b, 5);
  }

  lemma OneRowCosts(q: Request, date: Date)
    requires |q.rows| == 1 && q.rows[0].date == date
    ensures Roster.CostOnDate(q, date) == q.rows[0].fraction && Roster.RowFor(q.rows, date, 0) == Some(q.rows[0])
  {
    assert DayCharges.CostOn(q.rows, date, 1) == DayCharges.CostOn(q.rows, date, 0) + q.rows[0].fraction;
  }

  lemma TwoCosts(a: Request, b: Request, date: Date)
    requires a.status.Approved? && b.status.Approved?
    ensures Roster.ApprovedOn([a, b], date) == Roster.CostOnDate(a, date) + Roster.CostOnDate(b, date)
  {
    hide Roster.CostOnDate;
    assert Roster.OthersOn([a, b], date, -1, 1) == Roster.OthersOn([a, b], date, -1, 0) + Roster.CostOnDate(a, date);
    assert Roster.OthersOn([a, b], date, -1, 2) == Roster.OthersOn([a, b], date, -1, 1) + Roster.CostOnDate(b, date);
  }

  /** What is reported of a working day that the first request covers, with and without a row for it. */
  lemma FirstReported(schedule: Schedule, requests: seq<Request>, date: Date)
    requires Roster.IsWorkingDay(Some(schedule), Weekday(date))
    requires |requests| > 0 && W.Covers(requests[0], date) && |requests[0].rows| == 1
    ensures Roster.ReportedOn(Roster.View(Some(schedule), requests, {}, map[]), date)
         == if requests[0].rows[0].date == date then requests[0].rows[0].fraction else LeaveFraction(schedule, Weekday(date))
  {
    hide Roster.IsWorkingDay, LeaveFraction;
    assert Roster.FirstCover(requests, date, 0) == Some(0);
    var rows := requests[0].rows;
    assert Roster.RowFor(rows, date, 0) == if rows[0].date == date then Some(rows[0]) else Roster.RowFor(rows, date, 1);
    assert Roster.RowFor(rows, date, 1) == None;
  }

  /** Which of two approved half days the period roster counts depends on the order in which the requests are read. */
  lemma HalfShownDependsOnOrder()
    ensures var a := Request(false, 5, 5, [LeaveDay(5, Morning, 50)], 50, Approved);
      var b := Request(false, 5, 5, [LeaveDay(5, Afternoon, 30)], 30, Approved);
      var schedule := Some(OnlyOn(Weekday(5)));
      && Roster.ReportedOn(Roster.View(schedule, [a, b], {}, map[]), 5) == 50
      && Roster.ReportedOn(Roster.View(schedule, [b, a], {}, map[]), 5) == 30
  {
    hide Roster.ReportedOn;
    var a := Request(false, 5, 5, [LeaveDay(5, Morning, 50)], 50, Approved);
    var b := Request(false, 5, 5, [LeaveDay(5, Afternoon, 30)], 30, Approved);
    FirstReported(OnlyOn(Weekday(5)), [a, b], 5);
    FirstReported(OnlyOn(Weekday(5)), [b, a], 5);
  }

  /** Leave over a Monday and a Tuesday, planned when only Mondays were working days. */
  function MondayLeave(): LeaveInput {
    LeaveInput(true, false, 4, 5, OnlyOn(1), [])
  }

  lemma MondayRow()
    ensures PlannedRows(MondayLeave()) == [RowOn(4, Full)] && SumLeaveDayFractions([RowOn(4, Full)]) == 100
  {
    hide LeaveFraction;
    OnlyOnCosts(1, 1);
    OnlyOnCosts(1, 2);
    assert WorkingDays(OnlyOn(1), 4, 3) == [];
    assert WorkingDays(OnlyOn(1), 4, 4) == [LeaveDay(4, Full, 100)];
    assert WorkingDays(OnlyOn(1), 4, 5) == [LeaveDay(4, Full, 100)];
    assert WithSessions([LeaveDay(4, Full, 100)], []) == [RowOn(4, Full)];
    assert FractionSum([RowOn(4, Full)], 1) == FractionSum([RowOn(4, Full)], 0) + 100;
  }

  /** Once Tuesdays are working days, the period roster reports a day of leave that was never charged. */
  lemma ScheduleChangeOverReported()
    ensures var requests := Run(EmptyBook(0), Granting(MondayLeave(), 0)).requests;
      var view := Roster.View(Some(OnlyOn(2)), requests, {}, map[]);
      DayCharges.RowsWell(requests) && Roster.ReportedOn(view, 5) == 100 && Roster.ApprovedOn(requests, 5) == 0
  {
    hide Run, PlannedRows, SumLeaveDayFractions, LeaveFraction;
    MondayRow();
    NoRequestNoOverlap([RowOn(4, Full)]);
    assert [] + Granting(MondayLeave(), 0) == Granting(MondayLeave(), 0);
    RunNothing(EmptyBook(0));
    GrantedRun(EmptyBook(0), [], MondayLeave());
    OnlyOnCosts(2, 2);
    var q := Granted(MondayLeave());
    assert Run(EmptyBook(0), Granting(MondayLeave(), 0)).requests == [q];
    assert q.rows == [RowOn(4, Full)] && q.rows[0].date == 4;
    FirstReported(OnlyOn(2), [q], 5);
    assert Roster.ReportedOn(Roster.View(Some(OnlyOn(2)), [q], {}, map[]), 5) == 100;
    assert DayCharges.CostOn(q.rows, 5, 1) == DayCharges.CostOn(q.rows, 5, 0) + 0;
    assert Roster.OthersOn([q], 5, -1, 1) == Roster.OthersOn([q], 5, -1, 0) + Roster.CostOnDate(q, 5);
  }

  lemma RunNothing(book: Book)
    ensures Run(book, []) == book
  {
  }

  // ---------------------------------------------------------------- a correctness approval during leave

  /** An employee whose leave on day 5 is approved, with no timesheet there. */
  function DuringLeave(): seq<W.Event> {
    [W.LeaveCall(0, Granting(OneDay(false, 5, Full), 0)[0]), W.LeaveCall(0, Granting(OneDay(false, 5, Full), 0)[1])]
  }

  function Hired(): W.Workforce {
    W.Workforce(map[0 := EmptyBook(0)], map[])
  }

  lemma DuringLeaveState()
    ensures var w := W.HappenAll(Hired(), DuringLeave());
      && w.sheets == map[] && w.books.Keys == {0}
      && w.books[0].requests == [OneDayRequest(false, 5, Full, Approved)]
  {
    hide Perform, PlannedRows, SumLeaveDayFractions;
    var input := OneDay(false, 5, Full);
    var create, decide := Create(input, {}, 0), Decide(0, true, true, {}, 0);
    OneDayRow(false, 5, Full);
    NoRequestNoOverlap(PlannedRows(input));
    RunNothing(EmptyBook(0));
    assert [] + Granting(input, 0) == [create, decide];
    GrantedRun(EmptyBook(0), [], input);
    RunOne(EmptyBook(0), create);
    RunAlso(EmptyBook(0), [create], decide);
    assert [create] + [decide] == [create, decide];
    var events := DuringLeave();
    assert events[..1] == [events[0]] && events[..0] == [];
    assert W.Attended(map[], 0) == {};
    var first := W.HappenAll(Hired(), events[..1]);
    assert W.HappenAll(Hired(), []) == Hired();
    assert events[..1][..0] == [];
    assert first == W.Happen(Hired(), events[0]);
    assert first.books[0] == Run(EmptyBook(0), [create]) && first.sheets == map[];
    assert events[..|events| - 1] == events[..1];
  }

  /**
    * A correctness request for that day was filed before the leave: approving it now puts a timesheet on a day of
    * approved leave.
    */
  lemma ApprovalBreaksExclusion()
    ensures var w := W.HappenAll(Hired(), DuringLeave());
      var a := T.Approval(T.Day(0, 5), Full, false, Some(T.Hours(0, 1, 0)), 0, 1);
      W.Excludes(w) && !W.Excludes(W.Happen(w, W.AttendanceCall(TL.ApproveStep(a))))
  {
    hide W.HappenAll, W.Happen;
    var w := W.HappenAll(Hired(), DuringLeave());
    var a := T.Approval(T.Day(0, 5), Full, false, Some(T.Hours(0, 1, 0)), 0, 1);
    DuringLeaveState();
    assert W.Attended(w.sheets, 0) == {};
    assert W.Excludes(w);
    assert W.Covers(w.books[0].requests[0], 5);
    W.ApprovalExcludesIff(w, a);
  }

  // ---------------------------------------------------------------- a repeated re-entry

  /** A sheet opened and closed by its employee on day 0, between 0 and 60 minutes. */
  function LeftEarly(): T.Sheet {
    T.Closed(T.FreshSheet(T.Hours(0, 60 * T.MINUTE, 0), 0, T.ClientKey(1)), 0, 30 * T.MINUTE, 0, T.ByEmployee, T.ClientKey(2))
  }

  function Again(): T.CheckInRequest {
    T.CheckInRequest(0, 40 * T.MINUTE, 0, Some(T.Hours(0, 60 * T.MINUTE, 0)), 3, false, false, true, false, false)
  }

  /** A re-entry, a checkout, and the same re-entry request once more: the day is open again. */
  lemma RepeatedReentryReopens()
    ensures var sheets := map[T.Day(0, 0) := LeftEarly()];
      var open := T.CheckIn(sheets, Again()).sheets;
      var left := open[T.Day(0, 0) := T.Closed(open[T.Day(0, 0)], 0, 50 * T.MINUTE, 0, T.ByEmployee, T.ClientKey(4))];
      TL.Sound(sheets) && T.CheckIn(left, Again()).refusal.None? && T.CheckIn(left, Again()).sheets[T.Day(0, 0)].isOpen
  {
    var sheets := map[T.Day(0, 0) := LeftEarly()];
    assert TL.SheetFits(LeftEarly());
    TL.ReentryRetryReopens(sheets, Again(), 50 * T.MINUTE, 0, T.ClientKey(4));
  }

  /** Scheduled from 08:30 to 17:30 with 15 minutes of grace, and checked out by the employee. */
  function OfficeDay(): T.Sheet {
    T.Sheet(510 * T.MINUTE, 1050 * T.MINUTE, 15, 510 * T.MINUTE, Some(1050 * T.MINUTE), 0, 540, 0, 0, T.CompletedOnTime,
            false, false, false, false, Some(T.ByEmployee), T.ClientKey(1), Some(T.ClientKey(2)))
  }

  /**
    * A punctual employee is granted the afternoon as worked, and stays punctual; when an administrator then corrects the
    * checkout only, the afternoon's start counts as a check-in 255 minutes late.
    */
  lemma CorrectedAfternoonIsLate()
    ensures var sheets, d := map[T.Day(0, 0) := OfficeDay()], T.Day(0, 0);
      var afternoon := T.ApproveCorrectness(sheets, T.Approval(d, Afternoon, true, None, 0, 0)).sheets;
      var corrected := T.Correct(afternoon, d, None, Some(1040 * T.MINUTE));
      && TL.Sound(sheets) && !AE.LateTrue(afternoon[d])
      && afternoon[d].late == 0 && !afternoon[d].isLate && corrected.refusal.None?
      && corrected.sheets[d].late == 255 && corrected.sheets[d].isLate
  {
    assert TL.SheetFits(OfficeDay());
  }

  // ---------------------------------------------------------------- printed tables and reporting lines

  /** A table of one empty cell reads back as a table without rows. */
  lemma LoneEmptyCellLost()
    ensures Csv.Decode(Csv.ToCsv(["a"], [[Csv.Blank]])) != Some([["a"]] + Csv.AllTexts([[Csv.Blank]]))
  {
    Csv.CsvReadsBackIff(["a"], [[Csv.Blank]]);
  }

  /** Persons 1 to 20 report to the next one, and person 20 to person 0. */
  function Ladder(): Supervisors.Chart {
    map x: nat | 1 <= x <= 20 :: NextRung(x)
  }

  function NextRung(x: nat): nat {
    if x == 20 then 0 else x + 1
  }

  lemma {:induction false} UpTheLadder(x: nat, k: nat)
    requires 1 <= x <= 20
    ensures Supervisors.Above(Ladder(), Some(x), k)
         == if x + k <= 20 then Some(x + k) else if x + k == 21 then Some(0) else None
    decreases k
  {
    if k > 0 {
      if x < 20 {
        UpTheLadder(x + 1, k - 1);
      } else if k > 1 {
        Supervisors.AboveNone(Ladder(), k - 2);
      }
    }
  }

  lemma LadderAcyclic()
    ensures Supervisors.Acyclic(Ladder())
  {
    forall x: nat, k: nat | k >= 1
      ensures Supervisors.Above(Ladder(), Some(x), k) != Some(x)
    {
      if 1 <= x <= 20 {
        UpTheLadder(x, k);
      } else {
        Supervisors.AboveNone(Ladder(), k - 1);
      }
    }
  }

  /** Person 1 is accepted as the supervisor of person 0, who is 20 steps above, and the chart becomes cyclic. */
  lemma LongLadderAcceptsCycle()
    ensures Supervisors.Passes(Ladder(), 0, 1)
    ensures Supervisors.Acyclic(Ladder()) && !Supervisors.Acyclic(Ladder()[0 := 1])
  {
    hide Supervisors.Acyclic, Supervisors.Above, Supervisors.RejectsAt, Ladder;
    LadderAcyclic();
    UpTheLadder(1, 20);
    assert Supervisors.Reports(Ladder(), 1, 0);
    Supervisors.AssignmentAcyclicIff(Ladder(), 0, 1);
    Supervisors.RejectsIffMet(Ladder(), 0, 1);
    forall i: nat | i < 20
      ensures Supervisors.Above(Ladder(), Some(1), i) != Some(0)
    {
      UpTheLadder(1, i);
    }
  }

  /** One person less on the way and the last step of the walk finds the cycle. */
  lemma ShorterLadderRejects()
    ensures Supervisors.RejectsAt(Ladder(), 0, 2, 19)
    ensures forall i: nat :: i < 19 ==> !Supervisors.RejectsAt(Ladder(), 0, 2, i)
  {
    hide Supervisors.Acyclic, Supervisors.Above, Ladder;
    LadderAcyclic();
    UpTheLadder(2, 19);
    Supervisors.RejectsIffMet(Ladder(), 0, 2);
    forall i: nat | i < 19
      ensures Supervisors.Above(Ladder(), Some(2), i) != Some(0)
    {
      UpTheLadder(2, i);
    }
  }
}
