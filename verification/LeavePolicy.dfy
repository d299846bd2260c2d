/**
  * Annual-leave policy: leave years anchored on the hire date and the days each of them grants.
  * Amounts of leave are integers in hundredths of a day.
  */
module LeavePolicy {
  import opened Basics
  import opened Calendar

  const BASE_ANNUAL_DAYS := 1600
  const DAYS_PER_SERVICE_MONTH := 26
  const MAX_CARRY_YEARS := 2

  /** Anniversaries of `hire` completed on `asOf`. */
  function CompletedYears(hire: Date, asOf: Date): (years: nat)
  {
    if asOf < hire then 0
    else
      var years := YearOf(asOf) - YearOf(hire);
      Max0(if asOf < AddYears(hire, years) then years - 1 else years)
  }

  function ServiceMonths(hire: Date, asOf: Date): int {
    if asOf <= hire then 0 else (asOf - hire) / DAYS_PER_SERVICE_MONTH
  }

  function ProRataLeave(hire: Date, asOf: Date): int {
    RoundDiv(BASE_ANNUAL_DAYS * Min(12, ServiceMonths(hire, asOf)), 12)
  }

  /** Days granted on `asOf` for the leave year that follows `completed` years of service. */
  function AnnualEntitlement(completed: nat, hire: Date, asOf: Date, periodEnd: Date): int {
    if completed < 1 then
      if asOf >= periodEnd + 1 || CompletedYears(hire, asOf) >= 1 then BASE_ANNUAL_DAYS
      else ProRataLeave(hire, asOf)
    else
      BASE_ANNUAL_DAYS + 100 * ((completed - 1) / 2)
  }

  function PeriodStart(hire: Date, n: nat): Date {
    AddYears(hire, n)
  }

  function PeriodEnd(hire: Date, n: nat): Date {
    AddYears(hire, n + 1) - 1
  }

  function ExpiresOn(periodStart: Date): Date {
    AddYears(periodStart, 1 + MAX_CARRY_YEARS)
  }

  /** What leave year `n` grants when scanned on `asOf`. */
  function Entitlement(hire: Date, n: nat, asOf: Date): int {
    AnnualEntitlement(n, hire, asOf, PeriodEnd(hire, n))
  }

  // ---------------------------------------------------------------- leave years tile time

  /** `CompletedYears` is the index of the one leave year that contains `asOf`. */
  lemma CompletedYearsIsIndex(hire: Date, asOf: Date)
    requires hire <= asOf
    ensures PeriodStart(hire, CompletedYears(hire, asOf)) <= asOf <= PeriodEnd(hire, CompletedYears(hire, asOf))
  {
    hide YearOf, AddYears;
    var years := YearOf(asOf) - YearOf(hire);
    if YearOf(asOf) < YearOf(hire) {
      LaterYearLater(asOf, hire);
    }
    AddZeroYears(hire);
    AddYearsMeaning(hire, years);
    AddYearsMeaning(hire, years + 1);
    LaterYearLater(asOf, AddYears(hire, years + 1));
    if years > 0 {
      AddYearsMeaning(hire, years - 1);
      LaterYearLater(AddYears(hire, years - 1), asOf);
    }
  }

  /**
    * Leave years tile the time from the hire date on, 29 February included: year 0 starts at the hire,
    * year n + 1 the day after year n ends, none is empty, and a date is in year n exactly when
    * n is its number of completed years.
    */
  lemma LeaveYearsTile(hire: Date, n: nat, asOf: Date)
    ensures PeriodStart(hire, 0) == hire
    ensures PeriodStart(hire, n + 1) == PeriodEnd(hire, n) + 1
    ensures PeriodStart(hire, n) <= PeriodEnd(hire, n)
    ensures hire <= asOf ==> (PeriodStart(hire, n) <= asOf <= PeriodEnd(hire, n) <==> n == CompletedYears(hire, asOf))
    ensures asOf < hire ==> !(PeriodStart(hire, n) <= asOf)
  {
    hide YearOf, AddYears, CompletedYears;
    AddZeroYears(hire);
    AddYearsOrdered(hire, n, n + 1);
    if hire <= asOf {
      CompletedYearsIsIndex(hire, asOf);
      PeriodsApart(hire, n, CompletedYears(hire, asOf));
    } else if n > 0 {
      AddYearsOrdered(hire, 0, n);
    }
  }

  lemma PeriodsApart(hire: Date, m: nat, n: nat)
    ensures m < n ==> PeriodEnd(hire, m) < PeriodStart(hire, n)
    ensures n < m ==> PeriodEnd(hire, n) < PeriodStart(hire, m)
  {
    hide YearOf, AddYears, CompletedYears;
    if m + 1 < n {
      AddYearsOrdered(hire, m + 1, n);
    } else if n + 1 < m {
      AddYearsOrdered(hire, n + 1, m);
    }
  }

  lemma PeriodStartsOrdered(hire: Date, m: nat, n: nat)
    requires m < n
    ensures PeriodStart(hire, m) < PeriodStart(hire, n)
  {
    AddYearsOrdered(hire, m, n);
  }

  lemma CompletedYearsMonotone(hire: Date, s: Date, t: Date)
    requires s <= t
    ensures CompletedYears(hire, s) <= CompletedYears(hire, t)
  {
    hide YearOf, AddYears;
    if hire <= s {
      CompletedYearsIsIndex(hire, s);
      CompletedYearsIsIndex(hire, t);
      PeriodsApart(hire, CompletedYears(hire, s), CompletedYears(hire, t));
    }
  }

  /** A leave year has started exactly when its index is at most the completed years. */
  lemma StartedIff(hire: Date, n: nat, asOf: Date)
    requires hire <= asOf
    ensures PeriodStart(hire, n) <= asOf <==> n <= CompletedYears(hire, asOf)
  {
    hide YearOf, AddYears, CompletedYears;
    var k := CompletedYears(hire, asOf);
    CompletedYearsIsIndex(hire, asOf);
    PeriodsApart(hire, n, k);
    if n < k {
      PeriodStartsOrdered(hire, n, k);
    }
  }

  // ---------------------------------------------------------------- entitlement

  /** The two tests for the end of the first leave year always agree. */
  lemma FirstYearTestsAgree(hire: Date, asOf: Date)
    ensures asOf >= PeriodEnd(hire, 0) + 1 <==> CompletedYears(hire, asOf) >= 1
  {
    hide YearOf, AddYears;
    AddZeroYears(hire);
    AddYearsOrdered(hire, 0, 1);
    if hire <= asOf {
      StartedIff(hire, 1, asOf);
    }
  }

  lemma ProRataBounds(hire: Date, s: Date, t: Date)
    requires s <= t
    ensures 0 <= ProRataLeave(hire, s) <= ProRataLeave(hire, t) <= BASE_ANNUAL_DAYS
  {
    var a, b := ServiceMonths(hire, s), ServiceMonths(hire, t);
    assert 0 <= a <= b;
    assert 0 <= BASE_ANNUAL_DAYS * Min(12, a) <= BASE_ANNUAL_DAYS * Min(12, b) <= BASE_ANNUAL_DAYS * 12;
  }

  /** Entitlement never shrinks with time, and is fixed once its leave year is over. */
  lemma EntitlementMonotone(hire: Date, n: nat, s: Date, t: Date)
    requires s <= t
    ensures 0 <= Entitlement(hire, n, s) <= Entitlement(hire, n, t)
    ensures s > PeriodEnd(hire, n) ==> Entitlement(hire, n, s) == Entitlement(hire, n, t)
  {
    hide YearOf, AddYears, CompletedYears, ProRataLeave;
    if n < 1 {
      FirstYearTestsAgree(hire, s);
      FirstYearTestsAgree(hire, t);
      CompletedYearsMonotone(hire, s, t);
      ProRataBounds(hire, s, t);
    }
  }

  /** Leave years 2k + 1 and 2k + 2 each grant 16 + k days, whatever the hire date and the date of the scan. */
  lemma LaterYearGrant(hire: Date, k: nat, asOf: Date)
    ensures Entitlement(hire, 2 * k + 1, asOf) == 1600 + 100 * k
    ensures Entitlement(hire, 2 * k + 2, asOf) == 1600 + 100 * k
  {
    hide PeriodEnd, CompletedYears, ProRataLeave;
  }

  /** `months` full months of 26 days, the first of them from the hire date on, were served by `asOf`. */
  predicate MonthsServed(hire: Date, asOf: Date, months: nat) {
    if asOf <= hire then months == 0 else 26 * months <= asOf - hire < 26 * (months + 1)
  }

  /**
    * Year 0 grants 16 days once it is over; before, a twelfth of them for each full month served up to twelve,
    * to the nearest hundredth with halves upwards.
    */
  lemma FirstYearGrant(hire: Date, asOf: Date, months: nat)
    requires MonthsServed(hire, asOf, months)
    ensures var granted := Entitlement(hire, 0, asOf);
      if asOf > PeriodEnd(hire, 0) then granted == 1600 else -6 < 12 * granted - 1600 * Min(12, months) <= 6
  {
    hide PeriodEnd, CompletedYears;
    FirstYearTestsAgree(hire, asOf);
    assert ServiceMonths(hire, asOf) == months;
  }

  /**
    * `days` is what leave year `n` is to grant on `asOf`: 16 days and one more for every two completed years after the
    * first, and pro rata before the first year is over.
    */
  ghost predicate YearGrants(hire: Date, n: nat, asOf: Date, days: int) {
    if n > 0 then days % 100 == 0 && 100 * (n - 2) <= 2 * (days - 1600) <= 100 * (n - 1)
    else if asOf > PeriodEnd(hire, 0) then days == 1600
    else exists months: nat :: MonthsServed(hire, asOf, months) && -6 < 12 * days - 1600 * Min(12, months) <= 6
  }

  lemma GrantExact(hire: Date, n: nat, asOf: Date, days: int)
    ensures YearGrants(hire, n, asOf, days) <==> Entitlement(hire, n, asOf) == days
  {
    hide PeriodEnd, CompletedYears, Entitlement, MonthsServed;
    if n > 0 {
      LaterYearGrant(hire, (n - 1) / 2, asOf);
      WholeDays(n, (n - 1) / 2, days);
    } else {
      var served := if asOf <= hire then 0 else (asOf - hire) / 26;
      FullMonths(hire, asOf);
      FirstYearGrant(hire, asOf, served);
      if asOf <= PeriodEnd(hire, 0) {
        NearestTwelfth(1600 * Min(12, served), days, Entitlement(hire, 0, asOf));
      }
    }
  }

  /** Whole days that are half of the completed years less one, or half a day less, are that half rounded down. */
  lemma WholeDays(n: int, k: int, days: int)
    requires n == 2 * k + 1 || n == 2 * k + 2
    ensures days % 100 == 0 && 100 * (n - 2) <= 2 * (days - 1600) <= 100 * (n - 1) <==> days == 1600 + 100 * k
  {
    Hundreds(days, 16 + k);
    Hundreds(days, days / 100);
  }

  lemma Hundreds(days: int, d: int)
    ensures days == 100 * d <==> days % 100 == 0 && days / 100 == d
  {
  }

  lemma NearestTwelfth(twelve: int, s: int, t: int)
    requires -6 < 12 * t - twelve <= 6
    ensures -6 < 12 * s - twelve <= 6 <==> s == t
  {
  }

  lemma FullMonths(hire: Date, asOf: Date)
    ensures forall months: nat :: MonthsServed(hire, asOf, months) <==> months == if asOf <= hire then 0 else (asOf - hire) / 26
  {
  }

  /** Each year grants what it is to grant; two further completed years grant one more day, and no later year less. */
  lemma LaterYearsGrantMore(hire: Date, n: nat, s: Date, t: Date)
    ensures Entitlement(hire, n, s) <= Entitlement(hire, n + 1, t)
    ensures n >= 1 ==> Entitlement(hire, n + 2, t) == Entitlement(hire, n, s) + 100
    ensures YearGrants(hire, n, s, Entitlement(hire, n, s))
  {
    GrantExact(hire, n, s, Entitlement(hire, n, s));
    ProRataBounds(hire, s, s);
    hide ProRataLeave, CompletedYears, PeriodEnd, MonthsServed;
  }

  // ---------------------------------------------------------------- expiry

  /** Whether carried leave of year `n` lapses on the eve of an anniversary that falls on 29 February. */
  predicate LapsesOnEve(hire: Date, n: nat) {
    CivilOf(hire).month == 2 && CivilOf(hire).day == 29
    && IsLeap(YearOf(hire) + n + 3) && !IsLeap(YearOf(hire) + n)
  }

  /**
    * Leave of year n lapses on the anniversary that starts year n + 3, with one exception: a period start
    * already clamped to 28 February stays on 28 February, one day before a leap-year anniversary.
    */
  lemma ExpiryVersusAnniversary(hire: Date, n: nat)
    ensures ExpiresOn(PeriodStart(hire, n)) == PeriodStart(hire, n + 3) - (if LapsesOnEve(hire, n) then 1 else 0)
  {
    hide YearOf, CivilOf, AddYears;
    var p := PeriodStart(hire, n);
    CivilYear(hire);
    AddYearsMeaning(hire, n);
    AddYearsMeaning(hire, n + 3);
    AddYearsMeaning(p, 3);
    DayWithinMonth(ExpiresOn(p), PeriodStart(hire, n + 3));
  }

  lemma DayWithinMonth(s: Date, t: Date)
    requires CivilOf(s).year == CivilOf(t).year && CivilOf(s).month == CivilOf(t).month
    ensures t - s == CivilOf(t).day - CivilOf(s).day
  {
    CivilRoundTrip(s);
    CivilRoundTrip(t);
  }

  /** Expiry dates are strictly increasing in the period start, and always fall after the period. */
  lemma ExpiriesOrdered(hire: Date, m: nat, n: nat)
    requires m < n
    ensures ExpiresOn(PeriodStart(hire, m)) < ExpiresOn(PeriodStart(hire, n))
    ensures PeriodEnd(hire, m) < ExpiresOn(PeriodStart(hire, m))
  {
    hide YearOf, AddYears;
    ExpiryVersusAnniversary(hire, m);
    ExpiryVersusAnniversary(hire, n);
    PeriodStartsOrdered(hire, m + 1, m + 2);
    PeriodStartsOrdered(hire, m + 2, m + 3);
    AddYearsMeaning(hire, m);
    AddYearsMeaning(hire, n);
    AddYearsMeaning(PeriodStart(hire, m), 3);
    AddYearsMeaning(PeriodStart(hire, n), 3);
    LaterYearLater(ExpiresOn(PeriodStart(hire, m)), ExpiresOn(PeriodStart(hire, n)));
  }

  /**
    * On any date at most three leave years are started and not lapsed, and the current year is one of them:
    * year n is alive exactly when it is the current one, one of the two before, and not lapsed on an eve.
    */
  lemma AliveYears(hire: Date, n: nat, asOf: Date)
    requires hire <= asOf
    requires n <= CompletedYears(hire, asOf)
    ensures var k := CompletedYears(hire, asOf);
      asOf < ExpiresOn(PeriodStart(hire, n)) <==>
        k <= n + 2 && !(k == n + 2 && LapsesOnEve(hire, n) && asOf == PeriodEnd(hire, k))
  {
    hide YearOf, AddYears, CompletedYears;
    var k := CompletedYears(hire, asOf);
    CompletedYearsIsIndex(hire, asOf);
    ExpiryVersusAnniversary(hire, n);
    if k > n + 3 {
      PeriodStartsOrdered(hire, n + 3, k);
    } else if k < n + 2 {
      PeriodStartsOrdered(hire, n + 2, n + 3);
      PeriodsApart(hire, k, n + 2);
    }
  }
}
