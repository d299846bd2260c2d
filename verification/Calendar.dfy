/**
  * The UTC calendar of ECMAScript dates: a date is its day number (0 is 1 January 1970)
  * in the proleptic Gregorian calendar of section 21.4.1 of ECMA-262.
  */
module Calendar {
  import opened Basics

  type Date = int

  datatype Civil = Civil(year: int, month: int, day: int)

  predicate IsLeap(y: int) {
    y % 4 == 0 && (y % 100 != 0 || y % 400 == 0)
  }

  function DaysInYear(y: int): int {
    if IsLeap(y) then 366 else 365
  }

  /** Number of the first day of year `y`. */
  function YearStart(y: int): Date
    decreases if y < 1970 then 1970 - y else y - 1970
  {
    if y == 1970 then 0
    else if y > 1970 then YearStart(y - 1) + DaysInYear(y - 1)
    else YearStart(y + 1) - DaysInYear(y)
  }

  /** Days of year `y` before month `m`; `m == 13` gives the length of the year. */
  function DaysBeforeMonth(y: int, m: int): int
    requires 1 <= m <= 13
  {
    if m <= 2 then 31 * (m - 1)
    else [59, 90, 120, 151, 181, 212, 243, 273, 304, 334, 365][m - 3] + (if IsLeap(y) then 1 else 0)
  }

  function MonthLength(y: int, m: int): int
    requires 1 <= m <= 12
  {
    DaysBeforeMonth(y, m + 1) - DaysBeforeMonth(y, m)
  }

  predicate IsCivil(c: Civil) {
    1 <= c.month <= 12 && 1 <= c.day <= MonthLength(c.year, c.month)
  }

  /** `Date.UTC(y, m - 1, d)`: a month of 13 is January of the next year, a day of 0 the last of the month before. */
  function DateUtc(y: int, m: int, d: int): Date
    requires 1 <= m <= 13
  {
    if m == 13 then YearStart(y + 1) + d - 1
    else YearStart(y) + DaysBeforeMonth(y, m) + d - 1
  }

  function DayNumber(c: Civil): Date
    requires IsCivil(c)
  {
    DateUtc(c.year, c.month, c.day)
  }

  /** YearFromTime: the last year that starts no later than `t`, searched from year `y`. */
  function YearNear(t: Date, y: int): int
    decreases t < YearStart(y), if t < YearStart(y) then YearStart(y) - t else t - YearStart(y)
  {
    if t < YearStart(y) then YearNear(t, y - 1)
    else if t >= YearStart(y + 1) then YearNear(t, y + 1)
    else y
  }

  function YearOf(t: Date): int {
    YearNear(t, 1970)
  }

  /** Last month at or before `m` that starts no later than day `d` of year `y`. */
  function MonthAt(y: int, d: int, m: int): (k: int)
    requires 1 <= m <= 12
    ensures 1 <= k <= m
    decreases m
  {
    if m == 1 || DaysBeforeMonth(y, m) <= d then m else MonthAt(y, d, m - 1)
  }

  function CivilOf(t: Date): Civil {
    var y := YearOf(t);
    var d := t - YearStart(y);
    var m := MonthAt(y, d, 12);
    Civil(y, m, d - DaysBeforeMonth(y, m) + 1)
  }

  /** DayFromYear of section 21.4.1.3 of ECMA-262. */
  lemma {:induction false} DayFromYear(y: int)
    ensures YearStart(y) == 365 * (y - 1970) + (y - 1969) / 4 - (y - 1901) / 100 + (y - 1601) / 400
    decreases if y < 1970 then 1970 - y else y - 1970
  {
    if y > 1970 {
      DayFromYear(y - 1);
      QuotientsGrow(y - 1);
    } else if y < 1970 {
      DayFromYear(y + 1);
      QuotientsGrow(y);
    }
  }

  /** A year is a leap year exactly when the three quotients of `DayFromYear` grow by one in all. */
  lemma QuotientsGrow(y: int)
    ensures (y + 1 - 1969) / 4 - (y + 1 - 1901) / 100 + (y + 1 - 1601) / 400
         == (y - 1969) / 4 - (y - 1901) / 100 + (y - 1601) / 400 + (if IsLeap(y) then 1 else 0)
  {
    QuotientGrows(y, 4, 1969);
    QuotientGrows(y, 100, 1901);
    QuotientGrows(y, 400, 1601);
  }

  lemma QuotientGrows(y: int, d: int, c: int)
    requires (d == 4 && c == 1969) || (d == 100 && c == 1901) || (d == 400 && c == 1601)
    ensures (y + 1 - c) / d == (y - c) / d + (if y % d == 0 then 1 else 0)
  {
  }

  lemma {:induction false} YearsAscend(y: int, z: int)
    requires y <= z
    ensures YearStart(z) - YearStart(y) >= 365 * (z - y)
    decreases z - y
  {
    if y < z {
      YearsAscend(y, z - 1);
    }
  }

  lemma {:induction false} YearNearContains(t: Date, y: int)
    ensures var z := YearNear(t, y); YearStart(z) <= t < YearStart(z + 1)
    decreases t < YearStart(y), if t < YearStart(y) then YearStart(y) - t else t - YearStart(y)
  {
    if t < YearStart(y) {
      YearNearContains(t, y - 1);
    } else if t >= YearStart(y + 1) {
      YearNearContains(t, y + 1);
    }
  }

  /** A date belongs to exactly one year. */
  lemma YearOfIff(t: Date, y: int)
    ensures YearOf(t) == y <==> YearStart(y) <= t < YearStart(y + 1)
  {
    YearNearContains(t, 1970);
    var z := YearOf(t);
    if z < y {
      YearsAscend(z + 1, y);
    } else if y < z {
      YearsAscend(y + 1, z);
    }
  }

  lemma LaterYearLater(s: Date, t: Date)
    requires YearOf(s) < YearOf(t)
    ensures s < t
  {
    YearOfIff(s, YearOf(s));
    YearOfIff(t, YearOf(t));
    YearsAscend(YearOf(s) + 1, YearOf(t));
  }

  lemma YearLength(y: int)
    ensures YearStart(y + 1) == YearStart(y) + DaysBeforeMonth(y, 13)
  {
  }

  lemma {:induction false} MonthAtFits(y: int, d: int, m: int)
    requires 1 <= m <= 12 && 0 <= d < DaysBeforeMonth(y, m + 1)
    ensures var k := MonthAt(y, d, m); DaysBeforeMonth(y, k) <= d < DaysBeforeMonth(y, k + 1)
    decreases m
  {
    if m > 1 && d < DaysBeforeMonth(y, m) {
      MonthAtFits(y, d, m - 1);
    }
  }

  /** Every day number is the day number of its civil date. */
  lemma CivilRoundTrip(t: Date)
    ensures IsCivil(CivilOf(t)) && DayNumber(CivilOf(t)) == t
  {
    hide YearOf, YearStart;
    YearOfIff(t, YearOf(t));
    YearLength(YearOf(t));
    MonthAtFits(YearOf(t), t - YearStart(YearOf(t)), 12);
  }

  lemma MonthsAscend(y: int, m: int, n: int)
    requires 1 <= m <= n <= 13
    ensures DaysBeforeMonth(y, m) + 28 * (n - m) <= DaysBeforeMonth(y, n)
  {
  }

  /** Every civil date is the civil date of its day number. */
  lemma DayNumberRoundTrip(c: Civil)
    requires IsCivil(c)
    ensures CivilOf(DayNumber(c)) == c
  {
    hide YearOf;
    MonthsAscend(c.year, 1, c.month);
    MonthsAscend(c.year, c.month + 1, 13);
    YearLength(c.year);
    YearOfIff(DayNumber(c), c.year);
    CivilRoundTrip(DayNumber(c));
    SameYearSameCivil(CivilOf(DayNumber(c)), c);
  }

  lemma SameYearSameCivil(c: Civil, e: Civil)
    requires IsCivil(c) && IsCivil(e) && c.year == e.year && DayNumber(c) == DayNumber(e)
    ensures c == e
  {
    if e.month < c.month {
      MonthsAscend(c.year, e.month + 1, c.month);
    } else if c.month < e.month {
      MonthsAscend(c.year, c.month + 1, e.month);
    }
  }

  /** ISO weekday, 1 for Monday to 7 for Sunday. */
  function Weekday(t: Date): (w: int)
    ensures 1 <= w <= 7
  {
    (t + 3) % 7 + 1
  }

  /** Day 0, 1 January 1970, is a Thursday, and the weekdays follow each other. */
  lemma WeekdaysFollow(t: Date)
    ensures Weekday(0) == 4
    ensures Weekday(t + 1) == if Weekday(t) == 7 then 1 else Weekday(t) + 1
  {
  }

  /** Day 0 of the month after `m` is the last day of `m`, the clamp of `addCalendarYearsUtc`. */
  lemma LastDayOfMonth(y: int, m: int)
    requires 1 <= m <= 12
    ensures CivilOf(DateUtc(y, m + 1, 0)) == Civil(y, m, MonthLength(y, m))
  {
    YearLength(y);
    MonthsAscend(y, m, m + 1);
    DayNumberRoundTrip(Civil(y, m, MonthLength(y, m)));
  }

  /** The same month and day in another year, clamped to the end of the month. */
  function InYear(c: Civil, year: int): (e: Civil)
    requires IsCivil(c)
    ensures IsCivil(e)
  {
    Civil(year, c.month, Min(c.day, MonthLength(year, c.month)))
  }

  lemma InYearMeaning(c: Civil, year: int)
    requires IsCivil(c)
    ensures InYear(c, year) == Civil(year, c.month, if c.month == 2 && c.day == 29 && !IsLeap(year) then 28 else c.day)
  {
  }

  lemma CivilYear(t: Date)
    ensures CivilOf(t).year == YearOf(t)
  {
  }

  /** `addCalendarYearsUtc`. */
  function AddYears(t: Date, n: int): Date {
    CivilRoundTrip(t);
    DayNumber(InYear(CivilOf(t), CivilOf(t).year + n))
  }

  /** The year moves by exactly `n`, the month stays, and only 29 February can lose a day. */
  lemma AddYearsMeaning(t: Date, n: int)
    ensures var c, e := CivilOf(t), CivilOf(AddYears(t, n));
      && e.year == c.year + n == YearOf(AddYears(t, n))
      && e.month == c.month
      && e.day == (if c.month == 2 && c.day == 29 && !IsLeap(c.year + n) then 28 else c.day)
  {
    hide YearOf, CivilOf, InYear;
    CivilRoundTrip(t);
    InYearMeaning(CivilOf(t), CivilOf(t).year + n);
    DayNumberRoundTrip(InYear(CivilOf(t), CivilOf(t).year + n));
    CivilYear(AddYears(t, n));
  }

  lemma AddYearsOrdered(t: Date, m: int, n: int)
    requires m < n
    ensures AddYears(t, m) < AddYears(t, n)
  {
    AddYearsMeaning(t, m);
    AddYearsMeaning(t, n);
    LaterYearLater(AddYears(t, m), AddYears(t, n));
  }

  lemma AddZeroYears(t: Date)
    ensures AddYears(t, 0) == t
  {
    CivilRoundTrip(t);
  }
}
