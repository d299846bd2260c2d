/** The birthday of a week, found year by year, against the birthday test of a day. */
module Birthdays {
  import opened Basics
  import opened Calendar

  /** `isBirthdayOnDate`: 29 February is celebrated on 28 February in other years. */
  predicate IsBirthdayOn(birth: Date, today: Date) {
    var b, t := CivilOf(birth), CivilOf(today);
    if b.month == 2 && b.day == 29 && !IsLeap(t.year) then t.month == 2 && t.day == 28
    else t.month == b.month && t.day == b.day
  }

  /** The birthday in year `year`. */
  function BirthdayIn(birth: Date, year: int): Date {
    CivilRoundTrip(birth);
    DayNumber(InYear(CivilOf(birth), year))
  }

  /** Each calendar year has exactly one birthday. */
  lemma OneBirthdayAYear(birth: Date, today: Date)
    ensures IsBirthdayOn(birth, today) <==> today == BirthdayIn(birth, YearOf(today))
  {
    hide YearOf, CivilOf, InYear, DayNumber;
    CivilRoundTrip(birth);
    CivilRoundTrip(today);
    CivilYear(today);
    var c := InYear(CivilOf(birth), YearOf(today));
    InYearMeaning(CivilOf(birth), YearOf(today));
    DayNumberRoundTrip(c);
    assert IsBirthdayOn(birth, today) <==> CivilOf(today) == c;
  }

  lemma BirthdayYear(birth: Date, year: int)
    ensures YearOf(BirthdayIn(birth, year)) == year
  {
    hide YearOf, YearNear;
    CivilRoundTrip(birth);
    DayNumberRoundTrip(InYear(CivilOf(birth), year));
    CivilYear(BirthdayIn(birth, year));
  }

  function WeekStart(today: Date): Date {
    today - (Weekday(today) - 1)
  }

  function WeekEnd(today: Date): Date {
    WeekStart(today) + 6
  }

  /** A week starts on a Monday and contains its day. */
  lemma WeekMeaning(today: Date)
    ensures Weekday(WeekStart(today)) == 1 && Weekday(WeekEnd(today)) == 7
    ensures WeekStart(today) <= today <= WeekEnd(today)
  {
  }

  /** `birthdayInWeek`: finds the one day of the week that is a birthday, or that there is none. */
  method BirthdayInWeek(birth: Date, today: Date) returns (found: Option<Date>)
    ensures forall d :: WeekStart(today) <= d <= WeekEnd(today) ==> (IsBirthdayOn(birth, d) <==> found == Some(d))
    ensures found.Some? ==> WeekStart(today) <= found.value <= WeekEnd(today)
  {
    hide YearOf, YearNear, CivilOf, IsBirthdayOn, BirthdayIn, WeekStart, WeekEnd;
    var start, end := WeekStart(today), WeekEnd(today);
    var b := CivilOf(birth);
    WeekYears(today);
    CivilRoundTrip(birth);
    var years := if YearOf(start) == YearOf(end) then [YearOf(start)] else [YearOf(start), YearOf(end)];
    for i := 0 to |years|
      invariant forall j :: 0 <= j < i ==> !(start <= BirthdayIn(birth, years[j]) <= end)
    {
      var year := years[i];
      var occurrence := Civil(year, b.month, b.day);
      if !IsCivil(occurrence) && b.month == 2 && b.day == 29 {
        occurrence := Civil(year, 2, 28);
      }
      OccurrenceIsBirthday(birth, year, occurrence);
      if start <= DayNumber(occurrence) <= end {
        OnlyBirthday(birth, today, year);
        return Some(DayNumber(occurrence));
      }
    }
    forall d | start <= d <= end
      ensures !IsBirthdayOn(birth, d)
    {
      OneBirthdayAYear(birth, d);
      YearWithin(start, d, end);
      assert years[0] == YearOf(d) || years[|years| - 1] == YearOf(d);
    }
    return None;
  }

  /** The date tried in `year`: the month and day of birth, or 28 February when they are not a date of that year. */
  function Occurrence(birth: Civil, year: int): Civil {
    if !IsCivil(Civil(year, birth.month, birth.day)) && birth.month == 2 && birth.day == 29 then Civil(year, 2, 28)
    else Civil(year, birth.month, birth.day)
  }

  /** The occurrence built in `year` is a valid date, the birthday of that year. */
  lemma OccurrenceIsBirthday(birth: Date, year: int, occurrence: Civil)
    requires occurrence == Occurrence(CivilOf(birth), year)
    ensures IsCivil(occurrence) && DayNumber(occurrence) == BirthdayIn(birth, year)
  {
    hide YearOf, YearNear, CivilOf, YearStart;
    CivilRoundTrip(birth);
  }

  /** A later date is in no earlier year. */
  lemma YearWithin(s: Date, d: Date, e: Date)
    requires s <= d <= e && YearOf(e) <= YearOf(s) + 1
    ensures YearOf(d) == YearOf(s) || YearOf(d) == YearOf(e)
  {
    hide YearOf;
    if YearOf(d) < YearOf(s) {
      LaterYearLater(d, s);
    } else if YearOf(e) < YearOf(d) {
      LaterYearLater(e, d);
    }
  }

  /** A week touches at most two years. */
  lemma WeekYears(today: Date)
    ensures YearOf(WeekStart(today)) <= YearOf(WeekEnd(today)) <= YearOf(WeekStart(today)) + 1
  {
    hide YearOf, YearStart;
    var s, e := WeekStart(today), WeekEnd(today);
    YearOfIff(s, YearOf(s));
    YearOfIff(e, YearOf(e));
    if YearOf(e) < YearOf(s) {
      LaterYearLater(e, s);
    } else if YearOf(e) > YearOf(s) + 1 {
      YearsAscend(YearOf(s) + 1, YearOf(e));
    }
  }

  /** Two birthdays are never in the same week. */
  lemma OnlyBirthday(birth: Date, today: Date, year: int)
    requires WeekStart(today) <= BirthdayIn(birth, year) <= WeekEnd(today)
    ensures forall d :: WeekStart(today) <= d <= WeekEnd(today) ==> (IsBirthdayOn(birth, d) <==> d == BirthdayIn(birth, year))
  {
    hide YearOf, YearNear, CivilOf, IsBirthdayOn, BirthdayIn, WeekStart;
    forall d | WeekStart(today) <= d <= WeekEnd(today)
      ensures IsBirthdayOn(birth, d) <==> d == BirthdayIn(birth, year)
    {
      OneBirthdayAYear(birth, d);
      BirthdayYear(birth, year);
      if YearOf(d) != year {
        BirthdaysApart(birth, YearOf(d), year);
      }
    }
  }

  /** Birthdays of different years are more than a week apart. */
  lemma BirthdaysApart(birth: Date, y: int, z: int)
    requires y != z
    ensures BirthdayIn(birth, y) - BirthdayIn(birth, z) > 7 || BirthdayIn(birth, z) - BirthdayIn(birth, y) > 7
  {
    hide YearOf, YearNear, CivilOf;
    CivilRoundTrip(birth);
    var low, high := if y < z then y else z, if y < z then z else y;
    YearsAscend(low, high);
    DayOfYearClose(CivilOf(birth), low, high);
  }

  /** The same month and day is at most two days apart within two years. */
  lemma DayOfYearClose(c: Civil, y: int, z: int)
    requires IsCivil(c)
    ensures var d, e := DayNumber(InYear(c, y)) - YearStart(y), DayNumber(InYear(c, z)) - YearStart(z);
      -2 <= d - e <= 2
  {
    hide YearStart;
  }
}
