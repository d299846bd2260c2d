/** Leave days of a work schedule and the fraction of a day, in hundredths, that each of them costs. */
module DayFraction {
  import opened Basics
  import opened Calendar

  datatype Session = Full | Morning | Afternoon

  datatype LeaveDay = LeaveDay(date: Date, session: Session, fraction: int)

  /** A wall-clock time in minutes after midnight, or text that is not one. */
  datatype Time = Malformed | At(minutes: int)

  datatype Rule = Rule(checkIn: Time, checkOut: Time)

  datatype DayTimes = DayTimes(weekday: int, rule: Rule)

  datatype Schedule = Schedule(workingDays: seq<int>, checkIn: Option<Time>, checkOut: Option<Time>, days: seq<DayTimes>)

  datatype Pick = Pick(date: Date, session: Session)

  const DEFAULT_CHECK_IN := At(8 * 60 + 30)
  const DEFAULT_CHECK_OUT := At(17 * 60 + 30)

  function ScheduledMinutes(rule: Rule): (mins: int)
    ensures mins >= 0
  {
    if rule.checkIn.Malformed? || rule.checkOut.Malformed? then 0
    else Max0(rule.checkOut.minutes - rule.checkIn.minutes)
  }

  function DefaultRule(schedule: Schedule): Rule {
    Rule(if schedule.checkIn.Some? then schedule.checkIn.value else DEFAULT_CHECK_IN,
         if schedule.checkOut.Some? then schedule.checkOut.value else DEFAULT_CHECK_OUT)
  }

  /** The last of the first `n` day rules for `weekday`. */
  function LastRule(days: seq<DayTimes>, weekday: int, n: nat): Option<Rule>
    requires n <= |days|
  {
    if n == 0 then None
    else if days[n - 1].weekday == weekday then Some(days[n - 1].rule)
    else LastRule(days, weekday, n - 1)
  }

  /** The rule in force on `weekday`. */
  function RuleAt(schedule: Schedule, weekday: int): Option<Rule> {
    if |schedule.days| > 0 then LastRule(schedule.days, weekday, |schedule.days|)
    else if weekday in schedule.workingDays then Some(DefaultRule(schedule))
    else None
  }

  function MinutesAt(schedule: Schedule, weekday: int): int {
    match RuleAt(schedule, weekday)
    case Some(rule) => ScheduledMinutes(rule)
    case None => 0
  }

  /** The longest day is as long as every day, and is one of the days unless no day has any minutes. */
  ghost predicate IsLongest(schedule: Schedule, longest: int) {
    && (forall w :: MinutesAt(schedule, w) <= longest)
    && (longest == 0 || exists w :: MinutesAt(schedule, w) == longest)
  }

  function Listed(schedule: Schedule): seq<int> {
    if |schedule.days| > 0
    then seq(|schedule.days|, i requires 0 <= i < |schedule.days| => schedule.days[i].weekday)
    else schedule.workingDays
  }

  function Longest(schedule: Schedule, n: nat): int
    requires n <= |Listed(schedule)|
  {
    if n == 0 then 0 else Max(Longest(schedule, n - 1), MinutesAt(schedule, Listed(schedule)[n - 1]))
  }

  /** Minutes that count as one full day of leave. */
  function FullDayMinutes(schedule: Schedule): int {
    var max := Longest(schedule, |Listed(schedule)|);
    if max > 0 then max else 8 * 60
  }

  function LeaveFraction(schedule: Schedule, weekday: int): int {
    var mins := MinutesAt(schedule, weekday);
    if mins <= 0 then 0 else RoundDiv(100 * mins, FullDayMinutes(schedule))
  }

  lemma {:induction false} RuledDaysListed(days: seq<DayTimes>, weekday: int, n: nat)
    requires n <= |days| && LastRule(days, weekday, n).Some?
    ensures exists i :: 0 <= i < n && days[i].weekday == weekday
  {
    if days[n - 1].weekday != weekday {
      RuledDaysListed(days, weekday, n - 1);
    }
  }

  lemma {:induction false} LongestBounds(schedule: Schedule, n: nat)
    requires n <= |Listed(schedule)|
    ensures Longest(schedule, n) >= 0
    ensures forall i :: 0 <= i < n ==> MinutesAt(schedule, Listed(schedule)[i]) <= Longest(schedule, n)
    ensures Longest(schedule, n) == 0 || exists w :: MinutesAt(schedule, w) == Longest(schedule, n)
  {
    if n > 0 {
      LongestBounds(schedule, n - 1);
    }
  }

  lemma LongestIsLongest(schedule: Schedule)
    ensures IsLongest(schedule, Longest(schedule, |Listed(schedule)|))
  {
    LongestBounds(schedule, |Listed(schedule)|);
    forall w
      ensures MinutesAt(schedule, w) <= Longest(schedule, |Listed(schedule)|)
    {
      if RuleAt(schedule, w).Some? {
        if |schedule.days| > 0 {
          RuledDaysListed(schedule.days, w, |schedule.days|);
          var i :| 0 <= i < |schedule.days| && schedule.days[i].weekday == w;
          assert Listed(schedule)[i] == w;
        } else {
          var i :| 0 <= i < |schedule.workingDays| && schedule.workingDays[i] == w;
          assert Listed(schedule)[i] == w;
        }
      }
    }
  }

  /** No day of a schedule costs more than one day of leave, and a longest day costs exactly one. */
  lemma FractionAtMostOne(schedule: Schedule, weekday: int)
    ensures 0 <= LeaveFraction(schedule, weekday) <= 100
    ensures MinutesAt(schedule, weekday) == FullDayMinutes(schedule) ==> LeaveFraction(schedule, weekday) == 100
  {
    LongestIsLongest(schedule);
    RoundedShare(MinutesAt(schedule, weekday), FullDayMinutes(schedule));
  }

  lemma RoundedShare(mins: int, full: int)
    requires 0 <= mins && 0 < full
    ensures 0 <= RoundDiv(100 * mins, full)
    ensures mins <= full ==> RoundDiv(100 * mins, full) <= 100
    ensures mins == full ==> RoundDiv(100 * mins, full) == 100
  {
    var a, b := 200 * mins + full, 2 * full;
    assert a / b * b <= a < a / b * b + b;
    if mins <= full {
      QuotientAtMost(a, b, 100);
    }
    if mins == full {
      QuotientAtLeast(a, b, 100);
    }
  }

  lemma QuotientAtMost(a: int, b: int, q: int)
    requires b > 0 && a < (q + 1) * b
    ensures a / b <= q
  {
    Products(b, q + 1, a / b);
  }

  lemma Products(b: int, p: int, q: int)
    requires b > 0
    ensures p <= q ==> p * b <= q * b
  {
  }

  lemma QuotientAtLeast(a: int, b: int, q: int)
    requires b > 0 && a >= q * b
    ensures a / b >= q
  {
    Products(b, a / b + 1, q);
  }

  // ---------------------------------------------------------------- what a day costs

  /** Scheduled minutes between two times of day; none when one of them is malformed or the end is not later. */
  predicate MinutesBetween(checkIn: Time, checkOut: Time, mins: int) {
    match (checkIn, checkOut)
    case (At(start), At(end)) => if start < end then start + mins == end else mins == 0
    case _ => mins == 0
  }

  /**
    * The rule in force on a weekday. With day rules it is the last one of that weekday, and a weekday without any has
    * no minutes; without day rules every working day has the times of the schedule, or 08:30 and 17:30 by default.
    */
  lemma MinutesInForce(schedule: Schedule, weekday: int)
    ensures schedule.days != [] ==>
      && (forall i :: 0 <= i < |schedule.days| && LastOf(schedule.days, weekday, i) ==>
            MinutesBetween(schedule.days[i].rule.checkIn, schedule.days[i].rule.checkOut, MinutesAt(schedule, weekday)))
      && ((forall i :: 0 <= i < |schedule.days| ==> schedule.days[i].weekday != weekday) ==> MinutesAt(schedule, weekday) == 0)
    ensures schedule.days == [] ==>
      if weekday !in schedule.workingDays then MinutesAt(schedule, weekday) == 0
      else MinutesBetween(if schedule.checkIn.Some? then schedule.checkIn.value else At(510),
                          if schedule.checkOut.Some? then schedule.checkOut.value else At(1050), MinutesAt(schedule, weekday))
  {
    if schedule.days == [] {
      RuleMinutes(DefaultRule(schedule));
    } else {
      hide MinutesBetween, ScheduledMinutes, LastRule, LastOf;
      forall i | 0 <= i < |schedule.days| && LastOf(schedule.days, weekday, i)
        ensures MinutesBetween(schedule.days[i].rule.checkIn, schedule.days[i].rule.checkOut, MinutesAt(schedule, weekday))
      {
        LastRuleAt(schedule.days, weekday, i, |schedule.days|);
        RuleMinutes(schedule.days[i].rule);
      }
      if RuleAt(schedule, weekday).Some? {
        RuledDaysListed(schedule.days, weekday, |schedule.days|);
      }
    }
  }

  lemma RuleMinutes(rule: Rule)
    ensures MinutesBetween(rule.checkIn, rule.checkOut, ScheduledMinutes(rule))
  {
  }

  /** Rule `i` is the last one of the weekday. */
  predicate LastOf(days: seq<DayTimes>, weekday: int, i: nat)
    requires i < |days|
  {
    days[i].weekday == weekday && forall j :: i < j < |days| ==> days[j].weekday != weekday
  }

  lemma {:induction false} LastRuleAt(days: seq<DayTimes>, weekday: int, i: nat, n: nat)
    requires i < n <= |days| && LastOf(days, weekday, i)
    ensures LastRule(days, weekday, n) == Some(days[i].rule)
  {
    if i < n - 1 {
      LastRuleAt(days, weekday, i, n - 1);
    }
  }

  /** `share` hundredths are the nearest to `mins` out of `full` minutes, halves upwards. */
  predicate IsNearest(mins: int, full: int, share: int) {
    200 * mins - full < 2 * full * share <= 200 * mins + full
  }

  lemma RoundDivNearest(mins: int, full: int)
    requires full > 0
    ensures IsNearest(mins, full, RoundDiv(100 * mins, full))
  {
    var a, b := 200 * mins + full, 2 * full;
    assert a / b * b <= a < a / b * b + b;
  }

  lemma NearestUnique(mins: int, full: int, s: int, t: int)
    requires full > 0 && IsNearest(mins, full, s) && IsNearest(mins, full, t)
    ensures s == t
  {
    if s < t {
      Products(2 * full, s + 1, t);
    } else if t < s {
      Products(2 * full, t + 1, s);
    }
  }

  /** The minutes of a full day when the longest day has `longest` minutes. */
  function FullDay(longest: int): (full: int)
    ensures full > 0
  {
    if longest > 0 then longest else 480
  }

  /** A weekday costs its minutes out of those of the longest day, or of 8 hours, to the nearest hundredth. */
  lemma NearestHundredth(schedule: Schedule, weekday: int, longest: int)
    requires IsLongest(schedule, longest)
    ensures IsNearest(MinutesAt(schedule, weekday), FullDay(longest), LeaveFraction(schedule, weekday))
  {
    hide MinutesAt;
    LongestIsLongest(schedule);
    MinutesNotNegative(schedule, weekday);
    assert longest >= 0 by {
      MinutesNotNegative(schedule, 0);
    }
    assert longest == Longest(schedule, |Listed(schedule)|) by {
      LongestUnique(schedule, longest, Longest(schedule, |Listed(schedule)|));
    }
    RoundDivNearest(MinutesAt(schedule, weekday), FullDay(longest));
  }

  lemma MinutesNotNegative(schedule: Schedule, weekday: int)
    ensures MinutesAt(schedule, weekday) >= 0
  {
  }

  lemma LongestUnique(schedule: Schedule, m: int, n: int)
    requires IsLongest(schedule, m) && IsLongest(schedule, n)
    ensures m == n
  {
    MinutesNotNegative(schedule, 0);
  }

  /** A half-day row costs half of the full day, halves of a hundredth upwards; a full-day row costs it all. */
  lemma HalfOfDay(day: LeaveDay, session: Session)
    ensures var row := WithSession(day, session);
      && row.date == day.date && row.session == session
      && (if session.Full? then row.fraction == day.fraction else day.fraction <= 2 * row.fraction <= day.fraction + 1)
  {
  }

  /** The map of `dayRules`: exactly the weekdays in force, each with its rule. */
  method DayRules(schedule: Schedule) returns (rules: map<int, Rule>)
    ensures forall w :: w in rules <==> RuleAt(schedule, w).Some?
    ensures forall w :: w in rules ==> RuleAt(schedule, w) == Some(rules[w])
  {
    rules := map[];
    if |schedule.days| > 0 {
      for i := 0 to |schedule.days|
        invariant forall w :: w in rules <==> LastRule(schedule.days, w, i).Some?
        invariant forall w :: w in rules ==> LastRule(schedule.days, w, i) == Some(rules[w])
      {
        var d := schedule.days[i];
        rules := rules[d.weekday := d.rule];
      }
      return;
    }
    for i := 0 to |schedule.workingDays|
      invariant forall w :: w in rules <==> w in schedule.workingDays[..i]
      invariant forall w :: w in rules ==> rules[w] == DefaultRule(schedule)
    {
      rules := rules[schedule.workingDays[i] := DefaultRule(schedule)];
    }
  }

  /** `fullDayMinutes`: the longest day of the schedule, or 8 hours when it has none. */
  method LongestDay(schedule: Schedule) returns (full: int)
    ensures full == FullDayMinutes(schedule)
    ensures full > 0
    ensures forall w :: MinutesAt(schedule, w) <= full
    ensures full == 8 * 60 || exists w :: MinutesAt(schedule, w) == full
  {
    var rules := DayRules(schedule);
    var max := 0;
    var rest := rules.Keys;
    while rest != {}
      invariant rest <= rules.Keys && max >= 0
      invariant forall w :: w !in rest ==> MinutesAt(schedule, w) <= max
      invariant max == 0 || exists w :: MinutesAt(schedule, w) == max
      decreases rest
    {
      var w := AnyOf(rest);
      assert MinutesAt(schedule, w) == ScheduledMinutes(rules[w]);
      max := Max(max, ScheduledMinutes(rules[w]));
      rest := rest - {w};
    }
    LongestIsLongest(schedule);
    full := if max > 0 then max else 8 * 60;
  }

  method LeaveFractionForWeekday(schedule: Schedule, weekday: int) returns (fraction: int)
    ensures fraction == LeaveFraction(schedule, weekday)
    ensures 0 <= fraction <= 100
    ensures forall longest :: IsLongest(schedule, longest) ==> IsNearest(MinutesAt(schedule, weekday), FullDay(longest), fraction)
  {
    FractionAtMostOne(schedule, weekday);
    forall longest | IsLongest(schedule, longest)
      ensures IsNearest(MinutesAt(schedule, weekday), FullDay(longest), LeaveFraction(schedule, weekday))
    {
      NearestHundredth(schedule, weekday, longest);
    }
    var rules := DayRules(schedule);
    if weekday !in rules {
      return 0;
    }
    var mins := ScheduledMinutes(rules[weekday]);
    if mins <= 0 {
      return 0;
    }
    var full := LongestDay(schedule);
    return RoundDiv(100 * mins, full);
  }

  /** The working days from `start` to `end`, each as a full day. */
  function WorkingDays(schedule: Schedule, start: Date, end: Date): seq<LeaveDay>
    decreases end - start
  {
    if end < start then []
    else
      var fraction := LeaveFraction(schedule, Weekday(end));
      WorkingDays(schedule, start, end - 1) + (if fraction > 0 then [LeaveDay(end, Full, fraction)] else [])
  }

  /** `workingLeaveDays`. */
  method WorkingLeaveDays(schedule: Schedule, start: Date, end: Date) returns (out: seq<LeaveDay>)
    ensures out == WorkingDays(schedule, start, end)
  {
    out := [];
    if end < start {
      return;
    }
    var cur := start;
    while cur <= end
      invariant start <= cur <= end + 1
      invariant out == WorkingDays(schedule, start, cur - 1)
    {
      var fraction := LeaveFractionForWeekday(schedule, Weekday(cur));
      if fraction > 0 {
        out := out + [LeaveDay(cur, Full, fraction)];
      }
      cur := cur + 1;
    }
  }

  /** The session chosen for `date` by the last of the first `n` picks. */
  function PickedSession(picks: seq<Pick>, date: Date, n: nat): Session
    requires n <= |picks|
  {
    if n == 0 then Full
    else if picks[n - 1].date == date then picks[n - 1].session
    else PickedSession(picks, date, n - 1)
  }

  function WithSession(day: LeaveDay, session: Session): LeaveDay {
    LeaveDay(day.date, session, if session.Full? then day.fraction else RoundDiv(day.fraction, 2))
  }

  function WithSessions(days: seq<LeaveDay>, picks: seq<Pick>): (out: seq<LeaveDay>)
    ensures |out| == |days|
  {
    seq(|days|, i requires 0 <= i < |days| => WithSession(days[i], PickedSession(picks, days[i].date, |picks|)))
  }

  /** `applyLeaveSessions`. */
  method ApplyLeaveSessions(days: seq<LeaveDay>, picks: seq<Pick>) returns (out: seq<LeaveDay>)
    ensures out == WithSessions(days, picks)
  {
    var byKey: map<Date, Session> := map[];
    for i := 0 to |picks|
      invariant forall d :: PickedSession(picks, d, i) == if d in byKey then byKey[d] else Full
    {
      byKey := byKey[picks[i].date := picks[i].session];
    }
    out := [];
    for i := 0 to |days|
      invariant out == WithSessions(days, picks)[..i]
    {
      var session := if days[i].date in byKey then byKey[days[i].date] else Full;
      out := out + [WithSession(days[i], session)];
    }
  }

  function FractionSum(days: seq<LeaveDay>, n: nat): int
    requires n <= |days|
  {
    if n == 0 then 0 else FractionSum(days, n - 1) + days[n - 1].fraction
  }

  function SumLeaveDayFractions(days: seq<LeaveDay>): int {
    FractionSum(days, |days|)
  }

  /** Two leave sessions on one date exclude each other. */
  predicate SessionsConflict(a: Session, b: Session) {
    if a.Full? || b.Full? then true else a == b
  }

  // ---------------------------------------------------------------- rows of a plan

  /** Leave rows in date order, inside the range, each costing no more than its share of the date. */
  ghost predicate GoodRows(rows: seq<LeaveDay>, start: Date, end: Date) {
    && (forall i, j :: 0 <= i < j < |rows| ==> rows[i].date < rows[j].date)
    && (forall i :: 0 <= i < |rows| ==> start <= rows[i].date <= end)
    && (forall i :: 0 <= i < |rows| ==> 0 <= rows[i].fraction <= (if rows[i].session.Full? then 100 else 50))
  }

  lemma {:induction false} WorkingDaysGood(schedule: Schedule, start: Date, end: Date)
    ensures GoodRows(WorkingDays(schedule, start, end), start, end)
    ensures forall i :: 0 <= i < |WorkingDays(schedule, start, end)| ==> WorkingDays(schedule, start, end)[i].session.Full?
    decreases end - start
  {
    if start <= end {
      WorkingDaysGood(schedule, start, end - 1);
      FractionAtMostOne(schedule, Weekday(end));
    }
  }

  ghost predicate HasRow(rows: seq<LeaveDay>, d: Date) {
    exists i :: 0 <= i < |rows| && rows[i].date == d
  }

  function RowIfAny(schedule: Schedule, d: Date): seq<LeaveDay> {
    var cost := LeaveFraction(schedule, Weekday(d));
    if cost > 0 then [LeaveDay(d, Full, cost)] else []
  }

  lemma WorkingDaysStep(schedule: Schedule, start: Date, end: Date)
    requires start <= end
    ensures WorkingDays(schedule, start, end) == WorkingDays(schedule, start, end - 1) + RowIfAny(schedule, end)
  {
    hide LeaveFraction, Weekday;
  }

  lemma HasRowAppend(rows: seq<LeaveDay>, more: seq<LeaveDay>, d: Date)
    ensures HasRow(rows + more, d) <==> HasRow(rows, d) || HasRow(more, d)
  {
    if HasRow(rows, d) {
      var i :| 0 <= i < |rows| && rows[i].date == d;
      assert (rows + more)[i].date == d;
    }
    if HasRow(more, d) {
      var i :| 0 <= i < |more| && more[i].date == d;
      assert (rows + more)[|rows| + i].date == d;
    }
  }

  lemma RowIfAnyMeaning(schedule: Schedule, end: Date, d: Date)
    ensures HasRow(RowIfAny(schedule, end), d) <==> d == end && LeaveFraction(schedule, Weekday(d)) > 0
  {
    hide LeaveFraction, Weekday;
    if d == end && LeaveFraction(schedule, Weekday(d)) > 0 {
      assert RowIfAny(schedule, end)[0].date == d;
    }
  }

  /** A date of the range has a row exactly when it costs something, and the row costs just that. */
  lemma {:induction false} WorkingDaysExact(schedule: Schedule, start: Date, end: Date, d: Date)
    ensures var rows, cost := WorkingDays(schedule, start, end), LeaveFraction(schedule, Weekday(d));
      && (HasRow(rows, d) <==> start <= d <= end && cost > 0)
      && (forall i :: 0 <= i < |rows| && rows[i].date == d ==> rows[i].fraction == cost)
    decreases end - start
  {
    hide LeaveFraction, Weekday, HasRow;
    if start <= end {
      hide WorkingDays;
      WorkingDaysExact(schedule, start, end - 1, d);
      WorkingDaysStep(schedule, start, end);
      HasRowAppend(WorkingDays(schedule, start, end - 1), RowIfAny(schedule, end), d);
      RowIfAnyMeaning(schedule, end, d);
    } else {
      NoRows(d);
    }
  }

  lemma NoRows(d: Date)
    ensures !HasRow([], d)
  {
  }

  /** `session` is what the last of the first `n` picks for `date` chose, or a full day without one. */
  ghost predicate LastPicked(picks: seq<Pick>, date: Date, session: Session, n: nat)
    requires n <= |picks|
  {
    if exists k :: 0 <= k < n && picks[k].date == date
    then exists k :: 0 <= k < n && picks[k] == Pick(date, session) && forall j :: k < j < n ==> picks[j].date != date
    else session.Full?
  }

  lemma {:induction false} PickedIsLast(picks: seq<Pick>, date: Date, n: nat)
    requires n <= |picks|
    ensures LastPicked(picks, date, PickedSession(picks, date, n), n)
  {
    if n > 0 && picks[n - 1].date == date {
      assert picks[n - 1] == Pick(date, picks[n - 1].session);
    } else if n > 0 {
      PickedIsLast(picks, date, n - 1);
    }
  }

  /**
    * The planned rows, and with them the days of a request: a date has a row exactly when it is in the range and costs
    * `cost > 0` by the schedule, and each of its rows has the session picked last and costs `cost` or half of it.
    */
  lemma PlannedCosts(schedule: Schedule, start: Date, end: Date, picks: seq<Pick>, d: Date, longest: int, cost: int)
    requires IsLongest(schedule, longest) && IsNearest(MinutesAt(schedule, Weekday(d)), FullDay(longest), cost)
    ensures var rows := WithSessions(WorkingDays(schedule, start, end), picks);
      && (HasRow(rows, d) <==> start <= d <= end && cost > 0)
      && (forall i :: 0 <= i < |rows| && rows[i].date == d ==>
            && LastPicked(picks, d, rows[i].session, |picks|)
            && (if rows[i].session.Full? then rows[i].fraction == cost else cost <= 2 * rows[i].fraction <= cost + 1))
  {
    hide LeaveFraction, Weekday, MinutesAt, IsNearest, IsLongest, WorkingDays, LastPicked, PickedSession;
    NearestHundredth(schedule, Weekday(d), longest);
    NearestUnique(MinutesAt(schedule, Weekday(d)), FullDay(longest), cost, LeaveFraction(schedule, Weekday(d)));
    WorkingDaysExact(schedule, start, end, d);
    var days := WorkingDays(schedule, start, end);
    var rows := WithSessions(days, picks);
    assert forall i :: 0 <= i < |rows| ==> rows[i].date == days[i].date;
    PickedIsLast(picks, d, |picks|);
    WorkingDaysGood(schedule, start, end);
    forall i | 0 <= i < |rows| && rows[i].date == d
      ensures LastPicked(picks, d, rows[i].session, |picks|)
      ensures if rows[i].session.Full? then rows[i].fraction == cost else cost <= 2 * rows[i].fraction <= cost + 1
    {
      HalfOfDay(days[i], PickedSession(picks, d, |picks|));
    }
  }

  /** Half of a rounded fraction, rounded up, is still at most half a day. */
  lemma PlannedRowsGood(schedule: Schedule, start: Date, end: Date, picks: seq<Pick>)
    ensures GoodRows(WithSessions(WorkingDays(schedule, start, end), picks), start, end)
  {
    WorkingDaysGood(schedule, start, end);
  }
}
