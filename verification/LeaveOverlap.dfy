/** The check that a planned leave does not overlap a pending or approved one. */
module LeaveOverlap {
  import opened Calendar
  import opened DayFraction
  import opened LeaveBook

  type Occupied = map<Date, seq<Session>>

  predicate Holds(occupied: Occupied, date: Date, session: Session) {
    date in occupied && session in occupied[date]
  }

  function Push(occupied: Occupied, date: Date, session: Session): (after: Occupied)
    ensures forall d, s :: Holds(after, d, s) <==> Holds(occupied, d, s) || (d == date && s == session)
  {
    var list := if date in occupied then occupied[date] else [];
    var after := occupied[date := list + [session]];
    assert forall s :: s in list + [session] <==> s in list || s == session;
    after
  }

  /** Whether one of the first `n` rows occupies `session` of `date`. */
  ghost predicate RowsOccupy(rows: seq<LeaveDay>, n: nat, date: Date, session: Session)
    requires n <= |rows|
  {
    exists i :: 0 <= i < n && rows[i].date == date && rows[i].session == session
  }

  ghost predicate Relevant(q: Request, start: Date, end: Date) {
    IsActive(q) && RangesOverlap(q, start, end)
  }

  /** Whether one of the first `n` requests that is active in the range occupies `session` of `date`. */
  ghost predicate OccupiedBefore(requests: seq<Request>, n: nat, start: Date, end: Date, date: Date, session: Session)
    requires n <= |requests|
  {
    exists r :: 0 <= r < n && Relevant(requests[r], start, end) && Occupies(requests[r], date, session)
  }

  /** Marks what one request occupies. */
  method Occupy(occupied: Occupied, q: Request) returns (after: Occupied)
    ensures forall d, s :: Holds(after, d, s) <==> Holds(occupied, d, s) || Occupies(q, d, s)
  {
    after := occupied;
    if |q.rows| > 0 {
      for i := 0 to |q.rows|
        invariant forall d, s :: Holds(after, d, s) <==> Holds(occupied, d, s) || RowsOccupy(q.rows, i, d, s)
      {
        after := Push(after, q.rows[i].date, q.rows[i].session);
      }
      return;
    }
    var cur := q.start;
    while cur <= q.end
      invariant q.start <= cur
      invariant forall d, s :: Holds(after, d, s) <==> Holds(occupied, d, s) || (q.start <= d < cur && d <= q.end && s.Full?)
    {
      after := Push(after, cur, Full);
      cur := cur + 1;
    }
  }

  /** `assertNoLeaveSessionOverlap`: whether the planned rows conflict with an active request. */
  method FindOverlap(requests: seq<Request>, rows: seq<LeaveDay>) returns (found: bool)
    ensures found <==> Overlaps(requests, rows)
  {
    if |rows| == 0 {
      return false;
    }
    var start, end := rows[0].date, rows[|rows| - 1].date;
    var occupied: Occupied := map[];
    for r := 0 to |requests|
      invariant forall d, s :: Holds(occupied, d, s) <==> OccupiedBefore(requests, r, start, end, d, s)
    {
      if IsActive(requests[r]) && RangesOverlap(requests[r], start, end) {
        occupied := Occupy(occupied, requests[r]);
      }
    }
    for i := 0 to |rows|
      invariant forall j, s :: 0 <= j < i && Holds(occupied, rows[j].date, s) ==> !SessionsConflict(s, rows[j].session)
    {
      var key := rows[i].date;
      if key in occupied {
        var sessions := occupied[key];
        if exists k :: 0 <= k < |sessions| && SessionsConflict(sessions[k], rows[i].session) {
          ghost var k :| 0 <= k < |sessions| && SessionsConflict(sessions[k], rows[i].session);
          assert Holds(occupied, key, sessions[k]);
          return true;
        }
      }
    }
    return false;
  }
}
