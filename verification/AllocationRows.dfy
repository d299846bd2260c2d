/** How the row-by-row loops of the leave account add up to the table-wide effects of LeaveBook. */
module AllocationRows {
  import opened Basics
  import opened Calendar
  import opened LeavePolicy
  import opened Fifo
  import opened LeaveBook

  function Indices(n: nat): (ids: seq<nat>)
    ensures |ids| == n && forall i :: 0 <= i < n ==> ids[i] == i
  {
    seq(n, i requires 0 <= i < n => i)
  }

  /** The open ones of the first `n` buckets, oldest first. */
  function OpenList(buckets: seq<Bucket>, n: nat): seq<FifoBucket>
    requires n <= |buckets|
  {
    if n == 0 then []
    else
      var next := if buckets[n - 1].status.Open? then [FifoBucket(n - 1, Remaining(buckets[n - 1]))] else [];
      OpenList(buckets, n - 1) + next
  }

  /** Allocation rows of a vector of amounts indexed by bucket. */
  function Rows(amounts: seq<int>, n: nat): seq<Allocation>
    requires n <= |amounts|
  {
    Positives(Indices(|amounts|), amounts, n)
  }

  // ---------------------------------------------------------------- the filtered list allocates what the table does

  lemma {:induction false} PositivesPrefix(ids: seq<nat>, more: seq<nat>, a: seq<int>, b: seq<int>, n: nat)
    requires n <= |ids| && n <= |more| && n <= |a| && n <= |b|
    requires forall i :: 0 <= i < n ==> ids[i] == more[i] && a[i] == b[i]
    ensures Positives(ids, a, n) == Positives(more, b, n)
  {
    if n > 0 {
      PositivesPrefix(ids, more, a, b, n - 1);
    }
  }

  /** Appending a bucket leaves the allocation to the buckets before it alone. */
  lemma AppendBucket(open: seq<FifoBucket>, next: FifoBucket, days: int)
    ensures var more, p := open + [next], |open|;
      && Capacity(Remainings(more), p) == Capacity(Remainings(open), p)
      && Capacity(Remainings(more), p + 1) == Capacity(Remainings(open), p) + Max0(next.remaining)
      && Positives(Ids(more), Takes(Remainings(more), days), p) == Positives(Ids(open), Takes(Remainings(open), days), p)
  {
    var more := open + [next];
    forall i | 0 <= i <= |open|
      ensures Capacity(Remainings(more), i) == Capacity(Remainings(open), i)
    {
      CapacityCongruent(Remainings(more), Remainings(open), i);
    }
    PositivesPrefix(Ids(more), Ids(open), Takes(Remainings(more), days), Takes(Remainings(open), days), |open|);
  }

  /** The open list grows by an open bucket, and by nothing for an expired one. */
  lemma OpenListGrows(buckets: seq<Bucket>, n: nat)
    requires 0 < n <= |buckets|
    ensures if buckets[n - 1].status.Open?
      then OpenList(buckets, n) == OpenList(buckets, n - 1) + [FifoBucket(n - 1, Remaining(buckets[n - 1]))]
        && Rooms(buckets)[n - 1] == Remaining(buckets[n - 1])
      else OpenList(buckets, n) == OpenList(buckets, n - 1) && Rooms(buckets)[n - 1] == 0
  {
  }

  lemma {:induction false} OpenListCapacity(buckets: seq<Bucket>, n: nat)
    requires n <= |buckets|
    ensures Capacity(Remainings(OpenList(buckets, n)), |OpenList(buckets, n)|) == Capacity(Rooms(buckets), n)
  {
    if n > 0 {
      OpenListCapacity(buckets, n - 1);
      OpenListGrows(buckets, n);
      hide OpenList, Remainings, Rooms;
      if buckets[n - 1].status.Open? {
        AppendBucket(OpenList(buckets, n - 1), FifoBucket(n - 1, Remaining(buckets[n - 1])), 0);
      }
    }
  }

  /** What allocating `days` over a list of open buckets gives. */
  function Allotted(open: seq<FifoBucket>, days: int): seq<Allocation> {
    Positives(Ids(open), Takes(Remainings(open), days), |open|)
  }

  function RowOf(id: nat, days: int): seq<Allocation> {
    if days > 0 then [Allocation(id, days)] else []
  }

  /** Appending a bucket to a list appends its row, if it has one. */
  lemma AppendRow(open: seq<FifoBucket>, next: FifoBucket, days: int)
    ensures |Remainings(open + [next])| == |open| + 1 && Remainings(open + [next])[|open|] == next.remaining
    ensures Capacity(Remainings(open + [next]), |open|) == Capacity(Remainings(open), |open|)
    ensures Allotted(open + [next], days)
         == Allotted(open, days) + RowOf(next.id, Take(Remainings(open + [next]), days, |open|))
  {
    hide Capacity, Take;
    AppendBucket(open, next, days);
  }

  lemma RowsStep(rooms: seq<int>, days: int, n: nat)
    requires 0 < n <= |rooms|
    ensures Rows(Takes(rooms, days), n) == Rows(Takes(rooms, days), n - 1) + RowOf(n - 1, Take(rooms, days, n - 1))
  {
    hide Take;
  }

  lemma SameTake(r: seq<int>, s: seq<int>, days: int, i: nat, j: nat)
    requires i < |r| && j < |s| && r[i] == s[j] && Capacity(r, i) == Capacity(s, j)
    ensures Take(r, days, i) == Take(s, days, j)
  {
    hide Capacity;
  }

  lemma NothingTaken(rooms: seq<int>, days: int, i: nat)
    requires i < |rooms| && rooms[i] == 0
    ensures RowOf(i, Take(rooms, days, i)) == []
  {
    hide Capacity;
  }

  lemma NothingAllotted(buckets: seq<Bucket>, days: int)
    ensures Allotted(OpenList(buckets, 0), days) == Rows(Takes(Rooms(buckets), days), 0)
  {
  }

  /** One more bucket: what the open list gives it is what the table takes from it. */
  lemma AllottedStep(buckets: seq<Bucket>, days: int, n: nat)
    requires 0 < n <= |buckets|
    requires Allotted(OpenList(buckets, n - 1), days) == Rows(Takes(Rooms(buckets), days), n - 1)
    ensures Allotted(OpenList(buckets, n), days) == Rows(Takes(Rooms(buckets), days), n)
  {
    hide OpenList, Allotted, Rows, Takes, Remainings, Take, Capacity, RowOf, Remaining, Rooms;
    var rooms, open := Rooms(buckets), OpenList(buckets, n - 1);
    OpenListGrows(buckets, n);
    RoomsLength(buckets);
    RowsStep(rooms, days, n);
    if buckets[n - 1].status.Open? {
      var next := FifoBucket(n - 1, Remaining(buckets[n - 1]));
      AppendRow(open, next, days);
      OpenListCapacity(buckets, n - 1);
      SameTake(Remainings(open + [next]), rooms, days, |open|, n - 1);
    } else {
      NothingTaken(rooms, days, n - 1);
    }
  }

  lemma RoomsLength(buckets: seq<Bucket>)
    ensures |Rooms(buckets)| == |buckets|
  {
  }

  /** Allocating over the open buckets only takes from each of them what allocating over the table takes. */
  lemma {:induction false} OpenListAllocates(buckets: seq<Bucket>, days: int, n: nat)
    requires n <= |buckets|
    ensures Allotted(OpenList(buckets, n), days) == Rows(Takes(Rooms(buckets), days), n)
  {
    hide OpenList, Allotted, Rows;
    if n == 0 {
      NothingAllotted(buckets, days);
    } else {
      OpenListAllocates(buckets, days, n - 1);
      AllottedStep(buckets, days, n);
    }
  }

  lemma {:induction false} OpenListNewest(buckets: seq<Bucket>, n: nat)
    requires n <= |buckets|
    ensures var open := OpenList(buckets, n);
      if open == [] then Newest(buckets, n) < 0 else open[|open| - 1].id == Newest(buckets, n)
  {
    if n > 0 {
      OpenListNewest(buckets, n - 1);
    }
  }

  // ---------------------------------------------------------------- walking down allocation rows

  lemma {:induction false} RowsBelow(amounts: seq<int>, n: nat)
    requires n <= |amounts|
    ensures forall i :: 0 <= i < |Rows(amounts, n)| ==> Rows(amounts, n)[i].id < n
  {
    if n > 0 {
      RowsBelow(amounts, n - 1);
      var rows, next := Rows(amounts, n - 1), Allocation(n - 1, amounts[n - 1]);
      assert Rows(amounts, n) == rows || Rows(amounts, n) == rows + [next];
    }
  }

  lemma {:induction false} RowsSkip(amounts: seq<int>, m: nat, n: nat)
    requires m <= n <= |amounts| && forall i :: m <= i < n ==> amounts[i] <= 0
    ensures Rows(amounts, m) == Rows(amounts, n)
  {
    if m < n {
      RowsSkip(amounts, m, n - 1);
    }
  }

  /** Row `k` is the next positive amount after the buckets whose rows are the first `k`. */
  lemma {:induction false} NextRow(amounts: seq<int>, n: nat, k: nat, m: nat)
    requires m <= n <= |amounts| && k < |Rows(amounts, n)| && Rows(amounts, m) == Rows(amounts, n)[..k]
    ensures var row := Rows(amounts, n)[k];
      && m <= row.id < n && amounts[row.id] == row.days > 0
      && (forall i :: m <= i < row.id ==> amounts[i] <= 0)
      && Rows(amounts, row.id + 1) == Rows(amounts, n)[..k + 1]
  {
    var rows := Rows(amounts, n);
    if m < n {
      if amounts[n - 1] > 0 && k == |rows| - 1 {
        assert Rows(amounts, n - 1) == rows[..k];
        RowsEqualSkip(amounts, m, n - 1);
        assert rows[..k + 1] == rows;
      } else {
        NextRow(amounts, n - 1, k, m);
        assert Rows(amounts, n - 1)[..k + 1] == rows[..k + 1];
      }
    }
  }

  /** Equal rows leave nothing positive in between. */
  lemma {:induction false} RowsEqualSkip(amounts: seq<int>, m: nat, n: nat)
    requires m <= n <= |amounts| && Rows(amounts, m) == Rows(amounts, n)
    ensures forall i :: m <= i < n ==> amounts[i] <= 0
  {
    if m < n {
      RowsGrow(amounts, m, n - 1);
      RowsEqualSkip(amounts, m, n - 1);
    }
  }

  lemma {:induction false} RowsGrow(amounts: seq<int>, m: nat, n: nat)
    requires m <= n <= |amounts|
    ensures |Rows(amounts, m)| <= |Rows(amounts, n)|
    ensures |Rows(amounts, m)| == |Rows(amounts, n)| ==> Rows(amounts, m) == Rows(amounts, n)
  {
    if m < n {
      RowsGrow(amounts, m, n - 1);
    }
  }

  /** Adding the shortfall to the newest open bucket changes or adds the last allocation row. */
  lemma OverdrawnRows(takes: seq<int>, draws: seq<int>, w: nat)
    requires w < |takes| == |draws|
    requires forall i :: 0 <= i < |takes| && i != w ==> draws[i] == takes[i]
    requires forall i :: w < i < |takes| ==> takes[i] <= 0
    requires draws[w] > takes[w] >= 0
    ensures var rows := Rows(takes, |takes|);
      if takes[w] > 0
      then |rows| > 0 && rows[|rows| - 1] == Allocation(w, takes[w])
        && Rows(draws, |draws|) == rows[..|rows| - 1] + [Allocation(w, draws[w])]
      else Rows(draws, |draws|) == rows + [Allocation(w, draws[w])]
    ensures var rows := Rows(takes, |takes|);
      forall i :: 0 <= i < |rows| ==> (rows[i].id == w <==> takes[w] > 0 && i == |rows| - 1)
  {
    RowsSkip(takes, w + 1, |takes|);
    RowsSkip(draws, w + 1, |draws|);
    PositivesPrefix(Indices(|takes|), Indices(|draws|), takes, draws, w);
    RowsBelow(takes, w);
    assert Rows(takes, w + 1) == Rows(takes, w) + (if takes[w] > 0 then [Allocation(w, takes[w])] else []);
  }

  // ---------------------------------------------------------------- one step of each loop

  lemma {:induction false} FlatPrefix(a: seq<seq<Entry>>, b: seq<seq<Entry>>, n: nat)
    requires n <= |a| && n <= |b| && forall i :: 0 <= i < n ==> a[i] == b[i]
    ensures Flat(a, n) == Flat(b, n)
  {
    if n > 0 {
      FlatPrefix(a, b, n - 1);
    }
  }

  lemma {:induction false} FlatSkip(batches: seq<seq<Entry>>, m: nat, n: nat)
    requires m <= n <= |batches| && forall i :: m <= i < n ==> batches[i] == []
    ensures Flat(batches, m) == Flat(batches, n)
  {
    if m < n {
      FlatSkip(batches, m, n - 1);
    }
  }

  lemma {:induction false} SharesSkip(allocs: map<(nat, nat), int>, r: nat, draws: seq<int>, m: nat, n: nat)
    requires m <= n <= |draws| && forall i :: m <= i < n ==> draws[i] <= 0
    ensures WithShares(allocs, r, draws, m) == WithShares(allocs, r, draws, n)
  {
    if m < n {
      SharesSkip(allocs, r, draws, m, n - 1);
    }
  }

  /** Buckets that give nothing can be skipped. */
  lemma DrawnSkip(book: Book, r: nat, draws: seq<int>, mode: Mode, m: nat, n: nat)
    requires m <= n <= |draws| == |book.buckets| && forall i :: m <= i < n ==> draws[i] <= 0
    ensures Drawn(book, r, draws, mode, m) == Drawn(book, r, draws, mode, n)
  {
    hide Flat, WithShares;
    FlatSkip(DrawBatches(r, draws, mode), m, n);
    SharesSkip(book.allocs, r, draws, m, n);
    assert ChargedBuckets(book.buckets, draws, mode, m) == ChargedBuckets(book.buckets, draws, mode, n);
  }

  /** One more bucket that gives something. */
  lemma DrawnStep(book: Book, r: nat, draws: seq<int>, mode: Mode, j: nat)
    requires j < |draws| == |book.buckets| && draws[j] > 0
    ensures var before, kind := Drawn(book, r, draws, mode, j), if mode.Reserving? then Reserve else Consume;
      && before.buckets[j] == book.buckets[j]
      && Drawn(book, r, draws, mode, j + 1) == before.(
           buckets := before.buckets[j := ChargedBucket(book.buckets[j], draws[j], mode)],
           allocs := before.allocs[(r, j) := draws[j]],
           ledger := before.ledger + [Entry(j, Some(r), kind, draws[j])])
  {
    var before, kind := Drawn(book, r, draws, mode, j), if mode.Reserving? then Reserve else Consume;
    assert ChargedBuckets(book.buckets, draws, mode, j + 1) == before.buckets[j := ChargedBucket(book.buckets[j], draws[j], mode)];
    assert book.ledger + (Flat(DrawBatches(r, draws, mode), j) + [Entry(j, Some(r), kind, draws[j])])
        == before.ledger + [Entry(j, Some(r), kind, draws[j])];
  }

  lemma DeductedSkip(book: Book, takes: seq<int>, m: nat, n: nat)
    requires m <= n <= |takes| == |book.buckets| && forall i :: m <= i < n ==> takes[i] == 0
    ensures DeductedTo(book, takes, m) == DeductedTo(book, takes, n)
  {
    hide Flat;
    FlatSkip(DeductBatches(takes), m, n);
    assert ChargedBuckets(book.buckets, takes, Consuming, m) == ChargedBuckets(book.buckets, takes, Consuming, n);
  }

  lemma DeductedStep(book: Book, takes: seq<int>, j: nat)
    requires j < |takes| == |book.buckets| && takes[j] > 0
    ensures var before := DeductedTo(book, takes, j);
      && before.buckets[j] == book.buckets[j]
      && DeductedTo(book, takes, j + 1) == before.(
           buckets := before.buckets[j := ChargedBucket(book.buckets[j], takes[j], Consuming)],
           ledger := before.ledger + [Entry(j, None, Adjust, -takes[j])])
  {
    var before := DeductedTo(book, takes, j);
    assert ChargedBuckets(book.buckets, takes, Consuming, j + 1)
        == before.buckets[j := ChargedBucket(book.buckets[j], takes[j], Consuming)];
    assert book.ledger + (Flat(DeductBatches(takes), j) + [Entry(j, None, Adjust, -takes[j])])
        == before.ledger + [Entry(j, None, Adjust, -takes[j])];
  }

  /** Granting leave year `n` after the years before it. */
  lemma GrantStep(book: Book, asOf: Date, n: nat)
    ensures var before, b := GrantYears(book, asOf, n), Entitlement(book.hire, n, asOf);
      && |before.buckets| == Max(|book.buckets|, n)
      && (n < |book.buckets| ==> before.buckets[n] == book.buckets[n])
      && GrantYears(book, asOf, n + 1) ==
           if n >= |book.buckets|
           then before.(buckets := before.buckets + [FreshBucket(book.hire, n, asOf)], ledger := before.ledger + [Entry(n, None, Grant, b)])
           else if b > book.buckets[n].granted
           then before.(buckets := before.buckets[n := ToppedUp(book.buckets[n], book.hire, n, asOf)],
                        ledger := before.ledger + [Entry(n, None, TopUp, b - book.buckets[n].granted)])
           else before
  {
    hide Entitlement, PeriodStart, PeriodEnd, ExpiresOn;
    var before, after := GrantYears(book, asOf, n), GrantYears(book, asOf, n + 1);
    FlatPrefix(GrantBatches(book, asOf, n), GrantBatches(book, asOf, n + 1), n);
    var batch := GrantBatches(book, asOf, n + 1)[n];
    assert after.ledger == before.ledger + batch;
    if n >= |book.buckets| {
      assert after.buckets == before.buckets + [FreshBucket(book.hire, n, asOf)];
    } else {
      assert after.buckets == before.buckets[n := ToppedUp(book.buckets[n], book.hire, n, asOf)];
    }
  }

  lemma LapseStep(book: Book, asOf: Date, n: nat)
    requires n < |book.buckets|
    ensures var before, left := Lapse(book, asOf, n), Max0(Remaining(book.buckets[n]));
      && before.buckets[n] == book.buckets[n]
      && Lapse(book, asOf, n + 1) ==
           if !Lapses(book.buckets[n], asOf) then before
           else before.(buckets := before.buckets[n := Lapsed(book.buckets[n], asOf)],
                        ledger := before.ledger + (if left > 0 then [Entry(n, None, Expire, left)] else []))
  {
    var before, after := Lapse(book, asOf, n), Lapse(book, asOf, n + 1);
    var batch := LapseBatches(book.buckets, asOf)[n];
    assert after.ledger == before.ledger + batch;
    assert after.buckets == before.buckets[n := Lapsed(book.buckets[n], asOf)];
  }

  lemma ConsumeStep(book: Book, r: nat, n: nat)
    requires n < |book.buckets|
    ensures var before, b := Consumed(book, r, n), book.buckets[n];
      && before.buckets[n] == b
      && Consumed(book, r, n + 1) ==
           if (r, n) !in book.allocs then before
           else before.(buckets := before.buckets[n := b.(pending := Max0(b.pending - book.allocs[(r, n)]), used := b.used + book.allocs[(r, n)])],
                        ledger := before.ledger + [Entry(n, Some(r), Consume, book.allocs[(r, n)])])
  {
    var before, after := Consumed(book, r, n), Consumed(book, r, n + 1);
    assert after.ledger == before.ledger + ShareBatches(book, r, Consume)[n];
    assert after.buckets == before.buckets[n := after.buckets[n]];
  }

  lemma ReleaseStep(book: Book, r: nat, n: nat)
    requires n < |book.buckets|
    ensures var before, b := ReleasedTo(book, r, n), book.buckets[n];
      && before.buckets[n] == b
      && ReleasedTo(book, r, n + 1) ==
           if (r, n) !in book.allocs then before
           else before.(buckets := before.buckets[n := b.(pending := Max0(b.pending - book.allocs[(r, n)]))],
                        ledger := before.ledger + [Entry(n, Some(r), Release, book.allocs[(r, n)])])
  {
    var before, after := ReleasedTo(book, r, n), ReleasedTo(book, r, n + 1);
    assert after.ledger == before.ledger + ShareBatches(book, r, Release)[n];
    assert after.buckets == before.buckets[n := after.buckets[n]];
  }
}
