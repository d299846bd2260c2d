/** Oldest-first allocation of days over buckets. */
module Fifo {
  import opened Basics

  datatype FifoBucket = FifoBucket(id: nat, remaining: int)

  datatype Allocation = Allocation(id: nat, days: int)

  datatype FifoResult =
    | Fits(allocations: seq<Allocation>)
    | Short(shortfall: int, allocations: seq<Allocation>)

  /** Days that the first `n` buckets can still give. */
  function Capacity(rem: seq<int>, n: nat): (c: int)
    requires n <= |rem|
    ensures c >= 0
  {
    if n == 0 then 0 else Capacity(rem, n - 1) + Max0(rem[n - 1])
  }

  /** Days taken from bucket `i`: what is still needed after all older buckets, up to what the bucket has. */
  function Take(rem: seq<int>, days: int, i: nat): int
    requires i < |rem|
  {
    Min(Max0(rem[i]), Max0(days - Capacity(rem, i)))
  }

  function Takes(rem: seq<int>, days: int): seq<int> {
    seq(|rem|, i requires 0 <= i < |rem| => Take(rem, days, i))
  }

  function Shortfall(rem: seq<int>, days: int): int {
    Max0(Max0(days) - Capacity(rem, |rem|))
  }

  /** The non-zero amounts of a vector as allocation rows; row `i` belongs to bucket `ids[i]`. */
  function Positives(ids: seq<nat>, amounts: seq<int>, n: nat): seq<Allocation>
    requires n <= |ids| && n <= |amounts|
  {
    if n == 0 then []
    else Positives(ids, amounts, n - 1) + (if amounts[n - 1] > 0 then [Allocation(ids[n - 1], amounts[n - 1])] else [])
  }

  function Ids(buckets: seq<FifoBucket>): seq<nat> {
    seq(|buckets|, i requires 0 <= i < |buckets| => buckets[i].id)
  }

  function Remainings(buckets: seq<FifoBucket>): seq<int> {
    seq(|buckets|, i requires 0 <= i < |buckets| => buckets[i].remaining)
  }

  lemma {:induction false} CapacityGrows(rem: seq<int>, m: nat, n: nat)
    requires m <= n <= |rem|
    ensures Capacity(rem, m) <= Capacity(rem, n)
    decreases n
  {
    if m < n {
      CapacityGrows(rem, m, n - 1);
    }
  }

  lemma {:induction false} CapacityCongruent(r: seq<int>, s: seq<int>, n: nat)
    requires n <= |r| && n <= |s|
    requires forall i :: 0 <= i < n ==> Max0(r[i]) == Max0(s[i])
    ensures Capacity(r, n) == Capacity(s, n)
  {
    if n > 0 {
      CapacityCongruent(r, s, n - 1);
    }
  }

  /** Every prefix of the buckets gives the lesser of the demand and its own capacity. */
  lemma {:induction false} PrefixTaken(rem: seq<int>, days: int, n: nat)
    requires n <= |rem|
    ensures SumTo(Takes(rem, days), n) == Min(Max0(days), Capacity(rem, n))
  {
    if n > 0 {
      PrefixTaken(rem, days, n - 1);
    }
  }

  /** What is taken and what is short add up to the demand; nothing is short exactly when capacity suffices. */
  lemma TakenPlusShort(rem: seq<int>, days: int)
    ensures Sum(Takes(rem, days)) + Shortfall(rem, days) == Max0(days)
    ensures Shortfall(rem, days) == 0 <==> days <= Capacity(rem, |rem|)
  {
    PrefixTaken(rem, days, |rem|);
  }

  /** What is left of each bucket after allocating `days`. */
  function Left(rem: seq<int>, days: int): seq<int> {
    seq(|rem|, i requires 0 <= i < |rem| => rem[i] - Take(rem, days, i))
  }

  lemma {:induction false} CapacityLeft(rem: seq<int>, days: int, n: nat)
    requires n <= |rem|
    ensures Capacity(Left(rem, days), n) == Capacity(rem, n) - Min(Max0(days), Capacity(rem, n))
  {
    if n > 0 {
      CapacityLeft(rem, days, n - 1);
    }
  }

  /** Allocating `x` and then `y` on what is left takes from each bucket what allocating `x + y` takes. */
  lemma AllocationAdds(rem: seq<int>, x: nat, y: nat, i: nat)
    requires i < |rem|
    ensures Take(rem, x, i) + Take(Left(rem, x), y, i) == Take(rem, x + y, i)
  {
    CapacityLeft(rem, x, i);
  }

  /** An allocation of `days` that overdraws no bucket. */
  ghost predicate Feasible(rem: seq<int>, days: int, a: seq<int>) {
    |a| == |rem| && Sum(a) == days && forall i :: 0 <= i < |a| ==> 0 <= a[i] <= Max0(rem[i])
  }

  lemma FifoFeasible(rem: seq<int>, days: int)
    requires 0 <= days <= Capacity(rem, |rem|)
    ensures Feasible(rem, days, Takes(rem, days))
  {
    PrefixTaken(rem, days, |rem|);
  }

  /** No feasible allocation of the same size takes more from any prefix of the buckets. */
  lemma FifoTakesOldestMost(rem: seq<int>, days: int, a: seq<int>, n: nat)
    requires Feasible(rem, days, a) && n <= |rem|
    ensures SumTo(a, n) <= SumTo(Takes(rem, days), n)
  {
    SumToBounds(a, |a|, n);
    PrefixTaken(rem, days, n);
    PrefixWithinCapacity(rem, a, n);
  }

  lemma {:induction false} PrefixWithinCapacity(rem: seq<int>, a: seq<int>, n: nat)
    requires n <= |a| == |rem|
    requires forall i :: 0 <= i < |a| ==> a[i] <= Max0(rem[i])
    ensures SumTo(a, n) <= Capacity(rem, n)
  {
    if n > 0 {
      PrefixWithinCapacity(rem, a, n - 1);
    }
  }

  /** `allocateFifo`. */
  method AllocateFifo(buckets: seq<FifoBucket>, days: int) returns (r: FifoResult)
    ensures r.allocations == Positives(Ids(buckets), Takes(Remainings(buckets), days), |buckets|)
    ensures r.Fits? <==> days <= Capacity(Remainings(buckets), |buckets|)
    ensures r.Short? ==> r.shortfall == days - Capacity(Remainings(buckets), |buckets|)
  {
    ghost var ids, rem := Ids(buckets), Remainings(buckets);
    ghost var takes := Takes(rem, days);
    var need := Max0(days);
    var allocations := [];
    var i := 0;
    while i < |buckets|
      invariant i <= |buckets|
      invariant need == Max0(days) - Min(Max0(days), Capacity(rem, i))
      invariant allocations == Positives(ids, takes, i)
    {
      var bucket := buckets[i];
      if need <= 0 {
        NothingMore(ids, rem, days, i, |buckets|);
        CapacityGrows(rem, i, |buckets|);
        break;
      }
      var take := Min(Max0(bucket.remaining), need);
      assert takes[i] == take;
      i := i + 1;
      if take <= 0 {
        continue;
      }
      allocations := allocations + [Allocation(bucket.id, take)];
      need := need - take;
    }
    if need > 0 {
      return Short(need, allocations);
    }
    return Fits(allocations);
  }

  /** Once the demand is met, the remaining buckets give nothing. */
  lemma {:induction false} NothingMore(ids: seq<nat>, rem: seq<int>, days: int, m: nat, n: nat)
    requires m <= n <= |rem| == |ids|
    requires Max0(days) <= Capacity(rem, m)
    ensures Positives(ids, Takes(rem, days), m) == Positives(ids, Takes(rem, days), n)
    decreases n
  {
    if m < n {
      NothingMore(ids, rem, days, m, n - 1);
      CapacityGrows(rem, m, n - 1);
    }
  }
}
