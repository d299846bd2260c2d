/** Helpers shared by the other modules. */
module Basics {
  datatype Option<+T> = None | Some(value: T)

  function Min(a: int, b: int): int {
    if a <= b then a else b
  }

  function Max(a: int, b: int): int {
    if a <= b then b else a
  }

  /** `Math.max(0, x)`. */
  function Max0(a: int): int {
    if a < 0 then 0 else a
  }

  /** `Math.round(a / b)` for a positive `b`: nearest integer, halves upwards. */
  function RoundDiv(a: int, b: int): int
    requires b > 0
  {
    (2 * a + b) / (2 * b)
  }

  /** Some element of a set, the next one of an iteration. */
  method AnyOf<T>(s: set<T>) returns (x: T)
    requires s != {}
    ensures x in s
  {
    x :| x in s;
  }

  /** Sum of the first `n` entries of `s`. */
  function SumTo(s: seq<int>, n: nat): int
    requires n <= |s|
  {
    if n == 0 then 0 else SumTo(s, n - 1) + s[n - 1]
  }

  function Sum(s: seq<int>): int {
    SumTo(s, |s|)
  }

  lemma {:induction false} SumToCongruent(s: seq<int>, t: seq<int>, n: nat)
    requires n <= |s| && n <= |t|
    requires forall i :: 0 <= i < n ==> s[i] == t[i]
    ensures SumTo(s, n) == SumTo(t, n)
  {
    if n > 0 {
      SumToCongruent(s, t, n - 1);
    }
  }

  lemma {:induction false} SumToChangedAt(s: seq<int>, t: seq<int>, n: nat, k: nat)
    requires n <= |s| && n <= |t| && k < n
    requires forall i :: 0 <= i < n && i != k ==> s[i] == t[i]
    ensures SumTo(t, n) == SumTo(s, n) - s[k] + t[k]
  {
    if n - 1 == k {
      SumToCongruent(s, t, k);
    } else {
      SumToChangedAt(s, t, n - 1, k);
    }
  }

  /** A sum of non-negative entries bounds each of them and all its prefixes. */
  lemma {:induction false} SumToBounds(s: seq<int>, n: nat, k: nat)
    requires n <= |s| && k <= n
    requires forall i :: 0 <= i < n ==> s[i] >= 0
    ensures 0 <= SumTo(s, k) <= SumTo(s, n)
    ensures k < n ==> s[k] <= SumTo(s, n)
  {
    if n > 0 {
      if k < n {
        SumToBounds(s, n - 1, k);
      } else {
        SumToBounds(s, n - 1, n - 1);
      }
    }
  }
}
