/** The lesser number, distinct sequences, the pigeonhole principle and sums over distinct sequences. */
module Counting {

  function Min(a: int, b: int): (m: int)
    ensures m <= a && m <= b && (m == a || m == b)
  {
    if a < b then a else b
  }

  ghost predicate Distinct<T(!new)>(s: seq<T>) {
    forall i, j | 0 <= i < j < |s| :: s[i] != s[j]
  }

  ghost function Elements<T(!new)>(s: seq<T>): set<T> { set x | x in s }

  lemma {:induction false} DistinctCount<T(!new)>(s: seq<T>)
    requires Distinct(s)
    ensures |Elements(s)| == |s|
  {
    if s != [] {
      var n := |s| - 1;
      DistinctCount(s[..n]);
      assert Elements(s) == Elements(s[..n]) + {s[n]};
      assert s[n] !in Elements(s[..n]);
    }
  }

  lemma {:induction false} SubsetCount<T>(a: set<T>, b: set<T>)
    requires a <= b
    ensures |a| <= |b|
    ensures |a| == |b| ==> a == b
  {
    assert b == a + (b - a);
    assert a !! (b - a);
  }

  /** The positions of a sequence of length `n`. */
  function Below(n: nat): (positions: set<nat>)
    ensures forall i: nat :: i in positions <==> i < n
    ensures |positions| == n
  {
    if n == 0 then {} else Below(n - 1) + {n - 1}
  }

  /** Pigeonhole: a set of positions below `n` has at most `n` elements, and all of them when it has `n`. */
  lemma Pigeonhole(s: set<nat>, n: nat)
    requires forall x | x in s :: x < n
    ensures |s| <= n
    ensures |s| == n ==> s == Below(n)
  {
    SubsetCount(s, Below(n));
  }

  function WithoutAt<T>(s: seq<T>, k: nat): (r: seq<T>)
    requires k < |s|
    ensures |r| == |s| - 1
    ensures forall i | 0 <= i < |r| :: r[i] == s[if i < k then i else i + 1]
  {
    s[..k] + s[k + 1..]
  }

  ghost function Sum<T>(s: seq<T>, weight: T -> nat): nat {
    if s == [] then 0 else Sum(s[..|s| - 1], weight) + weight(s[|s| - 1])
  }

  lemma {:induction false} SumWithout<T>(s: seq<T>, k: nat, weight: T -> nat)
    requires k < |s|
    ensures Sum(s, weight) == Sum(WithoutAt(s, k), weight) + weight(s[k])
  {
    var n := |s| - 1;
    if k < n {
      SumWithout(s[..n], k, weight);
      assert WithoutAt(s, k)[..n - 1] == WithoutAt(s[..n], k);
    } else {
      assert WithoutAt(s, k) == s[..n];
    }
  }

  /** A distinct sequence drawn from another one weighs no more. */
  lemma {:induction false} SumOfSelection<T(!new)>(a: seq<T>, b: seq<T>, weight: T -> nat)
    requires Distinct(a) && forall x | x in a :: x in b
    ensures Sum(a, weight) <= Sum(b, weight)
  {
    if a != [] {
      var n := |a| - 1;
      assert a[n] in a;
      var k :| 0 <= k < |b| && b[k] == a[n];
      forall x | x in a[..n]
        ensures x in WithoutAt(b, k)
      {
        assert x in a;
        var j :| 0 <= j < |b| && b[j] == x;
        assert j != k;
        assert WithoutAt(b, k)[if j < k then j else j - 1] == x;
      }
      SumOfSelection(a[..n], WithoutAt(b, k), weight);
      SumWithout(b, k, weight);
    }
  }
}
