/** Divisibility and primality, as far as double hashing needs them. */
module Primes {

  ghost predicate IsPrime(n: nat) {
    n >= 2 && forall d :: 2 <= d < n ==> n % d != 0
  }

  ghost predicate Divides(d: int, n: int) {
    exists k :: n == k * d
  }

  /** Euclid's lemma for a factor below the prime. */
  lemma {:induction false} EuclidBelow(p: nat, x: int, y: nat, m: int)
    requires IsPrime(p) && 0 < y < p
    requires x * y == m * p
    ensures Divides(p, x)
    decreases y
  {
    if y == 1 {
      assert x == m * p;
    } else {
      var k, r := p / y, p % y;
      assert r != 0;
      assert p == k * y + r;
      calc {
        x * r;
        x * (p - k * y);
        { Distribute(x, p, k, y); }
        x * p - k * (x * y);
        x * p - k * (m * p);
        { Collect(x, k, m, p); }
        (x - k * m) * p;
      }
      EuclidBelow(p, x, r, x - k * m);
    }
  }

  lemma Distribute(x: int, p: int, k: int, y: int)
    ensures x * (p - k * y) == x * p - k * (x * y)
  {
    assert x * (k * y) == k * (x * y);
  }

  lemma Collect(x: int, k: int, m: int, p: int)
    ensures x * p - k * (m * p) == (x - k * m) * p
  {
    assert k * (m * p) == (k * m) * p;
  }

  /** Two values of one residue block that differ by a multiple of the block length are equal. */
  lemma NoMultipleWithin(k: int, p: nat, x: int, y: int)
    requires 0 <= x < p && 0 <= y < p && y == x + k * p
    ensures x == y
  {
    MultipleAwayFromZero(k, p);
  }

  lemma MultipleAwayFromZero(k: int, p: nat)
    ensures k >= 1 ==> k * p >= p
    ensures k <= -1 ==> k * p + p <= 0
  {
    if k >= 1 {
      assert (k - 1) * p >= 0;
    } else if k <= -1 {
      assert (-k - 1) * p >= 0;
    }
  }

  /** No multiple of a prime lies strictly between 0 and the prime. */
  lemma NotDividesBelow(p: nat, x: int)
    requires 0 < x < p
    ensures !Divides(p, x)
  {
    if Divides(p, x) {
      var k :| x == k * p;
      NoMultipleWithin(k, p, 0, x);
    }
  }

  /** Distinct naturals below n: at most n of them. */
  ghost predicate Distinct<T>(s: seq<T>) {
    forall i, j :: 0 <= i < j < |s| ==> s[i] != s[j]
  }

  lemma {:induction false} DistinctCardinality<T>(s: seq<T>)
    requires Distinct(s)
    ensures |set x | x in s| == |s|
  {
    if |s| == 0 {
      assert (set x | x in s) == {};
    } else {
      var t := s[..|s| - 1];
      DistinctCardinality(t);
      assert (set x | x in s) == (set x | x in t) + {s[|s| - 1]};
      assert s[|s| - 1] !in t;
    }
  }

  function Below(n: nat): (r: set<int>)
    ensures forall x: int :: x in r <==> 0 <= x < n
    ensures |r| == n
  {
    if n == 0 then {} else Below(n - 1) + {n - 1}
  }

  lemma SubsetCardinality<T>(a: set<T>, b: set<T>)
    requires a <= b
    ensures |a| <= |b|
    ensures |a| == |b| ==> a == b
  {
    assert b == a + (b - a);
    if |a| == |b| {
      assert |b - a| == 0;
    }
  }

  /** The pigeonhole principle: distinct values below n are at most n, and n of them are all of them. */
  lemma Pigeonhole(s: seq<int>, n: nat)
    requires Distinct(s)
    requires forall i :: 0 <= i < |s| ==> 0 <= s[i] < n
    ensures |s| <= n
    ensures |s| == n ==> forall x :: 0 <= x < n ==> x in s
  {
    DistinctCardinality(s);
    var elements := set x | x in s;
    assert elements <= Below(n);
    SubsetCardinality(elements, Below(n));
    if |s| == n {
      forall x | 0 <= x < n
        ensures x in s
      {
        assert x in Below(n);
        assert x in elements;
      }
    }
  }

  /** Fewer than n distinct values leave one below n out. */
  lemma LeftOut(s: seq<int>, n: nat) returns (x: nat)
    requires Distinct(s) && |s| < n
    ensures x < n && x !in s
  {
    DistinctCardinality(s);
    var elements := set x | x in s;
    if Below(n) <= elements {
      SubsetCardinality(Below(n), elements);
      assert false;
    }
    x :| x in Below(n) && x !in elements;
  }
}
