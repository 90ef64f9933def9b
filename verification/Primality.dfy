/** Pocklington's criterion: a number is proved prime by powers of a base, modulo that number. */
module Primality {
  import opened Primes

  function Pow(b: nat, e: nat): nat {
    if e == 0 then 1 else b * Pow(b, e - 1)
  }

  lemma Regroup(x: int, y: int, z: int)
    ensures x * (y * z) == (x * y) * z
  {
  }

  lemma {:induction false} PowAdd(b: nat, i: nat, j: nat)
    ensures Pow(b, i + j) == Pow(b, i) * Pow(b, j)
  {
    if i > 0 {
      PowAdd(b, i - 1, j);
      Regroup(b, Pow(b, i - 1), Pow(b, j));
    }
  }

  /** x and y leave the same remainder. */
  ghost predicate Cong(m: nat, x: int, y: int) {
    Divides(m, x - y)
  }

  lemma CongBy(m: nat, x: int, y: int, k: int)
    requires x - y == k * m
    ensures Cong(m, x, y)
  {
  }

  lemma CongTimes(m: nat, x: int, y: int, c: int)
    requires Cong(m, x, y)
    ensures Cong(m, x * c, y * c)
  {
    var k :| x - y == k * m;
    assert x * c - y * c == (x - y) * c == (k * m) * c == (k * c) * m;
    CongBy(m, x * c, y * c, k * c);
  }

  lemma CongChain(m: nat, x: int, y: int, z: int)
    requires Cong(m, x, y) && Cong(m, y, z)
    ensures Cong(m, x, z) && Cong(m, z, x)
  {
    var j :| x - y == j * m;
    var k :| y - z == k * m;
    assert x - z == (j + k) * m && z - x == (-j - k) * m;
    CongBy(m, x, z, j + k);
    CongBy(m, z, x, -j - k);
  }

  lemma CongDown(n: nat, m: nat, x: int, y: int)
    requires Cong(n, x, y) && Divides(m, n)
    ensures Cong(m, x, y)
  {
    var j :| x - y == j * n;
    var k :| n == k * m;
    assert x - y == j * (k * m) == (j * k) * m;
    CongBy(m, x, y, j * k);
  }

  /** 1 is no multiple of anything above 1. */
  lemma NotZero(m: nat)
    requires m > 1
    ensures !Cong(m, 0, 1) && !Cong(m, 1, 0)
  {
    if Cong(m, 0, 1) {
      var k :| 0 - 1 == k * m;
      MultipleAwayFromZero(k, m);
    }
    if Cong(m, 1, 0) {
      var k :| 1 - 0 == k * m;
      MultipleAwayFromZero(k, m);
    }
  }

  /* ---------- The order of a base ---------- */

  ghost predicate One(b: nat, e: nat, m: nat) {
    Cong(m, Pow(b, e), 1)
  }

  ghost predicate IsOrder(b: nat, o: nat, m: nat) {
    o > 0 && One(b, o, m) && forall e | 0 < e < o :: !One(b, e, m)
  }

  lemma {:induction false} OrderExists(b: nat, e: nat, m: nat) returns (o: nat)
    requires e > 0 && One(b, e, m)
    ensures IsOrder(b, o, m)
    decreases e
  {
    if smaller :| 0 < smaller < e && One(b, smaller, m) {
      o := OrderExists(b, smaller, m);
    } else {
      o := e;
    }
  }

  /** A factor that is congruent to 1 can go. */
  lemma OneLess(b: nat, e: nat, o: nat, m: nat)
    requires o <= e && One(b, o, m)
    ensures Cong(m, Pow(b, e), Pow(b, e - o))
  {
    PowAdd(b, o, e - o);
    CongTimes(m, Pow(b, o), 1, Pow(b, e - o));
  }

  lemma {:induction false} OrderDivides(b: nat, e: nat, o: nat, m: nat) returns (k: nat)
    requires IsOrder(b, o, m) && One(b, e, m)
    ensures e == k * o
    decreases e
  {
    if e < o {
      k := 0;
    } else {
      hide Pow, Cong;
      OneLess(b, e, o, m);
      CongBy(m, Pow(b, e - o), Pow(b, e - o), 0);
      CongChain(m, Pow(b, e), Pow(b, e - o), Pow(b, e - o));
      CongChain(m, Pow(b, e - o), Pow(b, e), 1);
      k := OrderDivides(b, e - o, o, m);
      k := k + 1;
    }
  }

  lemma {:induction false} OneRepeats(b: nat, k: nat, o: nat, m: nat)
    requires One(b, o, m)
    ensures One(b, k * o, m)
  {
    if k == 0 {
      assert k * o == 0;
      CongBy(m, 1, 1, 0);
    } else {
      OneRepeats(b, k - 1, o, m);
      assert k * o == (k - 1) * o + o;
      OneLess(b, k * o, o, m);
      CongChain(m, Pow(b, k * o), Pow(b, (k - 1) * o), 1);
    }
  }

  lemma RemainderIsCong(x: nat, m: nat)
    requires m > 0
    ensures Cong(m, x, x % m)
  {
    CongBy(m, x, x % m, x / m);
  }

  lemma SameRemainder(x: nat, y: nat, m: nat)
    requires m > 0 && x % m == y % m
    ensures Cong(m, x, y)
  {
    assert x - y == (x / m - y / m) * m;
    CongBy(m, x, y, x / m - y / m);
  }

  /** The powers below the order have different remainders. */
  lemma PowersDiffer(b: nat, i: nat, j: nat, o: nat, m: nat)
    requires IsOrder(b, o, m) && i < j < o
    ensures !Cong(m, Pow(b, i), Pow(b, j))
  {
    if Cong(m, Pow(b, i), Pow(b, j)) {
      CongTimes(m, Pow(b, i), Pow(b, j), Pow(b, o - j));
      PowAdd(b, i, o - j);
      PowAdd(b, j, o - j);
      CongChain(m, Pow(b, i + (o - j)), Pow(b, o), 1);
      assert One(b, i + (o - j), m);
    }
  }

  lemma PowersNotZero(b: nat, i: nat, o: nat, m: nat)
    requires IsOrder(b, o, m) && i < o && m > 1
    ensures !Cong(m, Pow(b, i), 0)
  {
    if Cong(m, Pow(b, i), 0) {
      CongTimes(m, Pow(b, i), 0, Pow(b, o - i));
      PowAdd(b, i, o - i);
      CongChain(m, 1, 1, 1) by { CongBy(m, 1, 1, 0); }
      CongChain(m, Pow(b, o), 1, 1);
      CongChain(m, 1, Pow(b, o), 0);
      NotZero(m);
    }
  }

  /** There are only m - 1 remainders for them. */
  lemma OrderBelowModulus(b: nat, o: nat, m: nat)
    requires IsOrder(b, o, m) && m > 1
    ensures o < m
  {
    var powers := seq(o, i requires 0 <= i < o => Pow(b, i) % m - 1);
    forall i, j | 0 <= i < j < o
      ensures powers[i] != powers[j]
    {
      PowersDiffer(b, i, j, o, m);
      if Pow(b, i) % m == Pow(b, j) % m {
        SameRemainder(Pow(b, i), Pow(b, j), m);
      }
    }
    forall i | 0 <= i < o
      ensures 0 <= powers[i] < m - 1
    {
      PowersNotZero(b, i, o, m);
      RemainderIsCong(Pow(b, i), m);
    }
    Pigeonhole(powers, m - 1);
  }

  /* ---------- The criterion ---------- */

  function Product(factors: seq<nat>): nat {
    if factors == [] then 1 else factors[0] * Product(factors[1..])
  }

  /** Euclid's lemma for any factor. */
  lemma Euclid(p: nat, x: nat, y: nat)
    requires IsPrime(p) && Divides(p, x * y)
    ensures Divides(p, x) || Divides(p, y)
  {
    var k :| x * y == k * p;
    var r := y % p;
    var q := y / p;
    if r == 0 {
      assert y == q * p;
    } else {
      assert x * r == x * (y - q * p) == x * y - x * (q * p) == k * p - (x * q) * p == (k - x * q) * p;
      EuclidBelow(p, x, r, k - x * q);
    }
  }

  lemma Cancel(x: int, y: int, q: nat)
    requires q > 0 && x * q == y * q
    ensures x == y
  {
    assert (x - y) * q == x * q - y * q;
    MultipleAwayFromZero(x - y, q);
  }

  lemma Positive(j: int, q: nat, x: nat)
    requires q > 0 && x == j * q
    ensures j >= 0
  {
    MultipleAwayFromZero(j, q);
  }

  /** A divisor above 1 of a product of primes shares one of them. */
  lemma {:induction false} SharedPrime(k: nat, o: nat, factors: seq<nat>) returns (q: nat)
    requires k > 1 && k * o == Product(factors)
    requires forall f | f in factors :: IsPrime(f)
    ensures q in factors && Divides(q, k)
    decreases |factors|
  {
    hide Product, IsPrime;
    if factors == [] {
      NoFactors(factors);
      MultipleAwayFromZero(o, k);
    } else {
      q := factors[0];
      var rest := Product(factors[1..]);
      FirstFactor(factors);
      PrimeAboveOne(q);
      assert k * o == rest * q;
      if !Divides(q, k) {
        Euclid(q, k, o);
        var j :| o == j * q;
        Positive(j, q, o);
        Quotient(k, o, j, q, rest);
        q := SharedPrime(k, j, factors[1..]);
      }
    }
  }

  lemma NoFactors(factors: seq<nat>)
    requires factors == []
    ensures Product(factors) == 1
  {
  }

  lemma FirstFactor(factors: seq<nat>)
    requires factors != []
    ensures Product(factors) == factors[0] * Product(factors[1..])
  {
  }

  lemma PrimeAboveOne(q: nat)
    requires IsPrime(q)
    ensures q > 1
  {
  }

  lemma Quotient(k: nat, o: nat, j: int, q: nat, rest: nat)
    requires q > 0 && o == j * q && k * o == q * rest
    ensures k * j == rest
  {
    Regroup(k, j, q);
    Cancel(k * j, rest, q);
  }

  /** The base to the power `total / q`, less 1, has the inverse y. */
  ghost predicate Off(n: nat, b: nat, q: nat, total: nat, e: nat, y: int) {
    e * q == total && Cong(n, (Pow(b, e) - 1) * y, 1)
  }

  ghost predicate Apart(n: nat, b: nat, q: nat, total: nat) {
    exists e: nat, y: int :: Off(n, b, q, total, e, y)
  }

  ghost predicate Certified(n: nat, b: nat, factors: seq<nat>, total: nat) {
    && total > 0 && total == Product(factors) && One(b, total, n)
    && forall q | q in factors :: IsPrime(q) && Apart(n, b, q, total)
  }

  lemma NotOneHere(n: nat, b: nat, q: nat, total: nat, e: nat, y: int, m: nat)
    requires Off(n, b, q, total, e, y) && m > 1 && Divides(m, n)
    ensures !One(b, e, m)
  {
    if One(b, e, m) {
      CongDown(n, m, (Pow(b, e) - 1) * y, 1);
      var k :| Pow(b, e) - 1 == k * m;
      CongBy(m, Pow(b, e) - 1, 0, k);
      CongTimes(m, Pow(b, e) - 1, 0, y);
      CongChain(m, (Pow(b, e) - 1) * y, 0, 0) by { CongBy(m, 0, 0, 0); }
      CongChain(m, 0, (Pow(b, e) - 1) * y, 1);
      NotZero(m);
    }
  }

  /** Modulo any divisor of n the base has the whole product as its order, so the divisor is larger than that. */
  lemma DivisorsAreLarge(n: nat, b: nat, factors: seq<nat>, total: nat, m: nat)
    requires Certified(n, b, factors, total) && m > 1 && Divides(m, n)
    ensures total < m
  {
    hide Pow, IsPrime, Product, Cong;
    CongDown(n, m, Pow(b, total), 1);
    var o := OrderExists(b, total, m);
    var k := OrderDivides(b, total, o, m);
    if k > 1 {
      var q := SharedPrime(k, o, factors);
      assert Apart(n, b, q, total);
      var e, y :| Off(n, b, q, total, e, y);
      var j :| k == j * q;
      Positive(j, q, k);
      assert e * q == (j * o) * q;
      Cancel(e, j * o, q);
      OneRepeats(b, j, o, m);
      NotOneHere(n, b, q, total, e, y, m);
      assert false;
    } else {
      assert k == 1;
      OrderBelowModulus(b, o, m);
    }
  }

  lemma SmallerDivisor(n: nat, total: nat, c: nat, d: nat)
    requires n == c * d && n < (total + 1) * (total + 1)
    ensures c <= total || d <= total
  {
    if c > total && d > total {
      TimesGrows(total + 1, c, total + 1);
      TimesGrows(total + 1, d, c);
    }
  }

  lemma TimesGrows(x: nat, y: nat, k: nat)
    requires x <= y
    ensures x * k <= y * k && k * x <= k * y
  {
    assert (y - x) * k >= 0;
  }

  /** Pocklington's criterion. */
  lemma Pocklington(n: nat, b: nat, factors: seq<nat>, total: nat)
    requires n > 1 && Certified(n, b, factors, total) && n <= total * total
    ensures IsPrime(n)
  {
    hide Certified;
    forall d | 2 <= d < n
      ensures n % d != 0
    {
      if n % d == 0 {
        var c := n / d;
        assert n == c * d;
        MultipleAwayFromZero(c, d);
        DivisorsAreLarge(n, b, factors, total, d);
        assert n == d * c;
        DivisorsAreLarge(n, b, factors, total, c);
        assert (total + 1) * (total + 1) > total * total;
        SmallerDivisor(n, total, c, d);
      }
    }
  }

  /* ---------- Small primes ---------- */

  predicate NoSmallDivisor(n: nat) {
    n % 2 != 0 && n % 3 != 0 && n % 5 != 0 && n % 7 != 0 && n % 9 != 0 && n % 11 != 0 && n % 13 != 0 &&
    n % 15 != 0 && n % 17 != 0 && n % 19 != 0 && n % 21 != 0 && n % 23 != 0 && n % 25 != 0 && n % 27 != 0 &&
    n % 29 != 0 && n % 31 != 0 && n % 33 != 0 && n % 35 != 0 && n % 37 != 0 && n % 39 != 0 && n % 41 != 0 &&
    n % 43 != 0 && n % 45 != 0 && n % 47 != 0 && n % 49 != 0 && n % 51 != 0 && n % 53 != 0 && n % 55 != 0 &&
    n % 57 != 0 && n % 59 != 0 && n % 61 != 0 && n % 63 != 0 && n % 65 != 0 && n % 67 != 0 && n % 69 != 0 &&
    n % 71 != 0 && n % 73 != 0 && n % 75 != 0 && n % 77 != 0 && n % 79 != 0 && n % 81 != 0 && n % 83 != 0 &&
    n % 85 != 0 && n % 87 != 0 && n % 89 != 0 && n % 91 != 0 && n % 93 != 0 && n % 95 != 0 && n % 97 != 0 &&
    n % 99 != 0 && n % 101 != 0 && n % 103 != 0 && n % 105 != 0 && n % 107 != 0 && n % 109 != 0 && n % 111 != 0 &&
    n % 113 != 0 && n % 115 != 0 && n % 117 != 0 && n % 119 != 0 && n % 121 != 0 && n % 123 != 0 && n % 125 != 0 &&
    n % 127 != 0 && n % 129 != 0 && n % 131 != 0 && n % 133 != 0 && n % 135 != 0 && n % 137 != 0 && n % 139 != 0 &&
    n % 141 != 0 && n % 143 != 0 && n % 145 != 0 && n % 147 != 0 && n % 149 != 0
  }

  lemma EvenMultiple(n: nat, d: nat)
    requires d > 0 && d % 2 == 0 && n % d == 0
    ensures n % 2 == 0
  {
    var h, c := d / 2, n / d;
    assert n == c * (h * 2) == (c * h) * 2;
  }

  lemma SmallDivisors(n: nat, d: nat)
    requires NoSmallDivisor(n) && 2 <= d <= 150
    ensures n % d != 0
  {
    if d % 2 == 0 {
      if n % d == 0 {
        EvenMultiple(n, d);
      }
    } else {
      if d == 3 { } else if d == 5 { } else if d == 7 { } else if d == 9 { } else if d == 11 { } else
      if d == 13 { } else if d == 15 { } else if d == 17 { } else if d == 19 { } else if d == 21 { } else
      if d == 23 { } else if d == 25 { } else if d == 27 { } else if d == 29 { } else if d == 31 { } else
      if d == 33 { } else if d == 35 { } else if d == 37 { } else if d == 39 { } else if d == 41 { } else
      if d == 43 { } else if d == 45 { } else if d == 47 { } else if d == 49 { } else if d == 51 { } else
      if d == 53 { } else if d == 55 { } else if d == 57 { } else if d == 59 { } else if d == 61 { } else
      if d == 63 { } else if d == 65 { } else if d == 67 { } else if d == 69 { } else if d == 71 { } else
      if d == 73 { } else if d == 75 { } else if d == 77 { } else if d == 79 { } else if d == 81 { } else
      if d == 83 { } else if d == 85 { } else if d == 87 { } else if d == 89 { } else if d == 91 { } else
      if d == 93 { } else if d == 95 { } else if d == 97 { } else if d == 99 { } else if d == 101 { } else
      if d == 103 { } else if d == 105 { } else if d == 107 { } else if d == 109 { } else if d == 111 { } else
      if d == 113 { } else if d == 115 { } else if d == 117 { } else if d == 119 { } else if d == 121 { } else
      if d == 123 { } else if d == 125 { } else if d == 127 { } else if d == 129 { } else if d == 131 { } else
      if d == 133 { } else if d == 135 { } else if d == 137 { } else if d == 139 { } else if d == 141 { } else
      if d == 143 { } else if d == 145 { } else if d == 147 { } else if d == 149 { }
    }
  }

  lemma RemainderOfProduct(c: nat, d: nat)
    requires c > 0
    ensures c * d % c == 0
  {
    var q, r := c * d / c, c * d % c;
    assert r == (d - q) * c;
    MultipleAwayFromZero(d - q, c);
  }

  lemma PrimeByTrial(n: nat)
    requires 150 < n < 151 * 151 && NoSmallDivisor(n)
    ensures IsPrime(n)
  {
    hide NoSmallDivisor;
    forall d | 2 <= d < n
      ensures n % d != 0
    {
      if n % d == 0 {
        var c := n / d;
        assert n == c * d;
        MultipleAwayFromZero(c, d);
        SmallerDivisor(n, 150, c, d);
        RemainderOfProduct(c, d);
        SmallDivisors(n, if d <= 150 then d else c);
      }
    }
  }

  /** Trial division by everything up to 150; spelled out for the sake of calls with numerals. */
  lemma SmallPrime(n: nat)
    requires 150 < n < 151 * 151
    requires
      n % 2 != 0 && n % 3 != 0 && n % 5 != 0 && n % 7 != 0 && n % 9 != 0 && n % 11 != 0 && n % 13 != 0 &&
      n % 15 != 0 && n % 17 != 0 && n % 19 != 0 && n % 21 != 0 && n % 23 != 0 && n % 25 != 0 && n % 27 != 0 &&
      n % 29 != 0 && n % 31 != 0 && n % 33 != 0 && n % 35 != 0 && n % 37 != 0 && n % 39 != 0 && n % 41 != 0 &&
      n % 43 != 0 && n % 45 != 0 && n % 47 != 0 && n % 49 != 0 && n % 51 != 0 && n % 53 != 0 && n % 55 != 0 &&
      n % 57 != 0 && n % 59 != 0 && n % 61 != 0 && n % 63 != 0 && n % 65 != 0 && n % 67 != 0 && n % 69 != 0 &&
      n % 71 != 0 && n % 73 != 0 && n % 75 != 0 && n % 77 != 0 && n % 79 != 0 && n % 81 != 0 && n % 83 != 0 &&
      n % 85 != 0 && n % 87 != 0 && n % 89 != 0 && n % 91 != 0 && n % 93 != 0 && n % 95 != 0 && n % 97 != 0 &&
      n % 99 != 0 && n % 101 != 0 && n % 103 != 0 && n % 105 != 0 && n % 107 != 0 && n % 109 != 0 &&
      n % 111 != 0 && n % 113 != 0 && n % 115 != 0 && n % 117 != 0 && n % 119 != 0 && n % 121 != 0 &&
      n % 123 != 0 && n % 125 != 0 && n % 127 != 0 && n % 129 != 0 && n % 131 != 0 && n % 133 != 0 &&
      n % 135 != 0 && n % 137 != 0 && n % 139 != 0 && n % 141 != 0 && n % 143 != 0 && n % 145 != 0 &&
      n % 147 != 0 && n % 149 != 0
    ensures IsPrime(n)
  {
    assert NoSmallDivisor(n);
    hide NoSmallDivisor, IsPrime;
    PrimeByTrial(n);
  }

  predicate Tiny(n: nat) {
    n == 2 || n == 3 || n == 5 || n == 7 || n == 11 || n == 13 || n == 17 || n == 19 || n == 23 || n == 29 ||
    n == 31 || n == 37 || n == 41 || n == 43 || n == 47 || n == 53 || n == 59 || n == 61 || n == 67 || n == 71 ||
    n == 73 || n == 79 || n == 83 || n == 89 || n == 97 || n == 101 || n == 103 || n == 107 || n == 109 ||
    n == 113 || n == 127 || n == 131 || n == 137 || n == 139 || n == 149
  }

  /** The primes up to 150. */
  lemma TinyPrime(n: nat)
    requires Tiny(n)
    ensures IsPrime(n)
  {
    forall d | 2 <= d < n
      ensures n % d != 0
    {
      TinyRemainders(n, d);
    }
  }

  lemma TinyRemainders(n: nat, d: nat)
    requires Tiny(n) && 2 <= d < n
    ensures n % d != 0
  {
  }

  /* ---------- Powers by octal digits of the exponent ---------- */

  ghost predicate At(n: nat, b: nat, e: nat, x: nat) {
    Cong(n, Pow(b, e), x)
  }

  lemma Begin(n: nat, b: nat)
    ensures At(n, b, 0, 1) && At(n, b, 1, b)
  {
    CongBy(n, 1, 1, 0);
    CongBy(n, b, b, 0);
  }

  lemma Times(n: nat, b: nat, e: nat, x: nat, f: nat, y: nat)
    requires At(n, b, e, x) && At(n, b, f, y)
    ensures At(n, b, e + f, x * y)
  {
    PowAdd(b, e, f);
    CongTimes(n, Pow(b, e), x, Pow(b, f));
    CongTimes(n, Pow(b, f), y, x);
    CongChain(n, Pow(b, e) * Pow(b, f), x * Pow(b, f), x * y);
  }

  lemma Reduced(n: nat, b: nat, e: nat, x: nat)
    requires n > 0 && At(n, b, e, x)
    ensures At(n, b, e, x % n)
  {
    RemainderIsCong(x, n);
    CongChain(n, Pow(b, e), x, x % n);
  }

  lemma Thrice(n: nat, b: nat, e: nat, x: nat)
    requires At(n, b, e, x)
    ensures At(n, b, 2 * e, x * x)
    ensures At(n, b, 3 * e, x * x * x)
    ensures At(n, b, 4 * e, x * x * x * x)
  {
    Times(n, b, e, x, e, x);
    Times(n, b, 2 * e, x * x, e, x);
    Times(n, b, 3 * e, x * x * x, e, x);
  }

  lemma Seventh(n: nat, b: nat, e: nat, x: nat)
    requires At(n, b, e, x)
    ensures At(n, b, 5 * e, x * x * x * x * x)
    ensures At(n, b, 6 * e, x * x * x * x * x * x)
    ensures At(n, b, 7 * e, x * x * x * x * x * x * x)
    ensures At(n, b, 8 * e, x * x * x * x * x * x * x * x)
  {
    Thrice(n, b, e, x);
    Times(n, b, 4 * e, x * x * x * x, e, x);
    Times(n, b, 5 * e, x * x * x * x * x, e, x);
    Times(n, b, 6 * e, x * x * x * x * x * x, e, x);
    Times(n, b, 7 * e, x * x * x * x * x * x * x, e, x);
  }

  /** The eighth power of x, times b to the power of a digit. */
  function Powered(x: nat, b: nat, d: nat): nat {
    if d == 0 then x * x * x * x * x * x * x * x
     else if d == 1 then x * x * x * x * x * x * x * x * b
     else if d == 2 then x * x * x * x * x * x * x * x * b * b
     else if d == 3 then x * x * x * x * x * x * x * x * b * b * b
     else if d == 4 then x * x * x * x * x * x * x * x * b * b * b * b
     else if d == 5 then x * x * x * x * x * x * x * x * b * b * b * b * b
     else if d == 6 then x * x * x * x * x * x * x * x * b * b * b * b * b * b
     else x * x * x * x * x * x * x * x * b * b * b * b * b * b * b
  }

  lemma {:induction false} PoweredAt(n: nat, b: nat, e: nat, x: nat, d: nat)
    requires At(n, b, e, x) && d < 8
    ensures At(n, b, 8 * e + d, Powered(x, b, d))
  {
    hide At;
    if d == 0 {
      Seventh(n, b, e, x);
    } else {
      PoweredAt(n, b, e, x, d - 1);
      Begin(n, b);
      Times(n, b, 8 * e + d - 1, Powered(x, b, d - 1), 1, b);
      assert Powered(x, b, d) == Powered(x, b, d - 1) * b;
    }
  }

  lemma Octal(n: nat, b: nat, e: nat, x: nat, d: nat, y: nat)
    requires n > 0 && At(n, b, e, x) && d < 8
    requires (if d == 0 then x * x * x * x * x * x * x * x
              else if d == 1 then x * x * x * x * x * x * x * x * b
              else if d == 2 then x * x * x * x * x * x * x * x * b * b
              else if d == 3 then x * x * x * x * x * x * x * x * b * b * b
              else if d == 4 then x * x * x * x * x * x * x * x * b * b * b * b
              else if d == 5 then x * x * x * x * x * x * x * x * b * b * b * b * b
              else if d == 6 then x * x * x * x * x * x * x * x * b * b * b * b * b * b
              else x * x * x * x * x * x * x * x * b * b * b * b * b * b * b) % n == y
    ensures At(n, b, 8 * e + d, y)
  {
    hide At;
    assert Powered(x, b, d) % n == y;
    hide Powered;
    PoweredAt(n, b, e, x, d);
    Reduced(n, b, 8 * e + d, Powered(x, b, d));
  }

  /** Four more octal digits of the exponent; the digits are spelled out for the sake of calls with numerals. */
  lemma Climb(n: nat, b: nat, e: nat, f: nat, d1: nat, d2: nat, d3: nat, d4: nat,
              x0: nat, x1: nat, x2: nat, x3: nat, x4: nat)
    requires n > 0 && At(n, b, e, x0) && d1 < 8 && d2 < 8 && d3 < 8 && d4 < 8
    requires (if d1 == 0 then x0 * x0 * x0 * x0 * x0 * x0 * x0 * x0
              else if d1 == 1 then x0 * x0 * x0 * x0 * x0 * x0 * x0 * x0 * b
              else if d1 == 2 then x0 * x0 * x0 * x0 * x0 * x0 * x0 * x0 * b * b
              else if d1 == 3 then x0 * x0 * x0 * x0 * x0 * x0 * x0 * x0 * b * b * b
              else if d1 == 4 then x0 * x0 * x0 * x0 * x0 * x0 * x0 * x0 * b * b * b * b
              else if d1 == 5 then x0 * x0 * x0 * x0 * x0 * x0 * x0 * x0 * b * b * b * b * b
              else if d1 == 6 then x0 * x0 * x0 * x0 * x0 * x0 * x0 * x0 * b * b * b * b * b * b
              else x0 * x0 * x0 * x0 * x0 * x0 * x0 * x0 * b * b * b * b * b * b * b) % n == x1
    requires (if d2 == 0 then x1 * x1 * x1 * x1 * x1 * x1 * x1 * x1
              else if d2 == 1 then x1 * x1 * x1 * x1 * x1 * x1 * x1 * x1 * b
              else if d2 == 2 then x1 * x1 * x1 * x1 * x1 * x1 * x1 * x1 * b * b
              else if d2 == 3 then x1 * x1 * x1 * x1 * x1 * x1 * x1 * x1 * b * b * b
              else if d2 == 4 then x1 * x1 * x1 * x1 * x1 * x1 * x1 * x1 * b * b * b * b
              else if d2 == 5 then x1 * x1 * x1 * x1 * x1 * x1 * x1 * x1 * b * b * b * b * b
              else if d2 == 6 then x1 * x1 * x1 * x1 * x1 * x1 * x1 * x1 * b * b * b * b * b * b
              else x1 * x1 * x1 * x1 * x1 * x1 * x1 * x1 * b * b * b * b * b * b * b) % n == x2
    requires (if d3 == 0 then x2 * x2 * x2 * x2 * x2 * x2 * x2 * x2
              else if d3 == 1 then x2 * x2 * x2 * x2 * x2 * x2 * x2 * x2 * b
              else if d3 == 2 then x2 * x2 * x2 * x2 * x2 * x2 * x2 * x2 * b * b
              else if d3 == 3 then x2 * x2 * x2 * x2 * x2 * x2 * x2 * x2 * b * b * b
              else if d3 == 4 then x2 * x2 * x2 * x2 * x2 * x2 * x2 * x2 * b * b * b * b
              else if d3 == 5 then x2 * x2 * x2 * x2 * x2 * x2 * x2 * x2 * b * b * b * b * b
              else if d3 == 6 then x2 * x2 * x2 * x2 * x2 * x2 * x2 * x2 * b * b * b * b * b * b
              else x2 * x2 * x2 * x2 * x2 * x2 * x2 * x2 * b * b * b * b * b * b * b) % n == x3
    requires (if d4 == 0 then x3 * x3 * x3 * x3 * x3 * x3 * x3 * x3
              else if d4 == 1 then x3 * x3 * x3 * x3 * x3 * x3 * x3 * x3 * b
              else if d4 == 2 then x3 * x3 * x3 * x3 * x3 * x3 * x3 * x3 * b * b
              else if d4 == 3 then x3 * x3 * x3 * x3 * x3 * x3 * x3 * x3 * b * b * b
              else if d4 == 4 then x3 * x3 * x3 * x3 * x3 * x3 * x3 * x3 * b * b * b * b
              else if d4 == 5 then x3 * x3 * x3 * x3 * x3 * x3 * x3 * x3 * b * b * b * b * b
              else if d4 == 6 then x3 * x3 * x3 * x3 * x3 * x3 * x3 * x3 * b * b * b * b * b * b
              else x3 * x3 * x3 * x3 * x3 * x3 * x3 * x3 * b * b * b * b * b * b * b) % n == x4
    requires f == 4096 * e + 512 * d1 + 64 * d2 + 8 * d3 + d4
    ensures At(n, b, f, x4)
  {
    hide At;
    Octal(n, b, e, x0, d1, x1);
    Octal(n, b, 8 * e + d1, x1, d2, x2);
    Octal(n, b, 64 * e + 8 * d1 + d2, x2, d3, x3);
    Octal(n, b, 512 * e + 64 * d1 + 8 * d2 + d3, x3, d4, x4);
  }

  /** The last of several exponents is reached from an earlier power, taken as a base. */
  lemma Compose(n: nat, b: nat, e: nat, x: nat, q: nat, y: nat, total: nat)
    requires At(n, b, e, x) && At(n, x, q, y) && e * q == total
    ensures At(n, b, total, y)
  {
    PowerOfPower(n, b, e, x, q);
    CongChain(n, Pow(b, total), Pow(x, q), y);
  }

  lemma Double(n: nat, b: nat, e: nat, x: nat, f: nat, y: nat)
    requires n > 0 && At(n, b, e, x) && x * x % n == y && e + e == f
    ensures At(n, b, f, y)
  {
    Times(n, b, e, x, e, x);
    Reduced(n, b, f, x * x);
  }

  lemma {:induction false} PowerOfPower(n: nat, b: nat, e: nat, x: nat, q: nat)
    requires At(n, b, e, x)
    ensures At(n, b, e * q, Pow(x, q))
  {
    if q == 0 {
      assert e * q == 0;
      Begin(n, b);
    } else {
      PowerOfPower(n, b, e, x, q - 1);
      assert e * q == e + e * (q - 1);
      Times(n, b, e, x, e * (q - 1), Pow(x, q - 1));
    }
  }

  /** What a certificate has to show for each prime factor of the exponent. */
  lemma Inverse(n: nat, b: nat, q: nat, total: nat, e: nat, x: nat, y: nat, z: nat)
    requires n > 0 && At(n, b, e, x) && e * q == total && x * y % n == z && z == y + 1
    ensures Apart(n, b, q, total)
  {
    var k :| Pow(b, e) - x == k * n;
    CongBy(n, Pow(b, e) - 1, x - 1, k);
    CongTimes(n, Pow(b, e) - 1, x - 1, y);
    assert (x - 1) * y == x * y - y;
    CongBy(n, (x - 1) * y, 1, x * y / n);
    CongChain(n, (Pow(b, e) - 1) * y, (x - 1) * y, 1);
    assert Off(n, b, q, total, e, y);
  }

  /* ---------- Certificates with one to four prime factors ---------- */

  lemma ProductOf(p: nat, rest: seq<nat>)
    ensures Product([p] + rest) == p * Product(rest)
  {
    assert ([p] + rest)[1..] == rest;
  }

  lemma Certificate(n: nat, b: nat, factors: seq<nat>, total: nat)
    requires 1 < n <= total * total && At(n, b, total, 1) && total == Product(factors) > 0
    requires forall q | q in factors :: IsPrime(q) && Apart(n, b, q, total)
    ensures IsPrime(n)
  {
    hide IsPrime, Apart;
    Pocklington(n, b, factors, total);
  }

  lemma Certificate1(n: nat, b: nat, p: nat)
    requires 1 < n <= p * p && At(n, b, p, 1) && IsPrime(p) && Apart(n, b, p, p)
    ensures IsPrime(n)
  {
    hide IsPrime, Apart, At;
    ProductOf(p, []);
    Certificate(n, b, [p] + [], p);
  }

  lemma Certificate2(n: nat, b: nat, p: nat, q: nat, total: nat)
    requires 1 < n <= total * total && At(n, b, total, 1) && total == p * q > 0
    requires IsPrime(p) && Apart(n, b, p, total) && IsPrime(q) && Apart(n, b, q, total)
    ensures IsPrime(n)
  {
    hide IsPrime, Apart, At;
    ProductOf(q, []);
    ProductOf(p, [q] + []);
    Certificate(n, b, [p] + ([q] + []), total);
  }

  lemma Certificate3(n: nat, b: nat, p: nat, q: nat, r: nat, total: nat)
    requires 1 < n <= total * total && At(n, b, total, 1) && total == p * (q * r) > 0
    requires IsPrime(p) && Apart(n, b, p, total) && IsPrime(q) && Apart(n, b, q, total)
    requires IsPrime(r) && Apart(n, b, r, total)
    ensures IsPrime(n)
  {
    hide IsPrime, Apart, At;
    ProductOf(r, []);
    ProductOf(q, [r] + []);
    ProductOf(p, [q] + ([r] + []));
    Certificate(n, b, [p] + ([q] + ([r] + [])), total);
  }

  lemma Certificate4(n: nat, b: nat, p: nat, q: nat, r: nat, s: nat, total: nat)
    requires 1 < n <= total * total && At(n, b, total, 1) && total == p * (q * (r * s)) > 0
    requires IsPrime(p) && Apart(n, b, p, total) && IsPrime(q) && Apart(n, b, q, total)
    requires IsPrime(r) && Apart(n, b, r, total) && IsPrime(s) && Apart(n, b, s, total)
    ensures IsPrime(n)
  {
    hide IsPrime, Apart, At;
    ProductOf(s, []);
    ProductOf(r, [s] + []);
    ProductOf(q, [r] + ([s] + []));
    ProductOf(p, [q] + ([r] + ([s] + [])));
    Certificate(n, b, [p] + ([q] + ([r] + ([s] + []))), total);
  }
}
