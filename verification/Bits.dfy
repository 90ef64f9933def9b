/** The bitwise operators of C on unsigned numbers, by their binary digits. */
module Bits {
  import opened Primes

  function Or(a: nat, b: nat): (r: nat)
    ensures r >= a && r >= b
  {
    if a == 0 then b
    else if b == 0 then a
    else 2 * Or(a / 2, b / 2) + (if a % 2 == 0 && b % 2 == 0 then 0 else 1)
  }

  function And(a: nat, b: nat): nat {
    if a == 0 || b == 0 then 0
    else 2 * And(a / 2, b / 2) + (if a % 2 == 1 && b % 2 == 1 then 1 else 0)
  }

  function Xor(a: nat, b: nat): nat {
    if a == 0 then b
    else if b == 0 then a
    else 2 * Xor(a / 2, b / 2) + (if a % 2 == b % 2 then 0 else 1)
  }

  function Shl(a: nat, k: nat): nat {
    if k == 0 then a else 2 * Shl(a, k - 1)
  }

  function Shr(a: nat, k: nat): nat {
    if k == 0 then a else Shr(a / 2, k - 1)
  }

  /** The number whose one set bit is bit k. */
  function Bit(k: nat): (r: nat)
    ensures r > 0
  {
    if k == 0 then 1 else 2 * Bit(k - 1)
  }

  lemma {:induction false} BitOfSum(j: nat, k: nat)
    ensures Bit(j + k) == Bit(j) * Bit(k)
  {
    if j > 0 {
      BitOfSum(j - 1, k);
      assert 2 * Bit(j - 1) * Bit(k) == 2 * (Bit(j - 1) * Bit(k));
    }
  }

  lemma DivMod(a: nat, d: nat, q: nat, r: nat)
    requires a == q * d + r && r < d
    ensures a / d == q && a % d == r
  {
    var k := a / d - q;
    assert a == a / d * d + a % d && k * d == a / d * d - q * d;
    NoMultipleWithin(k, d, a % d, r);
    MultipleAwayFromZero(k, d);
  }

  /** Halving twice over: the quotient and remainder by 2d from those of the half by d. */
  lemma Halved(a: nat, d: nat)
    requires d > 0
    ensures a / (2 * d) == a / 2 / d && a % (2 * d) == 2 * (a / 2 % d) + a % 2
  {
    var q, r := a / 2 / d, a / 2 % d;
    assert a / 2 == q * d + r && a == 2 * (a / 2) + a % 2;
    assert q * (2 * d) == 2 * (q * d);
    DivMod(a, 2 * d, q, 2 * r + a % 2);
  }

  lemma {:induction false} ShlMultiplies(a: nat, k: nat)
    ensures Shl(a, k) == a * Bit(k)
  {
    if k > 0 {
      ShlMultiplies(a, k - 1);
      assert a * (2 * Bit(k - 1)) == 2 * (a * Bit(k - 1));
    }
  }

  lemma {:induction false} ShrDivides(a: nat, k: nat)
    ensures Shr(a, k) == a / Bit(k)
  {
    if k > 0 {
      ShrDivides(a / 2, k - 1);
      Halved(a, Bit(k - 1));
    }
  }

  /** A number is or-ed into bits that are clear as if it were added. */
  lemma {:induction false} OrAdds(a: nat, b: nat, k: nat)
    requires b < Bit(k)
    ensures Or(Shl(a, k), b) == Shl(a, k) + b
  {
    if k > 0 {
      OrAdds(a, b / 2, k - 1);
    }
  }

  /** The mask of the lowest k bits is the remainder by the power of two. */
  lemma {:induction false} AndMasks(a: nat, k: nat)
    ensures And(a, Bit(k) - 1) == a % Bit(k)
  {
    if k > 0 {
      AndMasks(a / 2, k - 1);
      Halved(a, Bit(k - 1));
      assert (Bit(k) - 1) / 2 == Bit(k - 1) - 1;
    }
  }

  /** Bit k by itself. */
  lemma {:induction false} AndTests(a: nat, k: nat)
    ensures And(a, Bit(k)) == a / Bit(k) % 2 * Bit(k)
  {
    if k > 0 {
      AndTests(a / 2, k - 1);
      Halved(a, Bit(k - 1));
      assert a / Bit(k) % 2 * (2 * Bit(k - 1)) == 2 * (a / Bit(k) % 2 * Bit(k - 1));
    } else {
      assert And(a, 1) == a % 2 by {
        assert And(a / 2, 0) == 0;
      }
    }
  }

  /** No bit from k on is set in a | b exactly when none is set in a and none in b. */
  lemma {:induction false} OrBelow(a: nat, b: nat, k: nat)
    ensures Or(a, b) < Bit(k) <==> a < Bit(k) && b < Bit(k)
  {
    if k > 0 {
      OrBelow(a / 2, b / 2, k - 1);
      assert forall n: nat :: n < Bit(k) <==> n / 2 < Bit(k - 1);
    }
  }

  lemma {:induction false} XorBelow(a: nat, b: nat, k: nat)
    requires a < Bit(k) && b < Bit(k)
    ensures Xor(a, b) < Bit(k)
  {
    if a > 0 && b > 0 {
      XorBelow(a / 2, b / 2, k - 1);
    }
  }

  /** Exclusive or undoes itself. */
  lemma {:induction false} XorUndone(a: nat, b: nat)
    ensures Xor(Xor(a, b), b) == a
  {
    if a > 0 && b > 0 {
      var x := Xor(a, b);
      assert x / 2 == Xor(a / 2, b / 2) && x % 2 == if a % 2 == b % 2 then 0 else 1;
      XorUndone(a / 2, b / 2);
    } else if b > 0 {
      XorSelf(b);
    }
  }

  lemma {:induction false} XorSelf(b: nat)
    ensures Xor(b, b) == 0
  {
    if b > 0 {
      XorSelf(b / 2);
    }
  }

  lemma {:induction false} XorCommutes(a: nat, b: nat)
    ensures Xor(a, b) == Xor(b, a)
  {
    if a > 0 && b > 0 {
      XorCommutes(a / 2, b / 2);
    }
  }
}
