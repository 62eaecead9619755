/** Which transform lengths the prime-factor backend supports: exactly the
    positive integers built from 2s and 3s. Two independent descriptions are
    given and proved equivalent: a recursive one (`Smooth`) and one in terms
    of primes (`HasForeignPrimeFactor`). */
module Smoothness {
  import opened Factors

  /** `n` is a product of 2s and 3s (1 being the empty product). */
  predicate Smooth(n: nat)
    decreases n
  {
    n == 1
    || (n > 1 && n % 2 == 0 && Smooth(n / 2))
    || (n > 1 && n % 3 == 0 && Smooth(n / 3))
  }

  predicate IsPrime(p: nat) {
    p > 1 && forall d :: 1 < d < p ==> !Divides(d, p)
  }

  /** `n` has a prime factor other than 2 and 3. */
  ghost predicate HasForeignPrimeFactor(n: nat) {
    exists p :: IsPrime(p) && p != 2 && p != 3 && Divides(p, n)
  }

  // ---------------------------------------------------------------------
  // Euclid's lemma, for the two primes the planner knows

  lemma OddProduct(a: nat, b: nat)
    requires a % 2 == 1 && b % 2 == 1
    ensures (a * b) % 2 == 1
  {
    var x, y := a / 2, b / 2;
    assert a == 2 * x + 1 && b == 2 * y + 1;
    assert a * b == 2 * (2 * x * y + x + y) + 1;
    DivModUnique(a * b, 2, 2 * x * y + x + y, 1);
  }

  /** A prime other than 2 that divides `2 * m` divides `m`. */
  lemma EuclidTwo(p: nat, m: nat)
    requires IsPrime(p) && p != 2 && Divides(p, 2 * m)
    ensures Divides(p, m)
  {
    var q := (2 * m) / p;
    assert 2 * m == p * q by {
      DividesWitness(p, 2 * m);
    }
    assert q % 2 == 0 by {
      if q % 2 == 1 {
        assert p % 2 == 1 by {
          assert !Divides(2, p);
        }
        OddProduct(p, q);
        MulDivExact(m, 2);
        assert false;
      }
    }
    var t := q / 2;
    assert m == p * t by {
      assert q == 2 * t;
      MulAssoc(2, p, t);
      MulSwap(p, 2, t);
    }
    MulDivExact(t, p);
  }

  lemma ProductModThree(s: nat, t: nat, a: nat, b: nat)
    requires 0 < s < 3 && 0 < t < 3
    ensures ((3 * a + s) * (3 * b + t)) % 3 != 0
  {
    var x, y := 3 * a + s, 3 * b + t;
    assert x * y == 3 * (a * y + s * b) + s * t by {
      MulAddDistrib(3 * a, s, y);
      MulAddDistrib(3 * b, t, s);
      MulAssoc(3, a, y);
      MulAssoc(3, b, s);
    }
    var q := if s * t == 4 then 1 else 0;
    DivModUnique(x * y, 3, a * y + s * b + q, s * t - 3 * q);
  }

  /** A prime other than 3 that divides `3 * m` divides `m`. */
  lemma EuclidThree(p: nat, m: nat)
    requires IsPrime(p) && p != 3 && Divides(p, 3 * m)
    ensures Divides(p, m)
  {
    var q := (3 * m) / p;
    assert 3 * m == p * q by {
      DividesWitness(p, 3 * m);
    }
    assert q % 3 == 0 by {
      if q % 3 != 0 {
        assert p % 3 != 0 by {
          if p > 3 {
            assert !Divides(3, p);
          }
        }
        assert p == 3 * (p / 3) + p % 3;
        assert q == 3 * (q / 3) + q % 3;
        ProductModThree(p % 3, q % 3, p / 3, q / 3);
        MulDivExact(m, 3);
        assert false;
      }
    }
    var t := q / 3;
    assert m == p * t by {
      assert q == 3 * t;
      MulAssoc(3, p, t);
      MulSwap(p, 3, t);
    }
    MulDivExact(t, p);
  }

  // ---------------------------------------------------------------------
  // Smoothness is unaffected by factors of 2, 3 and 4

  lemma {:induction false} SmoothTimesTwo(x: nat)
    requires x > 0
    ensures Smooth(x * 2) <==> Smooth(x)
    decreases x
  {
    MulDivExact(x, 2);
    if Smooth(x * 2) && !Smooth(x) {
      // the only way left: 3 divides 2x, hence x
      assert (x * 2) % 3 == 0 && Smooth(x * 2 / 3);
      assert IsPrime(3);
      EuclidTwo(3, x);
      var y := x / 3;
      assert x == 3 * y && y > 0;
      assert x * 2 == 3 * (y * 2);
      MulDivExact(y * 2, 3);
      SmoothTimesTwo(y);
      assert false;
    }
  }

  lemma {:induction false} SmoothTimesThree(x: nat)
    requires x > 0
    ensures Smooth(x * 3) <==> Smooth(x)
    decreases x
  {
    MulDivExact(x, 3);
    if Smooth(x * 3) && !Smooth(x) {
      // the only way left: 2 divides 3x, hence x
      assert (x * 3) % 2 == 0 && Smooth(x * 3 / 2);
      assert IsPrime(2);
      EuclidThree(2, x);
      var y := x / 2;
      assert x == 2 * y && y > 0;
      assert x * 3 == 2 * (y * 3);
      MulDivExact(y * 3, 2);
      SmoothTimesThree(y);
      assert false;
    }
  }

  /** Multiplying by a power of 2, 3 or 4 neither creates nor removes a
      foreign factor. */
  lemma {:induction false} SmoothTimesPow(x: nat, f: nat, k: nat)
    requires x > 0 && (f == 2 || f == 3 || f == 4)
    ensures Smooth(x * Pow(f, k)) <==> Smooth(x)
    decreases k
  {
    if k > 0 {
      var y := x * Pow(f, k - 1);
      assert x * Pow(f, k) == y * f by {
        MulAssoc(x, Pow(f, k - 1), f);
      }
      assert y > 0 by {
        MulAtLeast(x, Pow(f, k - 1));
      }
      SmoothTimesPow(x, f, k - 1);
      if f == 2 {
        SmoothTimesTwo(y);
      } else if f == 3 {
        SmoothTimesThree(y);
      } else {
        assert y * f == (y * 2) * 2 by {
          MulAssoc(y, 2, 2);
        }
        SmoothTimesTwo(y);
        SmoothTimesTwo(y * 2);
      }
    }
  }

  /** Once every 2 and 3 has been stripped, only 1 is smooth. */
  lemma SmoothResidual(r: nat)
    requires r > 0 && r % 2 != 0 && r % 3 != 0
    ensures Smooth(r) <==> r == 1
  {
  }

  // ---------------------------------------------------------------------
  // Primes

  lemma {:induction false} PrimeDivisorExists(m: nat)
    requires m > 1
    ensures exists p :: IsPrime(p) && Divides(p, m)
    decreases m
  {
    if !IsPrime(m) {
      var d :| 1 < d < m && Divides(d, m);
      PrimeDivisorExists(d);
      var p :| IsPrime(p) && Divides(p, d);
      DividesTransitive(p, d, m);
    }
  }

  /** A product of 2s and 3s has no other prime factor. */
  lemma {:induction false} SmoothNoForeignPrime(n: nat, p: nat)
    requires Smooth(n) && IsPrime(p) && p != 2 && p != 3
    ensures !Divides(p, n)
    decreases n
  {
    if n == 1 {
      DivModUnique(1, p, 0, 1);
    } else if n % 2 == 0 && Smooth(n / 2) {
      SmoothNoForeignPrime(n / 2, p);
      if Divides(p, n) {
        assert n == 2 * (n / 2);
        EuclidTwo(p, n / 2);
        assert false;
      }
    } else {
      assert n % 3 == 0 && Smooth(n / 3);
      SmoothNoForeignPrime(n / 3, p);
      if Divides(p, n) {
        assert n == 3 * (n / 3);
        EuclidThree(p, n / 3);
        assert false;
      }
    }
  }

  /** Both characterisations of the supported lengths agree. */
  lemma SmoothIffNoForeignPrime(n: nat)
    requires n > 0
    ensures Smooth(n) <==> !HasForeignPrimeFactor(n)
  {
    if Smooth(n) {
      forall p | IsPrime(p) && p != 2 && p != 3
        ensures !Divides(p, n)
      {
        SmoothNoForeignPrime(n, p);
      }
    } else {
      var (a, r1) := NumFactors(2, n);
      var (b, r2) := NumFactors(3, r1);
      assert n == r1 * Pow(2, a) && r1 == r2 * Pow(3, b);
      if r2 % 2 == 0 {
        DividesProduct(2, r2, Pow(3, b));
        assert false;
      }
      SmoothTimesPow(r1, 2, a);
      SmoothTimesPow(r2, 3, b);
      SmoothResidual(r2);
      assert r2 > 1;
      PrimeDivisorExists(r2);
      var p :| IsPrime(p) && Divides(p, r2);
      if p == 2 || p == 3 {
        assert false;
      }
      DividesProduct(r2, r2, Pow(3, b));
      DividesProduct(r1, r1, Pow(2, a));
      assert r2 % r2 == 0;
      DividesTransitive(p, r2, r1);
      DividesTransitive(p, r1, n);
    }
  }
}
