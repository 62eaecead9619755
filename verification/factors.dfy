/** Integer groundwork for the prime-factor planner: powers, divisibility,
    products of radix lists, and the `num_factors` loop that strips every
    copy of one factor from a transform length. */
module Factors {
  import opened Wrappers

  /** `b` raised to the power `e`. */
  function Pow(b: nat, e: nat): (r: nat)
    ensures b > 0 ==> r > 0
  {
    if e == 0 then 1 else b * Pow(b, e - 1)
  }

  /** `d` is a positive divisor of `n`. */
  predicate Divides(d: nat, n: nat) {
    d > 0 && n % d == 0
  }

  /** Every entry of a radix list is a usable divisor. */
  predicate Positive(rs: seq<nat>) {
    forall i :: 0 <= i < |rs| ==> rs[i] > 0
  }

  /** Product of a list of radices. */
  function Prod(rs: seq<nat>): nat {
    if |rs| == 0 then 1 else rs[0] * Prod(rs[1..])
  }

  /** `k` copies of `x`. */
  function Repeat(x: nat, k: nat): (r: seq<nat>)
    ensures |r| == k
    ensures forall i :: 0 <= i < k ==> r[i] == x
  {
    if k == 0 then [] else [x] + Repeat(x, k - 1)
  }

  /** `size` divided (with truncation, as the source's `/=` does) by each
      radix of `rs` in turn. */
  function DivAll(size: nat, rs: seq<nat>): nat
    requires Positive(rs)
    decreases |rs|
  {
    if |rs| == 0 then size else DivAll(size / rs[0], rs[1..])
  }

  // ---------------------------------------------------------------------
  // Euclidean division facts the nonlinear proofs below lean on.

  lemma MulAtLeast(d: int, k: int)
    requires d >= 0 && k >= 1
    ensures d * k >= d
  {
  }

  lemma MulDistributes(d: int, a: int, b: int)
    ensures d * a - d * b == d * (a - b)
  {
  }

  lemma DivModUnique(x: int, d: int, q: int, r: int)
    requires d > 0 && 0 <= r < d && x == d * q + r
    ensures x / d == q && x % d == r
  {
    var q', r' := x / d, x % d;
    assert x == d * q' + r';
    MulDistributes(d, q, q');
    if q' < q {
      MulAtLeast(d, q - q');
      assert false;
    } else if q' > q {
      MulDistributes(d, q', q);
      MulAtLeast(d, q' - q);
      assert false;
    }
  }

  lemma MulAssoc(a: nat, b: nat, c: nat)
    ensures a * (b * c) == (a * b) * c
  {
  }

  /** The quotient of an exact division is a witness for it. */
  lemma DividesWitness(d: nat, n: nat)
    requires Divides(d, n)
    ensures n == d * (n / d)
  {
    assert n == d * (n / d) + n % d;
  }

  lemma MulAddDistrib(a: int, b: int, c: int)
    ensures (a + b) * c == a * c + b * c
  {
  }

  lemma MulNonNegative(a: int, b: int)
    requires a >= 0 && b >= 0
    ensures a * b >= 0
  {
  }

  lemma MulCancel(p: int, a: int, b: int)
    requires p > 0 && p * a == p * b
    ensures a == b
  {
    if a < b {
      MulDistributes(p, b, a);
      MulAtLeast(p, b - a);
      assert false;
    } else if a > b {
      MulDistributes(p, a, b);
      MulAtLeast(p, a - b);
      assert false;
    }
  }

  /** A multiple of `d` leaves no remainder and divides back exactly. */
  lemma MulDivExact(q: nat, d: nat)
    requires d > 0
    ensures (q * d) % d == 0 && (q * d) / d == q
    ensures (d * q) % d == 0 && (d * q) / d == q
  {
    DivModUnique(q * d, d, q, 0);
  }

  lemma MulSwap(a: nat, b: nat, c: nat)
    ensures a * (b * c) == b * (a * c)
  {
  }

  /** Dividing by a factor that divides exactly gives a smaller, positive
      quotient. */
  lemma ExactQuotient(value: nat, factor: nat)
    requires factor > 1 && value > 0 && value % factor == 0
    ensures value == factor * (value / factor)
    ensures 0 < value / factor < value
  {
    var q := value / factor;
    assert value == factor * q + value % factor;
    assert value == factor * q;
    if q <= 0 {
      assert false;
    }
    MulDistributes(q, factor, 1);
    MulAtLeast(q, factor - 1);
  }

  lemma DividesProduct(d: nat, n: nat, k: nat)
    requires Divides(d, n)
    ensures Divides(d, n * k) && Divides(d, k * n)
  {
    var q := n / d;
    assert n == d * q;
    assert n * k == d * (q * k);
    MulDivExact(q * k, d);
  }

  lemma DividesTransitive(a: nat, b: nat, c: nat)
    requires Divides(a, b) && Divides(b, c)
    ensures Divides(a, c)
  {
    var l := c / b;
    assert c == b * l;
    DividesProduct(a, b, l);
  }

  // ---------------------------------------------------------------------
  // num_factors

  /** Models `num_factors(factor, value)`: divide `value` by `factor` while
      it divides, counting the divisions. The result `(count, rest)` splits
      `value` into `rest * factor^count` with no `factor` left in `rest`. The
      loop never stops for `value == 0` (or `factor == 1`) and divides by
      zero for `factor == 0`, hence the precondition. */
  function NumFactors(factor: nat, value: nat): (r: (nat, nat))
    requires factor > 1 && value > 0
    ensures r.1 > 0 && r.1 % factor != 0
    ensures r.1 * Pow(factor, r.0) == value
    decreases value
  {
    if value % factor != 0 then (0, value)
    else
      ExactQuotient(value, factor);
      var inner := NumFactors(factor, value / factor);
      MulSwap(inner.1, factor, Pow(factor, inner.0));
      (inner.0 + 1, inner.1)
  }

  /** The `num_factors` loop as written, run for at most `fuel` rounds:
      `None` when it has not stopped by then. Unlike `NumFactors` it admits
      every input the source accepts without panicking, `value == 0`
      included. */
  function NumFactorsLoop(factor: nat, value: nat, fuel: nat): (r: Option<(nat, nat)>)
    requires factor > 0
    ensures r.Some? ==> r.value.1 % factor != 0
    decreases fuel
  {
    if value % factor != 0 then Some((0, value))
    else if fuel == 0 then None
    else
      match NumFactorsLoop(factor, value / factor, fuel - 1)
      case None => None
      case Some((count, rest)) => Some((count + 1, rest))
  }

  /** For a positive value the loop stops within `value` rounds, with the
      result `NumFactors` describes. */
  lemma {:induction false} NumFactorsLoopStops(factor: nat, value: nat, fuel: nat)
    requires factor > 1 && value > 0 && fuel >= value
    ensures NumFactorsLoop(factor, value, fuel) == Some(NumFactors(factor, value))
    decreases value
  {
    if value % factor == 0 {
      ExactQuotient(value, factor);
      NumFactorsLoopStops(factor, value / factor, fuel - 1);
    }
  }

  /** For `value == 0` the loop never stops: `0 % factor == 0` and
      `0 / factor == 0`, so no number of rounds is enough. */
  lemma {:induction false} NumFactorsLoopSpinsOnZero(factor: nat, fuel: nat)
    requires factor > 0
    ensures NumFactorsLoop(factor, 0, fuel) == None
    decreases fuel
  {
    if fuel > 0 {
      NumFactorsLoopSpinsOnZero(factor, fuel - 1);
    }
  }

  /** The count is the multiplicity of `factor` in `value`: `factor^count`
      divides `value` and `factor^(count+1)` does not. */
  lemma NumFactorsIsMultiplicity(factor: nat, value: nat)
    requires factor > 1 && value > 0
    ensures Divides(Pow(factor, NumFactors(factor, value).0), value)
    ensures !Divides(Pow(factor, NumFactors(factor, value).0 + 1), value)
  {
    var (count, rest) := NumFactors(factor, value);
    var p := Pow(factor, count);
    assert value == rest * p;
    MulDivExact(rest, p);
    if Divides(Pow(factor, count + 1), value) {
      var q := value / Pow(factor, count + 1);
      DividesWitness(Pow(factor, count + 1), value);
      assert Pow(factor, count + 1) == factor * p;
      MulAssoc(factor, p, q);
      MulSwap(factor, p, q);
      assert p * rest == p * (factor * q);
      MulCancel(p, rest, factor * q);
      MulDivExact(q, factor);
      assert false;
    }
  }

  /** Both directions: any split `rest * factor^count == value` with no
      `factor` left in `rest` is the one `NumFactors` returns. */
  lemma {:induction false} NumFactorsUnique(factor: nat, value: nat, count: nat, rest: nat)
    requires factor > 1 && value > 0
    requires rest * Pow(factor, count) == value && rest % factor != 0
    ensures NumFactors(factor, value) == (count, rest)
    decreases count
  {
    if count == 0 {
      assert rest == value;
    } else {
      var smaller := rest * Pow(factor, count - 1);
      assert value == factor * smaller;
      MulDivExact(smaller, factor);
      assert smaller > 0;
      NumFactorsUnique(factor, smaller, count - 1, rest);
    }
  }

  /** The residual is what dividing by the factor once per counted round leaves. */
  lemma {:induction false} NumFactorsRest(factor: nat, value: nat)
    requires factor > 1 && value > 0
    ensures NumFactors(factor, value).1 == DivAll(value, Repeat(factor, NumFactors(factor, value).0))
    decreases value
  {
    if value % factor == 0 {
      ExactQuotient(value, factor);
      NumFactorsRest(factor, value / factor);
      var c := NumFactors(factor, value / factor).0;
      assert Repeat(factor, c + 1)[1..] == Repeat(factor, c);
    }
  }

  // ---------------------------------------------------------------------
  // Lists of radices

  lemma {:induction false} ProdAppend(a: seq<nat>, b: seq<nat>)
    ensures Prod(a + b) == Prod(a) * Prod(b)
  {
    if |a| == 0 {
      assert a + b == b;
    } else {
      assert (a + b)[1..] == a[1..] + b;
      ProdAppend(a[1..], b);
      assert Prod(a + b) == a[0] * (Prod(a[1..]) * Prod(b));
    }
  }

  lemma {:induction false} ProdRepeat(x: nat, k: nat)
    ensures Prod(Repeat(x, k)) == Pow(x, k)
  {
    if k > 0 {
      assert Repeat(x, k)[1..] == Repeat(x, k - 1);
      ProdRepeat(x, k - 1);
    }
  }

  lemma {:induction false} DivAllAppend(size: nat, a: seq<nat>, b: seq<nat>)
    requires Positive(a) && Positive(b)
    ensures Positive(a + b)
    ensures DivAll(size, a + b) == DivAll(DivAll(size, a), b)
    decreases |a|
  {
    if |a| == 0 {
      assert a + b == b;
    } else {
      assert (a + b)[1..] == a[1..] + b;
      DivAllAppend(size / a[0], a[1..], b);
    }
  }
}
