/** Twiddle tables of the prime-factor backend, kept symbolic.

    `extend_twiddles` appends, for each iteration of one radix, a band of
    `subsize / radix` groups of `radix` coefficients, then divides `subsize`
    by the radix. The coefficients themselves come from `compute_twiddle`,
    which is floating-point trigonometry outside this model; an entry is
    therefore either the identity or the symbolic root
    `Root(index, modulus, forward)` standing for
    `compute_twiddle(index, modulus, forward)`. */
module Twiddles {
  import opened Factors

  datatype Twiddle = Identity | Root(index: nat, modulus: nat, forward: bool)

  /** The same coefficient for the opposite transform direction. */
  function Flip(t: Twiddle): Twiddle {
    match t
    case Identity => Identity
    case Root(k, m, d) => Root(k, m, !d)
  }

  /** `reverse` is `forward` with every direction flag flipped. */
  predicate Mirrored(forward: seq<Twiddle>, reverse: seq<Twiddle>) {
    |forward| == |reverse| && forall k :: 0 <= k < |forward| ==> reverse[k] == Flip(forward[k])
  }

  /** Group `i` of a band: the identity for branch 0, then the roots
      `(i * j, subsize)` for branches `j` in `1..radix`. */
  function Group(i: nat, subsize: nat, radix: nat, forward: bool): seq<Twiddle>
    requires radix > 0
  {
    [Identity] + seq(radix - 1, (j: nat) => Root(i * (j + 1), subsize, forward))
  }

  /** Groups `0..m` of a band, in push order. */
  function Groups(m: nat, subsize: nat, radix: nat, forward: bool): seq<Twiddle>
    requires radix > 0
  {
    if m == 0 then [] else Groups(m - 1, subsize, radix, forward) + Group(m - 1, subsize, radix, forward)
  }

  /** What one iteration at sub-transform size `subsize` appends. */
  function Band(subsize: nat, radix: nat, forward: bool): seq<Twiddle>
    requires radix > 0
  {
    Groups(subsize / radix, subsize, radix, forward)
  }

  /** What `extend_twiddles(size, radix, iterations)` appends to one table. */
  function Bands(size: nat, radix: nat, iterations: nat, forward: bool): seq<Twiddle>
    requires radix > 0
    decreases iterations
  {
    if iterations == 0 then []
    else Band(size, radix, forward) + Bands(size / radix, radix, iterations - 1, forward)
  }

  /** The bands of a whole list of per-iteration radices, starting at
      sub-size `size`. */
  function BandsOf(rs: seq<nat>, size: nat, forward: bool): seq<Twiddle>
    requires Positive(rs)
    decreases |rs|
  {
    if |rs| == 0 then []
    else Band(size, rs[0], forward) + BandsOf(rs[1..], size / rs[0], forward)
  }

  /** `Σ_{t in k..it} size / radix^t`. */
  function SubsizeSum(size: nat, radix: nat, k: nat, it: nat): nat
    requires radix > 0
    decreases it - k
  {
    if k >= it then 0 else size / Pow(radix, k) + SubsizeSum(size, radix, k + 1, it)
  }

  // ---------------------------------------------------------------------
  // Layout of one band

  lemma MulSucc(m: nat, r: nat)
    requires m > 0
    ensures (m - 1) * r + r == m * r
  {
  }

  /** The first `m` groups hold `m * radix` entries. */
  lemma {:induction false} GroupsLength(m: nat, subsize: nat, radix: nat, forward: bool)
    requires radix > 0
    ensures |Groups(m, subsize, radix, forward)| == m * radix
  {
    if m > 0 {
      GroupsLength(m - 1, subsize, radix, forward);
      MulSucc(m, radix);
    }
  }

  /** Entry `i * radix + j` of the first `m` groups is branch `j` of group
      `i`: the identity for `j == 0`, otherwise the root `(i * j, subsize)`. */
  lemma {:induction false} GroupsEntry(m: nat, subsize: nat, radix: nat, forward: bool, i: nat, j: nat)
    requires radix > 0 && i < m && j < radix
    ensures i * radix + j < |Groups(m, subsize, radix, forward)|
    ensures Groups(m, subsize, radix, forward)[i * radix + j]
      == (if j == 0 then Identity else Root(i * j, subsize, forward))
  {
    var prev := Groups(m - 1, subsize, radix, forward);
    var group := Group(m - 1, subsize, radix, forward);
    assert Groups(m, subsize, radix, forward) == prev + group;
    GroupsLength(m - 1, subsize, radix, forward);
    MulSucc(m, radix);
    if i == m - 1 {
      assert (prev + group)[i * radix + j] == group[j];
      if j > 0 {
        assert group[j] == Root(i * j, subsize, forward);
      }
    } else {
      GroupsEntry(m - 1, subsize, radix, forward, i, j);
      assert (prev + group)[i * radix + j] == prev[i * radix + j];
    }
  }

  /** A band holds `subsize / radix` whole groups; with `radix` dividing
      `subsize` that is exactly `subsize` entries. */
  lemma BandLength(subsize: nat, radix: nat, forward: bool)
    requires radix > 0
    ensures |Band(subsize, radix, forward)| == (subsize / radix) * radix
    ensures subsize % radix == 0 ==> |Band(subsize, radix, forward)| == subsize
  {
    GroupsLength(subsize / radix, subsize, radix, forward);
  }

  /** The entry a kernel reads as `twiddles[i * radix + j]`: the identity for
      branch `j == 0`, otherwise the root `(i * j, subsize)` in the table's
      direction. */
  lemma BandEntry(subsize: nat, radix: nat, forward: bool, i: nat, j: nat)
    requires radix > 0 && i < subsize / radix && j < radix
    ensures i * radix + j < |Band(subsize, radix, forward)|
    ensures Band(subsize, radix, forward)[i * radix + j]
      == (if j == 0 then Identity else Root(i * j, subsize, forward))
  {
    GroupsEntry(subsize / radix, subsize, radix, forward, i, j);
  }

  // ---------------------------------------------------------------------
  // Lengths

  lemma {:induction false} PowSplit(b: nat, e1: nat, e2: nat)
    ensures Pow(b, e1 + e2) == Pow(b, e1) * Pow(b, e2)
    decreases e1
  {
    if e1 > 0 {
      var x, y := Pow(b, e1 - 1), Pow(b, e2);
      assert Pow(b, e1 + e2) == b * Pow(b, e1 - 1 + e2);
      PowSplit(b, e1 - 1, e2);
      MulAssoc(b, x, y);
    }
  }

  /** `extend_twiddles` appends `Σ_{t < iterations} size / radix^t` entries
      when `radix^iterations` divides `size` (stated here from the `k`-th
      iteration on, where the remaining sub-size is `size / radix^k`). */
  lemma {:induction false} BandsLengthFrom(size: nat, radix: nat, k: nat, iterations: nat, forward: bool)
    requires radix > 0 && k <= iterations && Divides(Pow(radix, iterations), size)
    ensures |Bands(size / Pow(radix, k), radix, iterations - k, forward)| == SubsizeSum(size, radix, k, iterations)
    decreases iterations - k
  {
    if k < iterations {
      var sub := size / Pow(radix, k);
      SubsizeStep(size, radix, k, iterations);
      BandLength(sub, radix, forward);
      BandsLengthFrom(size, radix, k + 1, iterations, forward);
    }
  }

  /** While iterations remain, the radix divides the current sub-size and
      the next sub-size is the current one divided by the radix. */
  lemma SubsizeStep(size: nat, radix: nat, k: nat, iterations: nat)
    requires radix > 0 && k < iterations && Divides(Pow(radix, iterations), size)
    ensures (size / Pow(radix, k)) % radix == 0
    ensures size / Pow(radix, k + 1) == (size / Pow(radix, k)) / radix
  {
    var p, r := Pow(radix, k), Pow(radix, iterations - k - 1);
    var q := size / Pow(radix, iterations);
    var rest := r * q;
    assert size == Pow(radix, iterations) * q;
    PowSplit(radix, k, iterations - k);
    assert Pow(radix, iterations - k) == radix * r;
    assert Pow(radix, iterations) == p * (radix * r);
    MulAssoc(p, radix * r, q);
    MulAssoc(radix, r, q);
    assert size == p * (radix * rest);
    MulAssoc(p, radix, rest);
    MulSwap(radix, p, 1);
    assert Pow(radix, k + 1) == radix * p;
    assert size == Pow(radix, k + 1) * rest;
    MulDivExact(radix * rest, p);
    MulDivExact(rest, Pow(radix, k + 1));
    MulDivExact(rest, radix);
  }

  lemma BandsLength(size: nat, radix: nat, iterations: nat, forward: bool)
    requires radix > 0 && Divides(Pow(radix, iterations), size)
    ensures |Bands(size, radix, iterations, forward)| == SubsizeSum(size, radix, 0, iterations)
  {
    assert Pow(radix, 0) == 1;
    MulDivExact(size, 1);
    BandsLengthFrom(size, radix, 0, iterations, forward);
  }

  // ---------------------------------------------------------------------
  // Forward and reverse tables

  lemma MirroredAppend(f1: seq<Twiddle>, r1: seq<Twiddle>, f2: seq<Twiddle>, r2: seq<Twiddle>)
    requires Mirrored(f1, r1) && Mirrored(f2, r2)
    ensures Mirrored(f1 + f2, r1 + r2)
  {
    forall k | 0 <= k < |f1 + f2|
      ensures (r1 + r2)[k] == Flip((f1 + f2)[k])
    {
      if k >= |f1| {
        assert (r1 + r2)[k] == r2[k - |f1|];
      }
    }
  }

  lemma {:induction false} GroupsMirrored(m: nat, subsize: nat, radix: nat)
    requires radix > 0
    ensures Mirrored(Groups(m, subsize, radix, true), Groups(m, subsize, radix, false))
  {
    if m > 0 {
      GroupsMirrored(m - 1, subsize, radix);
      MirroredAppend(Groups(m - 1, subsize, radix, true), Groups(m - 1, subsize, radix, false),
                     Group(m - 1, subsize, radix, true), Group(m - 1, subsize, radix, false));
    }
  }

  /** The two tables `extend_twiddles` fills differ only in the direction
      flag passed to `compute_twiddle`. */
  lemma {:induction false} BandsMirrored(size: nat, radix: nat, iterations: nat)
    requires radix > 0
    ensures Mirrored(Bands(size, radix, iterations, true), Bands(size, radix, iterations, false))
    decreases iterations
  {
    if iterations > 0 {
      GroupsMirrored(size / radix, size, radix);
      BandsMirrored(size / radix, radix, iterations - 1);
      MirroredAppend(Band(size, radix, true), Band(size, radix, false),
                     Bands(size / radix, radix, iterations - 1, true), Bands(size / radix, radix, iterations - 1, false));
    }
  }

  // ---------------------------------------------------------------------
  // Per-stage bands versus per-iteration bands

  lemma {:induction false} BandsAsBandsOf(size: nat, radix: nat, iterations: nat, forward: bool)
    requires radix > 0
    ensures Positive(Repeat(radix, iterations))
    ensures Bands(size, radix, iterations, forward) == BandsOf(Repeat(radix, iterations), size, forward)
    decreases iterations
  {
    if iterations > 0 {
      assert Repeat(radix, iterations)[1..] == Repeat(radix, iterations - 1);
      BandsAsBandsOf(size / radix, radix, iterations - 1, forward);
    }
  }

  lemma {:induction false} BandsOfAppend(a: seq<nat>, b: seq<nat>, size: nat, forward: bool)
    requires Positive(a) && Positive(b)
    ensures Positive(a + b)
    ensures BandsOf(a + b, size, forward) == BandsOf(a, size, forward) + BandsOf(b, DivAll(size, a), forward)
    decreases |a|
  {
    if |a| == 0 {
      assert a + b == b;
    } else {
      assert (a + b)[1..] == a[1..] + b;
      BandsOfAppend(a[1..], b, size / a[0], forward);
    }
  }

  // ---------------------------------------------------------------------
  // The push loops of extend_twiddles

  /** The innermost loop: one group pushed onto both tables. */
  method PushGroup(forward0: seq<Twiddle>, reverse0: seq<Twiddle>, i: nat, subsize: nat, radix: nat)
    returns (forward: seq<Twiddle>, reverse: seq<Twiddle>)
    requires radix > 0
    ensures forward == forward0 + Group(i, subsize, radix, true)
    ensures reverse == reverse0 + Group(i, subsize, radix, false)
  {
    forward := forward0 + [Identity];
    reverse := reverse0 + [Identity];
    for j := 1 to radix
      invariant forward == forward0 + [Identity] + seq(j - 1, (t: nat) => Root(i * (t + 1), subsize, true))
      invariant reverse == reverse0 + [Identity] + seq(j - 1, (t: nat) => Root(i * (t + 1), subsize, false))
    {
      assert seq(j, (t: nat) => Root(i * (t + 1), subsize, true))
          == seq(j - 1, (t: nat) => Root(i * (t + 1), subsize, true)) + [Root(i * j, subsize, true)];
      assert seq(j, (t: nat) => Root(i * (t + 1), subsize, false))
          == seq(j - 1, (t: nat) => Root(i * (t + 1), subsize, false)) + [Root(i * j, subsize, false)];
      forward := forward + [Root(i * j, subsize, true)];
      reverse := reverse + [Root(i * j, subsize, false)];
    }
  }

  /** One iteration of `extend_twiddles`: `subsize / radix` groups. */
  method PushBand(forward0: seq<Twiddle>, reverse0: seq<Twiddle>, subsize: nat, radix: nat)
    returns (forward: seq<Twiddle>, reverse: seq<Twiddle>)
    requires radix > 0
    ensures forward == forward0 + Band(subsize, radix, true)
    ensures reverse == reverse0 + Band(subsize, radix, false)
  {
    forward, reverse := forward0, reverse0;
    var m := subsize / radix;
    for i := 0 to m
      invariant forward == forward0 + Groups(i, subsize, radix, true)
      invariant reverse == reverse0 + Groups(i, subsize, radix, false)
    {
      forward, reverse := PushGroup(forward, reverse, i, subsize, radix);
    }
  }

  /** Models `extend_twiddles`: the nested `push` loops append to both
      tables exactly the bands described by `Bands`. */
  method ExtendTwiddles(forwardTable: seq<Twiddle>, reverseTable: seq<Twiddle>, size: nat, radix: nat, iterations: nat)
    returns (forward: seq<Twiddle>, reverse: seq<Twiddle>)
    requires radix > 0
    ensures forward == forwardTable + Bands(size, radix, iterations, true)
    ensures reverse == reverseTable + Bands(size, radix, iterations, false)
  {
    forward, reverse := forwardTable, reverseTable;
    var subsize: nat := size;
    for it := 0 to iterations
      invariant forward + Bands(subsize, radix, iterations - it, true) == forwardTable + Bands(size, radix, iterations, true)
      invariant reverse + Bands(subsize, radix, iterations - it, false) == reverseTable + Bands(size, radix, iterations, false)
    {
      forward, reverse := PushBand(forward, reverse, subsize, radix);
      subsize := subsize / radix;
    }
  }
}
