/** The planner, `Stages::new`: factor the length greedily into runs of
    radix 4, then 3, then 2, and build both twiddle tables along the way. */
module Planner {
  import opened Wrappers
  import opened Factors
  import opened Smoothness
  import opened Twiddles

  /** A `(radix, iterations)` entry of the stage list. */
  datatype Stage = Stage(radix: nat, iterations: nat)

  /** Models `struct Stages`. */
  datatype Stages = Stages(size: nat, stages: seq<Stage>, forwardTwiddles: seq<Twiddle>, reverseTwiddles: seq<Twiddle>)

  /** The locals of `Stages::new` between two of its blocks. */
  datatype Builder = Builder(current: nat, stages: seq<Stage>, forwardTwiddles: seq<Twiddle>, reverseTwiddles: seq<Twiddle>)

  /** The radix of every single iteration, in execution order. */
  function Flatten(stages: seq<Stage>): seq<nat> {
    if |stages| == 0 then [] else Repeat(stages[0].radix, stages[0].iterations) + Flatten(stages[1..])
  }

  /** `Π radix^iterations` over the stage list. */
  function StageProduct(stages: seq<Stage>): nat {
    if |stages| == 0 then 1 else Pow(stages[0].radix, stages[0].iterations) * StageProduct(stages[1..])
  }

  /** Total number of kernel iterations over all stages. */
  function TotalIterations(stages: seq<Stage>): nat {
    if |stages| == 0 then 0 else stages[0].iterations + TotalIterations(stages[1..])
  }

  /** Radices the kernel set implements. */
  predicate Supported(rs: seq<nat>) {
    forall i :: 0 <= i < |rs| ==> rs[i] == 2 || rs[i] == 3 || rs[i] == 4
  }

  /** Shape of every plan the planner produces: supported radices in
      strictly decreasing order (so each appears at most once), each with a
      positive iteration count. */
  predicate WellFormed(stages: seq<Stage>) {
    && (forall i :: 0 <= i < |stages| ==>
          (stages[i].radix == 2 || stages[i].radix == 3 || stages[i].radix == 4) && stages[i].iterations > 0)
    && (forall i, j :: 0 <= i < j < |stages| ==> stages[i].radix > stages[j].radix)
  }

  /** What the stage driver relies on: the stage list multiplies out to the
      length and both tables are the per-iteration bands, in the order the
      iterations run. */
  predicate ValidPlan(p: Stages) {
    && p.size > 0
    && WellFormed(p.stages)
    && StageProduct(p.stages) == p.size
    && Positive(Flatten(p.stages))
    && p.forwardTwiddles == BandsOf(Flatten(p.stages), p.size, true)
    && p.reverseTwiddles == BandsOf(Flatten(p.stages), p.size, false)
  }

  // ---------------------------------------------------------------------
  // Stages::new

  /** One factor-extraction block of the planner: count how often the
      radix divides the current size, record the stage and extend the
      tables only when the count is positive, then continue with the
      residual. */
  function ExtractFactor(b: Builder, radix: nat): (r: Builder)
    requires radix > 1 && b.current > 0
    ensures r.current > 0 && r.current % radix != 0
    ensures Divides(r.current, b.current)
    ensures r.current * StageProduct(r.stages) == b.current * StageProduct(b.stages)
  {
    var (count, rest) := NumFactors(radix, b.current);
    MulDivExact(Pow(radix, count), rest);
    if count > 0 then
      assert rest * StageProduct(b.stages + [Stage(radix, count)]) == b.current * StageProduct(b.stages) by {
        var sp, p := StageProduct(b.stages), Pow(radix, count);
        StageProductSnoc(b.stages, Stage(radix, count));
        assert rest * p == b.current;
        MulSwap(rest, sp, p);
        assert rest * (sp * p) == sp * b.current;
      }
      Builder(rest, b.stages + [Stage(radix, count)],
              b.forwardTwiddles + Bands(b.current, radix, count, true),
              b.reverseTwiddles + Bands(b.current, radix, count, false))
    else
      Builder(rest, b.stages, b.forwardTwiddles, b.reverseTwiddles)
  }

  /** The builder after the radix-4, radix-3 and radix-2 blocks. */
  function Built(size: nat): (b: Builder)
    requires size > 0
    ensures b.current > 0
  {
    ExtractFactor(ExtractFactor(ExtractFactor(Builder(size, [], [], []), 4), 3), 2)
  }

  /** Models `Stages::new(size)`: `None` when a residual other than 1 is left
      after removing the 4s, 3s and 2s. `Stages::new(0)` never returns (the
      radix-4 `num_factors` loop spins on 0), hence `size > 0`. */
  function NewStages(size: nat): (r: Option<Stages>)
    requires size > 0
    ensures r.Some? ==> r.value.size == size && StageProduct(r.value.stages) == size
  {
    var b := Built(size);
    if b.current != 1 then None
    else
      Some(Stages(size, b.stages, b.forwardTwiddles, b.reverseTwiddles))
  }

  /** One block of `Stages::new` as statements: push the stage and run the
      `extend_twiddles` loops only when the count is positive. */
  method ExtractBlock(current: nat, stages: seq<Stage>, forward: seq<Twiddle>, reverse: seq<Twiddle>, radix: nat)
    returns (current': nat, stages': seq<Stage>, forward': seq<Twiddle>, reverse': seq<Twiddle>)
    requires radix > 1 && current > 0
    ensures Builder(current', stages', forward', reverse') == ExtractFactor(Builder(current, stages, forward, reverse), radix)
  {
    var (count, newSize) := NumFactors(radix, current);
    stages', forward', reverse' := stages, forward, reverse;
    if count > 0 {
      stages' := stages + [Stage(radix, count)];
      forward', reverse' := ExtendTwiddles(forward, reverse, current, radix, count);
    }
    current' := newSize;
  }

  /** The statement-by-statement construction of `Stages::new`, with the
      tables filled by the push loops of `extend_twiddles`. */
  method BuildStages(size: nat) returns (r: Option<Stages>)
    requires size > 0
    ensures r == NewStages(size)
  {
    var current, stages, forward, reverse := size, [], [], [];
    current, stages, forward, reverse := ExtractBlock(current, stages, forward, reverse, 4);
    current, stages, forward, reverse := ExtractBlock(current, stages, forward, reverse, 3);
    current, stages, forward, reverse := ExtractBlock(current, stages, forward, reverse, 2);
    if current != 1 {
      r := None;
    } else {
      r := Some(Stages(size, stages, forward, reverse));
    }
  }

  // ---------------------------------------------------------------------
  // Stage-list arithmetic

  lemma {:induction false} FlattenAppend(a: seq<Stage>, b: seq<Stage>)
    ensures Flatten(a + b) == Flatten(a) + Flatten(b)
  {
    if |a| == 0 {
      assert a + b == b;
    } else {
      assert (a + b)[1..] == a[1..] + b;
      FlattenAppend(a[1..], b);
    }
  }

  lemma FlattenSnoc(a: seq<Stage>, s: Stage)
    ensures Flatten(a + [s]) == Flatten(a) + Repeat(s.radix, s.iterations)
  {
    FlattenAppend(a, [s]);
    assert Flatten([s]) == Repeat(s.radix, s.iterations) + Flatten([]);
  }

  /** The product of the flattened radices is the stage product. */
  lemma {:induction false} ProdFlatten(stages: seq<Stage>)
    ensures Prod(Flatten(stages)) == StageProduct(stages)
  {
    if |stages| > 0 {
      ProdFlatten(stages[1..]);
      ProdAppend(Repeat(stages[0].radix, stages[0].iterations), Flatten(stages[1..]));
      ProdRepeat(stages[0].radix, stages[0].iterations);
    }
  }

  lemma StageProductSnoc(a: seq<Stage>, s: Stage)
    ensures StageProduct(a + [s]) == StageProduct(a) * Pow(s.radix, s.iterations)
  {
    ProdFlatten(a + [s]);
    ProdFlatten(a);
    FlattenSnoc(a, s);
    ProdAppend(Flatten(a), Repeat(s.radix, s.iterations));
    ProdRepeat(s.radix, s.iterations);
  }

  /** One entry of the flattened list per iteration. */
  lemma {:induction false} FlattenLength(stages: seq<Stage>)
    ensures |Flatten(stages)| == TotalIterations(stages)
  {
    if |stages| > 0 {
      FlattenLength(stages[1..]);
    }
  }

  lemma {:induction false} FlattenSupported(stages: seq<Stage>)
    requires WellFormed(stages)
    ensures Supported(Flatten(stages)) && Positive(Flatten(stages))
  {
    if |stages| > 0 {
      assert WellFormed(stages[1..]);
      FlattenSupported(stages[1..]);
      var head := Repeat(stages[0].radix, stages[0].iterations);
      assert Flatten(stages) == head + Flatten(stages[1..]);
      forall i | 0 <= i < |Flatten(stages)|
        ensures Flatten(stages)[i] == 2 || Flatten(stages)[i] == 3 || Flatten(stages)[i] == 4
      {
        if i >= |head| {
          assert Flatten(stages)[i] == Flatten(stages[1..])[i - |head|];
        }
      }
    }
  }

  // ---------------------------------------------------------------------
  // What the builder keeps true from block to block

  predicate BuilderInv(b: Builder, size: nat, next: nat) {
    && b.current > 0
    && WellFormed(b.stages)
    && (forall i :: 0 <= i < |b.stages| ==> b.stages[i].radix > next)
    && Positive(Flatten(b.stages))
    && b.current == DivAll(size, Flatten(b.stages))
    && b.forwardTwiddles == BandsOf(Flatten(b.stages), size, true)
    && b.reverseTwiddles == BandsOf(Flatten(b.stages), size, false)
  }

  /** Packs the conjuncts of `BuilderInv` into the predicate. It adds no fact:
      callers prove the conjuncts one by one and then conclude the
      predicate in a single step, which keeps the solver's work small. */
  lemma BuilderInvIntro(b: Builder, size: nat, next: nat)
    requires b.current > 0 && WellFormed(b.stages)
    requires forall i :: 0 <= i < |b.stages| ==> b.stages[i].radix > next
    requires Positive(Flatten(b.stages)) && b.current == DivAll(size, Flatten(b.stages))
    requires b.forwardTwiddles == BandsOf(Flatten(b.stages), size, true)
    requires b.reverseTwiddles == BandsOf(Flatten(b.stages), size, false)
    ensures BuilderInv(b, size, next)
  {
  }

  /** Appending a stage whose radix is below every earlier one, and above
      `next`, keeps the list well formed and above `next`. */
  lemma WellFormedSnoc(stages: seq<Stage>, st: Stage, next: nat)
    requires WellFormed(stages) && (st.radix == 2 || st.radix == 3 || st.radix == 4) && st.iterations > 0
    requires forall i :: 0 <= i < |stages| ==> stages[i].radix > st.radix
    requires st.radix > next
    ensures WellFormed(stages + [st])
    ensures forall i :: 0 <= i < |stages + [st]| ==> (stages + [st])[i].radix > next
  {
  }

  lemma ExtractFactorPreserves(b: Builder, radix: nat, size: nat, next: nat)
    requires radix > 1 && (radix == 2 || radix == 3 || radix == 4) && next < radix
    requires BuilderInv(b, size, radix)
    ensures BuilderInv(ExtractFactor(b, radix), size, next)
  {
    var (count, rest) := NumFactors(radix, b.current);
    var r := ExtractFactor(b, radix);
    var prefix := Flatten(b.stages);
    if count > 0 {
      var reps := Repeat(radix, count);
      assert r == Builder(rest, b.stages + [Stage(radix, count)],
                          b.forwardTwiddles + Bands(b.current, radix, count, true),
                          b.reverseTwiddles + Bands(b.current, radix, count, false));
      assert Flatten(r.stages) == prefix + reps by {
        FlattenSnoc(b.stages, Stage(radix, count));
      }
      assert Positive(prefix + reps) && rest == DivAll(size, prefix + reps) by {
        NumFactorsRest(radix, b.current);
        BandsAsBandsOf(b.current, radix, count, true);
        DivAllAppend(size, prefix, reps);
      }
      assert r.forwardTwiddles == BandsOf(prefix + reps, size, true) by {
        BandsAsBandsOf(b.current, radix, count, true);
        BandsOfAppend(prefix, reps, size, true);
      }
      assert r.reverseTwiddles == BandsOf(prefix + reps, size, false) by {
        BandsAsBandsOf(b.current, radix, count, false);
        BandsOfAppend(prefix, reps, size, false);
      }
      WellFormedSnoc(b.stages, Stage(radix, count), next);
      BuilderInvIntro(r, size, next);
    } else {
      assert r == Builder(rest, b.stages, b.forwardTwiddles, b.reverseTwiddles);
      assert rest == b.current by {
        assert rest * Pow(radix, 0) == b.current;
      }
      BuilderInvIntro(r, size, next);
    }
  }

  lemma BuiltInv(size: nat)
    requires size > 0
    ensures BuilderInv(Built(size), size, 0)
  {
    var b0 := Builder(size, [], [], []);
    assert BuilderInv(b0, size, 4);
    ExtractFactorPreserves(b0, 4, size, 3);
    var b4 := ExtractFactor(b0, 4);
    ExtractFactorPreserves(b4, 3, size, 2);
    var b3 := ExtractFactor(b4, 3);
    ExtractFactorPreserves(b3, 2, size, 0);
  }

  // ---------------------------------------------------------------------
  // Properties of Stages::new

  /** The planner succeeds exactly for products of 2s and 3s, equivalently
      for lengths with no prime factor other than 2 and 3. */
  lemma NewStagesSucceedsIff(size: nat)
    requires size > 0
    ensures NewStages(size).Some? <==> Smooth(size)
    ensures NewStages(size).Some? <==> !HasForeignPrimeFactor(size)
  {
    var b0 := Builder(size, [], [], []);
    var b4 := ExtractFactor(b0, 4);
    var b3 := ExtractFactor(b4, 3);
    var b2 := ExtractFactor(b3, 2);
    var (c4, r4) := NumFactors(4, size);
    var (c3, r3) := NumFactors(3, r4);
    var (c2, r2) := NumFactors(2, r3);
    assert b4.current == r4 && b3.current == r3 && b2.current == r2;
    SmoothTimesPow(r4, 4, c4);
    SmoothTimesPow(r3, 3, c3);
    SmoothTimesPow(r2, 2, c2);
    if r2 % 3 == 0 {
      DividesProduct(3, r2, Pow(2, c2));
      assert false;
    }
    SmoothResidual(r2);
    SmoothIffNoForeignPrime(size);
  }

  /** What is left after the 4s holds at most one 2. */
  lemma AtMostOneTwo(v: nat)
    requires v > 0 && v % 4 != 0
    ensures NumFactors(2, v).0 <= 1
  {
    if v % 2 == 0 {
      var h := v / 2;
      assert v == 2 * h;
      if h % 2 == 0 {
        assert v == 4 * (h / 2);
        MulDivExact(h / 2, 4);
        assert false;
      }
      assert NumFactors(2, h) == (0, h);
    }
  }

  /** A successful plan: stored length `size`, radices 4, 3, 2 in that
      order with positive counts, `Π radix^iterations == size`, and a radix-2
      stage of exactly one iteration if any (two would have been taken as a
      4). */
  lemma NewStagesShape(size: nat)
    requires size > 0 && NewStages(size).Some?
    ensures var p := NewStages(size).value;
      && p.size == size
      && WellFormed(p.stages)
      && StageProduct(p.stages) == size
      && (forall i :: 0 <= i < |p.stages| && p.stages[i].radix == 2 ==> p.stages[i].iterations == 1)
  {
    var b0 := Builder(size, [], [], []);
    assert BuilderInv(b0, size, 4);
    ExtractFactorPreserves(b0, 4, size, 3);
    var b4 := ExtractFactor(b0, 4);
    ExtractFactorPreserves(b4, 3, size, 2);
    var b3 := ExtractFactor(b4, 3);
    ExtractFactorPreserves(b3, 2, size, 0);
    if b3.current % 4 == 0 {
      DividesTransitive(4, b3.current, b4.current);
      assert false;
    }
    AtMostOneTwo(b3.current);
  }

  /** Length 1 needs no stage and no twiddle. */
  lemma NewStagesOfOne()
    ensures NewStages(1) == Some(Stages(1, [], [], []))
  {
    assert NumFactors(4, 1) == (0, 1);
    assert NumFactors(3, 1) == (0, 1);
    assert NumFactors(2, 1) == (0, 1);
  }

  /** Every plan the planner returns is one the stage driver accepts. */
  lemma NewStagesValid(size: nat)
    requires size > 0 && NewStages(size).Some?
    ensures ValidPlan(NewStages(size).value)
  {
    BuiltInv(size);
    NewStagesShape(size);
  }

  /** The reverse table is the forward table with each direction flipped. */
  lemma {:induction false} BandsOfMirrored(rs: seq<nat>, size: nat)
    requires Positive(rs)
    ensures Mirrored(BandsOf(rs, size, true), BandsOf(rs, size, false))
    decreases |rs|
  {
    if |rs| > 0 {
      BandsMirrored(size, rs[0], 1);
      assert Bands(size, rs[0], 1, true) == Band(size, rs[0], true) + [];
      assert Bands(size, rs[0], 1, false) == Band(size, rs[0], false) + [];
      assert Band(size, rs[0], true) + [] == Band(size, rs[0], true);
      assert Band(size, rs[0], false) + [] == Band(size, rs[0], false);
      BandsOfMirrored(rs[1..], size / rs[0]);
      MirroredAppend(Band(size, rs[0], true), Band(size, rs[0], false),
                     BandsOf(rs[1..], size / rs[0], true), BandsOf(rs[1..], size / rs[0], false));
    }
  }

  lemma NewStagesMirrored(size: nat)
    requires size > 0 && NewStages(size).Some?
    ensures Mirrored(NewStages(size).value.forwardTwiddles, NewStages(size).value.reverseTwiddles)
  {
    NewStagesValid(size);
    BandsOfMirrored(Flatten(NewStages(size).value.stages), size);
  }
}
