/** The loops of `apply_stages_f32` / `apply_stages_f64`, run against the
    reference schedule. */
module Driver {
  import opened Factors
  import opened Twiddles
  import opened Planner
  import opened Schedules

  /** The first inner loop of a stage: narrow kernels while the stride is
      below the vector width and the stage has iterations left. */
  method NarrowIterations<S(!new)>(s0: DriverState<S>, radix: nat, iterations: nat, forward: bool, width: nat, kernel: Kernel<S>,
                                   ghost rs: seq<nat>, ghost done0: nat, ghost n: nat, ghost table: seq<Twiddle>,
                                   ghost full: seq<KernelCall>, ghost input: seq<S>)
    returns (s: DriverState<S>, iteration: nat, ghost done: nat)
    requires OnSchedule(s0, rs, done0, n, table, forward, width, kernel, full, input)
    requires done0 + iterations <= |rs| && rs[done0 .. done0 + iterations] == Repeat(radix, iterations)
    requires LengthPreserving(kernel)
    ensures iteration <= iterations && (iteration == iterations || s.stride >= width)
    ensures done == done0 + iteration
    ensures OnSchedule(s, rs, done, n, table, forward, width, kernel, full, input)
    ensures s.stride >= s0.stride
  {
    s := s0;
    iteration := 0;
    done := done0;
    while s.stride < width && iteration < iterations
      invariant iteration <= iterations && done == done0 + iteration
      invariant s.stride >= s0.stride
      invariant OnSchedule(s, rs, done, n, table, forward, width, kernel, full, input)
      decreases iterations - iteration
    {
      assert radix > 0 && (s.size / radix) * radix <= |s.twiddles|
          && OnSchedule(Step(s, radix, Narrow, forward, kernel), rs, done + 1, n, table, forward, width, kernel, full, input)
          && Step(s, radix, Narrow, forward, kernel).stride >= s.stride by {
        assert rs[done] == rs[done0 .. done0 + iterations][iteration] == radix;
        StepOnSchedule(s, rs, done, n, table, forward, width, kernel, full, input, Narrow);
      }
      s := Step(s, radix, Narrow, forward, kernel);
      iteration := iteration + 1;
      done := done + 1;
    }
  }

  /** The second inner loop of a stage: wide kernels for the iterations the
      first loop left. */
  method WideIterations<S(!new)>(s0: DriverState<S>, radix: nat, iteration: nat, iterations: nat, forward: bool, width: nat,
                                 kernel: Kernel<S>, ghost rs: seq<nat>, ghost done0: nat, ghost mid: nat, ghost n: nat,
                                 ghost table: seq<Twiddle>, ghost full: seq<KernelCall>, ghost input: seq<S>)
    returns (s: DriverState<S>, ghost done: nat)
    requires iteration <= iterations && (iteration == iterations || s0.stride >= width)
    requires mid == done0 + iteration
    requires OnSchedule(s0, rs, mid, n, table, forward, width, kernel, full, input)
    requires done0 + iterations <= |rs| && rs[done0 .. done0 + iterations] == Repeat(radix, iterations)
    requires LengthPreserving(kernel)
    ensures done == done0 + iterations
    ensures OnSchedule(s, rs, done, n, table, forward, width, kernel, full, input)
    ensures s.stride >= s0.stride
  {
    s := s0;
    done := mid;
    for i := iteration to iterations
      invariant done == done0 + i
      invariant i < iterations ==> s.stride >= width
      invariant s.stride >= s0.stride
      invariant OnSchedule(s, rs, done, n, table, forward, width, kernel, full, input)
    {
      assert radix > 0 && (s.size / radix) * radix <= |s.twiddles|
          && OnSchedule(Step(s, radix, Wide, forward, kernel), rs, done + 1, n, table, forward, width, kernel, full, input)
          && Step(s, radix, Wide, forward, kernel).stride >= s.stride by {
        assert rs[done] == rs[done0 .. done0 + iterations][i] == radix;
        StepOnSchedule(s, rs, done, n, table, forward, width, kernel, full, input, Wide);
      }
      s := Step(s, radix, Wide, forward, kernel);
      done := done + 1;
    }
  }

  /** One pass of the driver's loop over the stage list: stage `k`, narrow
      iterations first, then wide ones. */
  method RunStage<S(!new)>(s0: DriverState<S>, stages: seq<Stage>, k: nat, forward: bool, width: nat, kernel: Kernel<S>,
                           ghost n: nat, ghost table: seq<Twiddle>, ghost full: seq<KernelCall>, ghost input: seq<S>)
    returns (s: DriverState<S>, ghost done: nat)
    requires k < |stages| && LengthPreserving(kernel)
    requires OnSchedule(s0, Flatten(stages), |Flatten(stages[..k])|, n, table, forward, width, kernel, full, input)
    ensures done == |Flatten(stages[..k + 1])|
    ensures OnSchedule(s, Flatten(stages), done, n, table, forward, width, kernel, full, input)
    ensures s.stride >= s0.stride
  {
    ghost var rs := Flatten(stages);
    ghost var done0 := |Flatten(stages[..k])|;
    var stage := stages[k];
    assert done0 + stage.iterations <= |rs| && rs[done0 .. done0 + stage.iterations] == Repeat(stage.radix, stage.iterations)
        && done0 + stage.iterations == |Flatten(stages[..k + 1])| by {
      FlattenAt(stages, k);
    }
    var iteration;
    ghost var mid;
    s, iteration, mid := NarrowIterations(s0, stage.radix, stage.iterations, forward, width, kernel,
                                          rs, done0, n, table, full, input);
    s, done := WideIterations(s, stage.radix, iteration, stage.iterations, forward, width, kernel,
                              rs, done0, mid, n, table, full, input);
  }

  /** The driver's stage loop: every stage in plan order. */
  method RunStages<S(!new)>(s0: DriverState<S>, stages: seq<Stage>, forward: bool, width: nat, kernel: Kernel<S>,
                            ghost n: nat, ghost table: seq<Twiddle>, ghost full: seq<KernelCall>, ghost input: seq<S>)
    returns (s: DriverState<S>)
    requires OnSchedule(s0, Flatten(stages), 0, n, table, forward, width, kernel, full, input)
    requires LengthPreserving(kernel)
    ensures OnSchedule(s, Flatten(stages), |Flatten(stages)|, n, table, forward, width, kernel, full, input)
  {
    s := s0;
    ghost var done := 0;
    assert stages[..0] == [];
    for k := 0 to |stages|
      invariant done == |Flatten(stages[..k])|
      invariant OnSchedule(s, Flatten(stages), done, n, table, forward, width, kernel, full, input)
    {
      s, done := RunStage(s, stages, k, forward, width, kernel, n, table, full, input);
    }
    assert stages[..|stages|] == stages;
  }

  /** Models `apply_stages_f32` / `apply_stages_f64`. `input` is the
      caller's buffer and `output` the scratch buffer; both must have the
      plan's length (the source's `assert_eq!`s). Returns the caller's
      buffer afterwards and the driver's final state. */
  method ApplyStages<S(!new)>(input: seq<S>, output: seq<S>, plan: Stages, forward: bool, width: nat,
                              kernel: Kernel<S>, divide: (S, nat) -> S)
    returns (result: seq<S>, last: DriverState<S>)
    requires ValidPlan(plan) && |input| == plan.size && |output| == plan.size
    requires LengthPreserving(kernel)
    ensures last.trace == PlanSchedule(plan, forward, width)
    ensures |last.trace| == TotalIterations(plan.stages)
    ensures last.size == 1 && last.stride == plan.size
    ensures last.cursor == |Table(plan, forward)| && last.twiddles == []
    ensures last.dataInOutput == (TotalIterations(plan.stages) % 2 == 1)
    ensures |result| == plan.size && |last.input| == plan.size && |last.output| == plan.size
    ensures CursorsWithin(last.trace, |Table(plan, forward)|)
    ensures result == Finish(Chain(kernel, Table(plan, forward), last.trace, input), forward, plan.size, divide)
  {
    ghost var table := Table(plan, forward);
    ghost var full := PlanSchedule(plan, forward, width);
    FlattenLength(plan.stages);
    StartOnSchedule(plan, forward, width, kernel, input, output);

    var twiddles := if forward then plan.forwardTwiddles else plan.reverseTwiddles;
    var s := DriverState(input, output, false, plan.size, 1, 0, twiddles, []);
    s := RunStages(s, plan.stages, forward, width, kernel, plan.size, table, full, input);
    EndOnSchedule(s, Flatten(plan.stages), plan.size, table, forward, width, kernel, full, input);
    ChainLength(kernel, table, full, input);
    FlippedIsOdd(|Flatten(plan.stages)|);
    last := s;

    // bring the result back into the caller's buffer
    if forward {
      if s.dataInOutput {
        result := s.output;
      } else {
        result := s.input;
      }
    } else {
      if s.dataInOutput {
        result := ScaleAll(s.output, plan.size, divide);
      } else {
        result := ScaleAll(s.input, plan.size, divide);
      }
    }
  }
}
