/** The public face of the backend: `PrimeFactor32` / `PrimeFactor64`, their
    `new`, `size` and `transform_in_place`, and `create_f32` / `create_f64`.
    The two float widths behave identically here and share one model; the
    sample type `S` and the zero sample `Complex::default()` are parameters,
    and the boxed `dyn Fft` trait object is the engine value itself. */
module Engine {
  import opened Wrappers
  import opened Smoothness
  import opened Planner
  import opened Schedules
  import opened Driver

  /** A prime-factor engine: the plan, the content of the `work` cell (the
      scratch buffer) and the transform length. */
  datatype PrimeFactor<S> = PrimeFactor(stages: Stages, work: seq<S>, size: nat)

  /** What `new` establishes and every transform keeps: a valid plan for the
      engine's own length and a scratch buffer of that length. */
  predicate Valid<S>(e: PrimeFactor<S>) {
    ValidPlan(e.stages) && e.stages.size == e.size && |e.work| == e.size
  }

  /** Models `PrimeFactor32::new` / `PrimeFactor64::new`: a plan for `size`
      and a zero-filled scratch buffer, or `None` when the planner declines.
      Length 0 never reaches a verdict in the planner, hence the
      precondition. */
  function New<S>(size: nat, zero: S): (r: Option<PrimeFactor<S>>)
    requires size > 0
    ensures r.Some? <==> Smooth(size)
    ensures r.Some? ==> Valid(r.value) && r.value.size == size
    ensures r.Some? ==> forall i :: 0 <= i < |r.value.work| ==> r.value.work[i] == zero
  {
    NewStagesSucceedsIff(size);
    match NewStages(size)
    case None => None
    case Some(stages) =>
      NewStagesValid(size);
      Some(PrimeFactor(stages, seq(size, _ => zero), size))
  }

  /** Models `Fft::size`. */
  function Size<S>(e: PrimeFactor<S>): nat {
    e.size
  }

  /** Models `create_f32` / `create_f64`: `new`, boxed. */
  function Create<S>(size: nat, zero: S): (r: Option<PrimeFactor<S>>)
    requires size > 0
    ensures r.Some? <==> Smooth(size)
    ensures r.Some? ==> Valid(r.value) && Size(r.value) == size
  {
    New(size, zero)
  }

  /** `create` with the guard the planner lacks: length 0 is declined
      instead of sending `num_factors(4, 0)` into its endless loop. For
      every positive length it is `Create`. */
  function CreateChecked<S>(size: nat, zero: S): (r: Option<PrimeFactor<S>>)
    ensures r.Some? <==> size > 0 && Smooth(size)
    ensures r.Some? ==> Valid(r.value) && Size(r.value) == size
    ensures size > 0 ==> r == Create(size, zero)
  {
    if size == 0 then None else Create(size, zero)
  }

  /** Models `transform_in_place`: take the scratch buffer out of its cell,
      run the stage driver on the caller's buffer and the scratch buffer,
      and put the scratch buffer back. The caller's buffer must have the
      engine's length (the driver's `assert_eq!`). The result is the
      reference schedule run on the input, scaled by `1 / N` for the inverse
      direction; the scratch buffer's earlier content plays no part in it. */
  method TransformInPlace<S(!new)>(e: PrimeFactor<S>, buffer: seq<S>, forward: bool, width: nat,
                                   kernel: Kernel<S>, divide: (S, nat) -> S)
    returns (result: seq<S>, e': PrimeFactor<S>)
    requires Valid(e) && |buffer| == e.size && LengthPreserving(kernel)
    ensures Valid(e') && e'.stages == e.stages && e'.size == e.size
    ensures |result| == e.size
    ensures CursorsWithin(PlanSchedule(e.stages, forward, width), |Table(e.stages, forward)|)
    ensures result == Finish(Chain(kernel, Table(e.stages, forward), PlanSchedule(e.stages, forward, width), buffer),
                             forward, e.size, divide)
  {
    var last;
    result, last := ApplyStages(buffer, e.work, e.stages, forward, width, kernel, divide);
    e' := e.(work := last.output);
  }
}
