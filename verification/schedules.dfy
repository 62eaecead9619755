/** The reference schedule of the stage driver generated by `make_stage_fns!`
    (`apply_stages_f32` and `apply_stages_f64`, identical apart from the float
    type), the driver's loop state, and the facts that tie the two to the
    planner's twiddle tables.

    The butterfly kernels are floating-point code outside this model; one
    uninterpreted `kernel` stands for all six `radix_<r>_<narrow|wide>`
    functions, receiving the call's parameters, the remaining twiddle slice
    and the source buffer, and returning the new contents of the destination
    buffer. What is modelled exactly is the bookkeeping around them: the
    `(size, stride)` pair, the twiddle cursor, the narrow/wide switch, the
    ping-pong between the caller's buffer and the scratch buffer, and the
    final copy-back. */
module Schedules {
  import opened Factors
  import opened Twiddles
  import opened Planner

  datatype Width = Narrow | Wide

  /** One kernel invocation `radix_<radix>_<width>(from, to, forward, size,
      stride, twiddles)`, with `twiddles` the table from offset `cursor` on. */
  datatype KernelCall = KernelCall(radix: nat, width: Width, forward: bool, size: nat, stride: nat, cursor: nat)

  /** The six radix kernels: call, twiddle slice and source buffer to the new
      destination contents. */
  type Kernel<!S> = (KernelCall, seq<Twiddle>, seq<S>) -> seq<S>

  /** Kernels write a destination as long as their source. */
  ghost predicate LengthPreserving<S(!new)>(kernel: Kernel<S>) {
    forall c, t, x :: |kernel(c, t, x)| == |x|
  }

  /** The table a transform in direction `forward` reads. */
  function Table(p: Stages, forward: bool): seq<Twiddle> {
    if forward then p.forwardTwiddles else p.reverseTwiddles
  }

  /** The loop state of the driver: both buffers, the ping-pong flag
      `data_in_output`, the logical `(size, stride)`, the cursor and the
      remaining `twiddles` slice, and the kernel calls made so far. */
  datatype DriverState<S> = DriverState(
    input: seq<S>, output: seq<S>, dataInOutput: bool,
    size: nat, stride: nat, cursor: nat, twiddles: seq<Twiddle>,
    trace: seq<KernelCall>)

  /** The buffer holding the current data. */
  function Current<S>(s: DriverState<S>): seq<S> {
    if s.dataInOutput then s.output else s.input
  }

  /** One iteration of either inner loop: pick the source and destination
      buffers by the ping-pong flag, run the kernel, divide the size by the
      radix, multiply the stride by it, advance the twiddle slice by the
      size before the division, and flip the flag. Advancing past the end
      of the slice would panic, hence the precondition. */
  function Step<S>(s: DriverState<S>, radix: nat, width: Width, forward: bool, kernel: Kernel<S>): (r: DriverState<S>)
    requires radix > 0 && (s.size / radix) * radix <= |s.twiddles|
    ensures r.cursor + |r.twiddles| == s.cursor + |s.twiddles|
    ensures r.dataInOutput != s.dataInOutput
    ensures Current(r) == kernel(KernelCall(radix, width, forward, s.size, s.stride, s.cursor), s.twiddles, Current(s))
  {
    var call := KernelCall(radix, width, forward, s.size, s.stride, s.cursor);
    var input := if s.dataInOutput then kernel(call, s.twiddles, s.output) else s.input;
    var output := if s.dataInOutput then s.output else kernel(call, s.twiddles, s.input);
    var size := s.size / radix;
    DriverState(input, output, !s.dataInOutput, size, s.stride * radix,
                s.cursor + size * radix, s.twiddles[size * radix..], s.trace + [call])
  }

  // ---------------------------------------------------------------------
  // The reference schedule

  /** The kernel calls for the per-iteration radices `rs` from the state
      `(size, stride, cursor)`: narrow exactly while the stride is below the
      vector width, and the cursor advancing by the pre-division size. */
  function Schedule(rs: seq<nat>, forward: bool, size: nat, stride: nat, cursor: nat, width: nat): (r: seq<KernelCall>)
    requires Positive(rs)
    ensures |r| == |rs|
    decreases |rs|
  {
    if |rs| == 0 then []
    else [KernelCall(rs[0], if stride < width then Narrow else Wide, forward, size, stride, cursor)]
         + Schedule(rs[1..], forward, size / rs[0], stride * rs[0], cursor + size, width)
  }

  /** The calls of a whole transform of `plan`. */
  function PlanSchedule(plan: Stages, forward: bool, width: nat): seq<KernelCall>
    requires ValidPlan(plan)
  {
    Schedule(Flatten(plan.stages), forward, plan.size, 1, 0, width)
  }

  predicate CursorsWithin(calls: seq<KernelCall>, n: nat) {
    forall t :: 0 <= t < |calls| ==> calls[t].cursor + calls[t].size <= n
  }

  /** The data after running `calls` on `x`: each kernel reads the previous
      one's output, whichever buffer that lives in. */
  function Chain<S>(kernel: Kernel<S>, table: seq<Twiddle>, calls: seq<KernelCall>, x: seq<S>): seq<S>
    requires CursorsWithin(calls, |table|)
    decreases |calls|
  {
    if |calls| == 0 then x
    else Chain(kernel, table, calls[1..], kernel(calls[0], table[calls[0].cursor..], x))
  }

  /** The inverse transform's division of every sample by the length. */
  function ScaleAll<S>(y: seq<S>, n: nat, divide: (S, nat) -> S): seq<S> {
    seq(|y|, i requires 0 <= i < |y| => divide(y[i], n))
  }

  function Finish<S>(y: seq<S>, forward: bool, n: nat, divide: (S, nat) -> S): seq<S> {
    if forward then y else ScaleAll(y, n, divide)
  }

  // ---------------------------------------------------------------------
  // Properties of the schedule

  lemma StrideStep(size: nat, stride: nat, r: nat, q: nat)
    requires r > 0 && size == r * q
    ensures size / r == q && size % r == 0
    ensures (size / r) * (stride * r) == size * stride
    ensures stride * r >= stride
  {
    MulDivExact(q, r);
    assert (size / r) * (stride * r) == q * (stride * r);
    MulAtLeast(stride, r);
  }

  lemma ScheduleCons(rs: seq<nat>, forward: bool, size: nat, stride: nat, cursor: nat, width: nat)
    requires Positive(rs) && |rs| > 0
    ensures Positive(rs[1..])
    ensures Schedule(rs, forward, size, stride, cursor, width)
      == [KernelCall(rs[0], if stride < width then Narrow else Wide, forward, size, stride, cursor)]
         + Schedule(rs[1..], forward, size / rs[0], stride * rs[0], cursor + size, width)
  {
  }

  /** The shape of a schedule running the radices `rs` on a length-`n`
      transform from stride `lo`: one call per radix, each dividing its size
      exactly, `size * stride == n` at every call, strides from `lo` on and
      never decreasing, and narrow exactly below the vector width. */
  predicate Shaped(calls: seq<KernelCall>, rs: seq<nat>, forward: bool, n: nat, lo: nat, width: nat) {
    && |calls| == |rs|
    && (forall t :: 0 <= t < |calls| ==>
          && calls[t].radix == rs[t] && calls[t].radix > 0
          && calls[t].forward == forward
          && calls[t].size % calls[t].radix == 0
          && calls[t].size * calls[t].stride == n
          && lo <= calls[t].stride
          && (calls[t].width == Narrow <==> calls[t].stride < width))
    && (forall t, u :: 0 <= t < u < |calls| ==> calls[t].stride <= calls[u].stride)
  }

  lemma ShapedCons(head: KernelCall, tail: seq<KernelCall>, rs: seq<nat>, forward: bool, n: nat, lo: nat, lo': nat, width: nat)
    requires Shaped(tail, rs, forward, n, lo', width)
    requires head.radix > 0 && head.forward == forward && head.size % head.radix == 0
    requires head.size * head.stride == n && lo <= head.stride <= lo'
    requires head.width == (if head.stride < width then Narrow else Wide)
    ensures Shaped([head] + tail, [head.radix] + rs, forward, n, lo, width)
  {
    var calls := [head] + tail;
    forall t, u | 0 <= t < u < |calls|
      ensures calls[t].stride <= calls[u].stride
    {
      assert calls[u] == tail[u - 1];
      if t > 0 {
        assert calls[t] == tail[t - 1];
      }
    }
    forall t | 0 < t < |calls|
      ensures calls[t] == tail[t - 1]
    {
    }
  }

  /** `Schedule` has the shape above whenever the sizes are the products of
      the remaining radices. */
  lemma {:induction false} ScheduleShape(rs: seq<nat>, forward: bool, size: nat, stride: nat, cursor: nat, width: nat, n: nat)
    requires Supported(rs) && Positive(rs) && size == Prod(rs) && size * stride == n
    ensures Shaped(Schedule(rs, forward, size, stride, cursor, width), rs, forward, n, stride, width)
    decreases |rs|
  {
    if |rs| > 0 {
      var r := rs[0];
      var q := Prod(rs[1..]);
      StrideStep(size, stride, r, q);
      assert Supported(rs[1..]);
      ScheduleShape(rs[1..], forward, q, stride * r, cursor + size, width, n);
      ScheduleCons(rs, forward, size, stride, cursor, width);
      var head := KernelCall(r, if stride < width then Narrow else Wide, forward, size, stride, cursor);
      var tail := Schedule(rs[1..], forward, q, stride * r, cursor + size, width);
      assert Shaped(tail, rs[1..], forward, n, stride * r, width);
      assert Schedule(rs, forward, size, stride, cursor, width) == [head] + tail;
      assert rs == [r] + rs[1..];
      ShapedCons(head, tail, rs[1..], forward, n, stride, stride * r, width);
    }
  }

  /** The call's twiddle slice starts with the band for its own size and
      radix. */
  predicate ReadsBand(c: KernelCall, table: seq<Twiddle>, forward: bool) {
    c.radix > 0 && c.cursor + c.size <= |table| && table[c.cursor .. c.cursor + c.size] == Band(c.size, c.radix, forward)
  }

  /** Every call's twiddle slice starts with the band the planner emitted for
      that iteration. */
  predicate ReadsBands(calls: seq<KernelCall>, table: seq<Twiddle>, forward: bool) {
    && CursorsWithin(calls, |table|)
    && forall t :: 0 <= t < |calls| ==> ReadsBand(calls[t], table, forward)
  }

  /** The last call's band ends at `n` (or nothing runs and `cursor == n`). */
  predicate EndsAt(calls: seq<KernelCall>, cursor: nat, n: nat) {
    if |calls| == 0 then cursor == n
    else calls[|calls| - 1].cursor + calls[|calls| - 1].size == n
  }

  /** Peeling the first band off the table suffix at `cursor`. */
  lemma TableStep(table: seq<Twiddle>, cursor: nat, size: nat, r: nat, q: nat, rest: seq<nat>, forward: bool)
    requires r > 0 && size == r * q && Positive(rest)
    requires cursor <= |table| && table[cursor..] == Band(size, r, forward) + BandsOf(rest, q, forward)
    ensures cursor + size <= |table|
    ensures table[cursor .. cursor + size] == Band(size, r, forward)
    ensures table[cursor + size ..] == BandsOf(rest, q, forward)
  {
    MulDivExact(q, r);
    BandLength(size, r, forward);
  }

  /** Call `t` of the schedule reads its own band; the first call's band
      starts at `cursor`, and the bands of later calls follow one another. */
  lemma {:induction false} ScheduleReadsBand(rs: seq<nat>, forward: bool, size: nat, stride: nat, cursor: nat, width: nat,
                                             table: seq<Twiddle>, t: nat)
    requires Supported(rs) && Positive(rs) && size == Prod(rs) && t < |rs|
    requires cursor <= |table| && table[cursor..] == BandsOf(rs, size, forward)
    ensures ReadsBand(Schedule(rs, forward, size, stride, cursor, width)[t], table, forward)
    decreases t
  {
    var r := rs[0];
    var q := Prod(rs[1..]);
    assert size == r * q && size / r == q && Positive(rs[1..]) by {
      MulDivExact(q, r);
    }
    assert cursor + size <= |table| && table[cursor .. cursor + size] == Band(size, r, forward)
        && table[cursor + size ..] == BandsOf(rs[1..], q, forward) by {
      TableStep(table, cursor, size, r, q, rs[1..], forward);
    }
    var calls := Schedule(rs, forward, size, stride, cursor, width);
    var tail := Schedule(rs[1..], forward, q, stride * r, cursor + size, width);
    assert calls == [KernelCall(r, if stride < width then Narrow else Wide, forward, size, stride, cursor)] + tail by {
      ScheduleCons(rs, forward, size, stride, cursor, width);
    }
    if t == 0 {
      assert calls[0] == KernelCall(r, if stride < width then Narrow else Wide, forward, size, stride, cursor);
    } else {
      assert calls[t] == tail[t - 1];
      assert Supported(rs[1..]);
      ScheduleReadsBand(rs[1..], forward, q, stride * r, cursor + size, width, table, t - 1);
    }
  }

  /** Prepending a call that ends where the rest begins. */
  lemma EndsAtCons(calls: seq<KernelCall>, head: KernelCall, tail: seq<KernelCall>, n: nat)
    requires calls == [head] + tail && EndsAt(tail, head.cursor + head.size, n)
    ensures EndsAt(calls, head.cursor, n)
  {
    if |tail| > 0 {
      assert calls[|calls| - 1] == tail[|tail| - 1];
    }
  }

  /** The last call of the schedule ends where the plan's bands, laid out
      from `cursor`, end. */
  lemma {:induction false} ScheduleEndsAt(rs: seq<nat>, forward: bool, size: nat, stride: nat, cursor: nat, width: nat)
    requires Positive(rs) && size == Prod(rs)
    ensures EndsAt(Schedule(rs, forward, size, stride, cursor, width), cursor, cursor + |BandsOf(rs, size, forward)|)
    decreases |rs|
  {
    if |rs| > 0 {
      var r := rs[0];
      var q := Prod(rs[1..]);
      assert size == q * r && size / r == q && size % r == 0 && Positive(rs[1..]) by {
        MulDivExact(q, r);
      }
      assert |BandsOf(rs, size, forward)| == size + |BandsOf(rs[1..], q, forward)| by {
        BandLength(size, r, forward);
      }
      var head := KernelCall(r, if stride < width then Narrow else Wide, forward, size, stride, cursor);
      var tail := Schedule(rs[1..], forward, q, stride * r, cursor + size, width);
      assert Schedule(rs, forward, size, stride, cursor, width) == [head] + tail by {
        ScheduleCons(rs, forward, size, stride, cursor, width);
      }
      ScheduleEndsAt(rs[1..], forward, q, stride * r, cursor + size, width);
      EndsAtCons(Schedule(rs, forward, size, stride, cursor, width), head, tail, cursor + |BandsOf(rs, size, forward)|);
    }
  }

  /** Each call's twiddle slice starts with exactly the band the planner
      emitted for that iteration, and the calls use up the table exactly. */
  lemma ScheduleTable(rs: seq<nat>, forward: bool, size: nat, stride: nat, cursor: nat, width: nat, table: seq<Twiddle>)
    requires Supported(rs) && Positive(rs) && size == Prod(rs)
    requires cursor <= |table| && table[cursor..] == BandsOf(rs, size, forward)
    ensures ReadsBands(Schedule(rs, forward, size, stride, cursor, width), table, forward)
    ensures EndsAt(Schedule(rs, forward, size, stride, cursor, width), cursor, |table|)
  {
    var calls := Schedule(rs, forward, size, stride, cursor, width);
    forall t | 0 <= t < |calls|
      ensures calls[t].cursor + calls[t].size <= |table| && ReadsBand(calls[t], table, forward)
    {
      ScheduleReadsBand(rs, forward, size, stride, cursor, width, table, t);
    }
    ScheduleEndsAt(rs, forward, size, stride, cursor, width);
    assert |table| == cursor + |BandsOf(rs, size, forward)|;
  }

  /** The schedule of a plan: one call per iteration with radices from
      `{2, 3, 4}` (so the `unimplemented!` arms are never taken), `size *
      stride == N` at every call, strides never decreasing so that every
      narrow call precedes every wide one, every call reading its own band,
      and the twiddle table used up exactly. */
  lemma PlanScheduleFacts(plan: Stages, forward: bool, width: nat)
    requires ValidPlan(plan)
    ensures var calls := PlanSchedule(plan, forward, width);
      && |calls| == TotalIterations(plan.stages)
      && Shaped(calls, Flatten(plan.stages), forward, plan.size, 1, width)
      && (forall t :: 0 <= t < |calls| ==> calls[t].radix == 2 || calls[t].radix == 3 || calls[t].radix == 4)
      && (forall t, u :: 0 <= t < u < |calls| && calls[u].width == Narrow ==> calls[t].width == Narrow)
      && ReadsBands(calls, Table(plan, forward), forward)
      && EndsAt(calls, 0, |Table(plan, forward)|)
  {
    var rs := Flatten(plan.stages);
    FlattenSupported(plan.stages);
    FlattenLength(plan.stages);
    ProdFlatten(plan.stages);
    assert Table(plan, forward)[0..] == Table(plan, forward);
    ScheduleShape(rs, forward, plan.size, 1, 0, width, plan.size);
    ScheduleTable(rs, forward, plan.size, 1, 0, width, Table(plan, forward));
  }

  /** Reading entry `j * radix + i` of a table suffix that starts with a
      band. */
  lemma BandRead(table: seq<Twiddle>, cursor: nat, size: nat, radix: nat, forward: bool, i: nat, j: nat)
    requires radix > 0 && j < size / radix && i < radix
    requires cursor + size <= |table| && table[cursor .. cursor + size] == Band(size, radix, forward)
    ensures cursor + j * radix + i < |table|
    ensures table[cursor + j * radix + i] == (if i == 0 then Identity else Root(i * j, size, forward))
  {
    MulNonNegative(j, radix);
    var k := j * radix + i;
    BandEntry(size, radix, forward, j, i);
    assert table[cursor .. cursor + size][k] == table[cursor + k];
  }

  /** The unchecked `twiddles.get_unchecked(j * radix + i)` of every kernel
      call in a plan's schedule stays inside the table, and reads the
      identity for `i == 0` and otherwise the root `(i * j, size)` in the
      transform's direction. */
  lemma KernelTwiddle(plan: Stages, forward: bool, width: nat, t: nat, i: nat, j: nat)
    requires ValidPlan(plan) && t < |PlanSchedule(plan, forward, width)|
    requires var c := PlanSchedule(plan, forward, width)[t];
      c.radix > 0 && j < c.size / c.radix && i < c.radix
    ensures var c := PlanSchedule(plan, forward, width)[t];
      && c.cursor + j * c.radix + i < |Table(plan, forward)|
      && Table(plan, forward)[c.cursor + j * c.radix + i]
           == (if i == 0 then Identity else Root(i * j, c.size, forward))
  {
    var table := Table(plan, forward);
    var c := PlanSchedule(plan, forward, width)[t];
    assert c.cursor + c.size <= |table| && table[c.cursor .. c.cursor + c.size] == Band(c.size, c.radix, forward) by {
      FlattenSupported(plan.stages);
      ProdFlatten(plan.stages);
      assert table[0..] == table;
      ScheduleTable(Flatten(plan.stages), forward, plan.size, 1, 0, width, table);
    }
    BandRead(table, c.cursor, c.size, c.radix, forward, i, j);
  }

  // ---------------------------------------------------------------------
  // The driver loop

  /** The ping-pong flag after `k` flips, starting from `false`. */
  function Flipped(k: nat): bool {
    if k == 0 then false else !Flipped(k - 1)
  }

  /** The flag is set exactly after an odd number of iterations. */
  lemma {:induction false} FlippedIsOdd(k: nat)
    ensures Flipped(k) == (k % 2 == 1)
  {
    if k > 0 {
      FlippedIsOdd(k - 1);
    }
  }

  /** Where the driver stands after `done` iterations of the radix list
      `rs`: the size is the product of the radices still to run, `size *
      stride == n`, the slice is the table from `cursor` on and holds exactly
      the bands still to be read, and the flag is the parity of `done`. */
  ghost predicate Reached<S>(s: DriverState<S>, rs: seq<nat>, done: nat, n: nat, table: seq<Twiddle>, forward: bool) {
    && Supported(rs) && Positive(rs) && done <= |rs|
    && |s.input| == n && |s.output| == n
    && s.dataInOutput == Flipped(done)
    && s.size == Prod(rs[done..]) && s.size * s.stride == n
    && s.cursor <= |table| && s.twiddles == table[s.cursor..]
    && Positive(rs[done..])
    && s.twiddles == BandsOf(rs[done..], s.size, forward)
  }

  /** The loop invariant of the driver: the calls made so far followed by
      the calls still due form the full schedule, and running the remaining
      calls on the current buffer gives what the full schedule gives on the
      input. */
  ghost predicate OnSchedule<S(!new)>(s: DriverState<S>, rs: seq<nat>, done: nat, n: nat, table: seq<Twiddle>, forward: bool,
                                      width: nat, kernel: Kernel<S>, full: seq<KernelCall>, input: seq<S>) {
    && Reached(s, rs, done, n, table, forward)
    && CursorsWithin(full, |table|)
    && CursorsWithin(Schedule(rs[done..], forward, s.size, s.stride, s.cursor, width), |table|)
    && s.trace + Schedule(rs[done..], forward, s.size, s.stride, s.cursor, width) == full
    && Chain(kernel, table, Schedule(rs[done..], forward, s.size, s.stride, s.cursor, width), Current(s))
       == Chain(kernel, table, full, input)
  }

  lemma StepKeeps<S(!new)>(s: DriverState<S>, rs: seq<nat>, done: nat, n: nat, table: seq<Twiddle>, forward: bool,
                           width: nat, kernel: Kernel<S>, w: Width)
    requires Reached(s, rs, done, n, table, forward) && done < |rs| && LengthPreserving(kernel)
    requires w == (if s.stride < width then Narrow else Wide)
    ensures rs[done] > 0 && (s.size / rs[done]) * rs[done] <= |s.twiddles|
    ensures var s' := Step(s, rs[done], w, forward, kernel);
      && Reached(s', rs, done + 1, n, table, forward)
      && s'.stride >= s.stride
      && s'.trace == s.trace + [KernelCall(rs[done], w, forward, s.size, s.stride, s.cursor)]
      && Schedule(rs[done..], forward, s.size, s.stride, s.cursor, width)
           == [KernelCall(rs[done], w, forward, s.size, s.stride, s.cursor)]
              + Schedule(rs[done + 1..], forward, s'.size, s'.stride, s'.cursor, width)
      && Current(s') == kernel(KernelCall(rs[done], w, forward, s.size, s.stride, s.cursor), table[s.cursor..], Current(s))
  {
    var r := rs[done];
    var q := Prod(rs[done + 1..]);
    assert rs[done..][1..] == rs[done + 1..] && rs[done..][0] == r;
    assert r > 0 && s.size == r * q && Positive(rs[done + 1..]);
    assert s.size / r == q && (s.size / r) * r == s.size && q * (s.stride * r) == n && s.stride * r >= s.stride by {
      StrideStep(s.size, s.stride, r, q);
      MulDivExact(q, r);
    }
    assert s.size <= |s.twiddles| && s.twiddles[s.size..] == BandsOf(rs[done + 1..], q, forward) by {
      BandLength(s.size, r, forward);
      assert s.twiddles == Band(s.size, r, forward) + BandsOf(rs[done + 1..], q, forward);
    }
    var s' := Step(s, r, w, forward, kernel);
    assert s'.twiddles == table[s'.cursor..] by {
      assert table[s.cursor + s.size..] == s.twiddles[s.size..];
    }
    ReachedIntro(s', rs, done + 1, n, table, forward);
    assert Schedule(rs[done..], forward, s.size, s.stride, s.cursor, width)
        == [KernelCall(r, w, forward, s.size, s.stride, s.cursor)]
           + Schedule(rs[done + 1..], forward, s'.size, s'.stride, s'.cursor, width) by {
      ScheduleCons(rs[done..], forward, s.size, s.stride, s.cursor, width);
    }
  }

  /** Packs the conjuncts of `Reached` into the predicate. It adds no fact:
      callers prove the conjuncts one by one and then conclude the
      predicate in a single step, which keeps the solver's work small. */
  lemma ReachedIntro<S>(s: DriverState<S>, rs: seq<nat>, done: nat, n: nat, table: seq<Twiddle>, forward: bool)
    requires Supported(rs) && Positive(rs) && done <= |rs|
    requires |s.input| == n && |s.output| == n && s.dataInOutput == Flipped(done)
    requires s.size == Prod(rs[done..]) && s.size * s.stride == n
    requires s.cursor <= |table| && s.twiddles == table[s.cursor..]
    requires Positive(rs[done..]) && s.twiddles == BandsOf(rs[done..], s.size, forward)
    ensures Reached(s, rs, done, n, table, forward)
  {
  }

  lemma ChainStep<S>(kernel: Kernel<S>, table: seq<Twiddle>, c: KernelCall, rest: seq<KernelCall>, x: seq<S>)
    requires CursorsWithin([c] + rest, |table|)
    ensures c.cursor <= |table| && CursorsWithin(rest, |table|)
    ensures Chain(kernel, table, [c] + rest, x) == Chain(kernel, table, rest, kernel(c, table[c.cursor..], x))
  {
    assert ([c] + rest)[0] == c;
    assert ([c] + rest)[1..] == rest;
    forall t | 0 <= t < |rest|
      ensures rest[t].cursor + rest[t].size <= |table|
    {
      assert rest[t] == ([c] + rest)[t + 1];
    }
  }

  lemma {:induction false} ChainLength<S(!new)>(kernel: Kernel<S>, table: seq<Twiddle>, calls: seq<KernelCall>, x: seq<S>)
    requires CursorsWithin(calls, |table|) && LengthPreserving(kernel)
    ensures |Chain(kernel, table, calls, x)| == |x|
    decreases |calls|
  {
    if |calls| > 0 {
      ChainStep(kernel, table, calls[0], calls[1..], x);
      assert [calls[0]] + calls[1..] == calls;
      ChainLength(kernel, table, calls[1..], kernel(calls[0], table[calls[0].cursor..], x));
    }
  }

  lemma StepOnSchedule<S(!new)>(s: DriverState<S>, rs: seq<nat>, done: nat, n: nat, table: seq<Twiddle>, forward: bool,
                                width: nat, kernel: Kernel<S>, full: seq<KernelCall>, input: seq<S>, w: Width)
    requires OnSchedule(s, rs, done, n, table, forward, width, kernel, full, input)
    requires done < |rs| && LengthPreserving(kernel)
    requires w == (if s.stride < width then Narrow else Wide)
    ensures rs[done] > 0 && (s.size / rs[done]) * rs[done] <= |s.twiddles|
    ensures OnSchedule(Step(s, rs[done], w, forward, kernel), rs, done + 1, n, table, forward, width, kernel, full, input)
    ensures Step(s, rs[done], w, forward, kernel).stride >= s.stride
  {
    StepKeeps(s, rs, done, n, table, forward, width, kernel, w);
    var s' := Step(s, rs[done], w, forward, kernel);
    var call := KernelCall(rs[done], w, forward, s.size, s.stride, s.cursor);
    var rest := Schedule(rs[done + 1..], forward, s'.size, s'.stride, s'.cursor, width);
    assert CursorsWithin(rest, |table|)
        && Chain(kernel, table, rest, Current(s')) == Chain(kernel, table, full, input) by {
      ChainStep(kernel, table, call, rest, Current(s));
    }
    assert s'.trace + rest == full by {
      assert s'.trace + rest == s.trace + ([call] + rest);
    }
    OnScheduleIntro(s', rs, done + 1, n, table, forward, width, kernel, full, input);
  }

  /** Packs the conjuncts of `OnSchedule` into the predicate. It adds no fact:
      callers prove the conjuncts one by one and then conclude the
      predicate in a single step, which keeps the solver's work small. */
  lemma OnScheduleIntro<S(!new)>(s: DriverState<S>, rs: seq<nat>, done: nat, n: nat, table: seq<Twiddle>, forward: bool,
                                 width: nat, kernel: Kernel<S>, full: seq<KernelCall>, input: seq<S>)
    requires Reached(s, rs, done, n, table, forward) && CursorsWithin(full, |table|)
    requires CursorsWithin(Schedule(rs[done..], forward, s.size, s.stride, s.cursor, width), |table|)
    requires s.trace + Schedule(rs[done..], forward, s.size, s.stride, s.cursor, width) == full
    requires Chain(kernel, table, Schedule(rs[done..], forward, s.size, s.stride, s.cursor, width), Current(s))
             == Chain(kernel, table, full, input)
    ensures OnSchedule(s, rs, done, n, table, forward, width, kernel, full, input)
  {
  }

  lemma StartOnSchedule<S(!new)>(plan: Stages, forward: bool, width: nat, kernel: Kernel<S>, input: seq<S>, output: seq<S>)
    requires ValidPlan(plan) && |input| == plan.size && |output| == plan.size
    ensures OnSchedule(DriverState(input, output, false, plan.size, 1, 0, Table(plan, forward), []),
                       Flatten(plan.stages), 0, plan.size, Table(plan, forward), forward,
                       width, kernel, PlanSchedule(plan, forward, width), input)
  {
    var rs := Flatten(plan.stages);
    var table := Table(plan, forward);
    var s := DriverState(input, output, false, plan.size, 1, 0, table, []);
    assert rs[0..] == rs && table[0..] == table;
    assert Supported(rs) && plan.size == Prod(rs) by {
      FlattenSupported(plan.stages);
      ProdFlatten(plan.stages);
    }
    assert CursorsWithin(PlanSchedule(plan, forward, width), |table|) by {
      ScheduleTable(rs, forward, plan.size, 1, 0, width, table);
    }
    assert s.trace + PlanSchedule(plan, forward, width) == PlanSchedule(plan, forward, width);
    OnScheduleIntro(s, rs, 0, plan.size, table, forward, width, kernel, PlanSchedule(plan, forward, width), input);
  }

  lemma EndOnSchedule<S(!new)>(s: DriverState<S>, rs: seq<nat>, n: nat, table: seq<Twiddle>, forward: bool,
                               width: nat, kernel: Kernel<S>, full: seq<KernelCall>, input: seq<S>)
    requires OnSchedule(s, rs, |rs|, n, table, forward, width, kernel, full, input)
    ensures s.trace == full && Current(s) == Chain(kernel, table, full, input)
    ensures s.size == 1 && s.stride == n && s.twiddles == [] && s.cursor == |table|
    ensures s.dataInOutput == Flipped(|rs|)
  {
    assert rs[|rs|..] == [];
    assert s.trace + [] == s.trace;
  }

  /** The radices of stage `k` occupy the flattened list right after those
      of the earlier stages. */
  lemma FlattenAt(stages: seq<Stage>, k: nat)
    requires k < |stages|
    ensures |Flatten(stages[..k + 1])| == |Flatten(stages[..k])| + stages[k].iterations <= |Flatten(stages)|
    ensures Flatten(stages)[|Flatten(stages[..k])| .. |Flatten(stages[..k + 1])|]
              == Repeat(stages[k].radix, stages[k].iterations)
  {
    assert stages[..k + 1] == stages[..k] + [stages[k]];
    FlattenSnoc(stages[..k], stages[k]);
    assert stages == stages[..k + 1] + stages[k + 1..];
    FlattenAppend(stages[..k + 1], stages[k + 1..]);
  }

}
