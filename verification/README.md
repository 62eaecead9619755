# Prime-factor FFT backend: planner, twiddle layout and stage driver

This project models the prime-factor backend of the `fourier` crate
(`fourier/src/autosort/prime_factor.rs`). The backend computes complex FFTs
whose length `N` is a product of 2s and 3s. It works in two phases:

- **Planning** (`Stages::new`). The length is factored greedily into a run of
  radix-4 iterations, then radix-3, then radix-2, using `num_factors`. For
  every run, `extend_twiddles` appends one band of twiddle factors per
  iteration to a forward table and to a reverse table.
- **Execution** (`apply_stages_f32` / `apply_stages_f64`). The driver runs
  one radix kernel per iteration and ping-pongs between the caller's buffer
  and a scratch buffer. While `size` shrinks, `stride` grows by the radix.
  The driver advances a cursor through the twiddle table. It switches from
  the "narrow" to the "wide" kernel variant once the stride reaches the
  vector width. At the end it copies the data back into the caller's
  buffer, and an inverse transform also divides by `N`.

`PrimeFactor32::new` / `PrimeFactor64::new`, `size`, `transform_in_place`
and `create_f32` / `create_f64` wrap the two phases behind the `Fft`
interface.

The model is written in these modules:

- `Factors` covers `num_factors` and the arithmetic of radix lists.
- `Smoothness` holds two independent descriptions of the lengths the
  backend supports, proved equivalent: a recursive "product of 2s and 3s"
  and "no prime factor other than 2 and 3".
- `Twiddles` describes twiddle factors symbolically: `Root(k, n, forward)`
  stands for `compute_twiddle(k, n, forward)`. It defines the band layout
  and models `extend_twiddles` as the push loops.
- `Planner` models `Stages::new` twice, once as a function and once as
  statements, and proves them equal. It also proves what a plan
  guarantees.
- `Schedules` defines the reference schedule of kernel calls for a plan,
  the driver's state, and the facts that tie every kernel call to its
  twiddle band.
- `Driver` models the loops of `apply_stages_*`, with the invariant that
  the driver is on the reference schedule.
- `Engine` models the engine type and its constructors.

The butterflies are floating-point code and are not modelled. A single
uninterpreted `kernel` function stands for the six `radix_<r>_<narrow|wide>`
functions. It receives the call's parameters, the remaining twiddle slice
and the source buffer, and returns the new contents of the destination
buffer. The result of a transform is stated as this kernel folded over the
reference schedule (`Chain`), then the `1 / N` scaling for the inverse
direction. The scaling is the parameter `divide`.

## Model

| member | source | states |
|---|---|---|
| Factors.NumFactors | fourier/src/autosort/prime_factor.rs:11-18 | the result `(count, rest)` satisfies `rest * factor^count == value`, with `rest > 0` and `rest` not divisible by `factor` |
| Factors.NumFactorsIsMultiplicity | fourier/src/autosort/prime_factor.rs:11-18 | the count is the exact multiplicity: `factor^count` divides `value` and `factor^(count+1)` does not |
| Factors.NumFactorsUnique | fourier/src/autosort/prime_factor.rs:11-18 | any split `rest * factor^count == value` with `factor` not dividing `rest` is the one `num_factors` returns |
| Factors.NumFactorsRest | fourier/src/autosort/prime_factor.rs:13-16 | the residual is `value` divided by `factor` once per counted iteration |
| Factors.NumFactorsLoop | fourier/src/autosort/prime_factor.rs:11-18 | the loop as written, cut off after a number of rounds: whenever it stops, the residual is not divisible by the factor |
| Factors.NumFactorsLoopStops | fourier/src/autosort/prime_factor.rs:11-18 | for a positive value the loop stops within `value` rounds and returns what `NumFactors` returns |
| Factors.NumFactorsLoopSpinsOnZero | fourier/src/autosort/prime_factor.rs:13-16 | for `value == 0` the loop has not stopped after any number of rounds |
| Twiddles.PushGroup | fourier/src/autosort/prime_factor.rs:31-36 | one group appends the identity followed by the roots `(i*1, subsize) .. (i*(radix-1), subsize)` to both tables, forward and reverse |
| Twiddles.PushBand | fourier/src/autosort/prime_factor.rs:29-37 | one iteration appends `subsize / radix` groups, in group order, to both tables |
| Twiddles.ExtendTwiddles | fourier/src/autosort/prime_factor.rs:20-40 | the loops append exactly the bands for subsizes `size, size/radix, ...`, one per iteration, to both tables and leave the existing prefixes untouched |
| Twiddles.GroupsLength | fourier/src/autosort/prime_factor.rs:30-37 | the first `m` groups take `m * radix` entries: one identity and `radix - 1` roots per group |
| Twiddles.GroupsEntry | fourier/src/autosort/prime_factor.rs:30-37 | entry `i*radix + j` of the first `m` groups lies inside them and is group `i`'s branch `j`: the identity for `j == 0`, otherwise the root `(i*j, subsize)` |
| Twiddles.BandLength | fourier/src/autosort/prime_factor.rs:29-37 | a band holds `(subsize / radix) * radix` entries, which is exactly `subsize` when the radix divides it |
| Twiddles.BandEntry | fourier/src/autosort/prime_factor.rs:30-36 | band entry `i*radix + j` is the identity for `j == 0` and otherwise the root `(i*j, subsize)` in the table's direction |
| Twiddles.BandsLength | fourier/src/autosort/prime_factor.rs:27-39 | when `radix^iterations` divides `size`, the appended length is the sum of the subsizes `size + size/radix + ...` over the iterations |
| Twiddles.BandsMirrored | fourier/src/autosort/prime_factor.rs:31-35 | the reverse bands equal the forward bands with each root's direction flipped, entry by entry |
| Planner.ExtractFactor | fourier/src/autosort/prime_factor.rs:56-69 | one block leaves a positive residual free of the radix that divides the previous one, and keeps `residual * Π radix^iterations` unchanged |
| Planner.ExtractBlock | fourier/src/autosort/prime_factor.rs:56-69 | the statement form of one block (the `count > 0` test, the push, the `extend_twiddles` loops) yields the same builder as `ExtractFactor` |
| Planner.NewStages | fourier/src/autosort/prime_factor.rs:50-108 | a returned plan stores `size`, and its stages multiply out to `size` |
| Planner.BuildStages | fourier/src/autosort/prime_factor.rs:50-108 | the statement-level construction, with tables filled by the push loops, returns the same option as `NewStages` |
| Planner.NewStagesSucceedsIff | fourier/src/autosort/prime_factor.rs:98-107 | planning succeeds if and only if the length is a product of 2s and 3s, equivalently has no prime factor other than 2 and 3 |
| Smoothness.SmoothIffNoForeignPrime | fourier/src/autosort/prime_factor.rs:98-107 | a positive length is a product of 2s and 3s exactly when it has no prime factor other than 2 and 3 |
| Planner.NewStagesShape | fourier/src/autosort/prime_factor.rs:56-97 | a plan lists radices 4, 3, 2 in strictly decreasing order, each with a positive count, multiplies out to `size`, and any radix-2 stage has exactly one iteration |
| Planner.NewStagesOfOne | fourier/src/autosort/prime_factor.rs:50-108 | length 1 gives a plan with no stages and empty tables |
| Planner.NewStagesValid | fourier/src/autosort/prime_factor.rs:50-108 | every plan the planner returns satisfies what the driver relies on: well-formed, product `size`, and both tables the per-iteration bands in execution order |
| Planner.NewStagesMirrored | fourier/src/autosort/prime_factor.rs:60-94 | in every plan, the reverse table is the forward table with every direction flipped |
| Schedules.Step | fourier/src/autosort/prime_factor.rs:226-243 | one iteration flips the ping-pong flag, keeps `cursor + remaining slice` constant, and puts the kernel's output of the current data into the buffer that now holds the data |
| Schedules.ScheduleShape | fourier/src/autosort/prime_factor.rs:221-261 | the reference schedule makes one call per radix, every call's radix divides its size and `size * stride == N` holds, strides never decrease, and a call is narrow exactly when its stride is below the vector width |
| Schedules.ScheduleReadsBand | fourier/src/autosort/prime_factor.rs:221-261 | call `t` of the schedule starts at the cursor where the planner put band `t`, and that slice is exactly band `t` |
| Schedules.ScheduleEndsAt | fourier/src/autosort/prime_factor.rs:221-261 | the last call's band ends where the bands of the whole plan end |
| Schedules.ScheduleTable | fourier/src/autosort/prime_factor.rs:212-261 | the twiddle slice of every call starts with exactly the band the planner emitted for that iteration, and the calls use up the table exactly |
| Schedules.PlanScheduleFacts | fourier/src/autosort/prime_factor.rs:212-261 | a plan's schedule has one call per iteration and radices from 2, 3, 4 only (so `unimplemented!` is unreachable); every narrow call precedes every wide one; every call reads its own band; the table ends where the last band ends |
| Schedules.KernelTwiddle | fourier/src/autosort/prime_factor.rs:141 | the unchecked `get_twiddle(i, j)` of every scheduled call stays inside the table and reads the identity for `i == 0`, otherwise the root `(i*j, size)` in the transform's direction |
| Schedules.ChainLength | fourier/src/autosort/prime_factor.rs:221-261 | running any schedule of length-preserving kernels keeps the data's length |
| Driver.NarrowIterations | fourier/src/autosort/prime_factor.rs:225-243 | the narrow loop stops after all iterations or once the stride reaches the vector width, never lowers the stride, and stays on the reference schedule |
| Driver.WideIterations | fourier/src/autosort/prime_factor.rs:245-260 | the wide loop runs the stage's remaining iterations, never lowers the stride, and stays on the reference schedule |
| Driver.RunStage | fourier/src/autosort/prime_factor.rs:221-261 | one pass of the stage loop runs exactly that stage's iterations, narrow ones before wide ones, never lowers the stride, and stays on the reference schedule |
| Driver.RunStages | fourier/src/autosort/prime_factor.rs:221-261 | after the stage loop, every iteration of the plan has run, in the reference order |
| Driver.ApplyStages | fourier/src/autosort/prime_factor.rs:209-277 | the driver makes exactly the reference schedule's calls, ends with size 1, stride `N` and the table used up, and has the data in the scratch buffer iff the iteration count is odd; the caller's buffer receives the chained kernels' result, divided by `N` for the inverse direction |
| Engine.New | fourier/src/autosort/prime_factor.rs:290-301 | an engine exists exactly for products of 2s and 3s; it has a valid plan for `size` and a zero-filled scratch buffer of length `size` |
| Engine.Create | fourier/src/autosort/prime_factor.rs:318-324 | creation succeeds exactly for products of 2s and 3s, and the engine reports `size` |
| Engine.CreateChecked | fourier/src/autosort/prime_factor.rs:318-324 | with a guard for length 0, creation succeeds exactly for positive products of 2s and 3s, and agrees with `create` on every positive length |
| Engine.TransformInPlace | fourier/src/autosort/prime_factor.rs:311-315 | the transform returns the reference schedule's result on the caller's buffer (scaled for the inverse), whatever the scratch buffer held before; the engine stays valid with the same plan and length |

## Left out

- The butterflies (`butterfly2/3/4`), the `stage!` macro and the AVX fast paths are floating-point code. They are one uninterpreted kernel that writes the whole destination buffer and preserves its length.
- `compute_twiddle` is floating-point trigonometry. Twiddles are the symbolic `Root(k, n, forward)`.
- The inverse transform's division of complex floats by `N` is the parameter `divide`. It is applied element-wise to the final buffer.
- The vector width `width!` comes from the `avx_vector!` / `generic_vector!` macros, which are not part of this model. It is a parameter that may be any natural number.
- The `multiversion` target dispatch and the duplicated f32/f64 code are not modelled separately. Both float types share one generic model with a sample type `S`.
- The `Cell<Box<[...]>>` take/set around the scratch buffer becomes an engine value returned with the new scratch contents. The boxed `dyn Fft` trait object is the engine value itself.
- `Engine.Size` simply returns the stored length; its property is part of `Engine.Create`'s contract.
- `usize` overflow is not modelled. Every quantity the planner and driver compute is at most `N` or the table length.
- Planner.NewStages: requires `size > 0`. `Stages::new(0)` never returns, because `num_factors(4, 0)` divides 0 forever.
- Engine.New: requires `size > 0` for the same reason; `new(0)` reaches `Stages::new(0)` and never returns (see Findings).
- Engine.Create: requires `size > 0` for the same reason; `Engine.CreateChecked` is the guarded version.
- Factors.NumFactors: requires `value > 0` and `factor > 1`. Otherwise the loop never stops or divides by zero. For every positive length, `Stages::new` passes it 2, 3 or 4 and a positive value; length 0 reaches `num_factors(4, 0)` and never returns (see Findings).
- Schedules.KernelTwiddle: covers the index range `i < radix`, `j < size / radix`. That is the range over which the kernels call `get_twiddle`; the loops that produce it live in the `stage!` macro, which is not part of this model.
- Schedules.Step: requires the twiddle slice to be long enough for `&twiddles[size * radix..]`. The source would panic otherwise; `Schedules.ScheduleTable` shows that a valid plan never reaches that panic.
- The `assert_eq!` length checks in `apply_stages_*` are preconditions of `Driver.ApplyStages` and `Engine.TransformInPlace`, not modelled panics.

## Findings

| source | as written | input that shows it | evidently intended | confidence | as-written member | corrected member |
|---|---|---|---|---|---|---|
| fourier/src/autosort/prime_factor.rs:13-16 | `num_factors` loops while `value % factor == 0` and divides `value` by `factor`; for `value == 0` both stay 0, so `Stages::new(0)`, `new(0)` and `create_f32(0)` / `create_f64(0)` never return | `create_f32(0)` | length 0 declined with `None`, as every other unsupported length is | not executed | Factors.NumFactorsLoopSpinsOnZero | Engine.CreateChecked |
