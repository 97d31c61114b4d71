# CPU pooling and RMSprop kernels of a tensor engine, in Dafny

This project models two host-side (CPU) kernels of the dfdx tensor library
and proves properties about them:

* **2-D pooling** (`src/tensor_ops/pool2d/cpu_kernel.rs`): the forward and
  backward passes of average, max and min pooling. Each pass works on a flat
  buffer addressed through four strides (batch, channel, row, column). Rank-3
  strides are normalised to four axes by `make_4d`. Each kernel is a six-deep
  counting loop (`b`, `c`, `oh`, `ow`, `k1`, `k2`). A tap reads input row
  `oh*stride+k1-padding` and column `ow*stride+k2-padding`. Both subtractions
  are checked for underflow, and the result must also be inside the input.
  Forward kernels fold the in-bounds taps into one output slot. Backward
  kernels add (`+=`) gradient shares into the input-gradient buffer.
* **RMSprop update** (`src/optim/rmsprop/cpu_kernel.rs`): one loop walks the
  parameter, gradient, square-average, gradient-average and momentum buffers
  in lockstep and updates four of them in place. It covers L2 versus decoupled
  weight decay, centered versus uncentered normalisation (eps inside the
  square root in both cases) and momentum present versus absent.

Layout:

* `wrappers.dfy`: the `Option` type used for `checked_sub` and for a panic.
* `pool2d_indexing.dfy`: `Make4d`, tap coordinates, the in-bounds filter, and
  predicates saying a strided buffer can be addressed without a panic.
* `pool2d_forward_spec.dfy`: the specifications `WindowSum`, `WindowMax` and
  `WindowMin`, and lemmas characterising them.
* `pool2d_backward_spec.dfy`: `Contribution`, the amount a backward call adds
  at each input offset, and lemmas about routing and conservation.
* `pool2d_cpu_kernel.dfy`: the six kernels as imperative methods over arrays,
  with loop invariants proving them against the specifications.
* `rmsprop_spec.dfy`: one RMSprop step on one element, written as the
  textbook formula (`alpha*s + (1-alpha)*g^2`), with lemmas about each branch.
* `rmsprop_cpu_kernel.dfy`: the kernel's loop, in its own incremental form
  (`s += (1-alpha)*(g*g - s)`), proved equal to the textbook step element by
  element.

Modelling choices:

* Element values are `real`. Max and min pooling write `Ext`, which is the
  reals extended by both infinities. This lets the fold start from
  `F::neg_infinity()` or `F::infinity()` as the code does, so a window with
  no in-bounds tap yields that identity. Input values are finite reals.
  Max/min pooling uses the same `real` values as average pooling. This is more
  general than integer elements and keeps one value type for all six kernels.
* Max and min pooling share one fold, parametrised by `Extremum`. The two
  backward kernels are textually identical in the source, so they share one
  method through the routing rule `ToMatching`.
* Buffers that a kernel only reads are `seq<real>`. Buffers it writes are
  `array<real>` (or `array<Ext>`), owned exclusively.
* The square root is a parameter `sqrt: real -> real` of the RMSprop model.
  Each visited element requires its divisor `sqrt(...)` to be non-zero.
* The `zip` chain in the RMSprop kernel stops at the shortest buffer. The
  model visits `Lockstep(...)` positions and proves that nothing past them
  changes.

## Model

| member | source | states |
|---|---|---|
| `Pool2DIndexing.Make4d` | src/tensor_ops/pool2d/cpu_kernel.rs:8-14 | rank 3 gives `[0] + strides`, rank 4 is passed through unchanged, and every other rank panics (`None`), in both directions |
| `Pool2DIndexing.CheckedSub` | src/tensor_ops/pool2d/cpu_kernel.rs:36-38 | `checked_sub` succeeds exactly when there is no underflow, and then returns the difference |
| `Pool2DIndexing.TapIndex` | src/tensor_ops/pool2d/cpu_kernel.rs:36-42 | a tap yields an input offset exactly when `padding <= oh*stride+k1 < padding+h_in` and likewise for columns; the offset is that of the shifted `(b, c, y, x)` |
| `Pool2DForwardSpec.UniformWindowAverage` | src/tensor_ops/pool2d/cpu_kernel.rs:34-48 | if every in-bounds tap reads `v`, the average is `v * (in-bounds taps) / (kernel*kernel)`; padding taps count in the divisor but not in the sum |
| `Pool2DForwardSpec.CombineSpec` | src/tensor_ops/pool2d/cpu_kernel.rs:123-128 | one `max`/`min` step bounds both its arguments, returns one of them, and keeps every bound the accumulator had |
| `Pool2DForwardSpec.WindowExtremumSpec` | src/tensor_ops/pool2d/cpu_kernel.rs:116-133 | the fold bounds every in-bounds tap; it is the identity if and only if no tap is in bounds; otherwise it equals one tap's value |
| `Pool2DForwardSpec.WindowMaxSpec` | src/tensor_ops/pool2d/cpu_kernel.rs:116-133 | the max-pool value is at least every in-bounds tap and equals one of them; it is negative infinity if and only if the window has no in-bounds tap |
| `Pool2DForwardSpec.WindowMinSpec` | src/tensor_ops/pool2d/cpu_kernel.rs:202-219 | the min-pool value is at most every in-bounds tap and equals one of them; it is positive infinity if and only if the window has no in-bounds tap |
| `Pool2DBackwardSpec.UnreadGetsNothing` | src/tensor_ops/pool2d/cpu_kernel.rs:71-95 | an input offset that no tap of any window reads receives a total contribution of 0 |
| `Pool2DBackwardSpec.WindowGradAtTap` | src/tensor_ops/pool2d/cpu_kernel.rs:160-173 | with an injective input layout, a window adds exactly its share at the offset one of its in-bounds taps reads if that tap receives, and 0 otherwise; for max/min, every tied tap gets the whole `grad_out` |
| `Pool2DBackwardSpec.WindowGradElsewhere` | src/tensor_ops/pool2d/cpu_kernel.rs:163-173 | a window adds nothing at an offset none of its taps reads |
| `Pool2DBackwardSpec.TapReadsUnique` | src/tensor_ops/pool2d/cpu_kernel.rs:169-170 | with an injective input layout, two taps of one window that read the same offset are the same tap |
| `Pool2DBackwardSpec.MaxGradReachesArgmax` | src/tensor_ops/pool2d/cpu_kernel.rs:160-173 | after max-pool forward, a window with an in-bounds tap passes its whole `grad_out` to at least one input element it reads |
| `Pool2DBackwardSpec.AvgWindowConservesGradient` | src/tensor_ops/pool2d/cpu_kernel.rs:75-87 | over the whole buffer, an average-pool window adds `grad_out/(kernel*kernel)` times its number of in-bounds taps |
| `Pool2DCpuKernel.AvgWindowSum` | src/tensor_ops/pool2d/cpu_kernel.rs:34-47 | the `k1`/`k2` loops leave `tmp` equal to `WindowSum` of the slot |
| `Pool2DCpuKernel.AvgPoolForward` | src/tensor_ops/pool2d/cpu_kernel.rs:19-55 | every output slot holds `WindowSum / (kernel*kernel)`; every element of `out` that is no slot's offset keeps its old value |
| `Pool2DCpuKernel.ExtremumWindow` | src/tensor_ops/pool2d/cpu_kernel.rs:116-132 | the `k1`/`k2` loops leave `tmp` equal to the max or min fold of the slot's in-bounds taps, starting from the matching infinity |
| `Pool2DCpuKernel.ExtremumPoolForward` | src/tensor_ops/pool2d/cpu_kernel.rs:112-137 | every output slot holds its window's fold; every element of `out` that is no slot's offset keeps its old value |
| `Pool2DCpuKernel.MaxPoolForward` | src/tensor_ops/pool2d/cpu_kernel.rs:101-139 | every output slot holds `WindowMax`; all other elements of `out` are unchanged |
| `Pool2DCpuKernel.MinPoolForward` | src/tensor_ops/pool2d/cpu_kernel.rs:187-225 | every output slot holds `WindowMin`; all other elements of `out` are unchanged |
| `Pool2DCpuKernel.BackwardWindow` | src/tensor_ops/pool2d/cpu_kernel.rs:160-177 | the `k1`/`k2` loops add exactly `WindowGrad` of the slot at each offset of `grad_inp` |
| `Pool2DCpuKernel.PoolBackward` | src/tensor_ops/pool2d/cpu_kernel.rs:156-181 | every element of `grad_inp` becomes its old value plus `Contribution`; nothing is overwritten |
| `Pool2DCpuKernel.AvgPoolBackward` | src/tensor_ops/pool2d/cpu_kernel.rs:57-97 | `grad_inp` is accumulated with the average-pool routing (`grad_out/(kernel*kernel)` at every in-bounds tap) |
| `Pool2DCpuKernel.MaxPoolBackward` | src/tensor_ops/pool2d/cpu_kernel.rs:140-183 | `grad_inp` is accumulated with the whole `grad_out` at every in-bounds tap equal to the forward output |
| `Pool2DCpuKernel.MinPoolBackward` | src/tensor_ops/pool2d/cpu_kernel.rs:226-269 | the same as max backward, with routing to the taps equal to the minimum |
| `RmspropSpec.L2IsShiftedGradient` | src/optim/rmsprop/cpu_kernel.rs:30-32 | a step with L2 decay `wd` equals an undecayed step on gradient `g + wd*p` (old `p`), so the decayed gradient reaches both averages and momentum |
| `RmspropSpec.DecoupledShrinksParam` | src/optim/rmsprop/cpu_kernel.rs:57-59 | decoupled decay leaves the averages and momentum as without decay, and subtracts an extra `wd*lr*p` (old `p`) from the parameter |
| `RmspropSpec.StepFrame` | src/optim/rmsprop/cpu_kernel.rs:37-55 | without momentum the momentum buffer is unchanged; when uncentered the gradient average is unchanged |
| `RmspropSpec.ZeroMomentumIsPlain` | src/optim/rmsprop/cpu_kernel.rs:49-55 | momentum factor 0 moves the parameter like no momentum, and stores the normalised gradient in the momentum buffer |
| `RmspropSpec.ZeroGradientKeepsParam` | src/optim/rmsprop/cpu_kernel.rs:30-61 | with zero gradient, no decay and zero momentum, the parameter stays put and the averages decay by `alpha` |
| `RmspropSpec.UnitAlphaFreezesAverages` | src/optim/rmsprop/cpu_kernel.rs:34-39 | with `alpha = 1` neither moving average moves |
| `RmspropSpec.WorkedStep` | src/optim/rmsprop/cpu_kernel.rs:34-61 | param 2, grad 4, alpha 0.9, eps 1e-8, lr 0.01, plain step: `square_avg' = 1.6` and `param' = 2 - 0.04/sqrt(1.6 + 1e-8)` |
| `RmspropCpuKernel.Lockstep` | src/optim/rmsprop/cpu_kernel.rs:23-28 | the zipped iteration visits as many positions as the shortest of the five buffers has |
| `RmspropCpuKernel.IncrementalAverage` | src/optim/rmsprop/cpu_kernel.rs:34-35 | `x + (1-alpha)*(y - x) == alpha*x + (1-alpha)*y` |
| `RmspropCpuKernel.UpdateAverages` | src/optim/rmsprop/cpu_kernel.rs:30-45 | the in-place updates give the L2-decayed gradient, the textbook moving averages, and `sqrt` of the centered or uncentered root argument with eps inside |
| `RmspropCpuKernel.UpdateElement` | src/optim/rmsprop/cpu_kernel.rs:30-61 | one loop body turns `(p, m, s, ga)` into exactly `Step` of the old element and the gradient |
| `RmspropCpuKernel.Update` | src/optim/rmsprop/cpu_kernel.rs:19-63 | each visited position `i` holds `Step` of its own old state and `grad[i]` (element-wise independence); positions past the shortest buffer are untouched; momentum is unchanged without momentum; the gradient average is unchanged when uncentered |

## Left out

- IEEE floating point: rounding, NaN results of `max`/`min` and of `==`, and `F::from(...).unwrap()`. Values are exact reals.
- `Arc::make_mut` copy-on-write: written buffers are exclusively owned arrays, and reference counting is not modelled.
- `Pool2DCpuKernel.AvgPoolForward`: requires `kernel > 0`. With a zero kernel the code writes `0/0` (NaN), which the real-valued model cannot represent.
- Pool2DCpuKernel forward methods: require an injective output layout (no broadcast output strides). The code would let later slots overwrite earlier ones in such a layout.
- Pool2DBackwardSpec per-tap lemmas (`WindowGradAtTap`, `MaxGradReachesArgmax`): require an injective input layout. The kernels themselves (`PoolBackward`) are proved for any layout.
- Out-of-bounds buffer indexing panics: callers must meet `InputFits`/`OutputFits`. A panic of `make_4d` on a rank other than 3 or 4 is stated by `Make4d` returning `None`; the kernels require `Some`.
- `RmspropCpuKernel.Update`: the `debug_assert_eq!` checks on equal shape and strides of `param` and `grad` are not modelled, because the buffers are flat and iterated in buffer order. Equal buffer length is required.
- `RmspropCpuKernel.Update`: requires each divisor `sqrt(...)` to be non-zero. IEEE division by zero (an infinite step) is not modelled.
- The square root is an uninterpreted parameter. None of its properties (non-negativity, `sqrt(x)^2 = x`) are assumed or used.
- The CUDA kernels, the `Cpu` device type, the `Pool2DOp` and `RMSpropConfig` definitions in other files, and the optimizer driver that owns the state buffers are not part of this model.
