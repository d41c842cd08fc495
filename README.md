# Kinect shape-from-shading preprocessing, modelled in Dafny

The program reads paired colour and depth frames from a Kinect v2 sensor
through libfreenect2 and turns each depth frame into the inputs of a
shape-from-shading solver. This project models the exact, non-numeric logic
of that program's frame loop:

- **Validity masks** (`masks.dfy`, module `Masks`): the simple mask is 1
  everywhere and 0 where the depth sample is exactly 0; the stacked mask is
  twice as tall and holds the simple mask in its top half and again in its
  bottom half. Both are eroded with the 7×7 rectangular structuring element
  anchored at its centre (radius 3), and the blurred depth is multiplied by
  the eroded simple mask. The matrices are `array2`s changed in place by
  methods with loops. `ZeroAtDropouts` and `CopyIntoRows` state the new
  contents cell by cell; `BuildMasks`, `Erode`, `MultiplyByMask` and
  `MaskFrame` tie them to a specification function (`MaskOf`, `Stack`,
  `Eroded`, `Masked`) on the row-by-row view `Grids.Cells`, and the lemmas
  state what those functions mean.
- **Pause and shutdown control** (`lifecycle.dfy`, module `Lifecycle`): the
  class `Protonect` holds the global flags `protonect_shutdown` and
  `protonect_paused`, whether `devtopause` is set, and the trace of start/stop
  calls made by the SIGUSR1 handler. The handlers are ordinary methods; the
  frame loop `Stream` runs them before the first frame, between frames and
  during the final wait, and bounds the iterations by
  `framemax`, where `(size_t)-1` means no limit.
- **Strings and arguments** (`cli.dfy`, module `Cli`): `binpath` from
  `argv[0]` by `rfind("Protonect")`, and the input prefix and `performanceRun`
  flag from `argv`.

Erosion border: OpenCV's `erode` pads with the largest value of the type by
default, so pixels outside the image never lower the result. The model says
this directly: only in-image neighbours count (`AllOnesNear`). For a 0/1
mask, OpenCV's minimum over the window is the model's "1 iff every in-image
neighbour is 1".

The erosion of the stacked mask runs over the whole 2H-row matrix, so near
the seam at row H it sees rows of the other copy. The model proves that the
two views agree away from the seam (`StackedErosionAwayFromSeam`), that the
stacked erosion is never above the copies (`StackedErosionWithinCopies`), and
that they differ in general (`ErosionCrossesSeam`).

## Model

| member | source | states |
|---|---|---|
| `Masks.MaskOf` | src/main.cpp:156-157 | the mask built from `setTo(0, depth == 0)` on a 1-filled matrix has the depth map's shape and holds only 0s and 1s |
| `Masks.MaskOfMeaning` | src/main.cpp:156-157 | the mask is 0 exactly where the depth sample equals 0, 1 exactly where it does not, and every entry is 0 or 1 |
| `Masks.Stack` | src/main.cpp:159-162 | the stacked mask has twice the rows, rows r and r+H both equal row r of the simple mask, and it is 0/1 when the simple mask is |
| `Masks.ZeroAtDropouts` | src/main.cpp:157 | `setTo(0, depth == 0)`: each cell becomes 0 where the depth is 0 and keeps its old value elsewhere |
| `Masks.CopyIntoRows` | src/main.cpp:159-162 | ROI `copyTo`: rows top..top+H-1 of the target become the source's rows, all other rows are unchanged |
| `Masks.BuildMasks` | src/main.cpp:155-162 | the new simple mask is `MaskOf` the depth frame; the new 2H-row stacked mask is `Stack` of the simple mask, so no cell keeps its initial fill |
| `Masks.ErodedAt` | src/main.cpp:178 | the eroded value of one pixel is 0 or 1, and is 1 only where the pixel itself is 1 |
| `Masks.Eroded` | src/main.cpp:177-179 | erosion keeps the shape of the mask and yields only 0s and 1s |
| `Masks.ErodedAtMeaning` | src/main.cpp:177-178 | the eroded value is 1 exactly when every in-image pixel within row and column distance 3 (the radius) is 1, and 0 exactly when one of them is not |
| `Masks.ErodedWithin` | src/main.cpp:178 | the eroded mask is 1 only where the original mask is 1 |
| `Masks.ErodedAllOnes` | src/main.cpp:178 | an all-ones mask is unchanged by erosion |
| `Masks.SingleDropout` | src/main.cpp:178 | with a single 0 at (pr, pc), the eroded mask is 0 exactly at the pixels whose window contains (pr, pc) |
| `Masks.StackedErosionAwayFromSeam` | src/main.cpp:179 | eroded stacked rows more than the radius above the seam, or at least the radius below it, equal the eroded simple mask's rows |
| `Masks.StackedErosionWithinCopies` | src/main.cpp:179 | the eroded stacked mask is at most the eroded simple mask in both halves |
| `Masks.ErosionCrossesSeam` | src/main.cpp:179 | for a 5×1 mask with a 0 in its first row, eroding the stack differs from stacking the erosion |
| `Masks.RowAllOnes` | src/main.cpp:177-178 | returns whether every in-row cell within the radius of the column is 1 |
| `Masks.WindowAllOnes` | src/main.cpp:177-178 | returns whether every in-image cell of the window around (r, c) is 1 |
| `Masks.Erode` | src/main.cpp:178-179 | `erode(m, m, element)` on a 0/1 matrix: the matrix becomes the erosion of its contents before the call |
| `Masks.Masked` | src/main.cpp:181 | the product has the shape of the depth map |
| `Masks.MaskedSelects` | src/main.cpp:181 | multiplying by a 0/1 mask keeps the depth where the mask is 1 and gives exactly 0 where it is 0 |
| `Masks.MultiplyByMask` | src/main.cpp:181 | `d = d.mul(m)`: the depth matrix becomes `Masked` of its old contents and the mask |
| `Masks.FilteredDepthAwayFromDropouts` | src/main.cpp:170-181 | the masked blurred depth equals the blurred depth at every pixel whose 7×7 window of raw depth has no 0 sample, and is exactly 0 at every pixel whose window has one |
| `Masks.MaskFrame` | src/main.cpp:155-181 | the simple mask ends up as the erosion of `MaskOf` the raw depth, the stacked mask as the erosion of the stack of that mask, and the blurred depth as its product with the eroded simple mask |
| `Lifecycle.Inc` | src/main.cpp:246 | `framecount++` on a `size_t` is `(n + 1) mod 2^64` |
| `Lifecycle.KeepStreaming` | src/main.cpp:133-134 | the loop guard passes only without a shutdown request, and with a finite `framemax` only while the count is below it |
| `Lifecycle.GuardBoundsCount` | src/main.cpp:133-134 | with a finite `framemax`, a passing guard means no shutdown and a count below the limit, so the increment neither wraps nor exceeds it |
| `Lifecycle.Toggles` | src/main.cpp:33-42 | the trace of n pause toggles from a running device has exactly n calls |
| `Lifecycle.TogglesAlternate` | src/main.cpp:33-42 | the handler's call trace alternates: stop at even positions, start at odd ones |
| `Lifecycle.Protonect.constructor` | src/main.cpp:21-24 | the globals start with shutdown and paused false and no device |
| `Lifecycle.Protonect.SetDevice` | src/main.cpp:84 | once `devtopause` is set the handler has a device to act on |
| `Lifecycle.Protonect.Sigint` | src/main.cpp:26 | SIGINT sets shutdown to true and changes nothing else |
| `Lifecycle.Protonect.Sigusr1` | src/main.cpp:33-42 | without a device nothing changes and no call is made; with one, exactly one call is made (`start` if paused, `stop` if running) and `paused` is negated |
| `Lifecycle.Protonect.PauseThenResume` | src/main.cpp:33-42 | two consecutive SIGUSR1s on a running device restore `paused` and make one stop followed by one start |
| `Lifecycle.Protonect.Deliver` | src/main.cpp:26-42 | after a batch of signals, shutdown is set exactly when it was already set or an interrupt arrived, and one call was made per pause signal when a device is set |
| `Lifecycle.Protonect.Stream` | src/main.cpp:90-252 | shutdown is reset and then the signals of the set-up phase are handled, so an early SIGINT means no iteration; the count is the number of iterations and a finite `framemax` bounds them; the loop stops after the first frame during which SIGINT arrived, and a timeout happens only when no handled frame brought one; one device call is made per pause signal delivered early, during the handled frames and during a wait that times out; the loop ends either because the guard failed or because no frame arrived |
| `Cli.LastBelow` | src/main.cpp:53 | the result is the largest start index below the bound where the pattern occurs, or none when it occurs at no such index |
| `Cli.RFind` | src/main.cpp:53 | `rfind` returns the last occurrence of the pattern, and npos exactly when it occurs nowhere |
| `Cli.BinPath` | src/main.cpp:52-59 | `binpath` is either "/" or a prefix of argv[0] |
| `Cli.BinPathMeaning` | src/main.cpp:52-59 | `binpath` is "/" when "Protonect" is not in argv[0]; otherwise it is a prefix of argv[0] followed by "Protonect", with no later occurrence |
| `Cli.BinPathOfExecutable` | src/main.cpp:52-59 | for argv[0] equal to `dir + "Protonect"`, `binpath` is exactly `dir` |
| `Cli.ParseArgs` | src/main.cpp:200-213 | a run is never both a performance run and a reported invalid second argument |
| `Cli.ParseArgsMeaning` | src/main.cpp:200-213 | the prefix is argv[1] when argc >= 2 and the default otherwise; `performanceRun` holds iff argc > 2 and argv[2] is "perf"; any other argv[2] is reported |
| `Cli.ParseArgsRoundTrip` | src/main.cpp:200-213 | parsing `[program, prefix]` or `[program, prefix, "perf"]` gives back the prefix and the switch, and every warning-free two- or three-entry command line is of that form |

## Left out

- Device enumeration, opening, the initial `start()`, the frame listener, `waitForNewFrame` with its 10 s timeout, the release of frames and the final `stop()`/`close()` (src/main.cpp:61-131, 135-141, 248, 254-255) are foreign device I/O. The loop receives its frames as a finite sequence, and running out of it stands for the timeout. The call trace holds only the calls the SIGUSR1 handler makes.
- A stopped (paused) device delivers no frames, so in the real program a pause usually ends in the timeout; the model does not tie frame arrival to the paused flag, because that is the device's behaviour.
- Signal delivery is asynchronous in the program. The model delivers signals as ordinary calls at fixed points: a SIGINT or SIGUSR1 arriving after the handlers are installed (lines 86-88) and before the reset at line 90 is a `Sigint` or `Sigusr1` call made before `Stream`, whose reset discards an early SIGINT; `Stream` then takes a batch after the reset and before the first guard, one during each handled frame, and one during the wait that times out. A signal interrupting a handler half-way is not modelled.
- Colour-to-depth registration (src/main.cpp:144) is a calibrated library call.
- `GaussianBlur`, grey conversion, intensity scaling and the min/max rescale of the masked depth (src/main.cpp:151-152, 171-172, 182-193) are floating-point work inside OpenCV. The blurred depth is an input of `Masks.MaskFrame`. The rescale at line 185 divides by the maximum with no zero guard, and no fallback is modelled for it.
- `imshow`/`waitKey` (src/main.cpp:180, 194-195) are UI.
- `SFSSolverInput::load`, the PLY/PNG export and the commented-out solver block (src/main.cpp:215-244) are code that is not part of this model, and file output.
- Depth samples are reals and masks are integers 0/1. Single-precision storage, NaN and infinities are not modelled; with a NaN blurred sample the product with 0 would not be 0.
- `Masks.Eroded`: erosion is modelled for 0/1 masks, which is all the program erodes; OpenCV's minimum over arbitrary values is not modelled, and `Masks.Erode` accordingly requires a 0/1 matrix.
- `Lifecycle.Inc`: `size_t` is taken to be 64 bits wide, so `(size_t)-1` is 2^64 - 1 and the count wraps modulo 2^64; other widths are not modelled.
- The solver fields do not share one shape: the stacked mask has 2H rows and the other fields H (src/main.cpp:155, 216). The model claims nothing about their agreement.
