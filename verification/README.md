# minian numeric kernels in Dafny

minian turns calcium-imaging microscopy video into neural-activity
components. Around its plotting and file handling sit a few small numeric
kernels. This project models them in exact `real` arithmetic and proves
their properties:

- **AR convolution** (`minian/visualization.py`). `construct_G` builds the
  Toeplitz matrix `G` of an autoregressive calcium model with coefficients
  `g`. `convolve_G` turns a spike train `s` into a calcium trace
  `c = G⁻¹·s`, and falls back to `s` when inversion raises `LinAlgError`.
  `construct_pulse_response` feeds a unit-impulse train through it.
  - `inv(G).dot(s)` is modelled as forward substitution on a
    lower-triangular matrix. The solve returns `None` exactly when a
    diagonal entry is zero. That is the case in which a lower-triangular
    matrix is singular and `inv` raises.
  - The solve is proved to give the unique `c` with `G·c = s`.
  - On `construct_G`'s matrix it is proved equal to the forward recurrence
    `c[t] = s[t] + g[0]·c[t-1] + … + g[m-1]·c[t-m]` with `m = min(t, |g|)`.
  - The fallback is proved unreachable.
- **Min/max rescaling**: `normalize` (`minian/visualization.py`), and
  `scale_varr`, `mov_to_float32`, `varr_to_float32`, `mov_to_uint8` and
  `varr_to_uint8` (`minian/utilities.py`). For each one the model proves
  endpoints, bounds and order preservation, and relates it to the others.
  `normalize` is also defined on a constant signal. A silent unit reaches
  that case, because minian/visualization.py:778-785 applies `normalize`
  per unit. `np.interp` with equal anchors gives 1.0 for every sample, and
  the model does the same.
- **Subplot grid**: the rows/columns decision in `create_fig`
  (`minian/utilities.py`).

Modules: `Wrappers` (Option, Result, the Python errors), `Matrices`,
`Toeplitz`, `Convolution`, `PulseResponse`, `Rescale`, `FigureLayout`.

Error paths follow the code.

- `construct_G` raises `IndexError` when `T == 0`.
- It raises a broadcast `ValueError` when the slice `cur_c[1:|g|+1]` (clipped
  to `T - 1` entries) cannot take `-g`. The model calls this
  `BroadcastError`.
- The one exception is a single coefficient with `T == 1`. numpy broadcasts
  that coefficient into the empty slice, so it is silently dropped and
  `G = [[1]]`.
- In every other case the code raises; it never truncates `g` silently.
- `convolve_G` only catches `LinAlgError`, so these errors reach its caller.
  They also reach the caller of `construct_pulse_response`.
- The impulse train has a 1 at every multiple of 500, as
  `np.arange(0, length, 500)` gives. With the default length of 500 that is
  index 0 only.

## Model

| member | source | states |
|---|---|---|
| `Toeplitz.ToeplitzMatrix` | minian/visualization.py:681 | the `toeplitz(c, r)` matrix is square, its first column is `c`, its first row after the corner is `r`, and every descending diagonal is constant |
| `Toeplitz.ConstructG` | minian/visualization.py:676-681 | succeeds exactly when `T ≥ 1` and (`|g| < T` or `|g| = 1`); otherwise IndexError for `T = 0` and a broadcast error otherwise; on success `G` is T×T Toeplitz with unit diagonal, zero above it, `-g[i-j-1]` at lag `i-j ≤ |g|` and 0 beyond |
| `Matrices.SolveLowerTriangular` | minian/visualization.py:687-690 | solving a lower-triangular system fails (the LinAlgError path) exactly when some diagonal entry is zero; otherwise the result has the length of `s` |
| `Matrices.SolveLowerTriangularSolves` | minian/visualization.py:688 | a successful solve satisfies `G·c = s` |
| `Matrices.SolutionUnique` | minian/visualization.py:688 | with a non-zero diagonal, `G·c = G·d` forces `c = d` |
| `Matrices.SolveIsInverse` | minian/visualization.py:688-690 | for a unit lower-triangular `G` the solve never fails, and a vector solves `G·c = s` exactly when it is the solve's result, i.e. `G⁻¹·s` |
| `Convolution.ConvolveG` | minian/visualization.py:685-691 | returns a trace exactly when `construct_G` succeeds on `len(s)`, and then one of length `|s|`; otherwise it returns `construct_G`'s error |
| `Convolution.LagRowDot` | minian/visualization.py:677-681 | a row whose entries are the lag weights `-g[k-1]` turns the product with the past trace into minus the AR sum |
| `Convolution.ConstructGArRows` | minian/visualization.py:676-681 | every row of `construct_G`'s matrix has 1 on the diagonal and the weight `-g[i-j-1]` (0 beyond `|g|`) of lag `i - j` left of it |
| `Convolution.ArRowsSolveStep` | minian/visualization.py:688 | on such rows one step of forward substitution appends `s[k-1]` plus the AR sum over the samples solved so far |
| `Convolution.ArRowsSolve` | minian/visualization.py:688 | on such rows forward substitution never fails and yields, prefix by prefix, the AR recurrence |
| `Convolution.SolvePrefixIsArTrace` | minian/visualization.py:686-688 | forward substitution on `construct_G`'s matrix yields, prefix by prefix, the AR recurrence |
| `Convolution.ConvolveGIsArTrace` | minian/visualization.py:685-691 | whenever `convolve_G` returns, it returns the computed AR trace; the LinAlgError fallback is never taken |
| `Convolution.ConvolveGSolves` | minian/visualization.py:686-688 | the returned trace is the one and only `c` of length `|s|` with `G·c = s` |
| `Convolution.ConvolveGZeroCoefficients` | minian/visualization.py:686-690 | with all-zero `g` the returned trace is `s` itself, the same value the fallback returns |
| `Convolution.ConvolveGDecayExample` | minian/visualization.py:685-691 | `g = [0.9]` and `s = [1,0,0,0,0]` give `[1, 0.9, 0.81, 0.729, 0.6561]` |
| `Convolution.ArTraceRecurrence` | minian/visualization.py:688 | every sample satisfies `c[t] = s[t] + Σ_{k=1..min(t,|g|)} g[k-1]·c[t-k]` |
| `Convolution.ArTracePrefix` | minian/visualization.py:686-688 | the first `t` samples of the trace are the trace of `s[..t]` |
| `Convolution.ArTraceCausal` | minian/visualization.py:686-688 | spike trains that agree up to `t` give traces that agree up to `t` |
| `Convolution.ArTraceFirst` | minian/visualization.py:686-688 | `c[0] = s[0]` |
| `Convolution.ArTraceZeroPrefix` | minian/visualization.py:686-688 | if `s[..t]` is all zero, so is `c[..t]` |
| `Convolution.ArTraceOfZeros` | minian/visualization.py:686-688 | an all-zero spike train gives an all-zero trace |
| `Convolution.ArTraceZeroCoefficients` | minian/visualization.py:686-688 | with all-zero coefficients the recurrence is the identity |
| `Convolution.ArTraceGeometric` | minian/visualization.py:688 | for `g = [γ]` and a single impulse at 0, `c[t] = γ^t` |
| `PulseResponse.ConstructPulseResponse` | minian/visualization.py:693-697 | succeeds exactly when `length ≥ 1` and (`|g| < length` or `|g| = 1`); then `s` and `c` both have that length, and `s[i]` is 1 when `i % 500 = 0` and 0 otherwise |
| `PulseResponse.PulseResponseIsArTrace` | minian/visualization.py:696-697 | the response `c` is the AR recurrence run over the impulse train |
| `PulseResponse.PulseTrainHead` | minian/visualization.py:694-695 | before index 500 the train is a single unit impulse at 0 |
| `PulseResponse.PulseResponseGeometric` | minian/visualization.py:693-697 | for `g = [γ]` and any length ≥ 1 the call succeeds and `c[t] = γ^t` up to the second impulse; at the default length 500, for every `t` |
| `Rescale.Min` | minian/utilities.py:299 | the minimum is one of the samples and no sample is below it |
| `Rescale.Max` | minian/utilities.py:298 | the maximum is one of the samples and no sample is above it |
| `Rescale.Normalize` | minian/visualization.py:683 | every output lies in [0, 1]; maximum samples map to 1 and, unless the signal is constant, minimum samples to 0; `a[i] ≤ a[j]` exactly when `out[i] ≤ out[j]`; a constant signal maps to all ones |
| `Rescale.NormalizeConstant` | minian/visualization.py:683 | a constant signal normalizes to all ones, and normalizing that again changes nothing |
| `Rescale.NormalizeRange` | minian/visualization.py:683 | a normalized non-constant signal has minimum exactly 0 and maximum exactly 1 |
| `Rescale.NormalizeIdempotent` | minian/visualization.py:683 | a normalized non-constant signal is again non-constant, and normalizing it again changes nothing |
| `Rescale.NormalizeIsScaleVarr` | minian/visualization.py:683 | `normalize` equals `scale_varr` at the default scale (0, 1) |
| `Rescale.ScaleVarr` | minian/utilities.py:291-304 | the minimum maps to `scale[0]` and the maximum to `scale[1]`; for `scale[0] ≤ scale[1]` every output lies in the scale and the order of samples is kept |
| `Rescale.ScaleVarrOnLine` | minian/utilities.py:298-303 | every `(a[i], out[i])` lies on the straight line through `(min, scale[0])` and `(max, scale[1])`, so the map is that affine map; any value on that line at `a[i]` is `out[i]` |
| `Rescale.MovToFloat32` | minian/utilities.py:267 | every output lies in [0, 1] |
| `Rescale.VarrToFloat32` | minian/utilities.py:277-288 | `a[i] ≤ a[j]` exactly when `out[i] ≤ out[j]` |
| `Rescale.Float32IsScaleVarr` | minian/utilities.py:267-303 | both float conversions equal `scale_varr` at scale (0, 1) |
| `Rescale.MovToUint8` | minian/utilities.py:251 | codes are integers in 0..255; the minimum maps to 0 and the maximum to 255; order is kept |
| `Rescale.VarrToUint8` | minian/utilities.py:270-274 | codes are integers in 0..255; the minimum maps to 0 and the maximum to 255; order is kept; each code is `Floor(255 · x)` of the float conversion `x` of the sample |
| `Rescale.Uint8IsTruncatedScaleVarr` | minian/utilities.py:251-304 | the 8-bit codes are `scale_varr` onto (0, 255), truncated, and the two 8-bit conversions agree |
| `FigureLayout.ScaledBounds` | minian/utilities.py:87-89 | for `q = n / d` with `d > 0`, `q ≤ c` gives `c·d ≥ n` and `c < q` gives `c·d < n` |
| `FigureLayout.CeilDivLeast` | minian/utilities.py:87-89 | for a positive divisor `d`, `ceil(n/d)` is non-negative, `ceil(n/d)·d ≥ n` and `(ceil(n/d) − 1)·d < n` |
| `FigureLayout.Layout` | minian/utilities.py:83-89 | with neither dimension given the grid is one row of `n` columns; a given (non-zero) dimension is kept; when at most one non-negative dimension is given, the grid has at least `n` cells |
| `FigureLayout.LayoutMinimal` | minian/utilities.py:86-89 | when exactly one positive dimension is given, the computed one is the smallest that gives at least `n` cells |
| `FigureLayout.CreateFig` | minian/utilities.py:80-89 | a single array is wrapped into a one-element list and a list is kept as is; the grid is `Layout` of the panel count: one row of all panels when no dimension is given, a given dimension kept, and a cell for every panel when at most one non-negative dimension is given |

## Left out

- Floating point: every quantity is an exact `real`. float32/uint8 storage,
  rounding, overflow, and `LinAlgError` from ill-conditioning (as opposed
  to exact singularity) are not modelled.
- `nanmin`/`nanmax` and NaN propagation: the signals are NaN-free.
- The degenerate range `max == min` in the minian/utilities.py rescalings
  (`scale_varr`, `mov_to_*`, `varr_to_*`): the source divides by zero there,
  so these require `Min(a) < Max(a)`.
- `np.interp` clamping outside `[min, max]` is written in `Interp`, but
  nothing reaches it, because the anchors are the signal's own extremes.
- `Matrices.SolveLowerTriangular` stands in for `inv` only on lower-triangular
  matrices. Those are the only matrices `convolve_G` ever inverts. General
  matrix inversion is not modelled.
- `Rescale.ScaleVarr`: only floating-point input is modelled. The final
  cast back to the input dtype (minian/utilities.py:304) truncates the result
  of an integer input, and that truncation is not modelled.
- `scale_varr`'s dtype selection and in-place aliasing (`astype(copy=False)`).
  There is also a call that passes it a `pre_compute` keyword it does not
  accept.
- `FigureLayout.CreateFig`: only the list wrapping and the rows/columns
  decision are modelled. `size`, `aspect`, `figsize` and the `plt.subplots`
  call are plotting. The `varlist[0]` read fails on an empty list, and that
  failure is not modelled. Negative dimensions (truthy in Python) are
  computed as written, but no property is claimed for them.
- Viewers, widgets, holoviews/bokeh/datashader rendering, video and file
  I/O, format converters, `centroid` and `flatten`: these are UI glue,
  I/O, or calls into libraries outside this model.
