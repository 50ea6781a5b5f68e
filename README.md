# Structural ECDF representation: a verified model of the transforms

`structECDF.py` computes the *structural ECDF* feature of a sensor window.
The window is a matrix of `ch` channels by `dim` samples. Up to three
restructuring stages are applied to it, in a fixed order:

- **multi-scale** (`f_multiscale`): for every scale factor, resample every
  channel at `int(dim*ms)` evenly spaced columns;
- **multi-window** (`f_multiwindow`): for every window factor, keep only the
  last `int(dim*mw)` columns of every channel;
- **convolution** (`f_convolution`): cut every channel into overlapping
  sub-windows ("frames") and stretch each frame back over the whole width.

Each stage either interpolates (scipy's `interp1d`) back to `dim` columns, or
writes the sampled values into a matrix that is otherwise NaN. The driver
`structECDF` transposes the result to time by row and hands it to the ECDF
summariser `ecdfRep`.

The project models these four functions. The three stages are imperative
Dafny methods, written in the same way as the source:

- a preallocated NaN `array2` (or, for the convolution, an `array3` cube);
- a loop over the factors or frames, writing row blocks or frame slices in
  place;
- the convolution's early `break` and its frame-major reshape.

Each method is proved against a specification function on values:
`MultiScaled`, `MultiWindowed`, `Convolved` and, for the driver, `Pipeline`.
The lemmas state what the source promises about those functions.

Modules, in dependency order:

- `index_math.dfy` (`IndexMath`): exact integer arithmetic behind the index
  formulas. It covers:
  - the truncating `int(dim*r)` and the ceiling `int(np.ceil(dim*r))`;
  - NumPy's round-half-to-even;
  - the rounded index row `np.int32(np.around(np.linspace(0, dim-1, num=n)))`.
- `matrices.dfy` (`Matrices`): cells, matrices and array views.
  - A cell is `Option<T>`, where `None` is NaN.
  - It models NumPy fancy-index reads and writes, and the block stacking.
  - It holds the row and slice writes into `array2`/`array3`, and the
    C-order reshape.
- `multiscale.dfy` (`MultiScale`), `multiwindow.dfy` (`MultiWindow`) and
  `convolution.dfy` (`Convolution`): the three stages.
- `struct_ecdf.dfy` (`StructEcdf`): the driver, its keyword arguments and
  defaults.

`interp1d` is a parameter `interp: Interpolator<T>`. Given the knot columns,
the knot values and a column, it returns the interpolant's value there. The
model states exactly which knots and values every stage hands to it.
Properties that depend on the interpolant assume only `ExactAtKnots`: the
interpolant passes through its knots, as a piecewise-linear interpolant
does. `ecdfRep` is likewise a parameter `ecdf: Summarizer<T, F>`.

Facts about the code that the model follows closely:

- The sample count of a scale or window factor truncates: `int(dim*f)`
  (`structECDF.py:70`, `structECDF.py:83`). The model uses `FloorMul`.
- A zero-length trailing window selects the whole row, because the slice
  `[-0:]` starts at column 0 (`structECDF.py:90`). The block is then a copy of
  the input (`MultiWindow.EmptyWindowKeepsRow`).
- The code validates nothing. The ranges it needs are preconditions
  (`StructEcdf.Admissible`, `StructEcdf.Interpolable`).
- With factors in (0, 1] the rounded index row has no repeated column
  (`IndexMath.SampleIndicesDistinct`).
- The `break` of the convolution loop (`structECDF.py:105-106`) is
  unreachable (`Convolution.RemainPositive`), and every frame is written
  (`Convolution.FillFrames`).

## Model

| member | source | states |
|---|---|---|
| IndexMath.FloorMul | structECDF.py:70 | `int(dim*r)` for an exact ratio r: the largest n with n*den <= dim*num |
| IndexMath.CeilMul | structECDF.py:95-96 | `int(np.ceil(dim*r))`: the least c with dim*num <= c*den, and 0 only for a zero product |
| IndexMath.CeilDiv | structECDF.py:97 | `ceil(a/b)`: a <= c*b, and (c-1)*b < a for positive a, and c = 0 for a = 0 |
| IndexMath.FloorMulUnit | structECDF.py:70 | a factor in (0, 1] keeps at most dim columns, and exactly dim if and only if it is 1 |
| IndexMath.CeilMulUnit | structECDF.py:95-96 | a ceiling factor in (0, 1] of a positive length lies between 1 and that length, so 1 <= slide <= size <= dim |
| IndexMath.RoundHalfEven | structECDF.py:69 | `np.around` on p/q: within one half of p/q, and the even neighbour at an exact tie |
| IndexMath.RoundMonotone | structECDF.py:69 | rounding is monotone |
| IndexMath.RoundGap | structECDF.py:69 | values more than one apart round to different integers |
| IndexMath.RoundExact | structECDF.py:69 | an integer rounds to itself |
| IndexMath.SamplePoint | structECDF.py:69-70 | the k-th rounded linspace point: within one half of k*(dim-1)/(n-1) |
| IndexMath.SamplePointBelow | structECDF.py:69-70 | every rounded linspace point lies in [0, dim-1] |
| IndexMath.SampleIndices | structECDF.py:69-70 | the rounded index row has n entries, all in [0, dim) |
| IndexMath.SampleIndicesShape | structECDF.py:69-70 | the index row is non-decreasing, and from two points on it starts at 0 and ends at dim-1 |
| IndexMath.SampleIndicesDistinct | structECDF.py:69-70 | with n <= dim points the index row is strictly increasing: no column is sampled twice |
| IndexMath.SampleIndicesFull | structECDF.py:69-70 | with n = dim points the index row is 0, 1, ..., dim-1 |
| Matrices.Missing | structECDF.py:66-67 | `np.empty` then `[:] = np.nan`: a row of dim NaN cells |
| Matrices.Gather | structECDF.py:72 | `row[idx]`: entry k is row[idx[k]] |
| Matrices.Scatter | structECDF.py:75 | `row[idx] = vals`, written in index order so that the last write to a column wins; keeps the row's width (its cells: ScatterOutside, ScatterDistinct, ScatterGathered) |
| Matrices.ScatterOutside | structECDF.py:75 | `row[idx] = vals` leaves every column outside idx unchanged |
| Matrices.ScatterDistinct | structECDF.py:75 | with distinct indices, `row[idx] = vals` puts vals[k] at idx[k], for every k |
| Matrices.ScatterGathered | structECDF.py:75 | `out[idx] = data[idx]` with distinct indices: a sampled column has the input's value, and any other column keeps its old value |
| Matrices.Stretched | structECDF.py:72-73 | `interp1d(idx, sub)(np.arange(dim))` with idx the rounded linspace of len(sub) points: a row of dim cells (its knots: StretchedKnots) |
| Matrices.Spread | structECDF.py:116 | the intended per-channel placement: a row of dim cells whose k-th sampled column holds the k-th value of the sub-window |
| Matrices.StretchedKnots | structECDF.py:72-73 | an interpolant through its knots reproduces the k-th short-row value at the k-th sampled column |
| Matrices.SpreadElsewhere | structECDF.py:116 | every other column of the placed row is NaN |
| Matrices.SpreadFullWidth | structECDF.py:116 | a row as wide as the window, placed, is the row itself |
| Matrices.StretchedFullWidth | structECDF.py:113-114 | a row as wide as the window, interpolated through its knots, is the row itself |
| Matrices.Transpose | structECDF.py:61 | `data.T`: a cols x rows matrix with t[j][i] = g[i][j] |
| Matrices.Stack | structECDF.py:66-75 | blocks of rows one below the other, in list order: the first block heads the stack, and a single block is its own stack (positions: StackShape, StackAt) |
| Matrices.StackShape | structECDF.py:66 | n blocks of ch rows stack into n*ch rows of the same width |
| Matrices.StackAt | structECDF.py:73-75 | row i*ch + r of the stack is row r of block i |
| Matrices.StackCovers | structECDF.py:68-75 | every row of the stack is row `row % ch` of block `row / ch`, and that block exists |
| Matrices.ScatterRow | structECDF.py:75 | `out[i, idx] = vals` changes row i to the scattered row and no other row |
| Matrices.AssignSlice | structECDF.py:90 | `out[i, lo:lo+len(vals)] = vals` changes exactly those cells |
| Matrices.AssignCubeRow | structECDF.py:114 | `cube[f, c, :] = vals` changes exactly that row of the cube |
| Matrices.ScatterCubeRow | structECDF.py:116 | `cube[f, c, idx] = vals` scatters into that row and changes no other row |
| Matrices.SliceFromHolds | structECDF.py:118 | a frame whose cells agree with a matrix is that matrix |
| Matrices.CopySlice | structECDF.py:118 | rows base..base+ch of the output become frame f of the cube, and every other row keeps its value |
| Matrices.Flatten | structECDF.py:118 | `reshape(frames*ch, dim)` in C order: a new array holding the frames of the cube stacked frame by frame |
| MultiScale.ScaleIndices | structECDF.py:69-70 | the columns sampled at scale ms: `int(dim*ms)` of them, all inside the window |
| MultiScale.ScaleRow | structECDF.py:69-75 | one channel at scale ms, interpolated or sparse: a row as wide as the input (its cells: MultiScaleCell, MultiScaleKnots, UnitScaleIsIdentity) |
| MultiScale.ScaleIndicesShape | structECDF.py:69-70 | the sampled columns are at most dim, strictly increasing, run from 0 to dim-1 once there are two, and are every column for ms = 1 |
| MultiScale.MultiScaled | structECDF.py:64-76 | `f_multiscale` has len(scales)*ch rows of dim columns |
| MultiScale.MultiScaleBlock | structECDF.py:68-75 | block order follows the list: row i*ch + r is channel r at scale scales[i] |
| MultiScale.MultiScaleCell | structECDF.py:74-75 | without interpolation, cell (i*ch + r, j) is data[r][j] when j is a sampled column of scale i, and NaN otherwise |
| MultiScale.MultiScaleKnots | structECDF.py:71-73 | with interpolation, cell (i*ch + r, j) is the interpolant through (idx, data[r][idx]) at column j |
| MultiScale.UnitScaleIsIdentity | structECDF.py:69-75 | scale 1 reproduces the channel, in both modes (interpolated: for an interpolant exact at its knots) |
| MultiScale.InterpolationDensifies | structECDF.py:71-75 | at a sampled column the interpolated and the sparse block agree with the input |
| MultiScale.FillScaleBlock | structECDF.py:72-75 | writes block `output[i*ch:(i+1)*ch]` as the scale block, leaves later rows NaN and earlier rows unchanged |
| MultiScale.Expand | structECDF.py:64-76 | the method's output array is exactly `MultiScaled` of the input, with len(scales)*ch rows |
| MultiWindow.TailStart | structECDF.py:90 | the slice `[-len:]` starts at dim - len, and at 0 for len = 0 |
| MultiWindow.WindowLength | structECDF.py:83 | `int(dim*mw)` is at most dim, and equals dim if and only if mw = 1 |
| MultiWindow.WindowRow | structECDF.py:83-90 | one channel under window factor mw, interpolated or truncated: a row as wide as the input (its cells: WindowKeepsTail, WindowStretch, EmptyWindowKeepsRow) |
| MultiWindow.MultiWindowed | structECDF.py:78-91 | `f_multiwindow` has len(windows)*ch rows of dim columns |
| MultiWindow.MultiWindowBlock | structECDF.py:82-90 | block order follows the list: row i*ch + r is channel r under window factor windows[i] |
| MultiWindow.WindowKeepsTail | structECDF.py:89-90 | without interpolation a non-empty window keeps its last `int(dim*mw)` columns equal to the input, and the columns before them are NaN |
| MultiWindow.EmptyWindowKeepsRow | structECDF.py:83-90 | `int(dim*mw) = 0` copies the whole row, because `[-0:]` selects everything |
| MultiWindow.WindowStretchKnots | structECDF.py:85-87 | the knot row has `int(dim*mw)` strictly increasing entries, as many as the trailing columns, and spans 0..dim-1 from two on |
| MultiWindow.WindowStretch | structECDF.py:85-88 | interpolated, the k-th trailing value lands at the k-th knot column, so the recent part is stretched over the whole window |
| MultiWindow.UnitWindowIsIdentity | structECDF.py:83-90 | window factor 1 reproduces the channel, in both modes |
| MultiWindow.FillWindowBlock | structECDF.py:84-90 | writes block `output[i*ch:(i+1)*ch]` as the window block, leaves later rows NaN and earlier rows unchanged |
| MultiWindow.Truncate | structECDF.py:78-91 | the method's output array is exactly `MultiWindowed` of the input, with len(windows)*ch rows |
| Convolution.FrameLayout | structECDF.py:95-97 | subWinSize, slideSize and n_subWin by their ceilings, with 1 <= slide <= size <= dim and at least one frame |
| Convolution.FrameStart | structECDF.py:107-110 | the chosen frame `[start, start+size)` lies inside the window |
| Convolution.RemainPositive | structECDF.py:103-106 | `window_remain = dim - f*slide` is positive for every f < n_subWin: the `break` is never taken |
| Convolution.TailIffLast | structECDF.py:107-110 | `window_remain > subWinSize` holds exactly when another frame follows, so only the last frame is the tail `[-size:]` |
| Convolution.FrameStartsIncrease | structECDF.py:107-110 | frames start in order |
| Convolution.FramesCoverWindow | structECDF.py:103-110 | every column of the window lies in some frame |
| Convolution.FrameRow | structECDF.py:107-116 | channel c's frame f, interpolated or placed: a row as wide as the input (its cells: FramePlacement, FrameGaps, FrameKnots) |
| Convolution.Convolved | structECDF.py:93-119 | `f_convolution` has n_subWin*ch rows of dim columns |
| Convolution.ConvolvedRow | structECDF.py:101-118 | frame-major order: row f*ch + c is channel c's frame f |
| Convolution.FramePlacement | structECDF.py:115-116 | without interpolation, value k of frame f lands at the k-th sampled column |
| Convolution.FrameGaps | structECDF.py:115-116 | without interpolation, every column that is not sampled is NaN |
| Convolution.FrameKnots | structECDF.py:112-114 | interpolated, value k of frame f appears at the k-th knot column |
| Convolution.FullSubWindowLayout | structECDF.py:95-97 | size ratio 1 gives a single frame as wide as the window, starting at column 0 |
| Convolution.FullFrameRow | structECDF.py:108-116 | a frame as wide as the window reproduces the channel |
| Convolution.FullSubWindowIsIdentity | structECDF.py:93-119 | with size ratio 1 the convolution returns its input |
| Convolution.AsWrittenSparseFrame | structECDF.py:116 | NumPy's reading of `output[f,:,idx_pts] = subframe` raises unless ch equals the frame width |
| Convolution.AsWrittenRejectsThreeChannels | structECDF.py:95-116 | with defaults and dim = 100, a 3-channel input makes the placement as written raise |
| Convolution.AsWrittenTransposes | structECDF.py:116 | with 2 channels and 2-wide frames the placement as written transposes the frame |
| Convolution.FrameBlockRow | structECDF.py:108-116 | row c of frame f's block is channel c's sub-window, interpolated or placed |
| Convolution.WriteFrameRow | structECDF.py:112-116 | writes `output[f, c, :]` as the interpolated or placed frame and changes no other row |
| Convolution.FillChannel | structECDF.py:107-116 | writes row c of frame f's block over the NaN row and changes no other frame |
| Convolution.FillFrame | structECDF.py:107-116 | frame f of the cube becomes the frame's block; later frames stay NaN and earlier ones unchanged |
| Convolution.FillFrames | structECDF.py:103-116 | after the loop, with its `break`, every frame of the cube holds its block |
| Convolution.Convolve | structECDF.py:93-119 | the method's output array is exactly `Convolved` of the input, with n_subWin*ch rows |
| StructEcdf.AfterScales | structECDF.py:53-54 | after the multi-scale stage: len(scales)*ch rows when enabled, the input otherwise |
| StructEcdf.AfterWindows | structECDF.py:55-56 | after the multi-window stage: len(windows) times the rows when enabled |
| StructEcdf.AfterFrames | structECDF.py:57-59 | after the convolution stage: n_subWin times the rows when enabled |
| StructEcdf.Rows | structECDF.py:53-59 | the row count after the enabled stages: the channel count with every stage off, and never fewer rows than channels when the factor lists are non-empty |
| StructEcdf.InterpolableKnots | structECDF.py:72-73 | under `Admissible` and `Interpolable`, every interpolated stage hands `interp1d` at least two strictly increasing knot columns, which it needs to build an interpolant |
| StructEcdf.Pipeline | structECDF.py:53-59 | the matrix before the transpose has `Rows(ch, dim, cfg)` rows of dim columns |
| StructEcdf.NoStageIsIdentity | structECDF.py:53-61 | with every stage disabled the summariser sees the input window itself |
| StructEcdf.Defaults | structECDF.py:28-40 | the default arguments: every stage and interpolation on, scales and windows of three factors in (0, 1] ending with 1, ratios 1/2, ten coefficients |
| StructEcdf.PipelineRow | structECDF.py:53-59 | with all stages on, row f*(W*S*ch) + w*(S*ch) + s*ch + r is frame f of window w of scale s of channel r |
| StructEcdf.UnitConfigIsIdentity | structECDF.py:53-59 | scale 1, window 1 and sub-window ratio 1 reproduce the input through all enabled stages |
| StructEcdf.DefaultsAdmissible | structECDF.py:28-40 | the default arguments suit a window exactly when it has at least 8 samples |
| StructEcdf.DefaultRows | structECDF.py:28-40 | with the defaults and dim >= 8, the summariser sees 27 rows per channel (3 scales x 3 windows x 3 frames) |
| StructEcdf.StructuralEcdf | structECDF.py:53-62 | the feature is `ecdf` applied to the transpose of `Pipeline` of the input, with `n_ecdf_coeff` |

## Left out

- scipy's `interp1d` (`structECDF.py:72-73`, `87-88`, `113-114`) is not part
  of this model. It is a parameter. The model fixes the knots, the knot
  values and the evaluation columns handed to it. Its piecewise-linear
  floating-point arithmetic is not modelled. Identity results assume only
  that it passes through its knots.
- `ecdfRep` (`Hammerla_et_al`) is not part of this model. It is a parameter
  of `StructEcdf.StructuralEcdf`.
- Floating point: factors are exact fractions. `dim*ms`, `np.ceil` and
  `np.linspace` are computed exactly, and rounding is half-to-even on exact
  values. The float computation can differ from this at exact ties or when
  a product such as `dim*0.1` is not representable. The defaults 0.25, 0.5
  and 1 are exact in binary.
- `np.int32`: the index row is not wrapped to 32 bits. Indices are below
  `dim`, so no wrap occurs for windows shorter than 2^31 samples.
- NaN is `None` in an `Option` cell, not an IEEE value. Arithmetic on NaN
  inside the interpolant is part of the interpolant parameter.
- Errors raised by `interp1d` in interpolated mode (fewer than two knots, or
  `[-0:]` pairing `dim` values with no knot) are preconditions, not error
  paths (`MultiScale.Expand`, `MultiWindow.Truncate`, `Convolution.Convolve`,
  `StructEcdf.Interpolable`). The same holds for factors outside (0, 1],
  which the code never checks.
- Convolution.Convolve: it models the evidently intended per-channel
  placement `output[f, c, idx_pts] = subframe[c]`, not NumPy's evaluation of
  line 116 (see Findings). The as-written behaviour is modelled separately by
  `Convolution.AsWrittenSparseFrame`.
- `n_subWin` (`structECDF.py:97`) reads `(dim-subWinSize)/slideSize` as
  Python 3 true division followed by a ceiling (`IndexMath.CeilDiv`). Under
  Python 2 the integer division floors first, and the frame count can be
  one smaller.

## Findings

| source | as written | input that shows it | evidently intended | confidence | as-written member | corrected member |
|---|---|---|---|---|---|---|
| structECDF.py:116 | `output[f,:,idx_pts] = subframe` mixes the integer index `f` and the index array `idx_pts`, separated by a slice. NumPy moves the advanced-index axis first, so the target has shape (subWinSize, ch) while `subframe` has shape (ch, subWinSize). | Non-interpolated mode with the default ratios, `dim = 100` and 3 channels raises a shape error (`subWinSize = 50`). With 2 channels and `subWinSize = 2` channel 0 receives [1, 3] instead of its frame [1, 2]. | Channel c's frame values at the sampled columns of row `output[f, c, :]`, NaN elsewhere | high; not executed | Convolution.AsWrittenTransposes | Convolution.FramePlacement |
