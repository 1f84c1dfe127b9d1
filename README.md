# Canny edge stage of `HW2_HoughTransform.py`, modelled and verified in Dafny

This project models the edge-detection core of `hw2/HW2_HoughTransform.py` in Dafny 4 and proves properties of it. The core has five parts:

- **`shift_pixel`** shifts an image by `n` pixels along one axis and fills the vacated part by repeating the border row or column. It does this by tiling the fill row or column and then assigning a numpy slice into the result.
- **`getGaussianKernel`** builds a normalised Gaussian kernel of side `2*int(3*sigma)+1`.
- **`ConvFilter`** correlates an image with a kernel. For each kernel entry it adds that entry times a doubly shifted copy of the image, which gives border replication at the edges.
- **`doubleThresholding`** classifies gradient magnitudes as non-edge (0), weak (127) or strong (255). It does this with three masked assignments.
- **`edgeTracking`** is the hysteresis loop. Each pass promotes, all at once, every weak pixel whose eight shifted neighbours include a strong one, until a pass changes nothing. The weak pixels that remain then become 0.

Each numpy array becomes a Dafny `array2`. Code that updates arrays step by step is modelled as methods with loops and loop invariants; this covers the tile-and-slice shift, the accumulation of shifted copies, the masked assignments and the `while(True)` loop. The elementary methods state their result entry by entry on the arrays: `Shift.ShiftRows`, `Shift.ShiftColumns`, every method of `Masks`, `Convolution.AddScaled` and `Tracking.MaxInto`. The composite methods are proved against specification functions over `seq<seq<T>>` grids, which `Grids.Snapshot` links to the arrays:
- `Convolution.SumShiftedCopies` and `Convolution.ConvFilter` against `Convolution.CorrelateAt`;
- `Tracking.PromoteWhere` against `Hysteresis.Promote`;
- `Tracking.DropWhere` against `Hysteresis.DropUnlinked`;
- `Tracking.Passes` against `Hysteresis.Settle`;
- `Tracking.EdgeTracking` against `Hysteresis.Track`.

The properties are then proved about those functions:

- shifts clamp at the border;
- the correlation does not flip the kernel, and the identity kernel returns the input unchanged;
- the Gaussian kernel sums to one, is symmetric, and leaves a flat image unchanged;
- the Sobel kernels give zero on a flat image;
- thresholding is an exact three-way classification;
- edge tracking terminates, changes only weak pixels, and promotes a weak pixel exactly when a chain of 8-connected weak pixels links it to a strong one.

Python exceptions are modelled as `Err` outcomes:
- `IndexError` when a shift reads the fill row or column of an empty axis. That is index −1 for `n >= 0` and index 0 for `n < 0` (lines 32 and 35);
- numpy's broadcast `ValueError` when a slice assignment does not fit (lines 33 and 36);
- `NotImplementedError` for an axis other than 0 or 1 (line 38).

Modules, one per file: `Grids`, `Shift`, `Convolution`, `Gaussian`, `Masks`, `Thresholding`, `Hysteresis` (the specification of edge tracking) and `Tracking` (the edge-tracking loop itself).

Behaviour of the code worth knowing, which the model keeps:
- `shift_pixel` succeeds exactly for the offsets in `Shift.ShiftDefined` (lines 33 and 36). These are the offsets with `|n| <= size`, and also those with `n >= 2*size` or `n <= 1 - 2*size`. For the latter, both slices are empty, or a single source row broadcasts into an empty target.
- `getGaussianKernel` does not check `sigma` (line 53). For `int(3*sigma) < 0` the kernel is empty, and for `-1/3 < sigma < 0` it is 1×1.
- `doubleThresholding` does not check that `threshold1 <= threshold2` (lines 139-141). The masks are assigned in order, so a magnitude `v` with `threshold2 <= v < threshold1` becomes 255.
- `ConvFilter` accepts kernels of even size (lines 67-69). Its offsets then run from `-size/2` to `size/2 - 1`.
- The Gaussian kernel built on lines 54-55 is unchanged by flipping its rows, flipping its columns, or transposing it.

## Model

| member | source | states |
|---|---|---|
| Grids.Clamp | hw2/HW2_HoughTransform.py:32-36 | the index border replication reads is a valid index, and equals the position itself inside the axis |
| Grids.ClampIsNearest | hw2/HW2_HoughTransform.py:32-36 | no valid index is nearer to the requested position than the clamped one |
| Grids.CopyGrid | hw2/HW2_HoughTransform.py:145 | `Im.copy()` is a fresh array of the same shape with the same contents |
| Grids.SumScaled | hw2/HW2_HoughTransform.py:59 | dividing every entry of a row by `t` divides its sum by `t` |
| Grids.GridSumScaled | hw2/HW2_HoughTransform.py:59 | dividing every entry of a grid by `t` divides `np.sum` of the grid by `t` |
| Grids.GridSumPositive | hw2/HW2_HoughTransform.py:59 | a grid of positive entries has a positive sum, so the normalisation never divides by zero |
| Shift.SliceIndex | hw2/HW2_HoughTransform.py:33 | Python's normalisation of a slice bound always gives an index within the sequence |
| Shift.SliceAssignFitsIff | hw2/HW2_HoughTransform.py:33 | numpy accepts the slice assignment (equal lengths or a one-row source) exactly for the offsets `ShiftDefined` admits |
| Shift.ShiftSourceIsClamp | hw2/HW2_HoughTransform.py:32-33 | after the tile and the slice assignment, position `y` holds input row `Clamp(y + n)` |
| Shift.ShiftRows | hw2/HW2_HoughTransform.py:31-33 | raises exactly when the offset is not admitted (`IndexError` on an empty axis, otherwise a broadcast error); otherwise a fresh array of the same shape with `out[y][x] == in[Clamp(y+n)][x]` |
| Shift.ShiftColumns | hw2/HW2_HoughTransform.py:34-36 | as `ShiftRows`, along the columns: `out[y][x] == in[y][Clamp(x+n)]` |
| Shift.ShiftPixel | hw2/HW2_HoughTransform.py:18-40 | axis 0 and 1 shift with border clamping, any other axis raises `NotImplementedError`, shape is kept, shift 0 returns equal contents, and the input is not modified |
| Shift.ShiftBoth | hw2/HW2_HoughTransform.py:70 | `shift_pixel(shift_pixel(I, 0, i), 1, j)` reads the input at the clamped position (y+i, x+j), and raises exactly when one of the two shifts does |
| Convolution.AddScaled | hw2/HW2_HoughTransform.py:76 | adds a weighted array to the accumulator entry by entry and changes nothing else |
| Convolution.AddShifted | hw2/HW2_HoughTransform.py:70-76 | adds the kernel weight times the doubly shifted image, i.e. the weight times the border-replicated tap at (y+i, x+j) |
| Convolution.KernelRowStep | hw2/HW2_HoughTransform.py:76 | one more weighted tap extends the partial correlation sum by one kernel column |
| Convolution.CorrelateAt | hw2/HW2_HoughTransform.py:67-76 | the correlation sum at (y, x); a 1×1 kernel scales the pixel itself |
| Convolution.AccumulateTap | hw2/HW2_HoughTransform.py:69-70 | the inner loop body keeps the accumulator equal to the partial correlation sum, and fails exactly when a shift fails |
| Convolution.AccumulateRow | hw2/HW2_HoughTransform.py:67-71 | the inner loop over one kernel row extends the partial sums by that row, and fails exactly when one of its shifts fails |
| Convolution.SumShiftedCopies | hw2/HW2_HoughTransform.py:64-76 | the loops of `ConvFilter` produce a new array holding the correlation at every pixel, or fail exactly when some required shift fails |
| Convolution.ConvFilter | hw2/HW2_HoughTransform.py:62-78 | succeeds exactly when every row and column shift it needs succeeds; then the output is a new array of the image's shape, and pixel (y, x) is the sum of `G[a][b] * I[clamp(y+a-hY)][clamp(x+b-hX)]` |
| Convolution.CorrelateUnitKernel | hw2/HW2_HoughTransform.py:67-76 | a kernel with a single 1 at (a0, b0) reads the image at offset (a0-hY, b0-hX): correlation, not flipped convolution |
| Convolution.CorrelateIdentity | hw2/HW2_HoughTransform.py:62-78 | the kernel with 1 at its centre and 0 elsewhere returns every pixel unchanged |
| Convolution.FlatKernelRow | hw2/HW2_HoughTransform.py:76 | on a flat image every tap of a kernel row reads the same value, so the row contributes each entry times that value |
| Convolution.FlatKernelRows | hw2/HW2_HoughTransform.py:76 | on a flat image the partial correlation sum is each kernel entry times the image value |
| Convolution.ScaledSumIs | hw2/HW2_HoughTransform.py:76 | multiplying every entry of a row by `c` multiplies its sum by `c` |
| Convolution.GridScaledSumIs | hw2/HW2_HoughTransform.py:76 | multiplying every entry of a kernel by `c` multiplies its sum by `c` |
| Convolution.CorrelateFlat | hw2/HW2_HoughTransform.py:62-78 | a flat image of value c gives c times the sum of the kernel at every pixel |
| Convolution.SobelFlatIsZero | hw2/HW2_HoughTransform.py:84-85 | both Sobel kernels give a zero gradient everywhere on a flat image |
| Gaussian.Trunc | hw2/HW2_HoughTransform.py:53 | Python's `int()` truncates toward zero: floor for non-negative values, ceiling for negative ones |
| Gaussian.HalfSize | hw2/HW2_HoughTransform.py:53 | `halfSize = int(3*sigma)`: the largest integer not above 3σ for σ >= 0, the smallest not below it for σ < 0 |
| Gaussian.SquareIsProduct | hw2/HW2_HoughTransform.py:54 | the squared distance used for the kernel is `n*n` |
| Gaussian.WeightGrid | hw2/HW2_HoughTransform.py:54-57 | the unnormalised kernel is a square of side 2h+1 whose entry (i, j) is the weight of the squared distance from the centre |
| Gaussian.WeightTotalPositive | hw2/HW2_HoughTransform.py:57-59 | the unnormalised weights have a positive total |
| Gaussian.Normalise | hw2/HW2_HoughTransform.py:59 | dividing by the total keeps the shape and divides every entry |
| Gaussian.NormaliseKeepsShape | hw2/HW2_HoughTransform.py:59 | dividing by the total keeps an n×m grid n×m |
| Gaussian.GaussianKernel | hw2/HW2_HoughTransform.py:53-59 | empty when `int(3*sigma) < 0`, otherwise a square of side `2*int(3*sigma)+1` equal to the normalised kernel of that half size |
| Gaussian.KernelOfHalfSize | hw2/HW2_HoughTransform.py:54-59 | the normalised kernel of half size h is a square of side 2h+1 |
| Gaussian.KernelEntry | hw2/HW2_HoughTransform.py:54-59 | entry (i, j) is the weight of its squared distance from the centre divided by the total weight |
| Gaussian.KernelNormalised | hw2/HW2_HoughTransform.py:59 | the kernel sums to exactly 1 |
| Gaussian.KernelPositive | hw2/HW2_HoughTransform.py:57-59 | every entry is positive |
| Gaussian.KernelRadial | hw2/HW2_HoughTransform.py:55-57 | entries at equal squared distance from the centre are equal |
| Gaussian.KernelRowFlip | hw2/HW2_HoughTransform.py:54-55 | the kernel is unchanged when flipped upside down |
| Gaussian.KernelColumnFlip | hw2/HW2_HoughTransform.py:54-55 | the kernel is unchanged when flipped left to right |
| Gaussian.KernelTranspose | hw2/HW2_HoughTransform.py:54-55 | the kernel is unchanged when transposed |
| Gaussian.KernelPeaksAtCentre | hw2/HW2_HoughTransform.py:57 | for a weight that does not grow with distance (as `exp(-d/2σ²)` does not), the centre entry is the largest |
| Gaussian.GaussianSide | hw2/HW2_HoughTransform.py:53-54 | for sigma >= 0 the side is `2*floor(3*sigma)+1`: odd, and at least 3 once 3*sigma >= 1 |
| Gaussian.KernelPreservesFlat | hw2/HW2_HoughTransform.py:59 | Gaussian smoothing leaves a flat image unchanged |
| Masks.Below | hw2/HW2_HoughTransform.py:139 | the mask `Im < t` |
| Masks.AtLeast | hw2/HW2_HoughTransform.py:140-141 | the mask `Im >= t` |
| Masks.EqualTo | hw2/HW2_HoughTransform.py:148 | the mask `result == v` |
| Masks.LogicalAnd | hw2/HW2_HoughTransform.py:156 | `np.logical_and` of two masks |
| Masks.Invert | hw2/HW2_HoughTransform.py:161 | `np.invert` of a mask |
| Masks.Any | hw2/HW2_HoughTransform.py:157 | `np.any`: true exactly when some entry of the mask is set |
| Masks.AssignWhere | hw2/HW2_HoughTransform.py:159 | `a[mask] = v` sets exactly the masked entries and keeps the others |
| Thresholding.Classify | hw2/HW2_HoughTransform.py:139-141 | the class is 0, 127 or 255; it is 255 iff v >= t2, 127 iff t1 <= v < t2, and 0 iff v is below both thresholds |
| Thresholding.ClassifyOrdered | hw2/HW2_HoughTransform.py:139-141 | with t1 <= t2 a pixel is a non-edge exactly when it is below t1 |
| Thresholding.EqualThresholdsNoWeak | hw2/HW2_HoughTransform.py:140 | equal thresholds produce no weak pixels |
| Thresholding.ClassifyMonotone | hw2/HW2_HoughTransform.py:139-141 | a larger magnitude never gets a lower class |
| Thresholding.DoubleThresholding | hw2/HW2_HoughTransform.py:136-142 | a fresh uint8 array of the input's shape holding the class of every magnitude |
| Hysteresis.OffsetIndex | hw2/HW2_HoughTransform.py:150-152 | each of the eight non-zero offsets in {-1,0,1}² is one of the shifted copies |
| Hysteresis.Continuity | hw2/HW2_HoughTransform.py:155 | `continuity` at (y, x) holds exactly when one of the eight shifted copies holds 255 there |
| Hysteresis.Promotable | hw2/HW2_HoughTransform.py:156 | `weakToStrong` at (y, x) holds exactly when the pixel is weak and one of its true 8-neighbours is strong |
| Hysteresis.AnyPromotion | hw2/HW2_HoughTransform.py:157 | `np.any(weakToStrong)` holds exactly when the pass would change the grid |
| Hysteresis.PromoteChangesIff | hw2/HW2_HoughTransform.py:156-159 | a pass changes the grid exactly when some pixel is promotable |
| Hysteresis.Promote | hw2/HW2_HoughTransform.py:156-159 | one pass keeps the shape and turns exactly the `weakToStrong` pixels, decided on the old grid, to 255 |
| Hysteresis.Settle | hw2/HW2_HoughTransform.py:147-159 | the loop's passes keep the shape, until a pass promotes nothing |
| Hysteresis.DropUnlinked | hw2/HW2_HoughTransform.py:161 | after the loop, weak pixels without a strong shifted neighbour become 0 and everything else is kept |
| Hysteresis.Track | hw2/HW2_HoughTransform.py:144-163 | `edgeTracking` keeps the shape of a non-empty image |
| Hysteresis.CountRowShrinks | hw2/HW2_HoughTransform.py:159 | turning weak pixels of a row into something else lowers its count of weak pixels |
| Hysteresis.CountWeakShrinks | hw2/HW2_HoughTransform.py:159 | the same for a whole grid |
| Hysteresis.PromoteDecreasesWeak | hw2/HW2_HoughTransform.py:147-159 | a pass that promotes something removes a weak pixel, so the `while(True)` loop terminates |
| Hysteresis.ClampedNeighbourIsAdjacentOrSelf | hw2/HW2_HoughTransform.py:150-153 | a border-clamped shift by one of the eight offsets reads a true 8-neighbour or the pixel itself |
| Hysteresis.MaxUpToIsMax | hw2/HW2_HoughTransform.py:155 | `np.max` over the copies bounds every copy's value and equals one of them |
| Hysteresis.NeighbourSeen | hw2/HW2_HoughTransform.py:150-153 | every true 8-neighbour is read by one of the eight shifted copies |
| Hysteresis.ContinuitySeesNeighbour | hw2/HW2_HoughTransform.py:153-155 | for a pixel that is not strong, `continuity` comes from a strong true 8-neighbour |
| Hysteresis.ContinuityIff | hw2/HW2_HoughTransform.py:150-155 | for a pixel that is not strong, `continuity` holds exactly when some true 8-neighbour is strong |
| Hysteresis.ChainExtend | hw2/HW2_HoughTransform.py:156-159 | a weak pixel next to the start of a weak chain extends the chain |
| Hysteresis.ChainTail | hw2/HW2_HoughTransform.py:156-159 | the tail of a weak chain is a weak chain |
| Hysteresis.PromotedIsLinked | hw2/HW2_HoughTransform.py:156-159 | a pixel a pass promotes is linked by a weak chain to a strong pixel of the input |
| Hysteresis.PromoteKeeps | hw2/HW2_HoughTransform.py:159 | a pass changes only weak pixels, into strong ones, and every promoted pixel is linked to a strong input pixel |
| Hysteresis.SettleKeeps | hw2/HW2_HoughTransform.py:147-159 | the whole loop keeps both facts and stops at a grid in which no pixel can be promoted |
| Hysteresis.StableTouchingIsNotWeak | hw2/HW2_HoughTransform.py:157-158 | when the loop stops, no weak pixel touches a strong one |
| Hysteresis.StableChain | hw2/HW2_HoughTransform.py:147-159 | when the loop stops, the start of every weak input chain that reaches a strong pixel is strong |
| Hysteresis.TrackOutcome | hw2/HW2_HoughTransform.py:144-163 | non-weak pixels keep their value (so the strong set only grows), weak pixels end as 0 or 255, and no weak pixel remains |
| Hysteresis.TrackLinksExactly | hw2/HW2_HoughTransform.py:144-163 | a weak input pixel ends strong exactly when a chain of 8-connected weak input pixels leads from it to a pixel next to a strong input pixel |
| Tracking.MaxInto | hw2/HW2_HoughTransform.py:155 | the element-wise maximum of two arrays, stored into the first |
| Tracking.FoldNeighbour | hw2/HW2_HoughTransform.py:153-155 | folding one more shifted copy extends the running maximum by that copy |
| Tracking.NeighbourMaxGrid | hw2/HW2_HoughTransform.py:149-155 | raises `IndexError` exactly on an empty image; otherwise every pixel holds the maximum of its eight border-clamped neighbours |
| Tracking.PassMasks | hw2/HW2_HoughTransform.py:148-155 | `isWeak` and `continuity` for the current grid |
| Tracking.PromoteWhere | hw2/HW2_HoughTransform.py:159 | `result[weakToStrong] = 255` performs one pass of `Promote` |
| Tracking.DropWhere | hw2/HW2_HoughTransform.py:161 | the final masked assignment performs `DropUnlinked` |
| Tracking.Pass | hw2/HW2_HoughTransform.py:147-159 | one iteration breaks exactly when nothing is promotable, and otherwise promotes |
| Tracking.Passes | hw2/HW2_HoughTransform.py:147-159 | the loop ends with the grid `Settle` describes and the masks of its last pass |
| Tracking.EdgeTracking | hw2/HW2_HoughTransform.py:144-163 | raises `IndexError` exactly on an empty image; otherwise returns a fresh array equal to `Track` of the input, and leaves the input unchanged |

## Left out

- `EdgeDetection` (apart from its two Sobel kernels), `nonMaximumSuppresion`, the Hough transform functions, `Canny`, `main` and the module-level parameters are not part of this model.
- Floating point is modelled by exact reals. This leaves out rounding, overflow and NaN. The correlation's order of summation does not matter for reals, and the "sum is 1" property holds exactly rather than to within rounding.
- Gaussian.GaussianKernel: the exponential is not modelled. The caller supplies `weight`, which maps a squared distance to a positive unnormalised entry (for the source, `exp(-0.5*d/sigma²)`). This leaves out `sigma == 0`, where the source divides by zero and produces NaN.
- Gaussian.KernelPeaksAtCentre: requires the weight not to grow with distance. This is true of the exponential but is not derived from it.
- Convolution.ConvFilter: requires a kernel with at least one row and one column. With an empty kernel the source raises no error but returns an array of a different shape, and the model does not describe it.
- Convolution.ConvFilter: states whether the filter raises, not which exception the first failing shift raises.
- Convolution.SumShiftedCopies: the source first builds the list of all shifted copies and then sums `toConv*G`. The model adds each weighted copy as it is produced. For exact reals the result is the same.
- Tracking.NeighbourMaxGrid: the source stacks the eight copies with `np.asarray` and takes `np.max` along the stack. The model folds them in the same order with an element-wise maximum, which gives the same value.
- Tracking.EdgeTracking: the input is taken to be a uint8 edge map (`Byte` entries), as `doubleThresholding` produces. numpy arrays of other dtypes are not modelled.
- Thresholding.DoubleThresholding: a NaN magnitude fails all three comparisons in the source and stays 0. Reals have no NaN, so this case is not modelled.
- Aliasing between the input and the output arrays does not arise: every method that writes allocates its own result (`Im.copy()`, `np.tile`, `np.zeros_like`). Views into numpy arrays are not modelled.
