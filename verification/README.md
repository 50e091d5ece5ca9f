# Picture: pixel-grid transforms and resampling, in Dafny

This project models the single-channel `Picture` of the fingerprint-analysis
infrastructure. A `Picture` is a grid of `y_length` rows by `x_length`
columns of grey intensities, read with `get_intensity(row, col)` and
written with `set_intensity(row, col, v)`. The model covers:

- the index-permutation transforms: the mirror about the vertical axis
  (`symmetry_wrt_y`), the mirror about the horizontal axis
  (`symmetry_wrt_x`), the transpose (`diagonal_symmetry_top_to_bottom`) and
  the anti-diagonal reflection (`diagonal_symmetry_bottom_to_top`);
- the grid folds `maximum_intensity` and `minimum_intensity`, and the
  min-max normalisation `rescale_color`;
- the three rotations (`cast_rotation_polar`, `nn_rotation_polar`,
  `bilinear_rotation_polar`), the point sampler `bilinear_interpolation`, and
  `swirl`.

The project has five modules:

- `Pictures` (`pictures.dfy`) holds the grid, `GetIntensity`,
  `SetIntensity`, `Tabulate`, `std::max`/`std::min` and two sign facts about
  products. `Tabulate` builds the picture whose cell at row `j`, column `i`
  is `f(i, j)`. The same file holds `Wrappers` with `Option`.
- `Symmetry` (`symmetry.dfy`) holds the mirrors and reflections. Each is a
  pure function and, where the code loops, a method that follows the loop.
- `Intensity` (`intensity.dfy`) holds the folds and the rescale.
- `Sampling` (`sampling.dfy`) holds the per-pixel policies: cast,
  nearest-of-four-corners and bilinear. The last two come in two versions:
  one with the bounds test as the code writes it, and one with a corrected
  test that refuses exactly the points where the code would read a missing
  cell.
- `Rotations` (`rotations.dfy`) holds the shared render loop, the three
  rotations and the swirl.

Intensities are real numbers. The trigonometry that maps a destination pixel
back to its source point is a function parameter:

- `turn` rotates an integer offset from the centre.
- `rotate` is the swirl's point rotation.
- `norm` is the vector length.

What depends on it is stated for every such parameter. Identities such as
rotating by nothing are stated for the exact turn.

On these points the model follows the code exactly:

- For a value outside [0,1], `set_intensity` prints a diagnostic and
  writes anyway; its own lines neither reject nor clamp. `SetIntensity`
  returns the new picture with a `warned` flag.
- The picture constructor `Picture(x_length, y_length)` does not zero the
  grid. The render loop starts from an arbitrary `canvas` and is proved to
  overwrite every cell.
- Both dimensions may be 0; the default constructor makes a 0×0 picture.
- The bilinear short-circuit for an integral coordinate reads the cell at
  the coordinates converted with `(int)`, that is truncated, not rounded.
  Past the bounds test the coordinates are non-negative, so this is the floor.
- A swirl radius of 0 or less is not refused. The gate `dist < radius` is
  then false everywhere, and the swirl copies the picture.

## Model

| member | source | states |
|---|---|---|
| `Pictures.GetIntensity` | infra/Project_Infra/src/Picture.cpp:41-43 | reading a cell of a normalised picture gives a value in [0,1] |
| `Pictures.ReadAfterWrite` | infra/Project_Infra/src/Picture.cpp:41-50 | a read after `set_intensity` sees the written value at the written cell and the old value at every other cell |
| `Pictures.Max` | infra/Project_Infra/src/Picture.cpp:107 | `std::max` is at least both arguments and is one of them |
| `Pictures.Min` | infra/Project_Infra/src/Picture.cpp:117 | `std::min` is at most both arguments and is one of them |
| `Pictures.SetIntensity` | infra/Project_Infra/src/Picture.cpp:45-50 | the write changes exactly cell (i, j) to v and keeps the dimensions and every other cell; the diagnostic is raised iff v is outside [0,1], and the write happens either way |
| `Symmetry.MirrorY` | infra/Project_Infra/src/Picture.cpp:60-71 | the vertical-axis mirror keeps both dimensions and puts input cell (j, i) at (j, W-1-i) |
| `Symmetry.SymmetryWrtY` | infra/Project_Infra/src/Picture.cpp:60-71 | the clone-then-overwrite loop yields exactly the mirror image; nothing of the clone survives |
| `Symmetry.MirrorX` | infra/Project_Infra/src/Picture.cpp:74-84 | the horizontal-axis mirror keeps both dimensions and puts input cell (j, i) at (H-1-j, i) |
| `Symmetry.SymmetryWrtX` | infra/Project_Infra/src/Picture.cpp:74-84 | the clone-then-overwrite loop yields exactly the horizontal mirror |
| `Symmetry.Transpose` | infra/Project_Infra/src/Picture.cpp:85-88 | `diagonal_symmetry_top_to_bottom` swaps the dimensions and puts cell (r, c) at (c, r) |
| `Symmetry.AntiTranspose` | infra/Project_Infra/src/Picture.cpp:92-95 | the anti-diagonal reflection swaps the dimensions and puts cell (r, c) at (W-1-c, H-1-r) |
| `Symmetry.DiagonalSymmetryBottomToTop` | infra/Project_Infra/src/Picture.cpp:92-95 | transpose, then the vertical mirror, then the horizontal mirror, gives the anti-diagonal reflection |
| `Symmetry.AntiTransposeIsComposite` | infra/Project_Infra/src/Picture.cpp:92-95 | the three-step composite equals the directly defined anti-diagonal reflection |
| `Symmetry.MirrorYInvolution` | infra/Project_Infra/src/Picture.cpp:66 | mirroring about the vertical axis twice returns the original picture |
| `Symmetry.MirrorXInvolution` | infra/Project_Infra/src/Picture.cpp:79 | mirroring about the horizontal axis twice returns the original picture |
| `Symmetry.TransposeInvolution` | infra/Project_Infra/src/Picture.cpp:85-88 | transposing twice returns the original picture |
| `Symmetry.AntiTransposeInvolution` | infra/Project_Infra/src/Picture.cpp:92-95 | the anti-diagonal reflection is its own inverse |
| `Symmetry.MirrorsCommute` | infra/Project_Infra/src/Picture.cpp:60-84 | the two mirrors commute |
| `Intensity.LoopReadsInBoundsIffSquare` | infra/Project_Infra/src/Picture.cpp:103-121 | the fold loops, which use the column bound for the row index, stay inside the grid iff the picture is square or has no cell |
| `Intensity.MaximumIntensity` | infra/Project_Infra/src/Picture.cpp:103-111 | the result is at least 0 and at least every cell, and it is 0 or the value of some cell |
| `Intensity.MinimumIntensity` | infra/Project_Infra/src/Picture.cpp:113-121 | the result is at most 1 and at most every cell, and it is 1 or the value of some cell |
| `Intensity.NormaliseFacts` | infra/Project_Infra/src/Picture.cpp:146 | a value in [min, max] maps into [0,1], scaling back by the range recovers it, min maps to 0 and max to 1 |
| `Intensity.NormaliseMonotone` | infra/Project_Infra/src/Picture.cpp:146 | the map v ↦ (v-min)/(max-min) is strictly increasing |
| `Intensity.RescaleCells` | infra/Project_Infra/src/Picture.cpp:144-148 | every rescaled cell is in [0,1], the minimum becomes 0 and the maximum becomes 1, scaling back recovers the cell, and the dimensions are kept |
| `Intensity.RescaleColor` | infra/Project_Infra/src/Picture.cpp:139-149 | the assertion fails (None) iff maximum equals minimum; otherwise the dimensions are kept, every cell lands in [0,1], a cell holding the minimum becomes 0 and one holding the maximum becomes 1, and each cell times (max-min) plus min is the original cell |
| `Intensity.RescalePreservesOrder` | infra/Project_Infra/src/Picture.cpp:146 | two cells compare the same way before and after the rescale, in both directions |
| `Intensity.RescaleReachesBothEnds` | infra/Project_Infra/src/Picture.cpp:139-149 | on a normalised non-empty picture some cell becomes 0 and some becomes 1 |
| `Intensity.ExtremesOfStretched` | infra/Project_Infra/src/Picture.cpp:103-121 | a normalised picture containing 0 and 1 has minimum 0 and maximum 1 |
| `Intensity.RescaleStretchedIsIdentity` | infra/Project_Infra/src/Picture.cpp:139-149 | rescaling a picture already stretched to [0,1] returns it unchanged |
| `Intensity.RescaleIdempotent` | infra/Project_Infra/src/Picture.cpp:139-149 | rescaling a normalised picture twice gives the same picture as rescaling it once, with or without cells |
| `Intensity.StretchedRescaleIsIdentity` | infra/Project_Infra/src/Picture.cpp:139-149 | a rescaled picture with at least one cell rescales to itself |
| `Intensity.RescaledIsNormalised` | infra/Project_Infra/src/Picture.cpp:139-149 | the rescaled picture is normalised and, having the original's shape, its fold loops stay in bounds |
| `Intensity.ContainsBothEndsIsStretched` | infra/Project_Infra/src/Picture.cpp:103-121 | a normalised picture in which some cell is 0 and some cell is 1 has minimum 0 and maximum 1 |
| `Intensity.EmptyRescaleIsIdentity` | infra/Project_Infra/src/Picture.cpp:103-149 | a picture without cells has minimum 1 and maximum 0, the folds' initial values, and rescales to itself |
| `Sampling.Trunc` | infra/Project_Infra/src/PictureRotations.cpp:170 | the `(int)` conversion is the floor of a non-negative value and the ceiling of a negative one |
| `Sampling.CastSample` | infra/Project_Infra/src/PictureRotations.cpp:36-41 | a source pixel in the picture gives its intensity, any other gives 1.0, and a normalised picture gives a value in [0,1] |
| `Sampling.NearestCorner` | infra/Project_Infra/src/PictureRotations.cpp:79-98 | the chosen corner is one of (xf,yf), (xf,yc), (xc,yf), (xc,yc); it is no farther than any corner and strictly closer than every corner before it in that order |
| `Sampling.NearestCornerRoundsHalfDown` | infra/Project_Infra/src/PictureRotations.cpp:79-98 | the tie-break order makes the chosen corner the per-axis rounding of the source point with halves going down |
| `Sampling.CornersOnGrid` | infra/Project_Infra/src/PictureRotations.cpp:72-75 | every floor/ceil corner of a point within [0, W-1]×[0, H-1] is a pixel of the picture |
| `Sampling.NearestOnGrid` | infra/Project_Infra/src/PictureRotations.cpp:70-98 | a point in [0, W-0.5]×[0, H-0.5] has its nearest corner in the picture |
| `Sampling.NearestSample` | infra/Project_Infra/src/PictureRotations.cpp:70-102 | a point in [0, W-0.5]×[0, H-0.5] gives the cell at its half-down rounding, any other point gives 1.0, and a normalised picture gives a value in [0,1] |
| `Sampling.BilinearCore` | infra/Project_Infra/src/PictureRotations.cpp:164-178 | for a point that passes the code's test, when either coordinate is integral the result is the lattice value at the floored coordinates, with no blending |
| `Sampling.BilinearIsWeightedAverage` | infra/Project_Infra/src/PictureRotations.cpp:173-177 | off the lattice, xc = xf+1 and yc = yf+1, and the blend is the four corners weighted by (1-tx)(1-ty), tx(1-ty), (1-tx)ty and tx·ty, with tx and ty in (0,1) |
| `Sampling.BilinearWithinCorners` | infra/Project_Infra/src/PictureRotations.cpp:139-148 | the blended value lies between the least and the greatest of the four corner intensities |
| `Sampling.BilinearStaysInRange` | infra/Project_Infra/src/PictureRotations.cpp:169-178 | on a normalised picture the unblended read and the blend of the corners both give a normalised value |
| `Sampling.BilinearInterpolation` | infra/Project_Infra/src/PictureRotations.cpp:162-184 | 0 where the code's test fails or a blend would need a missing corner; the lattice value at the floored coordinates whenever the code's test passes and a coordinate is integral; a value in [0,1] for a normalised picture |
| `Sampling.BilinearSample` | infra/Project_Infra/src/PictureRotations.cpp:127-155 | 1.0 where the code's test fails or a blend would need a missing corner; the lattice value at the floored coordinates whenever the code's test passes and a coordinate is integral; a value in [0,1] for a normalised picture |
| `Sampling.SourceGuardWidens` | infra/Project_Infra/src/PictureRotations.cpp:163 | both corrected tests imply the written test `x < x_length`, a point within [0, W-1]×[0, H-1] passes both, and the written test admits beyond that exactly the points past the last column or row |
| `Sampling.BilinearAsWrittenFailsExactly` | infra/Project_Infra/src/PictureRotations.cpp:163-176 | as written, the blend reads a missing cell iff neither coordinate is integral and the point lies past the last column or row |
| `Sampling.NearestAsWrittenFailsExactly` | infra/Project_Infra/src/PictureRotations.cpp:70-98 | as written, the nearest-corner read misses the grid iff x > W-0.5 or y > H-0.5 |
| `Sampling.BilinearReadsPastTheEdge` | infra/Project_Infra/src/PictureRotations.cpp:163-176 | on a 1×1 picture the point (0.5, 0.5) passes the written test and the blend reads column 1 and row 1 |
| `Sampling.NearestReadsPastTheEdge` | infra/Project_Infra/src/PictureRotations.cpp:70-98 | on a 1×1 picture the point (0.75, 0) passes the written test and the nearest corner is column 1 |
| `Sampling.CoreAsWrittenAgrees` | infra/Project_Infra/src/PictureRotations.cpp:163-178 | for a point that passes the corrected bilinear test, the blend as written reads only existing cells and equals the corrected blend |
| `Sampling.AsWrittenAgreesWithCorrected` | infra/Project_Infra/src/PictureRotations.cpp:70-184 | for every point, each of the three samplers as written either reads only existing cells and gives the corrected value, or reads a missing cell where the corrected sampler gives its sentinel |
| `Rotations.Round` | infra/Project_Infra/src/PictureRotations.cpp:32-33 | C `round` lands within one half of its argument, and a half-way value goes away from zero: up when positive, down when negative |
| `Rotations.CastSourceNearRealSource` | infra/Project_Infra/src/PictureRotations.cpp:22-33 | the rounded source pixel of the cast rotation lies within half a pixel, on each axis, of the real source point the other rotations sample |
| `Rotations.RealSourceFixedIffTurnFixed` | infra/Project_Infra/src/PictureRotations.cpp:56-67 | the real source point is the destination pixel itself iff the turn leaves the pixel's offset from the centre in place |
| `Rotations.Render` | infra/Project_Infra/src/PictureRotations.cpp:18-44 | the column-then-row loop writes every cell (j, i) with f(i, j), whatever the fresh picture held |
| `Rotations.CastRotated` | infra/Project_Infra/src/PictureRotations.cpp:17-45 | each pixel holds the source cell at its rounded back-mapped pixel when that is in the picture, else 1.0; dimensions are kept and normalised pictures stay normalised |
| `Rotations.CastRotationPolar` | infra/Project_Infra/src/PictureRotations.cpp:17-45 | the loop computes the cast rotation for any initial canvas |
| `Rotations.NearestRotated` | infra/Project_Infra/src/PictureRotations.cpp:51-106 | each pixel holds the cell at the half-down rounding of its source point when the source point lies in [0, W-0.5]×[0, H-0.5], else 1.0; dimensions are kept and normalised pictures stay normalised |
| `Rotations.NnRotationPolar` | infra/Project_Infra/src/PictureRotations.cpp:51-106 | the loop computes the nearest-corner rotation for any initial canvas |
| `Rotations.BilinearRotated` | infra/Project_Infra/src/PictureRotations.cpp:108-159 | each pixel holds the bilinear sample at its source point; dimensions are kept and normalised pictures stay normalised |
| `Rotations.BilinearRotationPolar` | infra/Project_Infra/src/PictureRotations.cpp:108-159 | the loop computes the bilinear rotation for any initial canvas |
| `Rotations.PoliciesAgreeAtLattice` | infra/Project_Infra/src/PictureRotations.cpp:70-102 | at an integer source point the nearest-corner and bilinear policies read the same value as the cast policy, inside the picture and out |
| `Rotations.RotationsAgreeOnLatticeTurns` | infra/Project_Infra/src/PictureRotations.cpp:17-159 | when the turn maps integer offsets to integer offsets, the three rotations produce the same picture |
| `Rotations.NoTurnIsIdentity` | infra/Project_Infra/src/PictureRotations.cpp:19-33 | with the exact zero turn every rotation returns the input picture |
| `Rotations.HalfTurnSource` | infra/Project_Infra/src/PictureRotations.cpp:22-33 | under an exact half turn pixel (i, j) comes from its reflection through the centre |
| `Rotations.HalfTurnPixel` | infra/Project_Infra/src/PictureRotations.cpp:36-41 | a pixel whose cast source is its reflection through the middle pixel holds the cell the double mirror puts there |
| `Rotations.HalfTurnIsDoubleMirror` | infra/Project_Infra/src/PictureRotations.cpp:17-45 | an exact half turn about the middle pixel of an odd-sized picture equals the two axis mirrors combined |
| `Rotations.QuarterTurnSource` | infra/Project_Infra/src/PictureRotations.cpp:22-33 | under an exact quarter turn about a centre on the diagonal pixel (i, j) comes from pixel (2cx-j, i) |
| `Rotations.QuarterTurnPixel` | infra/Project_Infra/src/PictureRotations.cpp:36-41 | a pixel (i, j) whose cast source is (W-1-j, i) holds the cell the transpose-then-mirror puts there |
| `Rotations.QuarterTurnIsTransposeMirror` | infra/Project_Infra/src/PictureRotations.cpp:17-45 | an exact quarter turn about the middle pixel of an odd-sized square picture equals the transpose followed by the horizontal mirror |
| `Rotations.SwirlAmount` | infra/Project_Infra/src/PictureRotations.cpp:192 | inside the disc the twist amount lies in (0,1], and it is 1 exactly at the centre |
| `Rotations.Swirled` | infra/Project_Infra/src/PictureRotations.cpp:186-204 | pixels at distance at least the radius keep their intensity; those inside take the point-bilinear value at their turned position; dimensions are kept and normalised pictures stay normalised |
| `Rotations.Swirl` | infra/Project_Infra/src/PictureRotations.cpp:186-204 | the loop computes the swirl for any initial canvas |
| `Rotations.SwirlDiscIsIntegerDisc` | infra/Project_Infra/src/PictureRotations.cpp:190-191 | with the Euclidean norm, a pixel is swirled iff the radius is positive and (cx-i)²+(cy-j)² < radius² |
| `Rotations.SwirlEmptyDiscIsIdentity` | infra/Project_Infra/src/PictureRotations.cpp:190-200 | a radius of 0 or less leaves the picture unchanged |
| `Rotations.SwirlWithoutTwistIsIdentity` | infra/Project_Infra/src/PictureRotations.cpp:192-196 | when every point turns onto itself the swirl leaves the picture unchanged |

## Left out

- The geometry is not modelled: `atan2`, `cos`, `sin`, `norm`, the degree-to-radian step and `pt_polar_rotation`. `pt_polar_rotation` comes from `Usefull_functions.h`, which is not part of this model. These are the parameters `turn`, `rotate` and `norm`. Identities for particular angles are proved only for the exact turn, not for floating-point trigonometry.
- The `iitof`/`iftoi` conversion between stored bytes and float intensities is not modelled. Neither is `float`/`double` rounding in the blends. Intensities are exact reals; `iitof`/`iftoi` are not part of this model.
- `Picture(const std::string&)` (`imread`), `print_picture`, `show_nbh` and the `std::cout` of the width in `symmetry_wrt_y` are left out as file and console I/O. The `std::cerr` diagnostic of `set_intensity` is the `warned` flag.
- `clone` and `operator=` have no member. They deep-copy the grid, which under value semantics is the picture itself. `SymmetryWrtY` and `SymmetryWrtX` start from the input value for this reason.
- `get_x_len` and `get_y_len` have no member; they are the datatype fields.
- `get_matrix` is left out. It allocates raw heap arrays and strides by the row count, so it has no clean contract.
- `center_of_pressure` is left out. It sums into an uninitialised buffer, never resets its counter, and may return uninitialised coordinates.
- `ellipse_nbh` is left out. Its `^` is exclusive-or, not a power, and its unsigned bounds wrap, so a model would only restate the defect.
- `Picture.h` holds declarations only.
- Intensity.MaximumIntensity: requires the loop's reads to be in bounds. The picture must be square or empty, because the loop bounds the row index by `x_length`. For other shapes the code reads outside the matrix, which has no defined result.
- Intensity.MinimumIntensity: requires in-bounds reads, for the same reason as the maximum.
- Intensity.RescaleColor: requires in-bounds reads, for the same reason. A failed `assert(size != 0)` is `None`. A build without assertions would divide by zero, which is not modelled.
- Rotations.NearestRotated: uses the corrected bounds test, which differs from the code only at the points where the code reads a missing cell; there it writes 1.0. The code as written is `Sampling.NearestSampleAsWritten` (see Findings).
- Rotations.BilinearRotated: uses the corrected bounds test, which differs from the code only at the points where the code reads a missing cell; there it writes 1.0. The code as written is `Sampling.BilinearSampleAsWritten`.
- Rotations.Swirled: requires only that `norm` is never negative; the inside branch is written with the corrected `bilinear_interpolation`. That `norm` is the Euclidean length is assumed only where `SwirlDiscIsIntegerDisc` needs it.
- Rotations.Round: C `round` of a value beyond the `int` range, and the `(int)` conversion that follows, are not modelled; integers are unbounded.
- Pictures.SetIntensity: a value outside [0,1] is kept as the real `v`. The code stores `iftoi(v)` in a byte, and what that conversion makes of such a value is not modelled, because `iftoi` is not part of this model. `Pictures.ReadAfterWrite` reads back `v` for the same reason.
- The folds read row by row, as the code does on the pictures whose reads stay in bounds (there the outer index `i` of the loops is the row).

## Findings

| source | as written | input that shows it | evidently intended | confidence | as-written member | corrected member |
|---|---|---|---|---|---|---|
| infra/Project_Infra/src/PictureRotations.cpp:163-176 | `bilinear_interpolation` accepts `0 <= x < x_length` and then reads column `ceil(x)`, which is `x_length` when x lies in (W-1, W) and is not integral (likewise for rows) | 1×1 picture, point (0.5, 0.5): the test passes and cells (0,1), (1,0), (1,1) are read | blend only when all four corners exist, that is within `x_length-1` and `y_length-1`; the unblended read of an integral coordinate is in bounds under the written test and stays | not executed | `Sampling.BilinearInterpolationAsWritten`, shown by `Sampling.BilinearReadsPastTheEdge` and `Sampling.BilinearAsWrittenFailsExactly` | `Sampling.BilinearInterpolation`, with `Sampling.CornersOnGrid` and `Sampling.AsWrittenAgreesWithCorrected` |
| infra/Project_Infra/src/PictureRotations.cpp:127-145 | `bilinear_rotation_polar` has the same test and reads the same missing column or row | 1×1 picture, source point (0.5, 0.5) | the same corrected test, with the white background where no cell can be read | not executed | `Sampling.BilinearSampleAsWritten`, shown by `Sampling.BilinearAsWrittenFailsExactly` | `Sampling.BilinearSample`, used by `Rotations.BilinearRotated` |
| infra/Project_Infra/src/PictureRotations.cpp:70-98 | `nn_rotation_polar` accepts `x < x_length`; the nearest corner of x in (W-0.5, W) is column `ceil(x) = x_length` | 1×1 picture, source point (0.75, 0): corner (1, 0) is the nearest and is read | read the nearest corner only when it exists, that is for `x <= x_length-0.5` and `y <= y_length-0.5`; the other corners are never read | not executed | `Sampling.NearestSampleAsWritten`, shown by `Sampling.NearestReadsPastTheEdge` and `Sampling.NearestAsWrittenFailsExactly` | `Sampling.NearestSample`, used by `Rotations.NearestRotated` |
