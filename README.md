# Symmetry bookkeeping of the diffuse-scattering models

This project is a Dafny model of the symmetry helpers in `models/model_utils.py`. The rest of the analysis pipeline relies on three of them:

- **`generate_symmates`** enumerates the voxel grid, the Cartesian product of the h, k and l bin centres. For every symmetry operator it finds the voxel that each grid vector is sent to and stores the argsort of those flat indices. It also counts, per voxel, how many distinct positions the operators produce (the multiplicity).
- **`symmetrize`** reads a map through every operator's index array. In unit-cell mode it averages the non-zero contributions. In asymmetric-unit mode it sums the contributions of the first half of the operators.
- **`compute_resolution`** picks a d-spacing formula from the space-group number: orthorhombic/tetragonal/cubic, hexagonal or monoclinic. It returns one d-spacing per scattering vector, or an empty array for an unsupported group. A zero 1/d is raised to 1e-5, so the origin gets a large but finite d.

Modules:

- `Grid` (grid.dfy): `itertools.product` of the three bin axes, in row-major order.
- `Lattice` (lattice.dfy): `np.ravel_multi_index` on a cube of side `extent`, and its inverse.
- `Sorting` (sorting.dfy): `np.argsort`, specified as "some permutation that sorts the keys".
- `SymmetryIndex` (symmates.dfy): `generate_symmates`, as methods with loops over operator keys and an `array2` for the stacked index table.
- `Symmetrize` (symmetrize.dfy): `symmetrize`, as a method over arrays. It is proved against the per-voxel functions `UnitCellValue` and `AsuValue`.
- `Resolution` (resolution.dfy): `compute_resolution`, as pure functions over reals. It yields d² per vector, d being its positive root. A flag `CrossSign` picks the sign of the monoclinic cross term: `AsWritten` is the code as it stands, `Standard` the corrected formula (see "## Findings").

Outside effects are parameters:

- The floating-point rotation, shift, scaling and rounding of `generate_symmates` (models/model_utils.py:53-55) are a caller-supplied function `discretize(op, v, platform, subsampling)`.
- `np.sin` and `np.cos` of an angle in degrees are caller-supplied functions `sinDeg` and `cosDeg`.

## Model

| member | source | states |
|---|---|---|
| Grid.ProductLength | models/model_utils.py:46 | the grid has exactly \|h\|·\|k\|·\|l\| vectors |
| Grid.ProductAt | models/model_utils.py:46 | product order: vector number (i·\|k\| + j)·\|l\| + m is (h[i], k[j], l[m]), with l varying fastest |
| Lattice.RavelBound | models/model_utils.py:57 | a coordinate inside the cube ravels to a flat index below extent³ |
| Lattice.RavelUnravel | models/model_utils.py:57 | raveling is injective on the cube: unraveling recovers every in-cube coordinate |
| Lattice.UnravelRavel | models/model_utils.py:57 | every flat index below extent³ is the ravel of an in-cube coordinate, so raveling is onto |
| Lattice.RavelMonotone | models/model_utils.py:57 | C order: a lexicographically smaller coordinate gets a smaller flat index |
| Lattice.RavelAll | models/model_utils.py:57 | fails exactly when some coordinate lies outside [0, extent)³ (ravel_multi_index raises); otherwise it gives each coordinate's flat index, in order and below extent³ |
| Sorting.ArgSort | models/model_utils.py:58 | the result is a permutation of 0..n−1 that lists the keys in non-decreasing order |
| Sorting.SortingIncreasingIsIdentity | models/model_utils.py:58 | when the keys are strictly increasing, the identity is the only sorting permutation |
| SymmetryIndex.MaxOf | models/model_utils.py:48 | np.max of a non-empty axis is one of its elements and bounds all of them |
| SymmetryIndex.IndexArrays | models/model_utils.py:51-58 | the key loop succeeds exactly when every operator keeps every rounded coordinate in the cube; it then stores, per key, a sorting permutation of that key's flat indices; otherwise it reports the first key with an out-of-cube coordinate |
| SymmetryIndex.Multiplicities | models/model_utils.py:61-64 | stacks the index arrays into a table; entry i is the number of distinct values in column i, between 1 and the number of operators |
| SymmetryIndex.GenerateSymmates | models/model_utils.py:32-66 | an empty axis fails (np.max of an empty array); no operators fails (symm_idx[0] is missing); an out-of-cube coordinate fails at the first such key; it succeeds exactly in the remaining case, returning the product grid, index arrays and multiplicities |
| SymmetryIndex.MultiplicityBounds | models/model_utils.py:64 | every multiplicity lies in [1, number of operators] |
| SymmetryIndex.MultiplicityOneIff | models/model_utils.py:64 | a voxel has multiplicity 1 exactly when all operators send it to the same position |
| SymmetryIndex.IdentityOperatorRow | models/model_utils.py:53-58 | an operator whose rounded coordinates increase lexicographically along the grid (the identity on ascending bins) gets the identity index array |
| Symmetrize.AddInPlace | models/model_utils.py:83 | `symm_map += gathered`, element by element; only the accumulator changes |
| Symmetrize.DecrementWhereZero | models/model_utils.py:84 | each count drops by one exactly where the gathered value is 0 |
| Symmetrize.DivideWhereNonzero | models/model_utils.py:85 | divides the accumulator by the count where the count is non-zero and leaves it elsewhere |
| Symmetrize.Symmetrize | models/model_utils.py:69-91 | returns a new map of the input's length without modifying the input; each voxel gets the unit-cell value (sum over operators divided by the surviving non-zero count) or, in asymmetric-unit mode, the sum over the first ⌊N/2⌋ operators |
| Symmetrize.SymmatesWellFormed | models/model_utils.py:58-83 | the index arrays of a successful generator run have one in-range entry per grid voxel, which is what the symmetrizer requires of them |
| Symmetrize.CountBounds | models/model_utils.py:79-84 | the surviving count of a voxel lies in [0, N] |
| Symmetrize.UnitCellAllMissing | models/model_utils.py:85 | a voxel whose every contribution is 0 is output as 0 (its count is left undivided) |
| Symmetrize.UnitCellIsMean | models/model_utils.py:81-85 | unit-cell mode averages: if all non-zero contributions lie in [lo, hi], so does the output |
| Symmetrize.UnitCellConstant | models/model_utils.py:81-85 | if every operator contributes the same non-zero v, the output is v |
| Symmetrize.UnitCellOfInvariant | models/model_utils.py:81-85 | unit-cell mode returns a map that is already invariant under every operator unchanged |
| Symmetrize.AsuOfInvariant | models/model_utils.py:87-89 | asymmetric-unit mode multiplies an invariant map by ⌊N/2⌋, since the sum is not normalised |
| Resolution.Classify | models/model_utils.py:147-162 | some formula applies exactly to space groups 3–142 and 168–230, and every other group is unsupported |
| Resolution.Clamp | models/model_utils.py:164 | the clamped 1/d² is never zero and equals the input whenever the input is non-zero |
| Resolution.ComputeResolution | models/model_utils.py:134-167 | an unsupported group gives the empty result; a supported group gives one entry per scattering vector; no entry is zero, since 1/d is raised to 1e-5 before the division |
| Resolution.Resolve | models/model_utils.py:165 | d² times the clamped 1/d² is exactly 1 |
| Resolution.OrthorhombicZeroIff | models/model_utils.py:148 | (h/a)² + (k/b)² + (l/c)² is non-negative and vanishes only at the origin |
| Resolution.HexagonalZeroIff | models/model_utils.py:152 | 4(h² + hk + k²)/(3a²) + (l/c)² is non-negative and vanishes only at the origin |
| Resolution.MonoclinicZeroIff | models/model_utils.py:156-158 | when sin²β + cos²β = 1, the monoclinic form is non-negative and vanishes only at the origin |
| Resolution.OrthorhombicDSpacing | models/model_utils.py:147-148 | for either sign, away from the origin d² is positive, equals 1/((h/a)² + (k/b)² + (l/c)²), and times that form gives 1 |
| Resolution.HexagonalDSpacing | models/model_utils.py:151-152 | for either sign, away from the origin d² is positive and d² · (hexagonal form) = 1 |
| Resolution.MonoclinicDSpacing | models/model_utils.py:155-158 | for a genuine β, away from the origin d² is positive; as written, d² times the expression with `+` is 1; with the standard sign, d² times the standard form is 1 |
| Resolution.MonoclinicAsWrittenZeroIff | models/model_utils.py:157-158 | when sin²β + cos²β = 1, the expression as written is also non-negative and vanishes only at the origin, so the wrong sign never yields a zero or a NaN |
| Resolution.OriginDSpacing | models/model_utils.py:164-165 | for either sign, in every supported family the origin gets 1/d = 1e-5, i.e. d² = 1e10 |
| Resolution.CubicScenario | models/model_utils.py:134-167 | for either sign, a cubic cell of side 10 in group 200 gives d² = 100, 25 and 1e10 for (1,0,0), (2,0,0) and the origin |
| Resolution.TriclinicScenario | models/model_utils.py:160-162 | space group 1 gives the empty result, whatever the cell |
| Resolution.SignOnlyMonoclinic | models/model_utils.py:146-158 | outside the monoclinic groups both signs give the same result |
| Resolution.MonoclinicAsWrittenMirrors | models/model_utils.py:157-158 | the monoclinic expression as written equals the standard monoclinic 1/d² of the mirror plane (h, k, −l) |
| Resolution.MonoclinicAsWrittenDisagrees | models/model_utils.py:157-158 | for a = b = c = 1 and β = 120°, the expression as written gives 4/3 at (1,0,1). The hexagonal branch gives 4 for the same plane of the same lattice, and so does the corrected form |
| Resolution.MonoclinicScenario | models/model_utils.py:151-165 | end to end, for a = b = c = 1 and β = 120° in group 4, plane (1,0,1) gets d² = 3/4 as written and 1/4 with the standard sign; group 168 gives the same plane, (1,1,0) in hexagonal indexing, d² = 1/4 |
| Resolution.MonoclinicMatchesHexagonal | models/model_utils.py:151-158 | for a monoclinic cell with a = c and β = 120° (the hexagonal lattice with unique axis b), the corrected monoclinic 1/d² equals the hexagonal 1/d² with k and l exchanged |

## Left out

- `split_unitcell`, `generate_mesh` and `mweighted_cc` are not modelled. They are trajectory slicing, mesh construction and a weighted correlation, and none of them is part of the symmetry bookkeeping.
- pipeline/index.py is not part of this model. It indexes diffraction images through `Indexer` and does not call these helpers.
- The rotation `np.inner(op, grid)`, the shift by `platform`, the scaling by `subsampling` and `np.around(...).astype(int)` (models/model_utils.py:53-55) are floating-point operations. They are the parameter `discretize`. `platform` itself is computed exactly, as the largest bin centre over the three axes.
- SymmetryIndex.IndexArrays and SymmetryIndex.GenerateSymmates: the index arrays are "some sorting permutation" of the flat indices. `np.argsort` breaks ties in an implementation-defined order (quicksort by default), and the model does not fix that order.
- Operator keys are taken to be 0..N−1 in that order, which is what `symmetrize` and `combined[key]` assume. Dictionary iteration order is not modelled.
- Symmetrize.Symmetrize requires every index array to have one entry per voxel, each pointing into the map. With other arrays, numpy would raise an error or broadcast.
- Resolution.ComputeResolution returns d² rather than d, so the square root (models/model_utils.py:148, 152, 157, 165) is not modelled. The value 1.0/inv_d is stated through d² · (1/d²) = 1, and the clamp of inv_d to 1e-5 becomes a clamp of 1/d² to 1e-10; 1/d is zero exactly when 1/d² is.
- `np.sin` and `np.cos` are caller-supplied functions of β in degrees, which include `np.deg2rad`. The positivity results assume sin²β + cos²β = 1 of those functions.
- Resolution.ComputeResolution requires the non-zero values its formula divides by: a, b and c for orthorhombic groups; a and c for hexagonal groups; a, b, c and sinβ for monoclinic groups; nothing for an unsupported group. Where one of them is zero, the source's floating-point division gives an infinity or NaN, and reals have neither.
- Resolution.ComputeResolution treats the scattering vectors and cell constants as floating-point values and divides exactly. The source is Python 2, where `/` between integer arrays floors. So integral `s_grid` and cell constants would truncate h/a, k/b and l/c (models/model_utils.py:148, 152). For example, a cubic cell of side 10 at (1,0,0) would get 1/d = 0, and so d = 1e5 instead of 10. That integer-input behaviour is not modelled.
- Symmetrize.Symmetrize takes `fromAsu` as a Python bool. The source tests `from_asu is False` (models/model_utils.py:81), so any other false value (0, None, numpy.False_) takes the asymmetric-unit branch. The model cannot express that.
- Resolution.Classify keeps the hexagonal lower bound at 168, as the code does. The code's comment only wonders about 143 for trigonal groups, so groups 143–167 stay unsupported.
- Printing the "unsupported" warning (models/model_utils.py:161) is I/O and is not modelled.

## Findings

| source | as written | input that shows it | evidently intended | confidence | as-written member | corrected member |
|---|---|---|---|---|---|---|
| models/model_utils.py:157-158 | the monoclinic 1/d² adds the cross term, `+ 2*h*l*cos(beta)/(a*c*sin(beta)**2)` | a = b = c = 1, β = 120° (a = c with β = 120° is the hexagonal lattice): plane (1,0,1) gets 1/d² = 4/3, but the hexagonal formula gives 4 for the same plane, (1,1,0) in hexagonal indexing | the standard monoclinic formula for unique axis b subtracts the cross term, `− 2hl cosβ/(ac sin²β)`. As written, the code returns the spacing of the mirror plane (h, k, −l) | medium, not executed | Resolution.MonoclinicInvDSqAsWritten, the branch of Resolution.ComputeResolution with `AsWritten` (exhibited by Resolution.MonoclinicAsWrittenDisagrees, Resolution.MonoclinicAsWrittenMirrors and Resolution.MonoclinicScenario) | Resolution.MonoclinicInvDSq, the branch of Resolution.ComputeResolution with `Standard` (Resolution.MonoclinicMatchesHexagonal, Resolution.MonoclinicZeroIff, Resolution.MonoclinicScenario) |
