# Cross-field mismatch and boundary area matrix (libigl), modelled in Dafny

This project models two small combinatorial routines of libigl.

**Cross-field mismatch** (`include/igl/cross_field_missmatch.cpp`). A triangle mesh carries a cross field: one pair of tangent directions `PD1`, `PD2` per face. For every face `i` and every local edge `j`, the mismatch is the number of quarter turns, in {0, 1, 2, 3}, between the field of `i` and the field of the face across edge `j` after transport into the plane of `i`. The cell is 0 when edge `j` has no neighbour (`TT(i,j) == -1`) or when the face is its own neighbour. The singularity index of a vertex is 0 on the border. For any other vertex it is the sum, over its incident faces, of the mismatch at the vertex's local slot, reduced by C++ `% 4`.

- `quantization.dfy` (module `Quantization`) holds the exact tail of `MissMatchByCross`. It rounds the quarter-turn ratio with `floor(x + 0.5)` and folds the count into {0..3} with the source's two-branch formula. It also models C++ `%` (truncating) explicitly as `CppRem4`. The main results are:
  - `-3i ≡ i (mod 4)`, so the asymmetric branch for negative counts equals the Euclidean `i mod 4`. This answers whether the asymmetric branch is the same as `i mod 4`: it is.
  - The rounding picks the nearest integer, with ties going up.
- `cross_field_missmatch.dfy` (module `CrossField`) models the rest:
  - The class `MissMatchCalculator`. Its constructor stores the mesh, the field and the precomputed tables.
  - `CalculateMissmatch`, which fills a fresh `F.rows() x 3` `array2` that starts at -1, using a nested face/edge loop.
  - `OneRingMissMatch`, with its accumulator loop and the inner slot search in which a later match overwrites an earlier one.
  - The top-level `CrossFieldMissmatch`, which chooses between combing the field and using it unchanged.
  - Specification functions with lemmas. They cover the range of every cell and the fact that the one-ring sum does not depend on the order of the incident faces.

**Boundary area matrix** (`include/igl/areamatrix.cpp`). `areamatrix.dfy` (module `AreaMatrix`) models the boundary loop. For each loop position `k`, let `i = bnd[k]` and let `j` be the cyclic successor. The loop pushes `(i+n, j, -1/2)` and `(i, j+n, 1/2)` into `aux`, and the transposed pair into `auxT`. `setFromTriplets` is a summation of duplicate triplets into a dense `array2<real>`. The result is `A = (aux + auxT) / 2`. The main results:
- The auxT list is the transpose of the aux list.
- The summed auxT matrix is therefore the transpose of the summed aux matrix.
- `A` is symmetric.
- Every triplet links the block `[0,n)` with the block `[n,2n)`, so both diagonal `n x n` blocks of `A` are zero.
- An empty boundary gives the zero matrix.

Three inputs are parameters of the model:
- The floating-point geometry of `MissMatchByCross` (rotation between face normals, normalisation, `atan2`, division by `M_PI/2`) is the parameter `geometry`. It maps `(PD1[f1], N[f0], N[f1], PD1[f0], PD2[f0])` to the real ratio `angle_diff / step`.
- The combing step `comb_cross_field` is the parameter `comb`.
- The outputs of `per_face_normals`, `is_border_vertex`, `vf` and `tt` arrive in a `MeshTables` value. `boundary_vertices_sorted` is replaced by the input sequence `bnd`.

Two places where the model departs from a literal reading of the source:
- `oneRingMissMatch` reads `Handle_MMatch`, which is only the parameter name of `calculateMissmatch` and not a member of the class. The method compiles only because the template member is never instantiated. The model passes the mismatch table to `OneRingMissMatch` explicitly.
- A vertex listed in a face that lacks it is caught in the source by `assert(j!=-1)`, which aborts in a debug build and is compiled out under `NDEBUG`. The model turns that assert into a precondition, which binds only non-border vertices.

## Model

| member | source | states |
|---|---|---|
| Quantization.CppRem4 | include/igl/cross_field_missmatch.cpp:90-92 | C++ `a % 4`: the result differs from `a` by a multiple of 4, lies in [0,4) for `a >= 0` and in (-4,0] for `a < 0` (truncating division) |
| Quantization.CppRem4OfNonNegative | include/igl/cross_field_missmatch.cpp:58 | on a non-negative dividend the C++ remainder equals the Euclidean one |
| Quantization.RoundHalfUp | include/igl/cross_field_missmatch.cpp:86-87 | `floor(x + 0.5)` is the integer `i` with `i - 1/2 <= x < i + 1/2` |
| Quantization.RoundHalfUpUnique | include/igl/cross_field_missmatch.cpp:87 | that half-open window determines the rounded count uniquely |
| Quantization.RoundHalfUpIsNearest | include/igl/cross_field_missmatch.cpp:87 | no integer is closer to `x` than the rounded count; an equally close one lies below it (ties round up) |
| Quantization.NegThreeTimesCongruent | include/igl/cross_field_missmatch.cpp:91-92 | `-3i` and `i` have the same Euclidean remainder by 4, for every integer `i` |
| Quantization.QuarterTurnIndex | include/igl/cross_field_missmatch.cpp:88-93 | the two-branch fold (`i%4` if `i >= 0`, else `(-(3*i))%4`, C++ `%`) lies in {0..3} and equals the Euclidean `i mod 4` |
| Quantization.NegativeBranchIsEuclidean | include/igl/cross_field_missmatch.cpp:91-92 | for `i < 0` the branch `(-(3*i))%4` equals `i mod 4` and `((i % 4) + 4) % 4` |
| Quantization.PairMismatch | include/igl/cross_field_missmatch.cpp:86-93 | the mismatch of a quarter-turn ratio lies in {0..3} and is the rounded count mod 4 |
| Quantization.AlignedFieldsHaveZeroMismatch | include/igl/cross_field_missmatch.cpp:86-93 | a ratio in [-1/2, 1/2) gives mismatch 0 |
| Quantization.QuarterTurnIndexShift | include/igl/cross_field_missmatch.cpp:88-93 | raising the quarter-turn count by one raises the folded index by one, mod 4 |
| Quantization.QuarterTurnShift | include/igl/cross_field_missmatch.cpp:86-93 | one more quarter turn of the transported field raises the mismatch by exactly 1 mod 4 |
| CrossField.CrossMismatch | include/igl/cross_field_missmatch.cpp:64-94 | `MissMatchByCross(f0, f1)` lies in {0..3} and is the rounded ratio of the geometry at `(PD1[f1], N[f0], N[f1], PD1[f0], PD2[f0])`, mod 4 |
| CrossField.MissmatchTableInRange | include/igl/cross_field_missmatch.cpp:116-126 | every cell of a mismatch table lies in {0..3}, so none of the initial -1 survives |
| CrossField.AlignedFieldHasZeroTable | include/igl/cross_field_missmatch.cpp:119-124 | when the transport across every interior edge of the mesh lands within half a quarter turn, every cell is 0 |
| CrossField.LastSlotBelow | include/igl/cross_field_missmatch.cpp:49-53 | the slot search returns -1 exactly when no slot holds the vertex, else the last slot holding it |
| CrossField.RingSumAppend | include/igl/cross_field_missmatch.cpp:45-56 | the one-ring sum over a concatenation of face lists is the sum of the two one-ring sums |
| CrossField.RingSumRemove | include/igl/cross_field_missmatch.cpp:45-56 | removing one face from the list removes exactly its term from the sum |
| CrossField.IncidentFacesPermutation | include/igl/cross_field_missmatch.cpp:37 | reordering a list of incident faces keeps every face incident |
| CrossField.RingSumPermutation | include/igl/cross_field_missmatch.cpp:37 | the one-ring sum is the same for any reordering of the incident faces ("not sorted vf, but should not make a difference") |
| CrossField.RingSumNonNegative | include/igl/cross_field_missmatch.cpp:45-56 | with cells in {0..3} the one-ring sum lies between 0 and 3 times the number of faces |
| CrossField.SingularityIndexInRange | include/igl/cross_field_missmatch.cpp:38-59 | with cells in {0..3} the index lies in {0..3}, equals the Euclidean sum mod 4 and does not depend on the order of the incident faces |
| CrossField.MissMatchCalculator.constructor | include/igl/cross_field_missmatch.cpp:98-112 | the calculator holds the mesh, the field and the externally computed normals, border flags, VF and TT tables |
| CrossField.MissMatchCalculator.CalculateMissmatch | include/igl/cross_field_missmatch.cpp:114-127 | a `F.rows() x 3` table whose cell `(i,j)` is 0 when `TT(i,j)` is -1 or `i`, and the pairwise mismatch of `(i, TT(i,j))` otherwise; every cell lies in {0..3} |
| CrossField.MissMatchCalculator.OneRingMissMatch | include/igl/cross_field_missmatch.cpp:39-60 | 0 for a border vertex whatever the table; otherwise the C++ `% 4` of the sum of the table cells at the vertex's slot in each incident face; in {0..3} when all cells of the table are |
| CrossField.CrossFieldMissmatch | include/igl/cross_field_missmatch.cpp:131-151 | with `isCombed` the table is that of the unmodified `PD1`/`PD2`; otherwise that of the combed field; every cell lies in {0..3} |
| AreaMatrix.Successor | include/igl/areamatrix.cpp:37-38 | the successor of position `k` is `bnd[(k+1) mod bnd.size()]`: the next entry, wrapping to `bnd[0]` at the end |
| AreaMatrix.AuxTriplets | include/igl/areamatrix.cpp:35-40 | the aux list after `count` positions has `2*count` triplets, the pair of position `k` at indices `2k` and `2k+1` |
| AreaMatrix.AuxTTriplets | include/igl/areamatrix.cpp:35-43 | the auxT list after `count` positions has `2*count` triplets, two per position in loop order |
| AreaMatrix.BoundaryTriplets | include/igl/areamatrix.cpp:35-43 | the loop builds exactly these two lists |
| AreaMatrix.AuxTIsTransposed | include/igl/areamatrix.cpp:39-42 | each auxT triplet is the transpose of the aux triplet at the same index, with the same value |
| AreaMatrix.TripletsCrossBlocks | include/igl/areamatrix.cpp:39-42 | with boundary indices in `[0,n)`, every triplet has one index in `[0,n)` and the other in `[n,2n)`, so it fits the `2n x 2n` matrices |
| AreaMatrix.SetFromTriplets | include/igl/areamatrix.cpp:45-46 | a `rows x cols` matrix whose every entry is the sum of the values of the triplets at that position (0 where there is none) |
| AreaMatrix.SumAtTransposed | include/igl/areamatrix.cpp:45-46 | summing transposed triplets at `(r,c)` gives the sum of the originals at `(c,r)` |
| AreaMatrix.SumAtAbsent | include/igl/areamatrix.cpp:45-46 | nothing accumulates where no triplet lies |
| AreaMatrix.AuxTSumIsTranspose | include/igl/areamatrix.cpp:39-46 | the summed auxT matrix is the transpose of the summed aux matrix |
| AreaMatrix.Average | include/igl/areamatrix.cpp:47 | the entrywise `(aux + auxT) / 2` |
| AreaMatrix.AreaSymmetric | include/igl/areamatrix.cpp:45-47 | `A(r,c) == A(c,r)` for all `r`, `c` |
| AreaMatrix.AreaDiagonalBlocksZero | include/igl/areamatrix.cpp:35-47 | both diagonal `n x n` blocks of `A` are zero |
| AreaMatrix.EmptyBoundaryGivesZero | include/igl/areamatrix.cpp:35-47 | an empty boundary gives the all-zero matrix |
| AreaMatrix.AreaMatrix | include/igl/areamatrix.cpp:17-48 | `A` is `2n x 2n`, equals the average of the two summed triplet lists, is symmetric and has zero diagonal blocks |

## Left out

- Floating-point geometry of `MissMatchByCross` (`Comb::Rotate`, `normalize`, `atan2`, `M_PI`): this is a parameter `geometry` returning the real ratio `angle_diff / step`. The model does not capture double rounding or the range `[-2, 2]` that `atan2` gives the ratio. The quantization is proved for every real ratio.
- The commented-out alternative angle computation and the debug print in `MissMatchByCross`: they are not executed code.
- `per_face_normals`, `is_border_vertex`, `vf`, `tt`: these are external, and their results are inputs with stated shapes. `TT` entries lie in `[-1, |F|)`, and `VF` entries are face indices. `VFi` and `TTi` are computed but never read, so they are not modelled.
- `comb_cross_field`: this is external. It is the parameter `comb`, and the model assumes only that it returns one direction per face. Nothing is claimed about what combing does, so nothing is stated about combing an already-combed field (that it leaves every cell unchanged).
- `boundary_vertices_sorted`: this is external. The boundary loop is the input `bnd`, with indices in `[0, n)`.
- Eigen sparse storage, template scalar and index types: `setFromTriplets` is a summation of duplicates into a dense `array2<real>`. Values are the exact reals ±1/2, and indices are unbounded `int`.
- CrossField.MissMatchCalculator.OneRingMissMatch: the accumulator `missmatch` is an unbounded `int`, so 32-bit overflow of the C++ `int` is not modelled. It cannot occur for realistic vertex degrees.
- CrossField.MissMatchCalculator.OneRingMissMatch: the source's `assert(j!=-1)` is a precondition here, so the model has no abort path. Under `NDEBUG` the source would read the table at column -1 instead; that behaviour is not modelled.
