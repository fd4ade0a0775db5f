# NystromD: index and basis bookkeeping of the per-dimension Nyström estimator

This project models the per-dimension Nyström estimator `NystromD` of Shogun's
kernel exponential family. It covers the estimator's index and basis bookkeeping and
proves properties of that model in Dafny.

In this estimator a basis element is a single (point, dimension) component, not a whole
point. A boolean D x N mask chooses the components. A component is addressed by a flat
index, point-major and dimension-minor (`idx = a * D + i`), which is also the
column-major layout of the mask.

The model covers:

- the flat-index decoding `idx_to_ai` (module `IndexMap`);
- the basis-index derivation from a mask: the ascending true positions, the touched
  points, the unused points, and the column reduction of the data-only constructor
  (modules `BasisSpec` and `SortedSeqs`, and the constructors and methods of the class
  `NystromDEstimator.NystromD`);
- the Gram assembly loops `compute_G_mm`, `compute_G_mn`, `compute_h` and
  `subsample_G_mm_from_G_mn`, each cell addressed through the decoded indices;
- the evaluators `log_pdf`, `grad`, `hessian`, `hessian_diag` and
  `get_beta_for_basis_point`, which accumulate beta-weighted kernel terms only where a
  basis index's point matches.

The kernel is an external collaborator. Its five derivative accessors are the fields of
the datatype `Kernel.Derivatives`, total functions of point and dimension indices that
return `real`. Beta is a `seq<real>` field set by the base class's fit.

Each loop of the source is a `method` with its loop invariants. The estimator's methods
are proved against specification functions in `EvalSpec` or `BasisSpec`, and the lemmas
beside those functions prove what the source promises. The container helpers
(`SortAscending`, `SortedElements`, `SetDifference`) state their results with the
`SortedSeqs` predicates, and `ScaleInPlace` and `SubsampleMatrixCols` state their new
entries directly. The lemmas prove:
- the decode round-trips;
- the mask-derived indices are strictly increasing;
- the subsampled G_mm equals the directly computed one;
- the Hessian diagonal equals `hessian_diag`;
- unselected dimensions contribute nothing;
- log_pdf and grad are beta-segment dot products.

`get_system_size` is `NystromD.GetSystemSize`, the length of `basisInds`, at most one
per component of the basis space. Both constructors state that it equals the number of
true entries of the mask they are given.

Every matrix and vector the estimator returns is a freshly allocated array, so writing
into it leaves the data and the basis unchanged.

## Model

Source paths are relative to the repository root.

| member | source | states |
|---|---|---|
| IndexMap.IdxToAi | src/shogun/distributions/kernel_exp_family/impl/NystromD.cpp:284-287 | the decoded dimension is below D and point * D + dimension is the flat index again |
| IndexMap.AiToIdxRoundTrip | src/shogun/distributions/kernel_exp_family/impl/NystromD.cpp:284-287 | decoding the encoding of (a, i) with i < D gives (a, i) back |
| IndexMap.IdxToAiInjective | src/shogun/distributions/kernel_exp_family/impl/NystromD.cpp:284-287 | two flat indices that decode to the same pair are equal |
| IndexMap.PointBelow | src/shogun/distributions/kernel_exp_family/impl/NystromD.cpp:284-287 | a flat index below N * D decodes to a point below N |
| IndexMap.IdxToAiUnitCases | tests/unit/distribution/kernel_exp_family/impl/Nystrom_unittest.cc:391-419 | with D = 3, indices 0..4 decode to (0,0), (0,1), (0,2), (1,0), (1,1) |
| SortedSeqs.SortAscending | src/shogun/distributions/kernel_exp_family/impl/NystromD.cpp:127 | the in-place sort leaves the array ascending and a permutation of its old contents |
| SortedSeqs.SortedPermutationIsIdentity | src/shogun/distributions/kernel_exp_family/impl/NystromD.cpp:113-127 | an ascending permutation of a strictly increasing sequence is that sequence, so sorting the ascending scan changes nothing |
| SortedSeqs.SortedElements | src/shogun/distributions/kernel_exp_family/impl/NystromD.cpp:143-144 | copying a set out in order gives its elements exactly once each, strictly increasing |
| SortedSeqs.SetDifference | src/shogun/distributions/kernel_exp_family/impl/NystromD.cpp:96-99 | the merge of two strictly increasing ranges keeps exactly the elements of the first that are not in the second, strictly increasing |
| SortedSeqs.SameMembersIncreasingEqual | src/shogun/distributions/kernel_exp_family/impl/NystromD.cpp:60-61 | two strictly increasing sequences with the same members are equal |
| SortedSeqs.CoversBelow | src/shogun/distributions/kernel_exp_family/impl/NystromD.cpp:61 | a strictly increasing list of values below n that holds every value below n has length n |
| BasisSpec.MaskedPositionsSpec | src/shogun/distributions/kernel_exp_family/impl/NystromD.cpp:113-119 | the scanned positions are strictly increasing, exactly the true entries, and one per true entry |
| BasisSpec.PointSetMembership | src/shogun/distributions/kernel_exp_family/impl/NystromD.cpp:137-141 | a point is in the touched set exactly when some index decodes to it |
| BasisSpec.PointsBelow | src/shogun/distributions/kernel_exp_family/impl/NystromD.cpp:137-141 | indices below N * D touch only points below N |
| BasisSpec.SubsampledEntry | src/shogun/distributions/kernel_exp_family/impl/NystromD.cpp:69 | entry (r, c) of the column-reduced mask is entry (r, keep[c]) of the original |
| BasisSpec.TouchedColumns | src/shogun/distributions/kernel_exp_family/impl/NystromD.cpp:60 | the columns with a true entry, strictly increasing, each below the column count |
| BasisSpec.TouchedColumnsUnique | src/shogun/distributions/kernel_exp_family/impl/NystromD.cpp:60 | any strictly increasing list of exactly the touched points is TouchedColumns |
| BasisSpec.AllColumnsTouched | src/shogun/distributions/kernel_exp_family/impl/NystromD.cpp:61-62 | when the touched count equals the column count, every column is touched and the reduction is the identity |
| BasisSpec.SomeColumnUntouched | src/shogun/distributions/kernel_exp_family/impl/NystromD.cpp:61-69 | when the touched count differs from the column count, some column is untouched |
| BasisSpec.ReducedMaskFullyTouched | src/shogun/distributions/kernel_exp_family/impl/NystromD.cpp:63-70 | after reducing to the touched columns, every remaining column has a true entry |
| BasisSpec.ColumnSlice | src/shogun/distributions/kernel_exp_family/impl/NystromD.cpp:69 | column c of a mask is the run of flat positions c * rows up to (c + 1) * rows |
| BasisSpec.PrefixCount | src/shogun/distributions/kernel_exp_family/impl/NystromD.cpp:69 | the true entries among the first k columns, counted entry by entry, equal the per-column counts summed |
| BasisSpec.ReducedColumn | src/shogun/distributions/kernel_exp_family/impl/NystromD.cpp:69 | column c of the reduced mask is column keep[c] of the original, entry for entry |
| BasisSpec.UntouchedColumnEmpty | src/shogun/distributions/kernel_exp_family/impl/NystromD.cpp:60-69 | a point that no selected index touches has no true entry in its column |
| BasisSpec.BelowSum | src/shogun/distributions/kernel_exp_family/impl/NystromD.cpp:60-69 | summing per-column counts over the touched columns, ascending, equals summing over all columns when untouched columns count zero |
| BasisSpec.ReductionKeepsSelectedCount | src/shogun/distributions/kernel_exp_family/impl/NystromD.cpp:60-73 | reducing a mask to its touched columns keeps every true entry, so the reduced mask selects as many basis components as the original |
| BasisSpec.SubsampleCols | src/shogun/distributions/kernel_exp_family/impl/NystromD.cpp:69 | the mask reduced to the columns `keep`, in order: same number of rows, one column per kept index, well formed (entry contents in `SubsampledEntry`) |
| NystromDEstimator.NystromD.GetSystemSize | src/shogun/distributions/kernel_exp_family/impl/NystromD.cpp:149-152 | the number of basis indices, which for a valid estimator is at most the number of basis components N_basis * D |
| NystromDEstimator.NystromD.BasisIsSubsampledData | src/shogun/distributions/kernel_exp_family/impl/NystromD.cpp:265-268 | data and basis are the same array, so the basis then has one point per data point and the data's dimension |
| NystromDEstimator.SubsampleMatrixCols | src/shogun/distributions/kernel_exp_family/impl/NystromD.cpp:68 | a new matrix whose column c is column keep[c] of the input |
| NystromDEstimator.NystromD.FromMask | src/shogun/distributions/kernel_exp_family/impl/NystromD.cpp:51-76 | the basis is the data itself exactly when every data point has a selected component; otherwise it is the touched columns of the data; the basis indices come from the reduced mask, are valid, and touch every basis point; the system size equals the number of true entries of the mask given |
| NystromDEstimator.NystromD.SubsampleUnusedPoints | src/shogun/distributions/kernel_exp_family/impl/NystromD.cpp:56-70 | returns the data (same matrix) exactly when every point is touched, and otherwise the touched columns of the data and of the mask |
| NystromDEstimator.NystromD.WithBasis | src/shogun/distributions/kernel_exp_family/impl/NystromD.cpp:78-84 | the basis indices are the mask's true positions, valid, and the system size is the number of true mask entries |
| NystromDEstimator.NystromD.SetBasisIndsFromMask | src/shogun/distributions/kernel_exp_family/impl/NystromD.cpp:86-109 | stores the mask's true positions as the basis indices, changes nothing else, and returns, ascending, exactly the points below the column count that no basis index touches |
| NystromDEstimator.NystromD.BasisIndsFromMask | src/shogun/distributions/kernel_exp_family/impl/NystromD.cpp:111-130 | the true positions of the mask, strictly increasing, one per true entry |
| NystromDEstimator.NystromD.GetBasisPointInds | src/shogun/distributions/kernel_exp_family/impl/NystromD.cpp:132-147 | strictly increasing, and a point is listed exactly when some basis index decodes to it |
| NystromDEstimator.NystromD.ComputeGmm | src/shogun/distributions/kernel_exp_family/impl/NystromD.cpp:238-263 | an S x S matrix whose cell (k, l) is dx_dy_component(b, a, j, i) for (b, j) of index k and (a, i) of index l; symmetric when the kernel's mixed derivative is; the result is a newly allocated array |
| NystromDEstimator.NystromD.ComputeGmn | src/shogun/distributions/kernel_exp_family/impl/NystromD.cpp:209-236 | an S x (N * D) matrix whose cell (k, l) is dx_dy_component(b, a, j, i) for (b, j) of index k and (a, i) decoded from l; the result is a newly allocated array |
| NystromDEstimator.NystromD.SubsampleGmmFromGmn | src/shogun/distributions/kernel_exp_family/impl/NystromD.cpp:270-282 | cell (k, l) is G_mn(k, inds[l]); applied to the G_mn compute_G_mn builds, it is compute_G_mm's matrix cell for cell; the result is a newly allocated array |
| EvalSpec.GmnAtBasisColumnIsGmm | src/shogun/distributions/kernel_exp_family/impl/NystromD.cpp:231 | column inds[l] of G_mn is column l of G_mm |
| NystromDEstimator.NystromD.ComputeH | src/shogun/distributions/kernel_exp_family/impl/NystromD.cpp:168-206 | a vector of length N_basis * D equal to HVector: entry k is the triple-loop sum for basis index k over the N * D middle-loop values, scaled by 1 / N; the result is a newly allocated array |
| NystromDEstimator.NystromD.MiddleEntries | src/shogun/distributions/kernel_exp_family/impl/NystromD.cpp:175-197 | a newly allocated vector of length S whose entry k is HMiddle for basis index k, the unscaled value of the outer loop |
| NystromDEstimator.NystromD.HEntry | src/shogun/distributions/kernel_exp_family/impl/NystromD.cpp:181-196 | the middle and inner loops of compute_h for one entry accumulate HMiddle |
| NystromDEstimator.ScaleInPlace | src/shogun/distributions/kernel_exp_family/impl/NystromD.cpp:204 | every entry is multiplied by the factor, in place |
| EvalSpec.HMiddleCollapses | src/shogun/distributions/kernel_exp_family/impl/NystromD.cpp:185-195 | the b-loop matches each basis index once, at b equal to its point index, so the double loop is one term per basis index whose point is below the b bound |
| EvalSpec.HVectorDirect | src/shogun/distributions/kernel_exp_family/impl/NystromD.cpp:168-206 | entry k of compute_h is (1 / N) times the sum over basis indices l of dx_dy_dy_component(a, point of l, i, dimension of l) |
| EvalSpec.HVectorFullMask | src/shogun/distributions/kernel_exp_family/impl/NystromD.cpp:168-206 | when the mask selects every component of N_basis <= N points, inds[k] == k and entry (a, i) is (1 / N) times the sum of dx_dy_dy_component(a, b, i, j) over b < N_basis and j < D |
| NystromDEstimator.NystromD.LogPdf | src/shogun/distributions/kernel_exp_family/impl/NystromD.cpp:289-308 | the sum over basis indices of beta[l] * dx_component(a_l, t, i_l); with valid indices, the sum over basis points of the gradient row dotted with the point's beta vector |
| EvalSpec.LogPdfRegroupedByPoint | src/shogun/distributions/kernel_exp_family/impl/NystromD.cpp:296-304 | the per-index sum equals the per-point sum of beta-segment dot products |
| NystromDEstimator.NystromD.GetBetaForBasisPoint | src/shogun/distributions/kernel_exp_family/impl/NystromD.cpp:343-362 | a D-vector whose slot j is beta[k] for the basis index k = (a, j) and zero when (a, j) is not selected; the result is a newly allocated array |
| EvalSpec.BetaSegmentSelected | src/shogun/distributions/kernel_exp_family/impl/NystromD.cpp:350-359 | with strictly increasing indices, slot j of a's segment holds the coefficient of the index (a, j) |
| EvalSpec.BetaSegmentUnselected | src/shogun/distributions/kernel_exp_family/impl/NystromD.cpp:350-359 | slot j of a's segment is zero when (a, j) is not a basis index |
| EvalSpec.PointSumIsDot | src/shogun/distributions/kernel_exp_family/impl/NystromD.cpp:326-336 | accumulating only over a's basis indices is the dot product with a's beta vector |
| NystromDEstimator.NystromD.Grad | src/shogun/distributions/kernel_exp_family/impl/NystromD.cpp:310-341 | the D-vector GradVector: entry i subtracts, for each basis index (a, i), its Hessian row against the coefficients of a's indices; the result is a newly allocated array |
| NystromDEstimator.NystromD.SubtractPointTerms | src/shogun/distributions/kernel_exp_family/impl/NystromD.cpp:327-336 | the inner loop of grad subtracts exactly the point-a terms |
| EvalSpec.GradVectorByDot | src/shogun/distributions/kernel_exp_family/impl/NystromD.cpp:324-336 | with strictly increasing indices, each subtracted term is the dot product of the Hessian row with a's beta vector |
| EvalSpec.GradVectorUnselectedIsZero | src/shogun/distributions/kernel_exp_family/impl/NystromD.cpp:310-341 | an entry whose dimension no basis index selects is zero |
| NystromDEstimator.NystromD.Hessian | src/shogun/distributions/kernel_exp_family/impl/NystromD.cpp:364-400 | a D x D matrix accumulating, for every pair of indices (a, i), (a, j) of one point, the third-derivative term into (i, j); its diagonal is hessian_diag; a cell with no point selected in both dimensions is zero; the result is a newly allocated array |
| NystromDEstimator.NystromD.HessianDiag | src/shogun/distributions/kernel_exp_family/impl/NystromD.cpp:402-425 | entry i accumulates the (i, i) term of each index (a, i); it equals the Hessian's diagonal; the result is a newly allocated array |
| EvalSpec.HessianDiagIsHessianDiagonal | tests/unit/distribution/kernel_exp_family/impl/Nystrom_unittest.cc:341-360 | with distinct basis indices, hessian's (r, r) cell equals hessian_diag's entry r |
| EvalSpec.HessianCellNeedsSharedPoint | src/shogun/distributions/kernel_exp_family/impl/NystromD.cpp:382-395 | cell (r, c) stays zero unless some point has both (point, r) and (point, c) selected |
| EvalSpec.DistinctPairs | src/shogun/distributions/kernel_exp_family/impl/NystromD.cpp:111-130 | distinct positions of a strictly increasing index list name distinct (point, dimension) pairs |

## Left out

- The `Nystrom` base class is not part of this model: `fit`, the system matrix and vector, `score`, the eigen-solver pseudo-inverse and `set_basis_and_data`. `beta` is a field that the evaluators require to hold one coefficient per basis index.
- The base class's `subsample_matrix_cols` is modelled as plain column selection (`SubsampleMatrixCols` on the data, `BasisSpec.SubsampleCols` on the mask).
- Floating point is modelled as `real`. `h.scale(1.0 / N_data)` multiplies by `1 / N` exactly.
- `index_t` overflow is not modelled. Indices are unbounded naturals, so C++'s truncating `/` and `%` agree with Dafny's.
- The kernel's values (Gaussian or otherwise) are not modelled. `dx_i_dx_j_component` returns a D-vector in C++; the model uses its entries.
- The OpenMP `parallel for` pragmas are dropped; the loops write disjoint cells and are modelled as sequential.
- The `SG_SINFO` and `SG_SWARNING` logging is dropped. `SetBasisIndsFromMask` returns the list of points the warning loop reports.
- `CMath::qsort` is modelled by an insertion sort with the same contract (ascending, a permutation).
- `std::set` and `std::copy` are modelled by a `set<nat>` and an in-order extraction of its minimum.
- `basis_is_subsampled_data` compares `SGMatrix` objects. The model uses reference identity of the two arrays: the data-only constructor shares the data buffer as the basis when no point is dropped.
- The boolean flag the constructors pass to the base class is not modelled.
- The mask is assumed to have the data's shape (rows == D; columns == N in the data-only constructor, and == the basis point count with an explicit basis). The source does not check this.
- ComputeH: the source loops `idx_k` up to N_basis * D but indexes `m_basis_inds`, so the model requires N_basis * D <= |basisInds|. That holds when the mask selects every component of every basis point.
- ComputeH: the source's middle loop runs `b` over N_data * D flat indices but compares `b` with a point index, so only `b` equal to a basis point index ever contributes. The model keeps this literally and proves it (`HMiddleCollapses`, `HVectorDirect`). The entries therefore sum over the basis points, not over all data points; the code marks itself as work in progress, so no correction is claimed.
- ComputeH: requires at least one data point, for the division by N_data.
- SubsampleGmmFromGmn: the source's premise that the basis is the data is what makes a data point index and a basis point index name the same point. The model states the cell identity on indices, where it holds without that premise.
- BasisIndsFromMask: membership of the result (exactly the true positions) is stated by `BasisSpec.MaskedPositionsSpec` on `MaskedPositions`, which the method's result equals. The method does not repeat it.
- Hessian: states that its diagonal is hessian_diag only for strictly increasing basis indices, which both constructors establish; HessianDiag and GradVectorByDot carry the same premise.
