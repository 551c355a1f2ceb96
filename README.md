# MatGSO exact bookkeeping

fplll's `MatGSO` keeps a Gram–Schmidt orthogonalisation of an integer
lattice basis `b`. The orthogonalisation coefficients `mu` and `r` are
floating point, but a large part of the object is exact integer and index
bookkeeping. This project models that part and proves what it promises:

- **The integer Gram matrix `g`** (option `enableIntGram`). Only its lower
  triangle is stored, and it is read symmetrically (`symG`).
  - `discoverRow` fills it with dot products.
  - The five row operations `b_i <- b_i + c b_j` update it in closed form.
  - `rowSwap`, `moveRow` and `sizeIncreased` re-index or grow it.
  - The invariant proved: `g` is the Gram matrix of the known rows over the
    known columns (`Gram.ExactGram`). Known rows are zero beyond the known
    columns, and the other rows are zero beyond their `initRowSize`.
- **The validity and discovery state machine.**
  - State: the cursors `gsoValidCols`, `nKnownRows`, `nSourceRows`,
    `nKnownCols`, `colsLocked`, `allocDim` and `initRowSize`.
  - Behaviour covered: how `invalidateGSORow`, `rowOpEnd`, `discoverRow`,
    `updateGSORow`, `moveRow`, `lockCols`, `unlockCols` and `sizeIncreased`
    move them.
- **The transforms `u` and `uInvT`.** They receive the same elementary
  operations as `b`, with the opposite sign on `uInvT`. The lemmas prove
  that this keeps `u uInvT^T = I`, and `b = u B0` over the full row width
  as long as the added row `b_j` is zero beyond the known columns.
- **The staleness of the floating-point Gram matrix `gf`** (without
  `enableIntGram`). It is a matrix of booleans `gfStale`; `true` stands for
  the NaN the source writes. Invalidation sets marks; the `getGram` reads
  of `updateGSORow` clear the marks of the entries they compute.
- **The integer block count of `get_slide_potential`.**

Modules:
- `Vectors`: dot products, `addmul` on a prefix, `sizeNZ`, powers of two.
- `Reindex`: transpositions and rotations of rows, and their agreement
  with `std::rotate`.
- `Validity`: the cursor vector each operation produces.
- `Gram`: what each operation does to `g`, and why `g` stays exact.
- `Transform`: the transform pair, and the 64-bit `long` negation.
- `RowOps`: the `row_addmul_we` dispatcher.
- `Metrics`: C++ truncating division and the slide block count.
- `GSO`: the class `MatGSO`. Its `seq` fields are reassigned by methods
  that follow the source's loops. `Consistent()` is the invariant that
  every operation keeps.

`Valid()` asks for a row length `n >= 1`: `initRowSize` entries are
`max(sizeNZ, 1)`, which would exceed a row length of 0.

## Model

| member | source | states |
|---|---|---|
| Vectors.Dot | fplll/gso.cpp:93 | dotProduct over the first nKnownCols entries: zero when the first row is zero on them |
| Vectors.DotSelf | fplll/gso.cpp:93 | a squared norm computed by dotProduct is non-negative, and zero only for a row that is zero on the entries summed |
| Vectors.SizeNZ | fplll/gso.cpp:464 | sizeNZ: at most the row length, the row is zero from it on, and the entry just before it is non-zero |
| Gram.Sym | fplll/gso.cpp:235 | symG reads only the stored lower triangle: g(a, e) for e <= a, g(e, a) otherwise |
| Validity.Lower | fplll/gso.cpp:25-29 | invalidateGSORow never raises the cursor: it becomes the old value or the bound, whichever is lower, and no other row changes |
| GSO.MatGSO.InvalidateGSORow | fplll/gso.cpp:25-29 | with 0 <= newValidCols <= i + 1 and i known, the cursor of row i becomes min(old, newValidCols) and the object stays consistent |
| GSO.MatGSO.InvalidateGramRow | fplll/gso.cpp:53-56 | exactly the gf entries (i, 0..i) become stale |
| GSO.MatGSO.InvalidateGramColumn | fplll/gso.cpp:68-69 | exactly the gf entries (i+1..m-1, i) become stale |
| GSO.RowOpStaleStep | fplll/gso.cpp:64-70 | marking row i and its column extends what rowOpEnd has marked for rows first..i-1 to rows first..i |
| GSO.MatGSO.RowOpEndRow | fplll/gso.cpp:65-71 | one round of the first loop: cursor i drops to 0, the gf marks grow by row i, the state stays consistent |
| GSO.MatGSO.RowOpEndTouched | fplll/gso.cpp:64-72 | after the first loop, rows first..last-1 have been lowered to 0 in order, and without int-Gram exactly their gf rows and columns are stale |
| GSO.MatGSO.InvalidateRowsFrom | fplll/gso.cpp:73-75 | every known row from start on is lowered to the bound, in order; consistency is kept |
| GSO.MatGSO.RowOpEnd | fplll/gso.cpp:59-76 | the cursors become RowOpEndCursors of the old ones; gf staleness as above; g unchanged; consistency kept |
| Validity.LowerFromBounds | fplll/gso.cpp:73-75 | a run of invalidateGSORow(k, bound) over lo <= k < hi raises no cursor, caps those rows at the bound and leaves every other row alone |
| Validity.RowOpEndCursors | fplll/gso.cpp:64-75 | the cursor vector after rowOpEnd: no cursor goes up, the known rows from first on are capped at first, rows before first and unknown rows keep theirs |
| Validity.RowOpEndEffect | fplll/gso.cpp:59-76 | after rowOpEnd rows first..last-1 have cursor 0, later known rows have min(old, first) <= first, rows before first and unknown rows keep theirs, and no cursor rises |
| Validity.RowOpEndKeepsBounded | fplll/gso.cpp:26-27 | rowOpEnd keeps every known cursor at most its row index plus one |
| GSO.MatGSO.FillGramRow | fplll/gso.cpp:92-93 | the loop sets g(i, j) to the dot product of b_i and b_j over nKnownCols, for j <= i, and nothing else |
| Gram.WithGramRow | fplll/gso.cpp:91-94 | filling row i of g changes no entry outside row i and the diagonal; if g was the Gram matrix of rows 0..i-1 over cols, it becomes that of rows 0..i |
| Gram.DiscoverExact | fplll/gso.cpp:91-94 | if g is the Gram matrix of rows 0..i-1 over fewer columns of which the extra ones are zero, the filled row makes it the Gram matrix of rows 0..i |
| Gram.DiscoverKeepsExact | fplll/gso.cpp:84-94 | discovering a row keeps the exact-Gram invariant, with one more known row and the widened columns |
| GSO.MatGSO.CountRow | fplll/gso.cpp:84-90 | nKnownRows grows by exactly one; unless locked, nSourceRows follows and nKnownCols becomes max(nKnownCols, initRowSize[i]); when locked both stay |
| GSO.MatGSO.DiscoverGram | fplll/gso.cpp:91-97 | with int-Gram row i of g is the dot products and g is exact for i + 1 rows; otherwise gf row i is stale |
| GSO.MatGSO.DiscoverRest | fplll/gso.cpp:91-98 | the Gram part, then the new row's cursor is 0; the state is consistent again |
| GSO.MatGSO.DiscoverRow | fplll/gso.cpp:79-99 | requires nKnownRows < d and !(colsLocked && enableIntGram); nKnownRows grows by one; the counters and cursor as in the source; g(i, j) = <b_i, b_j> for j <= i; consistency kept |
| GSO.Refresh | fplll/gso.cpp:152 | making gf entries fresh adds no stale mark and clears exactly the given entries |
| GSO.RefreshStep | fplll/gso.cpp:151-152 | one more getGram(i, j) clears entry (max(i, j), min(i, j)), extending the entries read for lo..j-1 to lo..j |
| GSO.StopIndex | fplll/gso.cpp:151-165 | the loop reads from j on at least up to j, one past the last j it reads |
| GSO.StopIndexFirst | fplll/gso.cpp:151-165 | with no non-finite mu below i the loop reads every j up to lastJ; otherwise it stops right after the first j below i whose mu is not finite |
| GSO.MatGSO.ReadGram | fplll/gso.cpp:152 | getGram(i, j) without int-Gram leaves the stored entry (max(i, j), min(i, j)) of gf fresh and every other mark as it was; with int-Gram the marks do not change |
| GSO.MatGSO.ReadGramRow | fplll/gso.cpp:151-165 | the loop reads up to StopIndex; it returns true exactly when no j below i in range has a non-finite mu, and the gf entries read are then fresh |
| GSO.MatGSO.UpdateKnownRow | fplll/gso.cpp:150-167 | for a known row: true exactly when no j below i in range has a non-finite mu; on success the cursor becomes max(0, cursor, lastJ + 1); without int-Gram exactly the gf entries read become fresh |
| GSO.MatGSO.UpdateGSORow | fplll/gso.cpp:140-168 | a row not yet known is discovered first, with the counters and g discoverRow gives; a known row leaves g and the counters alone; the result is true exactly when no j below i in range has a non-finite mu; on success the cursor becomes max(0, cursor, lastJ + 1), on failure it is untouched; without int-Gram the gf entries the loop read are fresh and the other marks are those after discovery |
| Gram.AddMulGram | fplll/gso.cpp:180-188 | the closed-form update changes only row and column i of the stored triangle |
| Gram.AddMulEntryExact | fplll/gso.cpp:180-188 | each entry of the updated triangle is the dot product of the updated rows |
| Gram.AddMulExact | fplll/gso.cpp:180-188 | if g is the Gram matrix before b_i <- b_i + c b_j, the closed-form update (diagonal first, from symG(i, j)) is the Gram matrix afterwards; for i == j this holds for the diagonal computed from the old g(i, i) |
| Gram.AddMulKeepsExact | fplll/gso.cpp:172-189 | the row operation keeps the whole exact-Gram invariant, the zero tails included |
| Gram.AddMulGramAsWritten | fplll/gso.cpp:181-188 | the update as written differs from the corrected one only in g(i, i), which reads g(i, j) |
| Gram.AsWrittenAgreesBelowDiagonal | fplll/gso.cpp:181-188 | for i > j the update as written is the corrected update |
| Gram.AsWrittenBreaksGram | fplll/gso.cpp:181-184 | for i < j the update as written leaves g(i, i) wrong: b = [[1], [1]], row 0 += row 1 gives 2 where the dot product is 4 |
| RowOps.ScaledDiagonal | fplll/gso.cpp:254-260 | for i != j, where g(j, j) is read before g(i, i) changes, the scaled diagonal update (x g(i,j)) 2^(e+1) + (x x g(j,j)) 2^(2e) equals 2 c g(i,j) + c^2 g(j,j) for c = x 2^e |
| Gram.AddMulDiagInOrder | fplll/gso.cpp:225-230 | the scaled diagonal update in the order written (also 254-260, 287-293): for i != j it is the update as written; for i == j the second term reads the updated g(i, i), giving (1 + 2c)(1 + c^2) g(i, i) |
| Gram.InOrderMisses | fplll/gso.cpp:225-230 | for i == j the exact diagonal is (1 + c)^2 g(i, i) and the order as written is off by 2 c^3 g(i, i), so it is wrong whenever c != 0 and g(i, i) != 0 |
| Gram.InOrderBreaksGram | fplll/gso.cpp:225-230 | b = [[1]], row_addmul_si(0, 0, -2): b_0 becomes [-1] of squared norm 1; the corrected update stores 1, the order as written -15 |
| GSO.MatGSO.AddMulVectors | fplll/gso.cpp:172-178 | b_i (first nKnownCols entries) and u_i get + c times row j; uInvT_j gets - c times row i; nothing else changes; for i != j the pair stays inverse |
| GSO.MatGSO.AddMulGramRow | fplll/gso.cpp:186-188 | the loop over k != i leaves g equal to the closed-form AddMulGram |
| GSO.MatGSO.AddMulRow | fplll/gso.cpp:172-189 | the shared body of the five row operations: afterwards b, u, uInvT and g are the updated values and consistency is kept (for the inverse pair only when i != j) |
| GSO.MatGSO.RowAdd | fplll/gso.cpp:172-190 | row_add is the row operation with c = 1 |
| GSO.MatGSO.RowSub | fplll/gso.cpp:193-211 | row_sub is the row operation with c = -1 |
| GSO.MatGSO.RowAddMulSi | fplll/gso.cpp:214-239 | row_addmul_si is the row operation with c = x |
| GSO.MatGSO.RowAddMulSi2Exp | fplll/gso.cpp:242-270 | row_addmul_si_2exp is the row operation with c = x 2^expo |
| GSO.MatGSO.RowAddMul2Exp | fplll/gso.cpp:273-303 | row_addmul_2exp is the row operation with c = x 2^expo for an arbitrary-precision x |
| RowOps.Dispatch | fplll/gso.cpp:309-325 | each of the six outcomes happens exactly under its condition on (expo, lx, rowOpForceLong) |
| RowOps.DispatchCoefficient | fplll/gso.cpp:311-325 | the multiple of b_j added is lx 2^expo, or zx 2^zexpo on the last branch |
| GSO.MatGSO.RowAddMulWe | fplll/gso.cpp:306-326 | lx == 0 with expo == 0 changes nothing; otherwise the chosen operation adds the dispatched coefficient; consistency kept |
| Transform.AddMulPair | fplll/gso.cpp:174-178 | only u_i and uInvT_j change |
| Transform.AddMulPairEntry | fplll/gso.cpp:174-178 | after the paired update, u_a . uInvT_e is still 1 on the diagonal and 0 elsewhere |
| Transform.AddMulKeepsInverse | fplll/gso.cpp:174-178 | for i != j, + c on u_i with - c on uInvT_j keeps u uInvT^T = I |
| Transform.AddMulKeepsProduct | fplll/gso.cpp:173-175 | the same operation on b (over the known columns) and on u keeps b = u B0 over the full row width, given that b_j is zero beyond the known columns |
| Transform.AddMulProductNeedsZeroTail | fplll/gso.cpp:173-175 | without that zero tail the full-width product breaks: B0 = u = b = I of size 2, b_0 += b_1 on one column gives b_0 = [1, 0] against u_0 B0 = [1, 1] |
| Transform.PermuteKeepsInverse | fplll/gso.cpp:359-363 | moving the rows of u and uInvT by the same re-indexing keeps u uInvT^T = I |
| Transform.PermuteKeepsProduct | fplll/gso.cpp:359-363 | moving the rows of b and u by the same re-indexing keeps b = u B0 |
| Transform.NegLong | fplll/gso.cpp:219 | C++ negation of a 64-bit long on a two's-complement machine: r + x is a multiple of 2^64 |
| Transform.NegLongUnique | fplll/gso.cpp:219 | that congruence determines the long r; r is the integer -x exactly when x != LONG_MIN |
| Transform.NegLongBreaksInverse | fplll/gso.cpp:216-219 | with x = LONG_MIN, negating x as written leaves u uInvT^T != I |
| GSO.MatGSO.SwapGramLeft | fplll/gso.cpp:336-337 | the first loop exchanges g(i, k) and g(j, k) for k < i |
| GSO.MatGSO.SwapGramMiddle | fplll/gso.cpp:338-339 | the second loop exchanges g(k, i) and g(j, k) for i < k < j |
| GSO.MatGSO.SwapGramBelow | fplll/gso.cpp:340-341 | the third loop exchanges g(k, i) and g(k, j) for j < k < nKnownRows |
| GSO.MatGSO.SwapGramRows | fplll/gso.cpp:336-342 | the three loops and the diagonal exchange give SwapGram of the old g |
| Gram.SwapGram | fplll/gso.cpp:336-342 | g after the three swap loops: every entry outside the rewritten ones keeps its value, and g(j, i) stays where it is |
| Gram.SwapExact | fplll/gso.cpp:336-342 | SwapGram is the Gram matrix of the basis with rows i and j swapped; g(j, i) and every entry outside rows and columns i, j keep their value |
| Gram.SwapKeepsExact | fplll/gso.cpp:329-345 | swapping two known rows keeps the exact-Gram invariant |
| GSO.MatGSO.SwapBasis | fplll/gso.cpp:331-334 | b and u have rows i and j exchanged |
| GSO.MatGSO.RowSwap | fplll/gso.cpp:329-345 | requires !enableInvTransform; b and u are transposed, g becomes SwapGram and, for known rows, the state stays consistent |
| Reindex.PermuteInverse | fplll/gso.cpp:355-356 | re-indexing by a rotation and then by its inverse gives back the sequence |
| Reindex.RotateRightIsStdRotate | fplll/gso.cpp:355-356 | the right rotation is std::rotate(first, last, last + 1) |
| Reindex.RotateLeftIsStdRotate | fplll/gso.cpp:379-380 | the left rotation is std::rotate(first, first + 1, last + 1) |
| GSO.MatGSO.RotateCursors | fplll/gso.cpp:355-356 | the cursors, and rowExpo when enabled, are re-indexed by the rotation |
| GSO.MatGSO.RotateBasis | fplll/gso.cpp:359-363 | b, u and uInvT are re-indexed by the rotation, as far as the options enable them, and the pair stays inverse |
| GSO.MatGSO.RotateGram | fplll/gso.cpp:365-368 | g (or the stale marks of gf) undergoes MoveGram |
| Gram.MoveGram | fplll/gso.cpp:364-396 | g after rotateGramRight / rotateGramLeft: unchanged when the row stays, and outside the known lower triangle nothing changes |
| Gram.MoveIndicesAgree | fplll/gso.cpp:389-391 | the Gram rotation over min(newR, nKnownRows - 1), as written, re-indexes the known rows like the row rotation |
| Gram.MoveRowGramExact | fplll/gso.cpp:389-391 | the rotated g is the Gram matrix of the rotated basis, over one row fewer when a known row leaves the known range |
| GSO.MoveRowKeepsExact | fplll/gso.cpp:389-408 | the whole exact-Gram invariant holds after the rotation, with the new known-row count and extents |
| GSO.MoveRowExtents | fplll/gso.cpp:401-408 | initRowSize after moveRow: unchanged unless the row moves down to newR >= nKnownRows; entries outside [oldR, newR] are kept; a known row that moves there gets an extent >= 1 beyond which it is zero |
| GSO.MoveRowExtentsBounded | fplll/gso.cpp:401-408 | the extents after moveRow stay between 0 and n |
| Validity.MoveRowKnown | fplll/gso.cpp:401-406 | the known-row count drops by one exactly when a known row moves past the known rows |
| Validity.MoveRowCursors | fplll/gso.cpp:350-380 | the cursor vector after moveRow: unchanged when the row stays; outside [min, max] of oldR and newR no cursor goes up, and rows before the range or unknown rows after it keep theirs |
| Validity.MoveRowCursorsEffect | fplll/gso.cpp:350-380 | after moveRow every known row at or after min(oldR, newR) has cursor <= min(oldR, newR); the moved row's cursor lands at newR; rows outside the range keep theirs |
| Validity.MoveRowKeepsBounded | fplll/gso.cpp:352-356 | moveRow keeps the cursor bound for the rows known afterwards |
| Validity.MoveRowKeepsNonNegative | fplll/gso.cpp:376-406 | the rows known after moveRow keep non-negative cursors |
| GSO.MatGSO.RotateRows | fplll/gso.cpp:355-373 | all the rotations together, each table re-indexed by MoveIndex |
| GSO.MatGSO.CapAndRotate | fplll/gso.cpp:350-398 | the cursors from min(oldR, newR) are capped, then everything rotates, and g is exact for the rows known afterwards |
| GSO.MatGSO.ShrinkKnownRows | fplll/gso.cpp:401-408 | initRowSize is rotated when newR >= nKnownRows; if the row was known, nKnownRows drops by one, nSourceRows follows, and initRowSize[newR] = max(sizeNZ(b[newR]), 1) |
| Reindex.PermuteTrivial | fplll/gso.cpp:350-375 | moving a row onto itself changes nothing |
| GSO.MatGSO.MoveRowApart | fplll/gso.cpp:350-410 | moveRow for oldR != newR: cursors, tables, counts and extents as stated for MoveRow |
| GSO.MatGSO.MoveRow | fplll/gso.cpp:348-411 | requires !colsLocked; cursors become MoveRowCursors, b, u, uInvT and rowExpo are rotated, g or gf undergoes MoveGram, counts become MoveRowKnown, and consistency is kept |
| GSO.MatGSO.LockCols | fplll/gso.cpp:414-416 | the columns are locked and the state stays consistent |
| GSO.MatGSO.UnlockCols | fplll/gso.cpp:419-422 | the rows discovered while locked stop being known: nKnownRows = nSourceRows, and the state is consistent |
| GSO.Resize | fplll/gso.cpp:455-459 | vector resize keeps the old entries and fills the new ones |
| GSO.ResizeSquare | fplll/gso.cpp:447-451 | matrix resize keeps the old block and fills the rest |
| GSO.MatGSO.Reallocate | fplll/gso.cpp:446-461 | g (or gf) and the per-row vectors grow to d entries and allocDim becomes d |
| GSO.MatGSO.SetNewExtents | fplll/gso.cpp:463-464 | each row from the old row count on gets extent max(sizeNZ, 1) |
| GSO.NewExtents | fplll/gso.cpp:463-464 | each row from the old row count on gets an extent >= 1 beyond which it is zero; the other entries are kept |
| GSO.NewExtentsBounded | fplll/gso.cpp:463-464 | the new extents stay between 1 and n |
| Gram.GrowKeepsGram | fplll/gso.cpp:447-448 | a grown g that keeps the old entries is still the Gram matrix of the known rows |
| GSO.GrowKeepsExact | fplll/gso.cpp:446-464 | growth keeps the exact-Gram invariant with the new extents |
| GSO.MatGSO.SizeIncreased | fplll/gso.cpp:443-470 | allocDim becomes max(allocDim, d); storage grows only when d > allocDim; new rows get their extents; and the state is consistent if it was exact before the rows were appended |
| Metrics.TruncDiv | fplll/gso.cpp:532 | C++ int division, truncating toward zero |
| Metrics.TruncMod | fplll/gso.cpp:533 | C++ % : a == (a / b) b + a % b, with the sign of a |
| Metrics.SlideBlockCount | fplll/gso.cpp:532-536 | for end > start, p blocks of blockSize fall short of end - start while p + 1 blocks cover it |
| Metrics.SlideBlockCountIsCeiling | fplll/gso.cpp:532-536 | for end >= start, p = ceil((end - start) / blockSize) - 1 |
| Metrics.SlideBlockCountEmpty | fplll/gso.cpp:532-537 | an empty or reversed range gives p <= 0, so the sum has no terms; start == end gives -1 |

## Left out

- The floating-point state: the values of `mu`, `r`, `bf` and `gf`, `updateBF` and the row exponents it computes (fplll/gso.cpp:32-50), and the numerical recurrence of `updateGSORow` (fplll/gso.cpp:151-163). `updateGSORow` takes, as a parameter, the set of `j` for which `mu(i, j)` would not be finite. `rowExpo` is only re-indexed.
- `getMaxGram`, `getMaxBstar`, `getMaxMuExp`, `get_current_slope`, `get_root_det`, `get_log_det` and the weighted sum of `get_slide_potential`: float comparison, `log` and `exp`. Only the integer block count `p` is modelled. Its loop calls `get_log_det(i*block_size, ...)` from row 0, not from `start_row`; the count does not depend on that.
- `applyTransform` (fplll/gso.cpp:425-440). It needs `createRows`, `removeLastRows` and a float `row_addmul`, which are not part of this model.
- `rowOpBegin`, `createRow(s)`, `removeLastRow(s)` and the constructor in `gso.h` are not part of this model. `SizeIncreased` starts from rows already appended to `b`, `u` and `uInvT` (`Appended()`). The Dafny constructor starts from an empty basis.
- Matrix::rotateGramLeft / rotateGramRight are not part of this model. `Gram.MoveGram` models their evident effect: the stored lower triangle of the known rows is re-indexed symmetrically, and the range is cut at `nKnownRows - 1` as at fplll/gso.cpp:391.
- GSO.MatGSO.SizeIncreased: the old row count is taken as `allocDim`; the source reads it from `mu.getRows()`, which `sizeIncreased` keeps equal to `allocDim`. New `gf` entries count as stale, and new `g` entries are 0. Consistency afterwards is stated under the condition that `g` was exact for the basis with the new rows appended.
- GSO.MatGSO.RowAdd, RowSub, RowAddMulSi, RowAddMulSi2Exp, RowAddMul2Exp: each requires `i < nKnownRows` and `j < nSourceRows`, the check `row_addmul_we` makes (fplll/gso.cpp:307); the operations themselves check nothing.
- GSO.MatGSO.AddMulRow: the inverse pair is kept only when `i != j`. For `i == j`, `u_i` is scaled by `1 + c` and `uInvT_i` by `1 - c`, so `u uInvT^T = I` fails. The source leaves the check `i > j` commented out (fplll/gso.cpp:307).
- GSO.MatGSO.RowAddMulSi, RowAddMulSi2Exp: the update of `uInvT` uses the mathematical `-x`. The 64-bit negation as written is `Transform.NegLong` (see Findings).
- GSO.MatGSO.RowAdd, RowSub, RowAddMulSi, RowAddMulSi2Exp, RowAddMul2Exp: the diagonal update reads `symG(i, j)`, not the stored `g(i, j)` of fplll/gso.cpp:182, 203, 225, 254, 287. The two differ when `i < j` (see Findings).
- GSO.MatGSO.RowAddMulSi: for `i == j` the model stores the exact diagonal `(1 + x)^2 g(i, i)`, computed from the old `g`. The source adds `x^2 g(j, j)` after `g(i, i)` has changed (fplll/gso.cpp:228-230), which gives `(1 + 2x)(1 + x^2) g(i, i)` (see Findings).
- GSO.MatGSO.RowAddMulSi2Exp: for `i == j` the model stores the exact diagonal computed from the old `g`; the source reads the updated `g(i, i)` at fplll/gso.cpp:257 (see Findings).
- GSO.MatGSO.RowAddMul2Exp: for `i == j` the model stores the exact diagonal computed from the old `g`; the source reads the updated `g(i, i)` at fplll/gso.cpp:290 (see Findings).
- GSO.MatGSO.RowAddMulWe: it dispatches to the row operations above, so for `i == j` it stores the exact diagonal where the source's scaled operations do not.
- When `ZT` is a machine `long`, overflow of `b`, `u` and `g` entries is not modelled. All of these are unbounded integers.
- The scaled loop step `symG(j, k) x 2^expo` is computed as one product `c symG(j, k)`. `RowOps.ScaledDiagonal` proves that the diagonal shift form is the same number.
- `expo` is a `nat`. The source's `long expo` is non-negative on these paths.
- GSO.MatGSO.RowSwap: requires `!enableInvTransform`, the source's debug check (fplll/gso.cpp:330), and also `i <= j`, which the source does not check. Its loops read the stored lower triangle only when `i <= j`; for `i > j` the first loop would exchange `g(i, j)` with `g(j, j)`. `uInvT` is not touched.
- getGram is declared in gso.h, which is not part of this model. GSO.MatGSO.ReadGram takes its evident effect on the stale marks: without int-Gram it reads the stored entry (max(i, j), min(i, j)) of gf, computes it when stale and leaves it fresh. The value it computes from `bf` is not modelled.
- GSO.MatGSO.UpdateGSORow: the debug check at fplll/gso.cpp:153 (every earlier row reached has an up-to-date cursor) is not a precondition. It guards the floating-point recurrence, which is not modelled.
- GSO.MatGSO.UpdateGSORow: the cursor bound `gsoValidCols[i] <= i + 1` is not part of `Consistent()`. updateGSORow allows any `lastJ < nSourceRows`, so the cursor can reach `lastJ + 1 > i + 1`.
- `b = u B0` is proved as lemmas (`Transform.AddMulKeepsProduct`, `Transform.PermuteKeepsProduct`). It is not part of `Consistent()`, because `B0` is not a field of the source. The row operations keep it over the full row width only when `b_j` is zero beyond `nKnownCols`; `Consistent()` records that zero tail (through `ExactGram`) only with int-Gram.
- Debug-only state (`rowOpFirst`, `rowOpLast`) and template instantiation.

## Findings

| source | as written | input that shows it | evidently intended | confidence | as-written member | corrected member |
|---|---|---|---|---|---|---|
| fplll/gso.cpp:182, 203, 225, 254, 287 | the diagonal update of `g(i, i)` reads the stored entry `g(i, j)` | i = 0 < j = 1, b = [[1], [1]], row_add(0, 1): g(0, 1) is the unmaintained upper triangle (0), so g(0, 0) becomes 2 instead of 4 | read `symG(i, j)`, as the loop over k does | medium (not executed) | Gram.AsWrittenBreaksGram | Gram.AddMulExact |
| fplll/gso.cpp:228, 257, 290 | with `i == j`, the second term `x^2 g(j, j)` of the diagonal update is read after `g(i, i)` has been changed | b = [[1]], row_addmul_si(0, 0, -2): b_0 becomes [-1] of squared norm 1, but g(0, 0) becomes (1 - 4)(1 + 4) = -15 | compute both terms from the old `g(i, i)`, as row_add and row_sub do, giving (1 + x)^2 g(i, i) | medium (not executed) | Gram.InOrderBreaksGram | Gram.AddMulExact |
| fplll/gso.cpp:219, 248 | `uInvT[j]` is updated with `-x` on a C++ `long` | x = LONG_MIN: `-x` overflows to LONG_MIN, so u_0 . uInvT_1 = 2 x instead of 0 | negate in arbitrary precision, as row_addmul_2exp does with `minusX.neg(x)` | low (not executed) | Transform.NegLongBreaksInverse | Transform.AddMulKeepsInverse |
