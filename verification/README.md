# DahuHunting core in Dafny

DahuHunting searches for Boolean functions of `l` variables that are both
resilient and algebraically immune. This project models the engine behind
that search:

- the bit and transform toolbox (`toolbox.py`);
- the annihilator solver (`annihilator.py`);
- the Reed–Muller matrices and the incremental algebraic-immunity verifier
  (`reedmuller.py`, `RSF_AI.py`);
- the plain Boolean-function object `BF` (`BF.py`);
- the rotation-orbit helpers (`RSF_toolbox.py`);
- the rotation-symmetric function object `RSF` (`RSF.py`).

The model proves properties about each of them.

Conventions of the model:

- A bit is a `bool`.
- A truth table, an ANF or a list of input bits is a `seq<bool>`. A Walsh
  spectrum is a `seq<int>`.
- Input vectors are MSB-first, as in `bool_list_to_integer`: `Bits.ToInt`
  and `Bits.FromInt` convert between the two.
- Integer bit operations (`popcount`, `x & m == m`, `^`) are recursive
  functions on the least significant bit.
- Python loops that build a value become a recursive specification function.
  Loops that carry the algorithmic interest (the counter, both butterflies,
  the elimination steps, the orbit and matrix builders, the feeding loop of
  `is_algebraic_immune`) are also methods with loop invariants. Each method
  is proved equal to its specification.
- Objects are immutable records. Each mutator is a function or method that
  returns the new record. This covers freshness flags, the verifier's
  counters and the one-entry Reed–Muller cache.
- Process-wide caches are either pure functions of their parameters
  (`representative_cover`) or an explicit cache value threaded through the
  calls (`get_reedmuller`).

Modules, one per file: `Bits`, `Sums` (finite XOR and integer sums),
`Counter`, `Toolbox`, `Butterfly`, `Rank`, `Monomials`, `Annihilators`,
`ReedMuller`, `AlgebraicImmunity`, `BooleanFunction`, `Rotation`,
`RotationSymmetric`, and `OrbitSpectra`. `OrbitSpectra` relates the
orbit-level conversions of `RSF` to the full transforms of the toolbox.
`AlgebraicImmunity.FullRunCertifies` relates the verifier's answer to
annihilators. A polynomial of degree below ai is its vector of coefficients
over the columns of RM(ai − 1, l). A full run with no false answer leaves
only the zero vector vanishing at all points of either value, so AI ≥ ai.

Where the documentation and the code disagree, the model follows the code:

- The docstring of `compute_representatives` gives an example index map in
  which every non-representative points to its representative. The code
  stores the last rotation, in rotation order, that is numerically smaller.
  That rotation need not be the representative: for `l = 3`, entry 6 is 5,
  and 5 is not a representative (`Rotation.TableIndexExample`).
- `RSF` signs a truth table as 0 ↦ +1 (RSF.py:156). `toolbox.sign` signs it
  as 0 ↦ −1 (toolbox.py:175). Both signs are modelled as written, so the two
  spectra differ by a global sign (`OrbitSpectra.SwsIsWalsh`).

## Model

| member | source | states |
|---|---|---|
| Bits.ToIntFromInt | toolbox.py:77-94 | reading the `n`-bit MSB-first vector of any `x < 2^n` gives back `x` |
| Bits.FromIntToInt | toolbox.py:77-94 | every bit list is the `n`-bit vector of its integer value, so the conversion is a bijection between lists of length n and [0, 2^n) |
| Bits.ToIntHead | toolbox.py:91-94 | the first list element is the most significant bit: it contributes `2^(n-1)` on top of the value of the rest |
| Bits.WeightIsPopcount | toolbox.py:77-94 | the number of ones in a list equals the popcount of its integer value |
| Bits.IncludesIsCovers | RSF_toolbox.py:106-130 | bitwise inclusion of lists is the integer test `x & m == m` on their values |
| Counter.NextValue | toolbox.py:41-57 | the next entry has the integer value of the current one plus one, and all ones wraps to zero |
| Counter.PreviousValue | toolbox.py:59-75 | the previous entry has the integer value minus one, and zero wraps to all ones |
| Counter.PreviousNext | toolbox.py:41-75 | stepping back after stepping forward restores the entry |
| Counter.NextPrevious | toolbox.py:41-75 | stepping forward after stepping back restores the entry |
| Counter.NextAllOnes | toolbox.py:24-57 | from the initial all-ones state the first `next_entry` yields all zeros |
| Counter.Enumeration | toolbox.py:15-57 | the k-th `next_entry` from the constructor's state is the vector of k−1, so 2^l calls enumerate the table in increasing order |
| Counter.Countdown | toolbox.py:38-75 | k calls of `previous_entry` from all ones give the vector of 2^l−1−k |
| Counter.NextEntry | toolbox.py:41-57 | the in-place loop (clear trailing ones, set the next zero) computes `Next` |
| Counter.PreviousEntry | toolbox.py:59-75 | the in-place loop (set trailing zeros, clear the next one) computes `Previous` |
| Toolbox.ComplementInvolution | toolbox.py:266-271 | complementing twice restores the vector |
| Toolbox.SignComplement | toolbox.py:158-176 | the sign of the complement is the opposite of the sign |
| Toolbox.XorVectorsCancel | toolbox.py:296-301 | xoring the same vector twice restores the first |
| Toolbox.OppositeInvolution | toolbox.py:273-277 | negating twice restores the vector |
| Toolbox.AddOpposite | toolbox.py:273-294 | adding a vector and then its opposite restores the first |
| Toolbox.XorMatricesCancel | toolbox.py:279-287 | xoring the same matrix twice restores the first |
| Toolbox.MoebiusInvolution | toolbox.py:208-233 | the Möbius transform applied twice returns its input |
| Toolbox.MoebiusSubsets | toolbox.py:208-233 | output u is the exclusive or of the inputs at every v whose set bits are a subset of u's |
| Toolbox.MoebiusLinear | toolbox.py:208-233 | the transform is GF(2)-linear: it maps the exclusive or of two tables to the exclusive or of their transforms |
| Toolbox.MoebiusTransform | toolbox.py:208-233 | the butterfly over a copy returns the subset-parity table and leaves the input unchanged |
| Toolbox.WalshSums | toolbox.py:178-206 | output u of the recursive Walsh butterfly is the sum over x of f[x]·(−1)^popcount(x & u) |
| Toolbox.WalshTransform | toolbox.py:178-206 | the butterfly over a copy returns that character sum at every u and leaves the input unchanged |
| Toolbox.WalshLinear | toolbox.py:178-206 | the Walsh transform maps the entrywise sum and difference of two tables to the sum and difference of their transforms |
| Toolbox.WalshInvolution | toolbox.py:178-206 | applied twice, the Walsh transform gives 2^l times its input at every index |
| Toolbox.Band | toolbox.py:235-264 | the indices below n whose popcount lies in [min, max], in increasing order |
| Toolbox.BandComplete | toolbox.py:235-264 | every index below n whose popcount lies in [min, max] is selected |
| Toolbox.TruncateDegree | toolbox.py:235-264 | the entries at exactly those indices, in index order |
| Toolbox.TruncateAll | toolbox.py:235-264 | a band covering every weight keeps the whole table |
| Toolbox.BandEmpty | toolbox.py:235-264 | an empty weight band (max < min) selects nothing |
| Toolbox.Permute | toolbox.py:303-329 | output bit i (MSB-first) is input bit `perm[i]`, and the result is below 2^n |
| Toolbox.PermuteBits | toolbox.py:303-329 | the same, read on the MSB-first vectors of input and output |
| Toolbox.PermuteWeight | toolbox.py:303-329 | when `perm` lists every variable once, permuting keeps the Hamming weight of every x < 2^n |
| Toolbox.PermuteExample | toolbox.py:308-313 | the documented example: permuting 9 by [0, 3, 1, 2] gives 12 |
| Toolbox.PermuteIdentity | toolbox.py:303-329 | the identity permutation fixes every x < 2^n |
| Toolbox.PermuteCompose | toolbox.py:303-329 | permuting by p and then by q is permuting by their composition |
| Toolbox.PermuteInverse | toolbox.py:303-329 | permuting by p and then by its inverse restores x, so a bijective `perm` permutes [0, 2^n) |
| Butterfly.Pass | toolbox.py:199-204 | one in-place pass over all blocks of width 2·divide applies the pair operation to every (e, e+divide) pair of each block |
| Butterfly.CombineBlock | toolbox.py:200-203 | the inner loop over one block of width 2·divide turns it into its pass output and leaves every entry outside the block unchanged |
| Butterfly.Transform | toolbox.py:178-233 | the passes with divide = 2^(l−1), …, 1 compute the recursive butterfly; this loop is shared by the Walsh and Möbius transforms |
| Rank.RankIncrease | toolbox.py:97-132 | only the last column changes, and the result is true iff the reduced last column is nonzero |
| Rank.ReduceIsCombination | toolbox.py:119-126 | the reduced column is the new column xored with a combination of the earlier columns |
| Rank.ReduceClearsPivots | toolbox.py:119-126 | the reduced column is zero at the leading one of every earlier column |
| Rank.RankIncreaseSpan | toolbox.py:97-132 | under the calling contract (earlier columns in echelon form), the answer is true iff the new column is outside their GF(2) span |
| Rank.RankIncreaseKeepsEchelon | toolbox.py:99-102 | after a true answer, the columns are again in echelon form, so the calling contract holds for the next call |
| Rank.EchelonIndependent | toolbox.py:99-102 | columns in echelon form are GF(2)-independent: only the empty selection of them sums to zero |
| Rank.Incremental | toolbox.py:97-132 | feeding columns one by one, each appended and tested as the calling contract requires, keeps the stored pivot columns in echelon form, one per true answer |
| Rank.IncrementalSpans | toolbox.py:97-132 | the stored pivot columns span exactly what the fed columns span, and answer i is true iff column i is outside the span of the columns fed before it |
| Rank.IncrementalRank | toolbox.py:99-102 | the number of true answers is the size of an independent set of pivot columns that spans the fed columns, that is, their rank |
| Rank.EchelonBound | toolbox.py:99-102 | at most n columns of length n are in echelon form, so the rank never exceeds the column length |
| Rank.EchelonFullSpans | toolbox.py:99-126 | n echelon columns of length n span every vector of length n: reduction against them leaves zero |
| Rank.FullRankOrthogonal | toolbox.py:99-126 | the only vector whose GF(2) product with each of n echelon columns of length n is zero is the zero vector |
| Monomials.EvalConcat | annihilator.py:17-38 | evaluating a concatenated monomial list is the exclusive or of evaluating the parts |
| Monomials.EvalIsMoebius | annihilator.py:17-38 | `evaluate_function(g, x)` is the Möbius transform of g's ANF table, read at x |
| Monomials.Sort | annihilator.py:53-54 | the sort is ordered and is a permutation of its input |
| Monomials.EvalSort | annihilator.py:53-54 | sorting does not change the function a list denotes |
| Monomials.Clean | annihilator.py:40-61 | the cleaned list is strictly increasing and is drawn from the input |
| Monomials.CleanOdd | annihilator.py:40-61 | a monomial is kept iff it occurs an odd number of times in the input |
| Monomials.CleanEval | annihilator.py:40-61 | cleaning does not change the value at any point |
| Monomials.TruncateAnnihilator | annihilator.py:172-201 | the result is sorted and holds exactly the monomials of popcount at least `degree` |
| Annihilators.MonomialsUpTo | annihilator.py:87-91 | the monomials below 2^l of popcount at most d, strictly increasing |
| Annihilators.MonomialsUpToComplete | annihilator.py:87-91 | every monomial below 2^l of popcount at most d is listed |
| Annihilators.MonomialList | annihilator.py:87-91 | the counter loop of the source lists exactly those monomials |
| Annihilators.SolveCorrect | annihilator.py:101-139 | the solver's stack stays triangular and drawn from the candidates, every entry vanishes on every point with f = 1, and stack size plus weight of f is at least the number of candidates |
| Annihilators.GetAnnihilators | annihilator.py:64-141 | every returned polynomial is non-empty and strictly increasing, their leading monomials strictly increase along the list, and each vanishes at every point where f is 1 |
| Annihilators.GetAnnihilatorsCorrect | annihilator.py:64-141 | in addition every monomial is below 2^l and of popcount at most d, and the count is at least the number of monomials of popcount at most d minus the weight of f |
| Annihilators.NegativeDegree | annihilator.py:64-141 | for d < 0 the result is empty: no monomial is a candidate, and the seed polynomial 1 is dropped at the first point where f is 1 |
| Annihilators.NoOnes | annihilator.py:96-99 | when f is never 1, each returned polynomial is one monomial, and every monomial of popcount at most d is returned alone |
| Annihilators.AnnihilatorTables | annihilator.py:64-141 | the truth table of every returned annihilator is zero wherever f is one |
| ReedMuller.CombinationsSorted | reedmuller.py:20-22 | the k-subsets come out in lexicographic order |
| ReedMuller.CombinationsComplete | reedmuller.py:20-22 | every increasing k-tuple of variables is listed |
| ReedMuller.CombinationsCount | reedmuller.py:20-22 | there are C(n, k) of them |
| ReedMuller.MonomialsSorted | reedmuller.py:20-22 | the columns are ordered by degree, then lexicographically |
| ReedMuller.MonomialsComplete | reedmuller.py:20-22 | every monomial of degree at most r is a column |
| ReedMuller.MonomialsCount | reedmuller.py:20-22 | the number of columns is the sum over i ≤ r of C(m, i) |
| ReedMuller.MonomialsConstant | reedmuller.py:20-22 | the first column is the empty monomial and no other column is empty |
| ReedMuller.ReedMullerShape | reedmuller.py:14-37 | RM(r, m) has 2^m rows of that many columns |
| ReedMuller.ReedMullerRow | reedmuller.py:25-35 | row k is the monomial row of the input whose MSB-first value is 2^m−1−k |
| ReedMuller.ReedMullerConstantColumn | reedmuller.py:29-33 | the empty-monomial column is all ones |
| ReedMuller.ReedMullerZeroRow | reedmuller.py:25-35 | the all-zero input's row has its only one in the empty-monomial column |
| ReedMuller.CellCovers | reedmuller.py:29-33 | a cell is one iff the row's input covers the monomial's variable mask |
| ReedMuller.GetReedMuller | RSF_AI.py:15-42 | from any reachable cache, the answer is RM(r, m) and the cache stays reachable |
| AlgebraicImmunity.NewVerifier | RSF_AI.py:60-88 | a new verifier has empty matrices, zero ranks, 2^l points remaining, and `rank_max` equal to the column count of RM(ai−1, l) |
| AlgebraicImmunity.Reset | RSF_AI.py:132-145 | reset empties both matrices, zeroes both ranks, restores 2^l remaining, and keeps l, ai, M_AI and `rank_max` |
| AlgebraicImmunity.CorrespondingLine | RSF_AI.py:90-92 | the line of input X is its monomial row over the monomials of degree at most ai−1 |
| AlgebraicImmunity.ValidBounds | RSF_AI.py:123-125 | at all times each rank is at most its matrix's length and at most `rank_max` |
| AlgebraicImmunity.AddLine | RSF_AI.py:114-130 | appending a line: one fewer remaining, one more line in `Mat[y]`, rank of side y up by one exactly when the line is outside the span of that side, the other side untouched, and the answer is whether the ranks plus the remaining points can still reach 2·`rank_max` |
| AlgebraicImmunity.CheckAndAdd | RSF_AI.py:94-130 | the same for the line of X, and the budget ranks + remaining never grows |
| AlgebraicImmunity.Run | RSF_AI.py:94-130 | feeding a list of points keeps the verifier valid and its target, consumes one remaining point per call, and never grows the budget |
| AlgebraicImmunity.RunMonotone | RSF_AI.py:127-130 | once `check_and_add` returns false, every later call returns false |
| AlgebraicImmunity.EnumerateInputs | RSF.py:358-360 | the counter loop produces the inputs 0, 1, …, 2^l−1 in increasing order |
| AlgebraicImmunity.Feed | RSF.py:358-363 | the feeding loop answers true iff every call of the run returns true, stopping at the first false; fed all expected points from an empty verifier, true leaves no nonzero polynomial of degree below ai that vanishes on either value |
| AlgebraicImmunity.RunOrthogonal | RSF_AI.py:114-125 | when a coefficient vector's polynomial vanishes at every point fed with value y, it stays orthogonal to every row stored for y, reduced rows included |
| AlgebraicImmunity.FullRunCertifies | RSF_AI.py:94-130 | a run over all expected points from empty matrices with no false answer certifies immunity: each rank reaches `rank_max`, so the only coefficients over RM(ai − 1, l) whose polynomial vanishes at all points of one value are zero |
| BooleanFunction.MonomialDegree | BF.py:78-85 | the degree recorded for x is popcount(x) |
| BooleanFunction.NewBF | BF.py:52-91 | the constructor leaves TT and ANF all zero and fresh and the WS stale |
| BooleanFunction.SetANF | BF.py:93-111 | only the ANF is fresh afterwards; the function it denotes is the Möbius transform of the new ANF |
| BooleanFunction.SetTT | BF.py:113-131 | only the TT is fresh afterwards; the function it denotes is the new TT |
| BooleanFunction.UpdateTTFromANF | BF.py:133-147 | only the TT changes, and from a fresh ANF it becomes the function's truth table |
| BooleanFunction.UpdateANFFromTT | BF.py:165-180 | only the ANF changes, and from a fresh TT it becomes an ANF whose transform is the function |
| BooleanFunction.UpdateWSFromTT | BF.py:149-163 | only the WS changes, and entry u becomes the Walsh sum of the signed TT at u |
| BooleanFunction.UpdateTT | BF.py:182-202 | afterwards the TT is fresh and equal to the current function, and ANF and WS are untouched |
| BooleanFunction.UpdateWS | BF.py:204-224 | afterwards the WS is fresh and equals the Walsh transform of the signed current function |
| BooleanFunction.UpdateANF | BF.py:226-245 | afterwards the ANF is fresh and its Möbius transform is the current function |
| BooleanFunction.UpdatesIdempotent | BF.py:182-245 | each `update_*` applied twice is the same as once |
| BooleanFunction.SetTTRoundTrip | BF.py:113-180 | after `set_TT(t)` and `update_ANF()` the ANF is the transform of t, and transforming it back gives t |
| BooleanFunction.GetANF | BF.py:383-409 | with (0, −1) the whole ANF; otherwise exactly the coefficients whose index popcount lies in [min, max], in index order |
| BooleanFunction.GetWalshSpectrum | BF.py:355-381 | the same selection on the Walsh spectrum |
| BooleanFunction.IsResilient | BF.py:411-430 | true iff the spectrum is zero at every index of popcount at most r |
| BooleanFunction.ResilientSpectrum | BF.py:411-430 | with a fresh spectrum, that is the vanishing of the Walsh sums of the current function |
| BooleanFunction.IsAlgebraicImmune | BF.py:432-456 | true for ai ≤ 0; when true, both f and its complement have weight at least the number of monomials of degree below ai |
| BooleanFunction.NotImmuneWitness | BF.py:432-456 | a false answer comes with a clean non-empty annihilator of degree below ai of f or of its complement |
| BooleanFunction.UpdateAnnihilators | BF.py:276-311 | only the two annihilator lists change, and each listed ANF's truth table vanishes where f is one (resp. zero) |
| BooleanFunction.GetAnnihilatorsFiltered | BF.py:313-353 | with bounds other than (0, −1), every stored annihilator is truncated to the degree band; the default (0, −1) has no result |
| BooleanFunction.TranslationMask | BF.py:511-514 | the mask is the MSB-first value of the translation vector |
| BooleanFunction.TranslateTwice | BF.py:494-525 | translating twice by the same vector restores the table |
| BooleanFunction.PermuteTwice | BF.py:458-492 | permuting by p and then by its inverse restores the table |
| BooleanFunction.Translate | BF.py:494-525 | as written: the TT is rewritten from the stored TT, left fresh, and ANF and WS are marked stale |
| BooleanFunction.TranslateNew | BF.py:494-525 | with `new_object`, the copy holds the translated table and the receiver is not touched |
| BooleanFunction.PermuteVariables | BF.py:458-492 | as written: the TT is rewritten from the stored TT, left fresh, and ANF and WS are marked stale |
| BooleanFunction.PermuteVariablesNew | BF.py:458-492 | with `new_object`, the copy holds the permuted table and the receiver is not touched |
| BooleanFunction.TranslateLosesANF | BF.py:494-525 | as written, a function last set through its ANF is translated from a stale TT |
| BooleanFunction.PermuteLosesANF | BF.py:458-492 | as written, a function last set through its ANF is permuted from a stale TT |
| BooleanFunction.TranslateCurrent | BF.py:494-525 | corrected: the translated function is the current function translated |
| BooleanFunction.TranslateCurrentTwice | BF.py:494-525 | corrected: translating twice by the same vector restores the function |
| BooleanFunction.PermuteCurrent | BF.py:458-492 | corrected: the permuted function is the current function permuted |
| BooleanFunction.PermuteCurrentTwice | BF.py:458-492 | corrected: permuting by p and then by its inverse restores the function |
| Rotation.RotateWeight | RSF_toolbox.py:132-158 | a rotation keeps the Hamming weight |
| Rotation.RotateRotate | RSF_toolbox.py:132-158 | rotations compose by adding their amounts modulo the length |
| Rotation.Period | RSF_toolbox.py:132-158 | the smallest positive rotation that fixes the vector |
| Rotation.VectorOrbit | RSF_toolbox.py:132-158 | the loop that rotates until v comes back produces that orbit |
| Rotation.OrbitComplete | RSF_toolbox.py:132-158 | every rotation of v is in its orbit |
| Rotation.OrbitDistinct | RSF_toolbox.py:132-158 | the orbit lists no rotation twice |
| Rotation.OrbitMembers | RSF_toolbox.py:132-158 | w is in the orbit of v iff w is a rotation of v |
| Rotation.RotateIntVector | RSF_toolbox.py:37-49 | the integer rotation of the index loop is the vector rotation read MSB-first |
| Rotation.SameOrbitReflexive | RSF_toolbox.py:37-49 | every index is in its own orbit |
| Rotation.SameOrbitSymmetric | RSF_toolbox.py:37-49 | being in one orbit is symmetric |
| Rotation.SameOrbitTransitive | RSF_toolbox.py:37-49 | being in one orbit is transitive |
| Rotation.RepresentativeUnique | RSF_toolbox.py:37-49 | an orbit has at most one representative |
| Rotation.RepresentativeExists | RSF_toolbox.py:37-49 | every index below 2^l has a representative in its orbit |
| Rotation.RepresentativesMembers | RSF_toolbox.py:37-50 | an index is in the list iff it is below 2^l and no rotation of it is smaller |
| Rotation.RepresentativesOrdered | RSF_toolbox.py:47-50 | the list is sorted by weight, then by value |
| Rotation.RepresentativesPermute | RSF_toolbox.py:47-50 | it is a rearrangement of the representatives found in increasing order |
| Rotation.OneRepresentativePerOrbit | RSF_toolbox.py:37-50 | every orbit has exactly one entry in the list |
| Rotation.LastSmallerSpec | RSF_toolbox.py:39-46 | the index loop finds no smaller rotation iff the index is a representative; otherwise what it keeps is in the same orbit |
| Rotation.TableIndex | RSF_toolbox.py:37-46 | the index map is −1 at a representative, and otherwise a strictly smaller index of the same orbit |
| Rotation.TableIndexExample | RSF_toolbox.py:31-46 | for l = 3 entry 6 is 5, which is not the representative 3 of its orbit |
| Rotation.TestEntry | RSF_toolbox.py:39-46 | the inner loop over the rotations decides representativeness and computes the index entry |
| Rotation.Enumerate | RSF_toolbox.py:37-50 | the outer loop finds the representatives in increasing order and fills the index map |
| Rotation.ComputeRepresentatives | RSF_toolbox.py:13-51 | the representatives as MSB-first vectors, sorted by weight, and the index map |
| Rotation.ExtremeRepresentatives | RSF_toolbox.py:13-51 | 0 and 2^l−1 are representatives |
| Rotation.FirstRepresentative | RSF_toolbox.py:13-51 | the first representative is 0 |
| Rotation.VectorInclude | RSF_toolbox.py:106-130 | true iff every set bit of v2 is set in v1 |
| Rotation.IncludeExamples | RSF_toolbox.py:109-110 | the two documented examples |
| Rotation.IncludesWeight | RSF_toolbox.py:106-130 | an included vector is no heavier, and of equal weight only when equal |
| Rotation.OrbitParity | RSF_toolbox.py:160-174 | the inner loop computes the parity of the orbit members included in a vector |
| Rotation.OrbitCharacters | RSF_toolbox.py:176-189 | the inner loop computes the sum over the orbit of (−1)^⟨u, w⟩ |
| Rotation.BuildSanfToStt | RSF_toolbox.py:160-174 | cell (i, j) is the parity of the members of orbit(rep_i) included in rep_j |
| Rotation.BuildSttToSws | RSF_toolbox.py:176-189 | cell (i, j) is the sum over w in orbit(rep_i) of (−1)^⟨rep_j, w⟩ |
| Rotation.SanfToSttTriangular | RSF_toolbox.py:160-174 | a cell is zero when rep_i is heavier than rep_j, so the matrix is triangular in weight order |
| Rotation.SanfToSttDiagonal | RSF_toolbox.py:160-174 | every diagonal cell is one |
| Rotation.SanfToSttZeroRow | RSF_toolbox.py:160-174 | the row of the all-zero representative is all ones |
| Rotation.SttToSwsColumns | RSF_toolbox.py:176-189 | every cell is bounded by the orbit size, and column 0 holds the orbit sizes |
| Rotation.AnyIncludedSpec | RSF_toolbox.py:234-236 | the cover loop is true iff some orbit member is included |
| Rotation.NoCoverUpward | RSF_toolbox.py:230-231 | for i ≠ j with rep_i no heavier than rep_j, no rotation of rep_j is included in rep_i |
| Rotation.CoverExact | RSF_toolbox.py:197-240 | `representative_cover` is true iff rep_i includes some rotation of rep_j, whatever the cache holds |
| Rotation.HammingZero | RSF_toolbox.py:243-264 | the distance is zero exactly on a matching prefix |
| Rotation.MinDistanceSpec | RSF_toolbox.py:243-264 | the running minimum is a lower bound of every distance and is attained |
| Rotation.DistanceSpec | RSF_toolbox.py:243-264 | the orbit distance is the least Hamming distance to a rotation of r1, lies in [0, len r1], and is zero iff r2 starts with a rotation of r1 |
| RotationSymmetric.RepOf | RSF.py:188-211 | the representative of an index is in its orbit and no larger |
| RotationSymmetric.OrbitOf | RSF.py:188-211 | the position in the list of the representative of an index's orbit |
| RotationSymmetric.OrbitOfSame | RSF.py:188-211 | indices of one orbit get one position |
| RotationSymmetric.ExpandCharacterization | RSF.py:188-211 | the expanded TT is the only table that takes STT[i] at rep_i and is constant on orbits |
| RotationSymmetric.ExpandRotationSymmetric | RSF.py:188-211 | the expanded TT is invariant under every rotation of its input |
| RotationSymmetric.CountByWeight | RSF.py:90-92 | entry w is the number of representatives of weight w |
| RotationSymmetric.NewRSF | RSF.py:53-94 | the constructor holds the representatives, zero tables, fresh SANF/STT/ANF/TT, a stale SWS, and a verifier for ai = ⌈l/2⌉ |
| RotationSymmetric.SetSanf | RSF.py:97-117 | only the SANF changes and it is fresh; STT, SWS, ANF and TT become stale |
| RotationSymmetric.SanfTimesMatrix | RSF.py:120-140 | the loop computes the exclusive or of the rows i of the matrix with SANF[i] set |
| RotationSymmetric.UpdateSttFromSanf | RSF.py:120-140 | the STT becomes the product of the SANF with `SANF_to_STT` and is fresh |
| RotationSymmetric.SttTimesMatrix | RSF.py:142-164 | the loop computes the sum over i of (1 − 2·STT[i])·row i |
| RotationSymmetric.UpdateSwsFromStt | RSF.py:142-164 | the SWS becomes the signed STT times `STT_to_SWS`, fresh when the STT was |
| RotationSymmetric.CopyRepresentatives | RSF.py:198-202 | the first pass puts STT[i] at every representative's index |
| RotationSymmetric.UpdateTtFromStt | RSF.py:188-211 | the propagation in increasing order along the index map yields the expanded TT |
| RotationSymmetric.UpdateStt | RSF.py:214-232 | the STT is fresh and determined by the SANF afterwards; a second call changes nothing |
| RotationSymmetric.UpdateSws | RSF.py:234-248 | the SWS is fresh and determined by the SANF afterwards; a second call changes nothing |
| RotationSymmetric.UpdateTt | RSF.py:250-264 | the TT is fresh and determined by the SANF afterwards; a second call changes nothing |
| RotationSymmetric.StopIsLight | RSF.py:294 | the sum of the counts of weights up to r is the length of the prefix of representatives of weight at most r |
| RotationSymmetric.NegativeResilience | RSF.py:294 | for r < −1 the slice end counts from the back of the list |
| RotationSymmetric.LeadingZeros | RSF.py:297-304 | the early-exit loop is true iff the first `stop` SWS entries vanish |
| RotationSymmetric.IsResilientOptimised | RSF.py:267-304 | as written: true iff the first `Stop(f, r)` SWS entries vanish; for r ≥ −1 that is iff the SWS is zero at every representative of weight at most r; only the STT is refreshed |
| RotationSymmetric.OptimisedBelowMinusOne | RSF.py:294 | as written, for r = −2 every function passes the test of `is_resilient`, while the optimised test checks at least the first SWS entry, so it rejects an unbalanced function |
| RotationSymmetric.IsResilientOptimisedClamped | RSF.py:267-304 | corrected: with the slice end clamped at 0, true iff the SWS is zero at every representative of weight at most r, for every r |
| RotationSymmetric.ScanLight | RSF.py:326-331 | the scan runs off the list (None) iff r ≥ l and the SWS is all zero; otherwise it is true iff the SWS vanishes at every representative of weight at most r |
| RotationSymmetric.IsResilient | RSF.py:307-331 | the index error (None) happens iff r ≥ l and the SWS is all zero, which `OrbitSpectra.SwsNonzero` rules out; every other answer is true iff the SWS vanishes at every representative of weight at most r, as `is_resilient_optimised` decides for r ≥ −1 |
| RotationSymmetric.StartVerifier | RSF.py:349-352 | the verifier is fresh for target ai, whether it was rebuilt or reset |
| RotationSymmetric.WithVerifier | RSF.py:349-352 | storing the verifier keeps every representation and flag |
| RotationSymmetric.IsAlgebraicImmune | RSF.py:333-363 | true iff `check_and_add` returns true for all 2^l pairs (x, TT[x]), fed in increasing x order to a fresh verifier for ai, and then no nonzero polynomial of degree below ai annihilates the function or its complement (AI ≥ ai); the TT is fresh afterwards |
| OrbitSpectra.DotIsAndPop | RSF_toolbox.py:176-189 | the scalar product of two bit lists in the exponent of `build_STT_to_SWS` is the popcount of the AND of their integer values |
| OrbitSpectra.CoversRotate | RSF_toolbox.py:106-130 | rotating both integers by the same amount keeps the inclusion test `x & m == m` |
| OrbitSpectra.AndPopRotate | toolbox.py:178-206 | rotating both integers by the same amount keeps popcount(x & u), the exponent of the Walsh character |
| OrbitSpectra.SanfToSttCovered | RSF_toolbox.py:160-174 | cell (i, j) is the parity, over all 2^l points, of the points of orbit i whose bits are among rep_j's |
| OrbitSpectra.SttToSwsCharacters | RSF_toolbox.py:176-189 | cell (i, j) is the sum, over all 2^l points of orbit i, of (−1)^popcount(x & rep_j) |
| OrbitSpectra.MoebiusRotationSymmetric | toolbox.py:208-233 | the Möbius transform of a rotation-symmetric table is rotation symmetric |
| OrbitSpectra.WalshRotationSymmetric | toolbox.py:178-206 | the Walsh transform of a rotation-symmetric table is rotation symmetric |
| OrbitSpectra.SttIsMoebius | RSF.py:120-140 | entry j of the SANF times `SANF_to_STT` is the Möbius transform of the expanded ANF at rep_j |
| OrbitSpectra.TtIsMoebius | RSF.py:188-211 | the truth table expanded from that STT is, at every point, the Möbius transform of the expanded ANF |
| OrbitSpectra.SwsIsWalsh | RSF.py:142-164 | entry j of the signed STT times `STT_to_SWS` is minus the Walsh transform of `sign` of the expanded truth table at rep_j |
| OrbitSpectra.WalshAtOrbit | RSF.py:142-164 | the Walsh sum of the signed truth table at any point is minus the SWS entry of its orbit, whose representative has the same weight |
| OrbitSpectra.ResilientAgrees | RSF.py:307-331 | the orbit-level test, the SWS vanishing at every representative of weight at most r, holds iff the test `BF.is_resilient` makes on the full spectrum of the expanded function holds |
| OrbitSpectra.SwsNonzero | RSF.py:326-331 | some SWS entry is nonzero for every SANF, so the scan of `is_resilient` stops inside the list even for r ≥ l |

## Left out

- Pretty printing is not modelled: `BF.string_ANF`, `RSF.update_ANF_from_SANF`, `representative_to_ANF`, `annihilator_to_ANF` and `toolbox.moebius_poly`. These only build display strings. `moebius_poly` also calls `Truth_table_entry()` without its argument (toolbox.py:139).
- The default branch of `BF.get_annihilators` reads `self.annihilators_basis`, which does not exist (BF.py:333). `BooleanFunction.GetAnnihilatorsFiltered` returns `None` there.
- Annihilators.GetAnnihilatorsCorrect: proves soundness, degree, clean form and the counting bound. It does not prove that the results are independent and span every annihilator of degree at most d. The spanning half would need a second stack invariant: every polynomial over the monomials pushed so far that vanishes at the ones of f seen so far is a sum of stack entries. Stack entries are cleaned monomial lists, so that invariant needs a theory of sums of such lists (symmetric differences through `clean_monomials`), which the model does not build.
- BooleanFunction.IsAlgebraicImmune: a false answer comes with an annihilator of degree below ai (`NotImmuneWitness`). A true answer is shown only to imply the two weight bounds, not that f and f + 1 have no nonzero annihilator of degree below ai. That direction needs the spanning half of `get_annihilators`, which is not proved (previous line).
- RotationSymmetric.IsAlgebraicImmune: a true answer is proved to certify AI ≥ ai, through `AlgebraicImmunity.Feed` and `AlgebraicImmunity.FullRunCertifies`. The converse is not proved: a false answer does not come with an annihilator of degree below ai. That would need an explicit nonzero vector orthogonal to a rank-deficient echelon list, built by back substitution, which the model does not construct. Agreement with `BooleanFunction.IsAlgebraicImmune` is not proved either, since neither test is proved complete.
- The search drivers `find_BF.py` and `find_RSF.py` and the script `example.py` are not part of this model. They do file I/O, timing and printing.
- `Truth_table_entry` with locality 0 reads `current[-1]` of an empty list. Every member built on the counter therefore requires l ≥ 1.
- The module-level cache of `get_reedmuller` is an explicit `Cache` value. The cache of `representative_cover` is a pure function. Memoisation, sharing between objects and threads are not modelled.
- Python aliasing is not modelled: `set_SANF` keeps the caller's list, and `deepcopy` is used for `new_object`. The model uses value semantics.
- AlgebraicImmunity.EnumerateInputs: produces the 2^l inputs before feeding them. The source generates them lazily in the same loop. The order, the stopping point and the answer are the same.
- Floating point, I/O and printing do not occur in the modelled core.

## Findings

| source | as written | input that shows it | evidently intended | confidence | as-written member | corrected member |
|---|---|---|---|---|---|---|
| BF.py:458-525 | `translate` and `permute` rewrite `self.TT` without first calling `update_TT()`. When the function was last set through `set_ANF`, the stored TT is stale, and the result ignores the current function. | the constant-one function of one variable set through `set_ANF([1, 0])`, then `translate([1])` or `permute([0])`: entry 0 becomes 0 instead of 1 | translate or permute the current function (refresh the TT first) | not executed | BooleanFunction.TranslateLosesANF | BooleanFunction.TranslateCurrent |
| BF.py:458-492 | as above, for `permute` | as above | as above | not executed | BooleanFunction.PermuteLosesANF | BooleanFunction.PermuteCurrent |
| RSF.py:294 | the number of SWS entries `is_resilient_optimised` checks is the sum of the per-weight counts over the slice ending at r + 1. For r < −1 that end is negative and counts from the back, so the weights up to l + 1 + r are checked | r = −2 and an unbalanced function (SWS entry 0 nonzero): `is_resilient_optimised(-2)` is False while `is_resilient(-2)` is True | check no entry for r < −1, as `is_resilient` does (clamp the slice end at 0) | not executed | RotationSymmetric.OptimisedBelowMinusOne | RotationSymmetric.IsResilientOptimisedClamped |
