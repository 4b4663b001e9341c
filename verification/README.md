# LAMBDA / MLAMBDA integer ambiguity resolution, modelled in Dafny

This project models the integer ambiguity resolution of RTKLIB as carried
in `lambda.cpp`. Given float carrier-phase ambiguities `a` and their
covariance `Q`, it finds the `m` integer vectors of least weighted distance.
It then decides, by a ratio test with a critical value taken from
fixed-failure-rate tables, whether the best one can be trusted. The stages
are:

- `LD`: the factorisation `Q = L' * diag(D) * L`, with L unit lower
  triangular (module `Factorization`, `factorization.dfy`).
- `gauss`, `perm` and `reduction`: the LAMBDA decorrelation. Integer Gauss
  transformations and variable swaps are accumulated in an integer matrix Z
  (module `Decorrelation`, `decorrelation.dfy`).
- `search`: the MLAMBDA depth-first enumeration with shrinking bound. It
  keeps the `m` cheapest integer vectors and then sorts them by cost
  (module `IntegerSearch`, `search.dfy`).
- `rsort`, `ffratio` and the ratio test: validation (module `Validation`,
  `validation.dfy`).
- `lambda`: the chain of all of the above (module `Ambiguity`,
  `lambda.dfy`). Shared definitions (matrices, `ROUND`, `SGN`, `SWAP`) are
  in `common.dfy`.

`ROUND`, `SGN` and `SWAP` are macros of `common.hpp`, which is not part of
this model. They are taken with RTKLIB's usual definitions:
`ROUND(x) = (int)floor(x + 0.5)`, `SGN(x) = x <= 0 ? -1 : 1`, and `SWAP`
exchanging two places. The `(int)` cast of `ROUND` is modelled as an
unbounded integer, so a float ambiguity beyond the 32-bit range is not
modelled as overflowing.

Doubles are modelled as mathematical reals. Matrices are two-dimensional
arrays: element `(r, c)` is the source's flat column-major `r + c*n`.
`Snapshot` reads an array back as a `seq<seq<real>>` value, and the
specification functions are stated on those values. The cost of an integer
vector is defined independently of the search. The search's arrays are
proved to hold, at every level, the centre, partial cost and pulls of that
definition (`LevelAt`). The search is also proved complete: when it ends
normally, every integer vector is either kept or costs at least the largest
kept cost (`Best`).

## Model

Rows marked "helper" are arithmetic or bookkeeping steps that the lemmas
above them rely on. They state no property of the source of their own.

| member | source | states |
|---|---|---|
| Common.Round | Bulan_Main/src/cpp/rtklib/lambda.cpp:245 | `ROUND(x)` is the nearest integer, halves upwards: `x - 1/2 < r <= x + 1/2` |
| Common.RoundReal | Bulan_Main/src/cpp/rtklib/lambda.cpp:319 | `ROUND` kept as a double is an integer within 1/2 of x |
| Common.Sgn | Bulan_Main/src/cpp/rtklib/lambda.cpp:321 | `SGN(x)` is ±1 and is +1 exactly when x > 0 |
| Common.Swapped | Bulan_Main/src/cpp/rtklib/lambda.cpp:368 | `SWAP` exchanges the two places and leaves every other place alone |
| Common.SwappedPermutes | Bulan_Main/src/cpp/rtklib/lambda.cpp:368 | an exchange keeps the multiset of entries |
| Factorization.GramFrame | Bulan_Main/src/cpp/rtklib/lambda.cpp:228-235 | an entry of `L' diag(D) L` summed from row `from` depends only on those rows of L and D |
| Factorization.GramFromDiagonal | Bulan_Main/src/cpp/rtklib/lambda.cpp:232-234 | for unit lower triangular L, rows above r add nothing to entry (r, c) |
| Factorization.GramSymmetric | Bulan_Main/src/cpp/rtklib/lambda.cpp:233 | `L' diag(D) L` is symmetric, so reading only the lower triangle of Q suffices |
| Factorization.DivSelf | Bulan_Main/src/cpp/rtklib/lambda.cpp:234 | helper: a nonzero pivot divided by itself is 1, the unit diagonal of L |
| Factorization.PivotKeepsFactorisation | Bulan_Main/src/cpp/rtklib/lambda.cpp:230 | the pivot `D[i]` is what `Q[i][i]` lacks after the rows below i, and setting it keeps the rows below factorised |
| Factorization.StepKeepsRowsBelow | Bulan_Main/src/cpp/rtklib/lambda.cpp:232-234 | one elimination step leaves the already factorised rows factorised |
| Factorization.StepFactorsRow | Bulan_Main/src/cpp/rtklib/lambda.cpp:232-234 | with a positive pivot, the new row i of L makes row i of Q equal to row i of `L' diag(D) L` |
| Factorization.StepKeepsRemaining | Bulan_Main/src/cpp/rtklib/lambda.cpp:233 | after the outer-product update, the working matrix holds exactly what rows 0..i-1 of Q still lack |
| Factorization.StepKeepsFactorisation | Bulan_Main/src/cpp/rtklib/lambda.cpp:228-235 | the loop invariant of LD: the factorised part grows by one row per step |
| Factorization.FactoredIsProduct | Bulan_Main/src/cpp/rtklib/lambda.cpp:222-239 | for symmetric Q, a completed factorisation gives `Q = L' diag(D) L` in every entry |
| Factorization.StepSetsRow | Bulan_Main/src/cpp/rtklib/lambda.cpp:230-234 | a step with a positive pivot sets row i of L, with a unit diagonal, and pivot i, extending the rows and pivots already set |
| Factorization.SetRow | Bulan_Main/src/cpp/rtklib/lambda.cpp:232-234 | row i of L up to the diagonal becomes row i of A divided by the pivot; nothing else changes |
| Factorization.TakeOffRow | Bulan_Main/src/cpp/rtklib/lambda.cpp:233 | the weighted outer product of row i is taken off the lower triangle of the block 0..i-1 |
| Factorization.LD | Bulan_Main/src/cpp/rtklib/lambda.cpp:222-239 | info is 0 or -1, and 0 exactly when every pivot is positive; on success L has a unit diagonal and `Q = L' diag(D) L` on the lower triangle; on failure the first non-positive pivot p is the true remaining diagonal of Q and the rows below p are factorised |
| Decorrelation.ColumnOpZero | Bulan_Main/src/cpp/rtklib/lambda.cpp:245 | a zero multiplier changes nothing, so skipping mu = 0 is sound |
| Decorrelation.ColumnOpInverse | Bulan_Main/src/cpp/rtklib/lambda.cpp:247-248 | a Gauss transformation is undone by the one with -mu |
| Decorrelation.IntegerCombination | Bulan_Main/src/cpp/rtklib/lambda.cpp:248 | helper: integer minus integer times integer is an integer |
| Decorrelation.ColumnOpKeepsIntegral | Bulan_Main/src/cpp/rtklib/lambda.cpp:248 | an integer Gauss transformation keeps Z integer |
| Decorrelation.GaussReduces | Bulan_Main/src/cpp/rtklib/lambda.cpp:245-247 | after `gauss(i, j)` on a unit diagonal, `L[i][j]` lies in [-1/2, 1/2) |
| Decorrelation.GaussKeepsUnitLower | Bulan_Main/src/cpp/rtklib/lambda.cpp:247 | a Gauss transformation below the diagonal keeps L unit lower triangular |
| Decorrelation.SwapColumnsInvolution | Bulan_Main/src/cpp/rtklib/lambda.cpp:267-268 | exchanging two columns twice restores the matrix |
| Decorrelation.SwapColumnsKeepsIntegral | Bulan_Main/src/cpp/rtklib/lambda.cpp:268 | exchanging columns keeps Z integer |
| Decorrelation.PermDKeepsProduct | Bulan_Main/src/cpp/rtklib/lambda.cpp:257-259 | `perm` keeps `D[j] * D[j+1]` and sets `D[j+1]` to del |
| Decorrelation.PermDPositive | Bulan_Main/src/cpp/rtklib/lambda.cpp:257-259 | with del > 0, positive pivots stay positive |
| Decorrelation.PermKeepsUnitLower | Bulan_Main/src/cpp/rtklib/lambda.cpp:260-267 | `perm` keeps L unit lower triangular |
| Decorrelation.SubtractColumn | Bulan_Main/src/cpp/rtklib/lambda.cpp:247-248 | the array afterwards equals `ColumnOp` of its old value |
| Decorrelation.SwapColumnEntries | Bulan_Main/src/cpp/rtklib/lambda.cpp:267-268 | the array afterwards equals `SwapColumnsFrom` of its old value |
| Decorrelation.Gauss | Bulan_Main/src/cpp/rtklib/lambda.cpp:241-250 | L (rows i..n-1) and Z (all rows) lose `ROUND(L[i][j])` times column i from column j |
| Decorrelation.MixRows | Bulan_Main/src/cpp/rtklib/lambda.cpp:260-266 | rows j and j+1 of L are recombined with eta and lam as in `Mixed` |
| Decorrelation.PermLStages | Bulan_Main/src/cpp/rtklib/lambda.cpp:257-267 | the recombination and the column exchange compose to `PermL`, with the weights taken before D changes |
| Decorrelation.Perm | Bulan_Main/src/cpp/rtklib/lambda.cpp:252-269 | D becomes `PermD`, L becomes `PermL` and columns j, j+1 of Z are exchanged |
| Decorrelation.NoSwapPendingFrame | Bulan_Main/src/cpp/rtklib/lambda.cpp:279-283 | size-reducing column j does not disturb the swap tests already passed above j |
| Decorrelation.SquareWeightNonNegative | Bulan_Main/src/cpp/rtklib/lambda.cpp:282 | helper: `L[j+1][j]^2 * D[j+1] >= 0`, so del is positive when D is |
| Decorrelation.SizeReducedKeeps | Bulan_Main/src/cpp/rtklib/lambda.cpp:280-281 | the sweep of `gauss(i, j)` from row `from` down keeps L unit lower triangular and Z integer, leaves L outside column j (and above `from`) alone, and leaves every entry of column j from `from` down in [-1/2, 1/2) |
| Decorrelation.SizeReducedStep | Bulan_Main/src/cpp/rtklib/lambda.cpp:280-281 | helper: the sweep from row i is `gauss(i, j)` followed by the sweep from row i+1 |
| Decorrelation.ReduceColumn | Bulan_Main/src/cpp/rtklib/lambda.cpp:279-281 | L and Z afterwards are exactly the sweep `SizeReduced` of their old values over rows j+1..n-1; hence every entry below the diagonal of column j lies in [-1/2, 1/2), the other columns of L are untouched, L stays unit lower triangular and Z integer |
| Decorrelation.ReduceBelowSwaps | Bulan_Main/src/cpp/rtklib/lambda.cpp:279-283 | size-reducing column j inside the sweep keeps L unit lower triangular and Z integer and keeps passed every swap test above j |
| Decorrelation.SwapPivots | Bulan_Main/src/cpp/rtklib/lambda.cpp:282-285 | `perm(j)` with a positive del keeps the pivots positive, L unit lower triangular and Z integer, and sets `D[j+1]` to del |
| Decorrelation.Reduction | Bulan_Main/src/cpp/rtklib/lambda.cpp:271-290 | D stays positive, L unit lower triangular and Z integer; `done` is true exactly when, at the end, no swap test `del + 1E-6 < D[j+1]` succeeds at any j |
| IntegerSearch.PullFrame | Bulan_Main/src/cpp/rtklib/lambda.cpp:317 | the pull of the levels above depends only on their integers |
| IntegerSearch.CentreFrame | Bulan_Main/src/cpp/rtklib/lambda.cpp:318 | the centre of a level depends only on the integers above it |
| IntegerSearch.PartialCostFrame | Bulan_Main/src/cpp/rtklib/lambda.cpp:310 | the partial cost of levels k..n-1 depends only on z[k..n-1] |
| IntegerSearch.PartialCostMonotone | Bulan_Main/src/cpp/rtklib/lambda.cpp:310-311 | partial costs only grow while descending, since each level adds a non-negative term |
| IntegerSearch.CompletionCostsAtLeast | Bulan_Main/src/cpp/rtklib/lambda.cpp:311 | pruning is sound: every completion of a partial vector costs at least its partial cost |
| IntegerSearch.ZigStepNext | Bulan_Main/src/cpp/rtklib/lambda.cpp:348 | the step never is 0, has magnitude t+1, flips its sign at every update and is updated by `-step - SGN(step)` |
| IntegerSearch.ZigOffsetClosedForm | Bulan_Main/src/cpp/rtklib/lambda.cpp:346-348 | the trials sit at offsets 0, σ, -σ, 2σ, -2σ, … from the rounded centre |
| IntegerSearch.ZigOffsetInjective | Bulan_Main/src/cpp/rtklib/lambda.cpp:357-358 | no integer is tried twice at a level |
| IntegerSearch.ZigOffsetIntegral | Bulan_Main/src/cpp/rtklib/lambda.cpp:358 | every trial offset is an integer |
| IntegerSearch.TrialOfReaches | Bulan_Main/src/cpp/rtklib/lambda.cpp:346-348 | every integer is reached by the zig-zag around the rounded centre, at trial `TrialOf(c, x)` |
| IntegerSearch.TrialOfTrial | Bulan_Main/src/cpp/rtklib/lambda.cpp:346-348 | the integer of trial t is an integer reached at trial t and at no other |
| IntegerSearch.AlternatingNext | Bulan_Main/src/cpp/rtklib/lambda.cpp:348 | the next offset after x is 1 - x when x <= 0 and -x otherwise |
| IntegerSearch.NextOffsetFurther | Bulan_Main/src/cpp/rtklib/lambda.cpp:348 | for a centre offset a in [0, 1/2], the next offset lies no nearer a |
| IntegerSearch.AlternatingMovesOut | Bulan_Main/src/cpp/rtklib/lambda.cpp:346-348 | the offsets 0, 1, -1, 2, -2, … never come nearer a point a in [0, 1/2] |
| IntegerSearch.SquareGrows | Bulan_Main/src/cpp/rtklib/lambda.cpp:310 | helper: the nearer of two numbers to 0 has the smaller square |
| IntegerSearch.DivideKeepsOrder | Bulan_Main/src/cpp/rtklib/lambda.cpp:310 | helper: dividing by a positive weight keeps the order |
| IntegerSearch.WeightedGrows | Bulan_Main/src/cpp/rtklib/lambda.cpp:310 | a term `y*y/D` grows with the distance of y from 0 |
| IntegerSearch.TrialDistance | Bulan_Main/src/cpp/rtklib/lambda.cpp:319-321 | the distance of trial t from the centre is `|a - offset(t)|` for the fractional distance a in [0, 1/2] of the centre from its rounding |
| IntegerSearch.TrialsMoveOut | Bulan_Main/src/cpp/rtklib/lambda.cpp:346-358 | a later trial of a level adds no less to the cost of line 310 than an earlier one: the zig-zag tries integers in order of distance from the centre |
| IntegerSearch.LevelFrame | Bulan_Main/src/cpp/rtklib/lambda.cpp:346-358 | changing integers at or below level l keeps what level l records |
| IntegerSearch.NextTrial | Bulan_Main/src/cpp/rtklib/lambda.cpp:346-348 | moving level k to its next trial keeps every active level consistent |
| IntegerSearch.PullStep | Bulan_Main/src/cpp/rtklib/lambda.cpp:317 | a new entry of S is the stored pull plus the new level's own term |
| IntegerSearch.CentreStep | Bulan_Main/src/cpp/rtklib/lambda.cpp:318 | `zs[k] + S[k][k]` is the centre of level k |
| IntegerSearch.CostStep | Bulan_Main/src/cpp/rtklib/lambda.cpp:310 | `dist + y*y/D` is the partial cost one level further |
| IntegerSearch.DescendPulls | Bulan_Main/src/cpp/rtklib/lambda.cpp:316-317 | the new row of S holds the pulls of all levels above |
| IntegerSearch.Descend | Bulan_Main/src/cpp/rtklib/lambda.cpp:315-321 | a descent makes the new level active at its rounded centre and keeps the levels above consistent |
| IntegerSearch.SumIntegral | Bulan_Main/src/cpp/rtklib/lambda.cpp:346 | helper: the sum of two integers is an integer |
| IntegerSearch.LevelsIntegral | Bulan_Main/src/cpp/rtklib/lambda.cpp:319 | every active level holds an integer |
| IntegerSearch.ActiveLevel | Bulan_Main/src/cpp/rtklib/lambda.cpp:310 | an active level records its centre and the cost above it |
| IntegerSearch.LevelCost | Bulan_Main/src/cpp/rtklib/lambda.cpp:310 | the new distance is the partial cost of the trial vector, and at level 0 its full cost |
| IntegerSearch.LaterTrialsCostMore | Bulan_Main/src/cpp/rtklib/lambda.cpp:310-311 | a vector agreeing with z above level k and holding the current trial of level k or a later one costs, from level k on, at least what z does |
| IntegerSearch.CurrentTrial | Bulan_Main/src/cpp/rtklib/lambda.cpp:319 | at an active level, a vector agreeing with z above it is at the level's current trial exactly when it holds z's integer there |
| IntegerSearch.CurrentNotPassed | Bulan_Main/src/cpp/rtklib/lambda.cpp:308-361 | the trial vector itself is not among the vectors the search is done with |
| IntegerSearch.AgreeAbove | Bulan_Main/src/cpp/rtklib/lambda.cpp:319 | helper: changing z below `from` keeps what agrees with z from there on |
| IntegerSearch.PassedNextTrial | Bulan_Main/src/cpp/rtklib/lambda.cpp:346-348 | moving level k to its next trial adds exactly the vectors through its current integer to those the search is done with |
| IntegerSearch.PassedDescend | Bulan_Main/src/cpp/rtklib/lambda.cpp:315-321 | descending to a level at its first trial adds no vector to those the search is done with |
| IntegerSearch.PassedOrBeyond | Bulan_Main/src/cpp/rtklib/lambda.cpp:311 | once level k's partial cost reaches the bound, every integer vector agreeing with z above k is done with or costs at least the bound |
| IntegerSearch.CoveredStart | Bulan_Main/src/cpp/rtklib/lambda.cpp:305-307 | before the loop the search is done with no vector and keeps none |
| IntegerSearch.CoveredDescend | Bulan_Main/src/cpp/rtklib/lambda.cpp:315-321 | a descent keeps "every vector done with is kept or costs at least the bound, and every kept vector is done with" |
| IntegerSearch.CoveredMoves | Bulan_Main/src/cpp/rtklib/lambda.cpp:351-358 | helper: that invariant carries to a new position that is done with every vector before it and only with vectors before it or at the bound |
| IntegerSearch.ClimbPasses | Bulan_Main/src/cpp/rtklib/lambda.cpp:351-358 | a climb from a level at the bound is done with the vectors done with before and with no new vector below the bound |
| IntegerSearch.CoveredClimb | Bulan_Main/src/cpp/rtklib/lambda.cpp:357-358 | a climb keeps the invariant |
| IntegerSearch.CoveredStop | Bulan_Main/src/cpp/rtklib/lambda.cpp:353-354 | when the last level reaches the bound, every integer vector is kept or costs at least the bound |
| IntegerSearch.CoveredLeaf | Bulan_Main/src/cpp/rtklib/lambda.cpp:324-348 | recording a leaf and moving level 0 on keeps the invariant under the lowered bound |
| IntegerSearch.StoredInFreeColumn | Bulan_Main/src/cpp/rtklib/lambda.cpp:325-331 | storing a new leaf in the free column nn keeps every old column, adds the leaf, and keeps the columns distinct |
| IntegerSearch.FreeColumnDistinct | Bulan_Main/src/cpp/rtklib/lambda.cpp:329-330 | a leaf not yet done with differs from every kept vector, so no vector is kept twice |
| IntegerSearch.StoredReplacing | Bulan_Main/src/cpp/rtklib/lambda.cpp:335-342 | replacing a column that costs at least the new bound keeps every other column, adds the leaf, and keeps the columns distinct |
| IntegerSearch.StoreKept | Bulan_Main/src/cpp/rtklib/lambda.cpp:333-344 | a rejected leaf leaves the store as it was |
| IntegerSearch.FillPullRow | Bulan_Main/src/cpp/rtklib/lambda.cpp:316-317 | row k of S becomes row k+1 plus the correction of level k+1, and nothing else changes |
| IntegerSearch.DescendStep | Bulan_Main/src/cpp/rtklib/lambda.cpp:315-321 | level k starts at trial 0 with zb[k] its centre, z[k] the rounded centre, dist[k] the cost above and step[k] = SGN(y); row k of S holds the pulls of the levels above; nothing else changes; state and search invariant kept |
| IntegerSearch.NextTrialStep | Bulan_Main/src/cpp/rtklib/lambda.cpp:346-348 | level k moves one trial on: z[k] += step[k], step[k] becomes `-step - SGN(step)`, and the state stays consistent |
| IntegerSearch.StoreCandidate | Bulan_Main/src/cpp/rtklib/lambda.cpp:329-330 | column col of zn becomes the trial vector; other columns are unchanged |
| IntegerSearch.ArgMax | Bulan_Main/src/cpp/rtklib/lambda.cpp:340-342 | imax is the first place of a largest cost |
| IntegerSearch.KeepInFreeColumn | Bulan_Main/src/cpp/rtklib/lambda.cpp:325-331 | `s[nn]` becomes newdist and column nn the leaf, other places unchanged; imax moves to nn exactly when nn is 0 or newdist exceeds the largest kept cost |
| IntegerSearch.ReplaceLargest | Bulan_Main/src/cpp/rtklib/lambda.cpp:333-344 | a strictly cheaper leaf replaces the largest (cost and column, other columns unchanged) and imax becomes the first largest again; otherwise nothing changes; in both cases maxdist becomes `s[imax]`, no larger than before |
| IntegerSearch.RecordLeaf | Bulan_Main/src/cpp/rtklib/lambda.cpp:324-345 | the leaf is stored when there is room or it beats the largest; the count grows only with room; the bound never grows; the columns stay distinct and each is the leaf or an old column; a dropped column costs at least the new bound |
| IntegerSearch.EntriesSwapped | Bulan_Main/src/cpp/rtklib/lambda.cpp:368-369 | exchanging two costs and their columns exchanges two (cost, vector) entries |
| IntegerSearch.SwapCandidates | Bulan_Main/src/cpp/rtklib/lambda.cpp:368-369 | the costs are exchanged, columns i and j of zn are exchanged entry by entry, and so the multiset of (cost, vector) pairs is kept |
| IntegerSearch.SmallestExtends | Bulan_Main/src/cpp/rtklib/lambda.cpp:366-367 | with no exchange, the running minimum at place i extends one place |
| IntegerSearch.ExchangeKeepsOrder | Bulan_Main/src/cpp/rtklib/lambda.cpp:366-368 | an exchange when `s[j] <= s[i]` keeps the sorted prefix and the running minimum at place i |
| IntegerSearch.SelectSmallest | Bulan_Main/src/cpp/rtklib/lambda.cpp:364-370 | the smallest remaining cost reaches place i, vectors moving with their costs |
| IntegerSearch.SortCandidates | Bulan_Main/src/cpp/rtklib/lambda.cpp:362-371 | the costs end in ascending order and every vector stays paired with its own cost (multiset of pairs kept) |
| IntegerSearch.EntriesKept | Bulan_Main/src/cpp/rtklib/lambda.cpp:362-371 | after sorting, every column is still an integer vector of its own cost, below the bound |
| IntegerSearch.Start | Bulan_Main/src/cpp/rtklib/lambda.cpp:305-307 | before the loop, the last level is active at its rounded centre |
| IntegerSearch.NewDistance | Bulan_Main/src/cpp/rtklib/lambda.cpp:310 | newdist is the partial cost of the trial vector from level k |
| IntegerSearch.AtLeaf | Bulan_Main/src/cpp/rtklib/lambda.cpp:324-348 | the count nn grows by one exactly when there was room; the old trial vector is stored when there was room or it beat the largest; level 0 moves one trial on (z[0] += step[0], other levels unchanged); the bound never grows; state and search invariant kept |
| IntegerSearch.Climb | Bulan_Main/src/cpp/rtklib/lambda.cpp:351-360 | stops exactly at the last level, leaving z and step and having covered every integer vector; otherwise k becomes k+1 and that level moves one trial on, with the search invariant kept |
| IntegerSearch.Iterate | Bulan_Main/src/cpp/rtklib/lambda.cpp:308-361 | with nd the partial cost: below the bound and k > 0 it descends to k-1 at trial 0; below the bound at k = 0 it records the leaf as `AtLeaf`; at the bound it stops exactly at the last level and otherwise climbs; store and search invariant kept; a stop leaves every integer vector covered |
| IntegerSearch.Begin | Bulan_Main/src/cpp/rtklib/lambda.cpp:303-307 | fresh, distinct work arrays; k = n-1 with every trial counter 0; zb[k] = zs[k], z[k] its rounding, dist[k] = 0, step[k] = SGN(y), S zero |
| IntegerSearch.Explore | Bulan_Main/src/cpp/rtklib/lambda.cpp:303-361 | at most LOOPMAX iterations run; the store is kept and distinct, places from nn on untouched; stopping before LOOPMAX means every integer vector is kept or costs at least the bound |
| IntegerSearch.KeptCandidates | Bulan_Main/src/cpp/rtklib/lambda.cpp:325-345 | the first nn entries of the store are distinct integer vectors of their own costs |
| IntegerSearch.CompleteIsBest | Bulan_Main/src/cpp/rtklib/lambda.cpp:353-354 | after a complete search every integer vector is among the kept entries or costs at least any bound up to maxdist |
| IntegerSearch.UntouchedEntries | Bulan_Main/src/cpp/rtklib/lambda.cpp:325-331 | helper: places never written keep their (cost, column) entries |
| IntegerSearch.SortedStore | Bulan_Main/src/cpp/rtklib/lambda.cpp:362-371 | sorting a kept store gives the kept entries with the unused ones; with a full store every column is a candidate; after a complete search the kept are the best below the last cost |
| IntegerSearch.Finish | Bulan_Main/src/cpp/rtklib/lambda.cpp:362-371 | sorted costs; the entries are the kept ones (distinct candidates) with the unused ones, as multisets; with a full store every column is an integer vector of its own cost; after a complete search every integer vector is kept or costs at least the largest kept cost (1E99 when fewer than m were kept) |
| IntegerSearch.Search | Bulan_Main/src/cpp/rtklib/lambda.cpp:292-380 | info is 0 or -1; costs sorted ascending; the kept vectors are at most m distinct integer vectors of their own costs and are, with the places never written, the final entries; with m kept every column is such a vector; with info 0 every integer vector is kept or costs at least `s[m-1]` (at least 1E99 when fewer than m were kept) |
| Validation.AdjacentIncreasing | Bulan_Main/src/cpp/rtklib/lambda.cpp:27-97 | keys increasing between neighbours are increasing throughout |
| Validation.KeysGood | Bulan_Main/src/cpp/rtklib/lambda.cpp:27-97 | both key columns run from 0 to 1 in strictly increasing order |
| Validation.KeysFor | Bulan_Main/src/cpp/rtklib/lambda.cpp:169-191 | `table1` (34 rows) is read exactly when Pf is 0.001, else `table10` (31 rows) |
| Validation.SwapAdjacent | Bulan_Main/src/cpp/rtklib/lambda.cpp:146-152 | places j and j+1 are exchanged in both arrays, keeping the multiset of (distance, row) pairs |
| Validation.PrefixMaxStep | Bulan_Main/src/cpp/rtklib/lambda.cpp:144 | with no exchange, the running maximum moves one place on |
| Validation.ExchangeKeepsSettled | Bulan_Main/src/cpp/rtklib/lambda.cpp:144-152 | an exchange below the settled suffix keeps it settled and carries the maximum on |
| Validation.SettledGrows | Bulan_Main/src/cpp/rtklib/lambda.cpp:140-155 | after a pass the settled suffix is one place longer |
| Validation.BubblePass | Bulan_Main/src/cpp/rtklib/lambda.cpp:142-154 | one inner pass settles one more place and keeps the pairs |
| Validation.RSort | Bulan_Main/src/cpp/rtklib/lambda.cpp:134-156 | the first dim distances end in ascending order, each row number moved in lockstep with its distance; places from dim on are untouched |
| Validation.SmallestPair | Bulan_Main/src/cpp/rtklib/lambda.cpp:179-180 | after the sort, `index[0]` is a valid row whose distance is the smallest |
| Validation.NearestBrackets | Bulan_Main/src/cpp/rtklib/lambda.cpp:180-187 | the nearest key and its neighbour on the side of PfILS bracket PfILS, so `index[0] + nt` is in range |
| Validation.LerpBetween | Bulan_Main/src/cpp/rtklib/lambda.cpp:217 | interpolating strictly inside a bracket gives a value between the two tabulated values |
| Validation.LineFromEitherEnd | Bulan_Main/src/cpp/rtklib/lambda.cpp:217 | the formula written from the upper key is the line written from the lower key |
| Validation.NearestRow | Bulan_Main/src/cpp/rtklib/lambda.cpp:171-180 | the returned row's key is nearest to PfILS among all keys (which of two equally near keys is returned is not stated) |
| Validation.ReadLine | Bulan_Main/src/cpp/rtklib/lambda.cpp:214-217 | mu is the straight line through the two table points read at PfILS, or `mun[0]` when the keys coincide |
| Validation.ReadTable | Bulan_Main/src/cpp/rtklib/lambda.cpp:177-219 | on the selected table, mu is the entry of the lower bracketing key when x is that key, else the straight line through the two bracketing entries, lying between them |
| Validation.TableEntryAsWritten | Bulan_Main/src/cpp/rtklib/lambda.cpp:186-187 | the read of column n of a table row as written: defined only while n is inside the row |
| Validation.TableEntryAsWrittenReadsPastRow | Bulan_Main/src/cpp/rtklib/lambda.cpp:186-187 | with 41 ambiguities the read leaves the 41-entry row of either table |
| Validation.FfRatio | Bulan_Main/src/cpp/rtklib/lambda.cpp:163-220 | for PfILS in [0, 1], on the table Pf selects: when PfILS is a key, the row's critical value; otherwise the linear interpolation between the two keys around PfILS, lying between their values (`CriticalValue`) |
| Validation.RatioPassesMeaning | Bulan_Main/src/cpp/rtklib/lambda.cpp:436-438 | for ordered non-negative costs, the test passes exactly when `s[1] > 0` and `s[0] <= cratio * s[1]` |
| Validation.RatioTestAsWritten | Bulan_Main/src/cpp/rtklib/lambda.cpp:436-438 | the test as written is defined only with two or more costs |
| Validation.RatioTestAsWrittenReadsPastBuffer | Bulan_Main/src/cpp/rtklib/lambda.cpp:436 | with one cost (m = 1) the test reads past the buffer |
| Validation.RatioTest | Bulan_Main/src/cpp/rtklib/lambda.cpp:436-438 | passes exactly when there are two costs and `s[0]/s[1] <= cratio` holds |
| Validation.RatioTestCorrected | Bulan_Main/src/cpp/rtklib/lambda.cpp:436-438 | the corrected test agrees with the written one wherever that is defined, fails with fewer than two costs, and means `s[0] <= cratio * s[1]` |
| Ambiguity.SuccessProductBounds | Bulan_Main/src/cpp/rtklib/lambda.cpp:422-423 | the success rate lies in [0, 1] and never grows as ambiguities are added |
| Ambiguity.ScaleDown | Bulan_Main/src/cpp/rtklib/lambda.cpp:423 | helper: multiplying by a factor in [0, 1] cannot increase a non-negative value |
| Ambiguity.SuccessRate | Bulan_Main/src/cpp/rtklib/lambda.cpp:422-423 | srate is the product of the per-ambiguity factors and lies in [0, 1], so `1 - srate` is a valid failure rate for `ffratio` |
| Ambiguity.Factor | Bulan_Main/src/cpp/rtklib/lambda.cpp:413-416 | starting from zeros, LD succeeds exactly when all pivots are positive, and then L is unit lower triangular with `Q = L' diag(D) L`; on failure some row p has a non-positive pivot that is exactly what `Q[p][p]` lacks after the rows below p, which are factorised with a unit diagonal and positive pivots (`PivotFails`) |
| Ambiguity.Identity | Bulan_Main/src/cpp/rtklib/lambda.cpp:413 | `eye(n)` is integer and unit lower triangular |
| Ambiguity.Estimate | Bulan_Main/src/cpp/rtklib/lambda.cpp:416-438 | the problem searched is built from the reduced L, D and `Z' a`; -2, with s left alone, only when the reduced L and D still have a pending swap; otherwise the failure rate is `1 - srate`, cratio is the table's `CriticalValue` there (for 1 to 40 ambiguities), the search's facts hold of s and E, the result is the search's -1 or the solve status, and `pass` is the ratio test on the sorted costs, set even when the search failed, and false with more than 40 ambiguities |
| Ambiguity.Lambda | Bulan_Main/src/cpp/rtklib/lambda.cpp:396-443 | -1 and nothing touched when n or m is not positive; when LD fails, -1 with `pass` unchanged and s untouched, and L0, D0 show the failing pivot of Q (`PivotFails`); otherwise L0 is unit lower triangular with Q = L0' diag(D0) L0, the problem searched has the reduced D and `Zr' a` for an integer Zr, -2 comes only with a swap still pending in it, and the search, status and ratio test are as in `Estimate` (no validation with more than 40 ambiguities) |

## Left out

- `erfar` and `normcdfar` (approximations of erf and the normal distribution): the per-ambiguity success factor `2*normcdf(0.5/sqrt(D[i]))-1` is a function parameter `factor`, assumed to lie in [0, 1].
- `mat`, `zeros`, `eye`, `matmul`, `solve` (from `algebra.hpp`) are not part of this model. `z = Z' a` is computed by the value function `TransposeTimes`. The back-transformation `F = Z' \ E` is not computed: its status is the parameter `solveInfo`, and the candidates are returned in the decorrelated space as `E`.
- `ROUND`, `SGN` and `SWAP` (from `common.hpp`) are not part of this model; they are defined in `common.dfy` with RTKLIB's definitions, and the `(int)` cast is an unbounded integer.
- Tracing and error output (`tracepdeex`, `fprintf`) and memory release are left out.
- Table bodies: only the failure-rate columns of `table1` and `table10` are constants. The critical values are arbitrary entries of tables passed as parameters.
- Floating point: doubles are reals. Rounding error in LD, the reductions and the interpolation is not modelled. `Pf == 0.001` is compared as a real. The IEEE outcome of the ratio test's division by zero is modelled in `RatioPasses`.
- LD: the division by `sqrt(D[i])` followed by division by the diagonal is modelled as a single division by `D[i]`. The two agree over the reals, and no square root is needed.
- Reduction: termination of the swap sweep rests on a lattice argument outside the source. The model bounds the number of swaps by `budget`, reports exhaustion with `done == false`, which `Reduction` ensures only happens with a swap still pending. `Estimate` then returns -2, a status the source does not have.
- Reduction: does not prove that `Z' Q Z = L' diag(D) L` is kept or that Z stays unimodular, because that needs a theory of matrix products and determinants the model does not carry. It proves that Z stays integer, L unit lower triangular and D positive, and each step's exact effect is stated by `ColumnOp` (`Gauss`), `SizeReduced` (`ReduceColumn`), `PermD`, `PermL` and `SwapColumnsFrom` (`Perm`).
- Search: when LOOPMAX iterations run out (info -1) only the facts about what was kept so far hold; no integer vector is then claimed to be kept or to cost more. The number of iterations run is bounded by LOOPMAX in `Explore` but is not a result of `Search`.
- FfRatio: requires `1 <= n <= 40` and a failure rate in [0, 1]. The tables have critical values for 1 to 40 ambiguities only (see Findings); `Estimate` calls it only in that range, with `1 - srate` and srate in [0, 1].
- NearestRow: `rsort` exchanges only on a strict `>`, so of two keys equally near PfILS the source returns the lower one; the model states only that a nearest key is returned. Either way lines 181-187 take the same two keys, one on each side of PfILS, so `ReadAt` and the critical value are the same.

## Findings

| source | as written | input that shows it | evidently intended | confidence | as-written member | corrected member |
|---|---|---|---|---|---|---|
| Bulan_Main/src/cpp/rtklib/lambda.cpp:436-438 | `ratio = s[0]/s[1]` is computed whatever m is, so with one fixed solution it reads past the m-element buffer s | `lambda` with m = 1 and a positive-definite Q: s has one element and `s[1]` is read | with fewer than two candidates there is no second-best solution, and the fix is not validated (`pass = false`) | medium, not executed | Validation.RatioTestAsWritten | Validation.RatioTest |
| Bulan_Main/src/cpp/rtklib/lambda.cpp:186-187, 210-211 | `ffratio` reads `table1[index[0]][n]` (or `table10`) whatever n is, and `lambda` calls it for every n | `lambda` with n = 41 and a positive-definite Q: column 41 of a 41-column row is read | the tables give no critical value beyond 40 ambiguities, so the fix is not validated (`pass = false`) | low, not executed | Validation.TableEntryAsWritten | Ambiguity.Estimate |
