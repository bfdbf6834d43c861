# COL-730 parallel kernels, modelled in Dafny

This project models the discrete, deterministic core of two pieces of the
COL-730 assignments:

- **LU factorisation with partial pivoting** (`A2/pthread.cpp`,
  `A2/openmp.cpp`). The matrices `a`, `l`, `u`, `p` and the row-permutation
  vector `pi` are arrays updated in place by the methods of the class
  `LuFactorisation.Factorisation`. Each step `k` searches column `k` for the
  pivot, swaps rows of `a`, the prefix of `l` and two entries of `pi`,
  writes row `k` of `U` and column `k` of `L`, and then applies the trailing
  update. The thread variant splits the rows `(k, n)` among `T` workers
  (`WorkerSplit`). Its workers run one after the other in a `for` loop over
  ranks. With T ≤ 0 that loop runs no worker, so every trailing update is
  skipped. Both variants are proved to leave exactly the state of a
  reference function `Run` of the input, which for every T > 0 is the same. The directive-parallel variant runs one loop over rows. After the
  loop, `p` is built from `pi`. Matrix entries are exact reals.
- **PageRank on three map-reduce/MPI back ends** (`A3/mr-pr-cpp.cpp`,
  `A3/mr-pr-mpi-base.cpp`, `A3/mr-pr-mpi.cpp`). All three share the same
  `add_edge`, modelled once as `LinkGraph.Graph.AddEdge`. Its invariant is
  that `num_outgoing[v]` counts the occurrences of `v` across all in-link
  lists. Around it sit:
  - the Boost-style `datasource` key counter and `map_task`
    (`BoostPageRank`);
  - the MR-MPI key-range `maptask` and the single-slot `gather`
    (`MrMpiPageRank`);
  - the plain-MPI identity key table, its `MPI_Scatter` chunks, the
    per-process update loop and the `MPI_Gather` of the differences
    (`MpiPageRank`);
  - in every variant, the guard that returns early on an empty graph.

The MPI back ends are modelled from the point of view of one process. In
the plain-MPI back end, the process's rank and the communicator size are
constructor parameters of `MpiPageRank.Process`. In the MR-MPI back end,
`MrMpiPageRank.MapTask` takes the map-task index and the processor count
as parameters, as `maptask(rank, …)` does.
Both back ends split the node keys into equal blocks the same way, and
each source file computes that split on its own, so the model has a copy
in each module. Gather follows
section 5.5 and scatter section 5.6 of the MPI 3.1 standard: with `count`
elements per process, process `r` sends its block to, or receives its
block from, the root's buffer at offset `r·count`.

The model follows the code in one place where a careful design would
differ, and departs from it in one (see Findings):

- An all-zero pivot column only prints "singular matrix", and the loop
  continues. The model returns the set of such steps (`singular`) and
  does not fail.
- The pivot search's default row is corrected from 0 to `k` (see
  Findings). The factorisation methods use the corrected search, and the
  as-written search is kept beside it.

## Model

| member | source | states |
|---|---|---|
| Arith.Abs | A2/pthread.cpp:188-190 | the magnitude the pivot scan compares is non-negative and is the entry or its negation |
| Permutations.Identity | A2/pthread.cpp:177-180 | after the initialising loop, `pi` has n entries and `pi[i] = i` |
| Permutations.IdentityIsPermutation | A2/openmp.cpp:137-140 | the initial `pi` is a permutation of 0..n-1 |
| Permutations.Swap | A2/pthread.cpp:200-202 | exchanging `pi[k]` and `pi[index]` changes those two entries and no other |
| Permutations.SwapIsPermutation | A2/openmp.cpp:160-162 | exchanging two entries keeps `pi` a permutation |
| Permutations.ImageSize | A2/pthread.cpp:255-258 | a permutation's first m entries take m distinct values |
| Permutations.PermutationIsOnto | A2/pthread.cpp:255-258 | pigeonhole: a permutation of 0..n-1 takes every value 0..n-1 |
| Permutations.PermutationEntry | A2/pthread.cpp:255-258 | every entry of P is 0 or 1, and it is 1 exactly at column `pi[i]` |
| Permutations.OneInEachRow | A2/pthread.cpp:255-258 | row i of `P` holds exactly one 1, at column `pi[i]` |
| Permutations.OneInEachColumn | A2/openmp.cpp:202-205 | because `pi` is a permutation, every column of `P` holds exactly one 1 |
| PivotSearch.Scan | A2/pthread.cpp:184-193 | the scan's maximum is never negative, and its row is either the starting row or one of the scanned rows |
| PivotSearch.ScanFindsFirstMaximum | A2/pthread.cpp:184-193 | the scan's maximum bounds every magnitude in the range; when positive, the row is the first of maximal magnitude; when zero, the starting row is kept |
| PivotSearch.ScanStartOnlyKeptForZero | A2/pthread.cpp:184-193 | two scans that start from different rows find the same maximum, and the same row once that maximum is positive |
| PivotSearch.PivotAsWritten | A2/pthread.cpp:184-193 | the search as written (row 0 to start) returns row 0 or a row of [k, n); it finds the corrected search's maximum, and its row whenever that maximum is positive |
| PivotSearch.Pivot | A2/openmp.cpp:144-153 | the corrected search (row k to start) always returns a row of [k, n) |
| PivotSearch.PivotAsWrittenLeavesRange | A2/pthread.cpp:184-198 | as written, an all-zero column below row k > 0 yields row 0, outside [k, n), with maximum 0 |
| PivotSearch.PivotIsFirstMaximum | A2/openmp.cpp:144-158 | the corrected search returns a row in [k, n): the first of maximal magnitude; the maximum is 0 exactly when the column is zero from row k down |
| WorkerSplit.Quota | A2/pthread.cpp:233 | each worker's share `(n-k-1)/T` is at most the n-k-1 rows of the trailing block, and all of them when T is 1 |
| WorkerSplit.Remaining | A2/pthread.cpp:235-242 | only the last worker gets extra rows, and never more than n-k-1 |
| WorkerSplit.RangeBegin | A2/pthread.cpp:148 | a worker's first row is below the pivot row, and worker 0 starts right below it |
| WorkerSplit.RangeEnd | A2/pthread.cpp:149 | a worker's range never ends before it begins |
| WorkerSplit.Owner | A2/pthread.cpp:227-246 | the worker named for a row of (k, n) is one of the T workers |
| WorkerSplit.RangesAreConsecutive | A2/pthread.cpp:233-242 | worker 0 starts at k+1, each worker's range ends where the next begins, and the last ends at n: the ranges tile [k+1, n) |
| WorkerSplit.RangeInside | A2/pthread.cpp:148-149 | each worker's rows lie inside [k+1, n) |
| WorkerSplit.RangesDisjoint | A2/pthread.cpp:233-242 | the ranges of two distinct workers do not overlap |
| WorkerSplit.OwnerCovers | A2/pthread.cpp:227-246 | every row of (k, n) lies in some worker's range |
| WorkerSplit.OwnerIsUnique | A2/pthread.cpp:227-246 | no other worker's range contains that row |
| LuFactorisation.Multiplier | A2/pthread.cpp:223 | the multiplier `a[i][k]/(u[k][k]+threshold)` times the (non-zero) regularised pivot gives back the entry |
| LuFactorisation.InitialEntry | A2/pthread.cpp:42-68 | an entry is 0 unless `init` is 1; flag 1 leaves zeros strictly below the diagonal; any flag but 0 and 1 gives 1 on the diagonal and zeros above it; every other entry comes from the random source |
| LuFactorisation.Initialise | A2/pthread.cpp:34-74 | `initialise` returns a fresh n×n buffer holding the flag's pattern: all entries, the upper triangle, or a unit lower triangle; all zero unless `init` is 1 |
| LuFactorisation.SwapRowPrefix | A2/pthread.cpp:204-217 | swaps columns [0, width) of two rows and leaves every other cell unchanged |
| LuFactorisation.ColumnOf | A2/pthread.cpp:186-193 | the column the pivot search reads: entry i is `a[i][k]` |
| LuFactorisation.SwapRows | A2/pthread.cpp:204-217 | the row interchange on values keeps the matrix n×n |
| LuFactorisation.SwapRowsEntries | A2/pthread.cpp:204-217 | entry by entry, `SwapRows` exchanges rows r1 and r2 in the columns below the width and keeps every other entry |
| LuFactorisation.EliminateU | A2/pthread.cpp:219-225 | U after step k's writes (`u[k][k]` and `u[k][i]` for i > k), on values, is n×n; `EliminateUEntries` gives its entries |
| LuFactorisation.EliminateUEntries | A2/pthread.cpp:219-225 | entry by entry, `EliminateU` sets row k of U from column k on to row k of the working matrix and keeps every other entry |
| LuFactorisation.EliminateL | A2/pthread.cpp:221-225 | L after step k's writes (`l[i][k]` for i > k), on values, is n×n; `EliminateLEntries` gives its entries |
| LuFactorisation.EliminateLEntries | A2/pthread.cpp:221-225 | entry by entry, `EliminateL` sets column k of L below the diagonal to the multipliers of the working matrix's entries and keeps every other entry |
| LuFactorisation.UpdateTrailing | A2/openmp.cpp:191-197 | the working matrix after step k's trailing update, on values, is n×n; `UpdateTrailingEntries` gives its entries |
| LuFactorisation.UpdateTrailingEntries | A2/openmp.cpp:191-197 | entry by entry, `UpdateTrailing` subtracts `l[i][k]·u[k][j]` exactly in the cells with i > k and j > k and keeps every other entry |
| LuFactorisation.Step | A2/pthread.cpp:184-251 | one elimination step, as a function of the whole state, keeps every matrix n×n and exchanges `pi[k]` with the entry at the pivot search's row |
| LuFactorisation.Run | A2/pthread.cpp:182-253 | the first `steps` elimination steps keep the state n×n |
| LuFactorisation.StepIsStepped | A2/pthread.cpp:184-251 | entry by entry, a step exchanges `pi[k]` and `pi[index]`, moves rows k and index of the working matrix and of L's first k columns, writes U's row k and L's column k, and then (when the update runs) reduces the trailing block, with `index` the pivot search's row |
| LuFactorisation.FactorsOfStep | A2/pthread.cpp:212-225 | the entries of L and U after a step's interchange and writes, in terms of the state before it |
| LuFactorisation.StepPermutes | A2/pthread.cpp:200-202 | one step keeps `pi` a permutation |
| LuFactorisation.RunPermutes | A2/pthread.cpp:200-202 | each step only exchanges two entries of `pi`, so after any number of steps it is still a permutation |
| LuFactorisation.Factorisation.Column | A2/pthread.cpp:186-193 | the column of the working array that the pivot scan reads: entry i is `a[i][k]` |
| LuFactorisation.Factorisation.constructor | A2/pthread.cpp:166-170 | `l` is unit lower-triangular, `u` upper-triangular and `p` zero, all freshly allocated and distinct from `a` |
| LuFactorisation.Factorisation.InitPermutation | A2/openmp.cpp:137-140 | `pi` becomes the identity |
| LuFactorisation.Factorisation.FindPivot | A2/pthread.cpp:184-193 | the scan loop computes exactly the corrected `Pivot` of column k |
| LuFactorisation.Factorisation.FindPivotAsWritten | A2/openmp.cpp:144-153 | the scan loop with `index` starting at 0 computes exactly `PivotAsWritten` |
| LuFactorisation.Factorisation.Interchange | A2/pthread.cpp:200-217 | `pi` has entries k and index swapped; rows k and index of `a` are swapped in every column, and of `l` only in columns [0, k); every other cell is unchanged |
| LuFactorisation.Factorisation.Eliminate | A2/pthread.cpp:219-225 | writes only `u[k][k..n)`, copied from `a`, and `l[i][k]` for i > k, set to the entry divided by the regularised pivot |
| LuFactorisation.Factorisation.PivotStep | A2/pthread.cpp:184-217 | the row chosen is the pivot search's row of [k, n) over the column before the step; `pi[k]` and `pi[index]` are exchanged; rows k and index of `a` are exchanged in every column and of `l` in columns [0, k), and nothing else changes; what the first k steps settled still holds; the pivot is at least as large in magnitude as every entry below it; reports whether it is zero |
| LuFactorisation.Factorisation.PivotAndEliminate | A2/openmp.cpp:144-185 | all that PivotStep states, plus: U's row k from column k on is row k of the interchanged `a`, L's column k below the diagonal holds the entries divided by the regularised pivot, no other cell of L or U changes, and the state after k+1 steps holds (L unit lower, U upper, `pi` a permutation, rows ≤ k of U and columns ≤ k of L settled and bounded by their pivots) |
| LuFactorisation.Factorisation.Updated | A2/pthread.cpp:155 | a cell outside the trailing block of step k, or any cell when the update does not run, keeps its value; inside the block, a zero multiplier or zero pivot-row entry also leaves it unchanged |
| LuFactorisation.Factorisation.UpdateRow | A2/openmp.cpp:193-196 | subtracts `l[i][k]·u[k][j]` from `a[i][j]` for j > k in row i only |
| LuFactorisation.Factorisation.RunWorker | A2/pthread.cpp:139-160 | a worker updates only its own rows, in columns [begin, N) with N = n, and no other cell |
| LuFactorisation.Factorisation.LaunchWorker | A2/pthread.cpp:228-244 | one pass of the creation loop: worker `rank` gets the quotient and, when last, the remainder, and updates exactly the cells of its rows [RangeBegin, RangeEnd) with j > k |
| LuFactorisation.Factorisation.UpdateByWorkers | A2/pthread.cpp:227-251 | for every T > 0 the workers together update exactly the cells with i > k and j > k, once each; for T ≤ 0 no worker is created and `a` is unchanged |
| LuFactorisation.Factorisation.UpdateByRows | A2/openmp.cpp:187-197 | the row loop updates exactly the cells with i > k and j > k, once each |
| LuFactorisation.Factorisation.BuildPermutationMatrix | A2/pthread.cpp:255-258 | `p[i][j]` is 1 when j = `pi[i]` and 0 otherwise |
| LuFactorisation.Factorisation.UpdateKeepsInvariant | A2/pthread.cpp:227-251 | a trailing update that writes only rows and columns beyond k keeps what the first k+1 steps settled |
| LuFactorisation.Factorisation.AgreesWithStepped | A2/pthread.cpp:184-251 | arrays holding the pivoted, eliminated and updated state hold the snapshot that StepIsStepped describes |
| LuFactorisation.Factorisation.AgreesWithStep | A2/pthread.cpp:184-251 | arrays holding the pivoted, eliminated and updated state hold the reference step applied to the state before |
| LuFactorisation.Factorisation.StepWithWorkers | A2/pthread.cpp:184-251 | one iteration of the thread variant's step loop takes the arrays from a snapshot to its reference step (with the trailing update exactly when T > 0), keeps the factorisation invariant one step further, and adds k to the singular steps exactly when the pivot is zero |
| LuFactorisation.Factorisation.StepByRows | A2/openmp.cpp:144-197 | the same for the directive-parallel variant, whose trailing update always runs |
| LuFactorisation.Factorisation.EliminateWithThreads | A2/pthread.cpp:182-253 | the step loop of the thread variant takes the arrays from a snapshot to the n reference steps applied to it |
| LuFactorisation.Factorisation.EliminateByRows | A2/openmp.cpp:142-200 | the step loop of the directive-parallel variant takes the arrays from a snapshot to the n reference steps applied to it |
| LuFactorisation.Factorisation.DecomposeWithThreads | A2/pthread.cpp:162-258 | the final `a`, `l`, `u` and `pi` are the n reference steps applied to the input with `pi` the identity, the trailing update included exactly when T > 0; L is unit lower and U upper, every upper cell of U and strictly lower cell of L is computed, `pi` is a permutation, P is its matrix, and the steps with a zero pivot are reported |
| LuFactorisation.Factorisation.DecomposeByRows | A2/openmp.cpp:125-205 | the same for the directive-parallel variant, whose trailing update always runs: its final state is the thread variant's for every T > 0 |
| LuFactorisation.FirstStepOnExample | A2/openmp.cpp:142-197 | step 0 on [[1, 0], [0, 0]] leaves L's column 0 as (1, 0) and column 1 of the working matrix zero |
| LuFactorisation.AsWrittenPivotBreaksUnitDiagonal | A2/pthread.cpp:182-217 | on [[1, 0], [0, 0]], step 1 of the code as written pivots on row 0 and leaves L with 0 on its diagonal and 1 below it |
| LinkGraph.OccurrencesWithEmptyTail | A3/mr-pr-cpp.cpp:36 | slots added by the resize hold empty lists and change no count |
| LinkGraph.OccurrencesAfterPush | A3/mr-pr-cpp.cpp:43-44 | appending `from` to one list adds one occurrence of `from` and of nothing else |
| LinkGraph.OccurrencesOfUnlisted | A3/mr-pr-cpp.cpp:39 | a node listed nowhere has no occurrences, so a new zero counter is right |
| LinkGraph.Resize | A3/mr-pr-cpp.cpp:36-39 | `resize` keeps the existing entries and pads with the fill value up to the new length |
| LinkGraph.Contribution | A3/mr-pr-cpp.cpp:101-108 | a positive out-degree divides the old rank (the contribution times the out-degree is the rank); otherwise nothing is added and nothing is divided; a non-negative rank gives a non-negative contribution |
| LinkGraph.InflowSum | A3/mr-pr-mpi.cpp:147-156 | with non-negative old ranks, the in-link sum is non-negative |
| LinkGraph.AccumulateInflow | A3/mr-pr-mpi.cpp:147-156 | the in-link loop returns the in-link sum `InflowSum` |
| LinkGraph.GrowKeepsWellFormed | A3/mr-pr-mpi.cpp:30-39 | growing both vectors with empty lists and zero counters keeps the graph invariant |
| LinkGraph.PushKeepsWellFormed | A3/mr-pr-mpi.cpp:41-42 | recording one link keeps the graph invariant |
| LinkGraph.Graph.constructor | A3/mr-pr-cpp.cpp:23-24 | the two global vectors start empty and satisfy the invariant |
| LinkGraph.Graph.AddEdge | A3/mr-pr-cpp.cpp:30-46 | grows both vectors to max(from, to)+1 when needed and never shrinks them; appends `from` to `rows[to]` only; adds 1 to `num_outgoing[from]` only; new slots start empty and zero; keeps every counter equal to its node's occurrences |
| BoostPageRank.Datasource.constructor | A3/mr-pr-cpp.cpp:72-74 | the key counter starts at 0 |
| BoostPageRank.Datasource.SetupKey | A3/mr-pr-cpp.cpp:76-80 | hands out the counter's value, advances it by one, and says whether the key is below n |
| BoostPageRank.Datasource.GetData | A3/mr-pr-cpp.cpp:82-86 | returns node key's in-link list and always succeeds |
| BoostPageRank.DrainKeys | A3/mr-pr-cpp.cpp:72-80 | a fresh datasource hands out exactly the keys 0, 1, …, n-1, in order |
| BoostPageRank.MapTask | A3/mr-pr-cpp.cpp:95-112 | emits 1 + (number of in-links) values, all under the node's key: first 0.0, then one contribution per in-link |
| BoostPageRank.EmitsAfterFirstSumToInflow | A3/mr-pr-cpp.cpp:118-125 | the values after the first add up to the node's in-link sum |
| BoostPageRank.Ranking.constructor | A3/mr-pr-cpp.cpp:26-28 | `pr` and `old_pr` start empty |
| BoostPageRank.Ranking.BeginCalculation | A3/mr-pr-cpp.cpp:143-150 | with no rows, returns and touches nothing; otherwise `pr` is resized to num_rows, padding with 1.0, and `old_pr` becomes a copy of it |
| MrMpiPageRank.KeysPerTask | A3/mr-pr-mpi-base.cpp:81 | `number_of_proc` is at most num_rows, and is num_rows with one processor |
| MrMpiPageRank.TaskBegin | A3/mr-pr-mpi-base.cpp:83 | task 0's first key is 0 |
| MrMpiPageRank.TaskEnd | A3/mr-pr-mpi-base.cpp:83 | every task's range holds exactly `number_of_proc` keys |
| MrMpiPageRank.TaskKeysInBounds | A3/mr-pr-mpi-base.cpp:81-83 | task r's keys [r·q, (r+1)·q) are q consecutive node indices inside [0, num_rows) |
| MrMpiPageRank.TaskKeysDisjoint | A3/mr-pr-mpi-base.cpp:81-83 | two distinct tasks emit disjoint key ranges |
| MrMpiPageRank.TrailingKeysNeverEmitted | A3/mr-pr-mpi-base.cpp:81-83 | keys from num_processors·q on, num_rows mod num_processors of them, belong to no task |
| MrMpiPageRank.MapTask | A3/mr-pr-mpi-base.cpp:78-88 | task r adds one pair per key of its range, in order, with the in-link list's byte length |
| MrMpiPageRank.Ranking.constructor | A3/mr-pr-mpi-base.cpp:28-40 | the state starts empty, with MPI not started |
| MrMpiPageRank.Ranking.BeginCalculation | A3/mr-pr-mpi-base.cpp:131-148 | with no rows, returns before any MPI or map-reduce work; otherwise `pr` and `h_` are resized to num_rows, padding with 1.0 and 0.0, `old_pr` becomes a copy of `pr`, and MPI starts |
| MrMpiPageRank.Ranking.Gather | A3/mr-pr-mpi-base.cpp:90-114 | writes alpha times the node's in-link sum into `h_[key]` and no other slot, and emits that value |
| MpiPageRank.ChunkSize | A3/mr-pr-mpi.cpp:137 | `n_per_proc` is at most num_rows, and is num_rows with one process |
| MpiPageRank.ChunkBegin | A3/mr-pr-mpi.cpp:142 | rank 0's chunk starts at key 0 |
| MpiPageRank.ChunkEnd | A3/mr-pr-mpi.cpp:142 | every chunk holds exactly `n_per_proc` keys |
| MpiPageRank.Scatter | A3/mr-pr-mpi.cpp:142 | process r receives the `n_per_proc` elements of the root's table that start at r·n_per_proc, in order |
| MpiPageRank.ChunkInBounds | A3/mr-pr-mpi.cpp:137-144 | each process's chunk holds `n_per_proc` keys and lies inside [0, size·n_per_proc) ⊆ [0, num_rows) |
| MpiPageRank.ScatteredKeys | A3/mr-pr-mpi.cpp:137-142 | scattering the identity table gives process r exactly the keys r·n_per_proc, …, (r+1)·n_per_proc - 1 |
| MpiPageRank.ChunksDisjoint | A3/mr-pr-mpi.cpp:137-142 | two distinct processes receive disjoint chunks |
| MpiPageRank.ChunkOwner | A3/mr-pr-mpi.cpp:137-142 | every key below size·n_per_proc lies in the chunk of process key / n_per_proc |
| MpiPageRank.TrailingKeysUnprocessed | A3/mr-pr-mpi.cpp:137-144 | keys from size·n_per_proc on, num_rows mod size of them, lie in no chunk |
| MpiPageRank.GatherCoversSumExactlyWhenDivisible | A3/mr-pr-mpi.cpp:162-169 | the gathered entries cover the num_rows entries the sum reads exactly when size divides num_rows |
| MpiPageRank.Concat | A3/mr-pr-mpi.cpp:162 | every value of every process's block appears in the gathered buffer |
| MpiPageRank.ConcatPrefix | A3/mr-pr-mpi.cpp:162 | the blocks of the processes before b, and b's own block, fit in the gathered buffer |
| MpiPageRank.ConcatLength | A3/mr-pr-mpi.cpp:162 | the gather buffer holds size·n_per_proc values |
| MpiPageRank.ConcatIndex | A3/mr-pr-mpi.cpp:162 | entry b·n_per_proc + i of the gathered buffer is entry i of process b's block |
| MpiPageRank.NewRank | A3/mr-pr-mpi.cpp:157-158 | with non-negative old ranks, the new rank is at least `one_Av + one_Iv` |
| MpiPageRank.Process.constructor | A3/mr-pr-mpi.cpp:21-26 | the process state starts empty, with MPI not started |
| MpiPageRank.Process.BeginCalculation | A3/mr-pr-mpi.cpp:75-98 | with no rows, returns before MPI is initialised; otherwise allocates `keys` and `d` with one slot per node, resizes `pr` to num_rows padding with 1.0, copies `pr` to `old_pr` and starts MPI |
| MpiPageRank.Process.FillKeys | A3/mr-pr-mpi.cpp:110-119 | on rank 0, the key table becomes the identity |
| MpiPageRank.Process.ProcessChunk | A3/mr-pr-mpi.cpp:144-160 | each key in the chunk gets alpha times its in-link sum plus `one_Av` and `one_Iv`; `difference[i]` is the absolute change of key i; other nodes and `old_pr` are unchanged |
| MpiPageRank.Process.GatherDifferences | A3/mr-pr-mpi.cpp:162 | rank 0's `d[0 .. size·n_per_proc)` becomes the blocks in rank order; the rest of `d` is unchanged |
| MpiPageRank.Process.CopyBlock | A3/mr-pr-mpi.cpp:162 | one process's block lands at its offset in `d`, and no other entry changes |
| MpiPageRank.Process.SumDifferences | A3/mr-pr-mpi.cpp:164-171 | rank 0's sum is the sum of `d[0 .. num_rows)` |

## Left out

- Floating point: entries, ranks and sums are exact reals. There is no rounding, infinity or NaN. `LuFactorisation.Multiplier` returns 0 for a zero denominator, where IEEE arithmetic would give an infinity or NaN.
- `abs` on a matrix entry (A2/pthread.cpp:188-190, A2/openmp.cpp:148-150) and on the rank difference (A3/mr-pr-mpi.cpp:159) is taken to be the `double` overload, which `<math.h>` provides in C++. It is not the `int` overload from `<stdlib.h>`. Both are modelled by `Arith.Abs`.
- The residual `verify`, which compares P·A with L·U. The constant 10^-16 added to every pivot makes the factors inexact even in exact arithmetic. The model keeps the constant (`THRESHOLD`). It proves that the final state is the reference `Run` of the input, together with shape and bookkeeping facts, but not P·A = L·U.
- Random initialisation (`set_random`, `srand48`, `initialise_and_copy`). The random source of `initialise` is a function parameter. The matrix `a` is given by the caller.
- Thread and MPI primitives: `pthread_create`/`pthread_join`, the OpenMP pragma, the map-reduce runtimes, and MPI Init/Comm/Scatter/Gather/Finalize. Workers run one after the other. An MPI process is modelled alone, and scatter and gather are the functions above.
- I/O: `print_to_file`, `output_pagerank_values`, `create_graph_from_inputfile`, every `printf` and the clock timing. The "singular matrix" message is modelled as the returned set of steps.
- Memory management (`calloc`, `malloc`, `free`) and `argv` parsing in each `main`.
- The PageRank iteration itself: the convergence loop, `sum_pr`, `dangling_pr`, the normalisation of `old_pr`, and the computation of `one_Av` and `one_Iv`. In the plain-MPI variant, `one_Av` and `one_Iv` are fields that `ProcessChunk` reads.
- `reduce_task`, `output` and the map-reduce shuffle. These depend on the libraries' internals. `EmitsAfterFirstSumToInflow` states what the reduce adds up, assuming the leading 0.0 comes first.
- MrMpiPageRank.MapTask: A3/mr-pr-mpi-base.cpp:85-86 adds `rows[key].size()*sizeof(int)` bytes read from `&rows[key]`. That address is the `std::vector` object, not its elements. When the byte length is at most `sizeof(std::vector<int>)` (24 bytes on a usual 64-bit build, so up to 6 in-links), the value is part of the vector's own header: pointer bytes, not the ids. When it is longer, the read runs past the object into the following vectors of `rows`, and, for keys near the end with long enough lists, past the end of the `rows` buffer, which is undefined behaviour. The model keeps only the key and the byte length, and does not model which bytes are read.
- MpiPageRank.Process: each process's copies of `pr`, `old_pr`, `one_Av` and `one_Iv` are never exchanged. Only the differences are gathered. The model describes one process and does not combine the processes' states.
- MpiPageRank.Process.SumDifferences: it requires `d` to have num_rows slots, as allocated. When size does not divide num_rows, the last num_rows mod size entries were never written by the gather (`GatherCoversSumExactlyWhenDivisible`). Their content is not modelled.
- LinkGraph.Graph.AddEdge: it requires non-negative node ids. The code would index a vector with a converted negative id, which is undefined.
- Integer widths: counters, keys and byte lengths are unbounded integers. Overflow of `int`/`size_t` is not modelled. A 4-byte `int` is assumed for `sizeof(int)` (`MrMpiPageRank.INT_BYTES`).

## Findings

| source | as written | input that shows it | evidently intended | confidence | as-written member | corrected member |
|---|---|---|---|---|---|---|
| A2/pthread.cpp:184-198 | the pivot row `index` starts at 0 (as in A2/openmp.cpp:145), so an all-zero column below row k > 0 picks row 0, and the interchange swaps a finished row of `a` and of L's prefix back into the active part | the 2×2 matrix [[1, 0], [0, 0]]: at step 1 the search returns row 0, and L ends with `l[0][0] = 0` and `l[1][0] = 1` | `index` starts at k, so the pivot always lies in [k, n), and a zero column swaps nothing | not executed | LuFactorisation.AsWrittenPivotBreaksUnitDiagonal | PivotSearch.PivotIsFirstMaximum |
