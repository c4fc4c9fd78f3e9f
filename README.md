# ParallNSU core, modelled in Dafny

ParallNSU is a set of C++ OpenMP and `std::thread` benchmarks plus a
system-information tool. This project models the sequential logic inside
them and proves what that logic does:

- **Work partitioning.** Three integer rules split an index space among `p`
  workers (module `Partition`, `partition.dfy`):
  - closed ranges `[tid*(N/p), upper]` with the remainder going to the last
    worker (2ndTask/3/main1.cpp);
  - half-open ranges with the remainder going to the last worker
    (2ndTask/2/main.cpp);
  - fixed chunks `[k*(n/p), (k+1)*(n/p))` that drop the remainder
    (3rdTask/1/main.cpp).
- **The simple-iteration (Richardson) solver** for `A x = b`, where `A` has 2
  on the diagonal and 1 elsewhere and `b = (N+1, ..., N+1)`. Two variants are
  modelled:
  - `kernels.dfy` holds the range-scoped in-place kernels over flat arrays;
  - `richardson.dfy` holds the mathematical iteration they compute, as
    functions on sequences;
  - `partitioned_solver.dfy` is the thread-partitioned version with a shared
    `stop` flag (2ndTask/3/main1.cpp);
  - `bounded_solver.dfy` is the version with parallel-for kernels and the
    `MAX_ITERATIONS`/`exit(13)` ceiling (2ndTask/3/main.cpp).
- **The benchmark bodies:**
  - the midpoint-rule integration with per-thread partial sums
    (`integration.dfy`);
  - the chunked matrix-vector product on `std::thread`s
    (`chunked_matvec.dfy`);
  - the column-scaling loop (`row_scaling.dfy`);
  - the runtime and speedup tables each of them fills.
- **The system-information tool (2ndTask/2/node.cpp).**
  - `string_ops.dfy` models the `std::string` operations it uses: `find`
    (with `npos` and size_t wrap-around), `substr`, the
    `find_first_not_of`/`find_last_not_of` + `erase` quote trimming,
    `getline` splitting and `std::to_string`.
  - `node_info.dfy` models the three `getline` scans, the assembly of the
    `(parameter, value)` list and the `writeCSV` formatting, with a
    read-back round trip.

A parallel region's threads are run one thread id at a time, and a
parallel-for as one sequential sweep. Each method that stands for such a
region proves the combined effect of all threads' shares. The
`long double` solver data are idealised as `real`. The matrix benchmarks
store only small integers, so they are modelled exactly with `int`.

The convergence test `sqrt(|A x - b|^2) < epsilon` is modelled without
`sqrt`: both sides are squared (`Richardson.Converged`), with `epsilon^2`
multiplied once by `|b|^2`. Every claim about the loops is proved for this
concrete test: which pass stops, what the counter holds, that `x` is not
updated on the stopping pass, and the exit status. The claims do not
depend on whether or when the test succeeds.

Keys in node.cpp are matched by substring, and the model keeps that
behaviour. So `NAME=` matches `VERSION_CODENAME=`, and the codename
becomes the "OS Name" when no later line contains `NAME=`
(`NodeInfo.CodenameLastIsOsName`); any later line that does, such as
`UBUNTU_CODENAME=`, sets it instead (`NodeInfo.LastValueIsLastMatch`).
Likewise `CPU(s):` matches `NUMA node<i> CPU(s):`, so "Total CPUs" holds
the CPU list of the last NUMA node line rather than the count
(`NodeInfo.NumaCpuListOverridesCount`).

## Model

| member | source | states |
|---|---|---|
| Partition.Boundary | 2ndTask/3/main1.cpp:68-70 | the first index of worker t's share is t*(n/p), and n for t == p; it never exceeds n |
| Partition.HalfOpenBounds | 2ndTask/2/main.cpp:19-22 | thread tid's half-open range covers the shared boundaries, lies inside [0, n) and holds n/p indices, or n/p + n mod p for the last thread |
| Partition.HalfOpenExactlyOnce | 2ndTask/2/main.cpp:19-22 | index i lies in thread tid's range iff 0 <= i < n and tid is i's owner: the ranges are disjoint and cover [0, n) |
| Partition.HalfOpenContiguous | 2ndTask/2/main.cpp:19-22 | each range ends where the next starts; the first starts at 0 and the last ends at n |
| Partition.HalfOpenSizesAddUp | 2ndTask/2/main.cpp:19-22 | the sizes of the first t ranges add up to the first index of range t, so all of them add up to n |
| Partition.HalfOpenFewItems | 2ndTask/2/main.cpp:19-22 | when p > n every non-last range is empty and the last is [0, n) |
| Partition.Owner | 2ndTask/2/main.cpp:19-22 | every index has exactly one owning thread, below p |
| Partition.ClosedBounds | 2ndTask/3/main1.cpp:66-70 | thread tid's closed range is [Boundary(tid), Boundary(tid+1) - 1] and holds n/p indices, or n/p + n mod p for the last thread |
| Partition.ClosedMatchesHalfOpen | 2ndTask/3/main1.cpp:68-70 | the closed range contains exactly the indices of the half-open range with the same boundaries |
| Partition.ClosedExactlyOnce | 2ndTask/3/main1.cpp:68-70 | index i lies in thread tid's closed range iff 0 <= i < n and tid owns it: the ranges are disjoint and cover 0..n-1 |
| Partition.ClosedFewItems | 2ndTask/3/main1.cpp:68-70 | when p > n every non-last range is empty (upper == lower - 1 == -1) and the last is [0, n-1] |
| Partition.ChunkBounds | 3rdTask/1/main.cpp:56-58 | chunk k lies inside [0, p*(n/p)) and holds n/p indices |
| Partition.ChunkExactlyOnce | 3rdTask/1/main.cpp:56-58 | index i lies in chunk k iff i < p*(n/p) and i / (n/p) == k: the chunks are disjoint and cover [0, p*(n/p)) |
| Partition.ChunkRemainderUnassigned | 3rdTask/1/main.cpp:56-58 | the last n mod p indices lie in no chunk |
| Partition.ChunkAfter | 3rdTask/1/main.cpp:56-58 | chunk k starts at k*(n/p), where the k chunks before it end, and ends where chunk k+1 starts |
| Partition.DivBlock | 3rdTask/1/main.cpp:56-58 | t*q <= i < t*q + q iff i / q == t, the fact the chunk ownership rests on |
| Kernels.FlatIndex | 2ndTask/3/main1.cpp:29-36 | every flat index i*N + j the kernels read or write is below N*N |
| Kernels.FlatIndexDecode | 2ndTask/3/main1.cpp:71-73 | the flat index i*N + j decodes back to row i and column j |
| Kernels.MatrixVectorProductOmp | 2ndTask/3/main1.cpp:29-36 | for i in [lowerBound, upperBound], vecRes[i] is row i of the matrix times vec; the other entries of vecRes keep their values; matrix and vec are not written |
| Kernels.RowProduct | 2ndTask/3/main1.cpp:30-34 | after the zeroing and the inner loop, vecRes[i] is row i of the matrix times vec and no other entry of vecRes changes |
| Kernels.SubtractVecFromVec | 2ndTask/3/main1.cpp:38-42 | for i in the range, vec1[i] becomes its old value minus vec2[i]; indices outside the range and vec2 are unchanged |
| Kernels.MultiplyVecByScalar | 2ndTask/3/main1.cpp:44-48 | for i in the range, vec[i] is multiplied by scalar; indices outside the range are unchanged |
| Kernels.VecL2NormOmp | 2ndTask/3/main1.cpp:50-56 | the result is the sum of squares over the closed range; it is 0 for an empty range |
| Kernels.SumSquares | 2ndTask/3/main1.cpp:50-56 | a sum of squares is never negative |
| Kernels.SumSquaresSplit | 2ndTask/3/main1.cpp:97-99 | the sums over two adjacent closed ranges add up to the sum over their union |
| Kernels.SumSquaresAgree | 2ndTask/3/main1.cpp:50-56 | the sum over a range depends only on the entries inside it |
| Kernels.SumSquaresConstant | 2ndTask/3/main1.cpp:97-99 | a constant vector c has sum of squares (hi+1)*c*c over [0, hi] |
| Kernels.SystemMatrixEntry | 2ndTask/3/main1.cpp:71-73 | entry (i, j) of the system matrix is 2 on the diagonal and 1 elsewhere |
| Kernels.InitRow | 2ndTask/3/main1.cpp:72-73 | row i of the flat matrix gets the system-matrix entries and no other cell changes |
| Kernels.InitRows | 2ndTask/3/main1.cpp:71-76 | for the rows in the range: the matrix rows get the system-matrix entries, b[i] == N+1 (the entry of RightHandSide(N)) and x[i] == 0 (the entry of Zeros(N)); all other rows and entries are unchanged |
| Kernels.InitIndex | 2ndTask/3/main1.cpp:72-75 | one pass of the init loop: row i gets the system-matrix entries, b[i] == N+1 and x[i] == 0, with every other cell, b entry and x entry unchanged |
| Richardson.ThresholdValue | 2ndTask/3/main1.cpp:97-104 | \|b\|^2 == N (N+1)^2, so the squared threshold is 0.00001^2 * N (N+1)^2 |
| Richardson.Converged | 2ndTask/3/main1.cpp:117-121 | the stopping test sqrt(numerator) < epsilon * \|b\|, squared, holds iff the squared residual norm is below 0.00001^2 * N (N+1)^2 |
| Richardson.Step | 2ndTask/3/main.cpp:93-108 | one update keeps N entries and moves entry i to x[i] - (sum over j of a_ij x_j - (N+1)) * 0.00001 |
| Richardson.Iterate | 2ndTask/3/main.cpp:88-109 | the k-th iterate from x = 0 has N entries; the solvers' loops are proved to produce exactly these iterates |
| Richardson.DotOnes | 2ndTask/3/main1.cpp:29-36 | a row of A times the all-ones vector over the first k columns is k, plus 1 if the diagonal is among them |
| Richardson.OnesIsFixedPoint | 2ndTask/3/main1.cpp:106-129 | the exact solution x = (1, ..., 1) has zero residual, the update leaves it unchanged, and it passes the test for N >= 1 |
| Richardson.EmptySystemNeverConverges | 2ndTask/3/main1.cpp:119 | for N == 0 the threshold is 0 and the strict test never succeeds |
| Richardson.NoneConvergedExtend | 2ndTask/3/main.cpp:96-98 | if no iterate before k passes the test and iterate k fails it too, no iterate before k+1 passes |
| PartitionedSolver.PartialsAddUp | 2ndTask/3/main1.cpp:97-99 | the per-thread partial sums of squares over the first t ranges add up to the sum over [0, Boundary(t) - 1], and over all threads to the full sum |
| PartitionedSolver.InitRegion | 2ndTask/3/main1.cpp:64-77 | after all threads' init loops the matrix is the system matrix, b == (N+1, ..., N+1) and x == 0 |
| PartitionedSolver.NormOfB | 2ndTask/3/main1.cpp:95-99 | the atomically accumulated l2VecB is the sum of squares of b over [0, N) |
| PartitionedSolver.ResidualPhase | 2ndTask/3/main1.cpp:107-113 | after every thread's mat-vec and subtraction, temp is the residual A x - b, and numerator has grown by its squared norm |
| PartitionedSolver.UpdatePhase | 2ndTask/3/main1.cpp:127-128 | after every thread's scale and subtraction, temp is the scaled residual and x is the old x minus it |
| PartitionedSolver.Round | 2ndTask/3/main1.cpp:106-128 | a round sets stop iff the accumulated numerator is below epsilon^2; numerator is reset to 0; x is unchanged when stop is set and is one Richardson step further otherwise |
| PartitionedSolver.RoundLoop | 2ndTask/3/main1.cpp:106-129 | when the loop stops after k rounds, x is iterate k-1, that iterate passes the test and none before it does; if it does not stop within maxRounds, no iterate before maxRounds passes |
| PartitionedSolver.IterationMethod | 2ndTask/3/main1.cpp:58-130 | init, one scaling of epsilon by the norm of b, then the rounds: the returned solution is the first iterate that passes the test, or the maxRounds-th iterate when none did |
| BoundedSolver.MatrixVectorProductOmp | 2ndTask/3/main.cpp:30-38 | vecRes becomes A times vec for every row |
| BoundedSolver.SubtractVecFromVec | 2ndTask/3/main.cpp:40-45 | vec1 becomes vec1 - vec2 at every index and vec2 is unchanged |
| BoundedSolver.MultiplyVecByScalar | 2ndTask/3/main.cpp:47-52 | vec is multiplied by scalar at every index |
| BoundedSolver.VecL2NormSquared | 2ndTask/3/main.cpp:54-61 | the reduction gives the sum of squares of the vector (the square of VecL2Norm) |
| BoundedSolver.InitSystem | 2ndTask/3/main.cpp:69-80 | matrix is the system matrix, b == RightHandSide(N) == (N+1, ..., N+1) and x == Zeros(N) == (0, ..., 0) |
| BoundedSolver.ResidualPass | 2ndTask/3/main.cpp:93-96 | temp is the residual A x - b, and the returned test is true iff the squared residual norm is below epsilon^2 (the break condition, squared) |
| BoundedSolver.UpdatePass | 2ndTask/3/main.cpp:107-108 | x becomes one Richardson step further |
| BoundedSolver.Pass | 2ndTask/3/main.cpp:93-108 | pass k, on iterate k-1: it ends normally with count k when that iterate passes the test; it exits with status 13 when k has reached MAX_ITERATIONS and no iterate up to k-1 passed; otherwise x becomes iterate k and no iterate before k passed |
| BoundedSolver.ConvergenceLoop | 2ndTask/3/main.cpp:88-109 | a normal end on pass k has 1 <= k <= MAX_ITERATIONS; iterate k-1 passes the test, none before it does, x is that iterate, and k tests were made; otherwise the status is 13, the first MAX_ITERATIONS iterates all failed, and exactly MAX_ITERATIONS tests were made |
| BoundedSolver.IterationMethod | 2ndTask/3/main.cpp:63-109 | the same two outcomes after allocation, init and the one scaling of epsilon, with the solution returned on a normal end |
| Integration.SampleSumSplit | 2ndTask/2/main.cpp:24-33 | the sums of two adjacent index ranges add up to the sum over their union |
| Integration.SampleSumLocal | 2ndTask/2/main.cpp:26-29 | the sum over a range depends only on the samples inside it |
| Integration.Indices | 2ndTask/2/main.cpp:26 | lists lo, lo+1, ..., hi-1 in order |
| Integration.IndicesSplit | 2ndTask/2/main.cpp:19-22 | the indices of two adjacent ranges concatenate to those of their union |
| Integration.LocalSum | 2ndTask/2/main.cpp:24-30 | local_sum is the sum of the samples of the thread's own range, and the indices sampled are exactly that range, in order |
| Integration.IntegrateOmp | 2ndTask/2/main.cpp:15-34 | sum is the sum of the samples at 0..nsteps-1 for any thread count, each thread adding the samples of its own range, and every index is sampled once, in increasing order |
| Integration.ThreadSweep | 2ndTask/2/main.cpp:42-79 | runtimes and speedup have one entry per thread count; entry i holds the i-th measured time and serial_time divided by it |
| ChunkedMatVec.ParallelMatrixInit | 3rdTask/1/main.cpp:9-15 | cells inside the block [start, end) x [start, end) become 2 on the diagonal and 1 elsewhere; all other cells are unchanged |
| ChunkedMatVec.ParallelVectorInit | 3rdTask/1/main.cpp:17-21 | vector[i] becomes i+1 for i in [start, end); other entries are unchanged |
| ChunkedMatVec.MatrixVectorMultiplication | 3rdTask/1/main.cpp:23-30 | for i in [start, end), result[i] is the sum of matrix[i][j]*vector[j] over j from start (not 0) to the row's end; other entries are unchanged |
| ChunkedMatVec.InitMatrixPhase | 3rdTask/1/main.cpp:53-62 | from all ones, every cell ends 2 if it is on the diagonal below p*(n/p) and 1 otherwise |
| ChunkedMatVec.InitVectorPhase | 3rdTask/1/main.cpp:65-72 | from all zeros, vector[i] ends i+1 below p*(n/p) and keeps 0 beyond |
| ChunkedMatVec.InitMatrixWorker | 3rdTask/1/main.cpp:57-58 | with the diagonal 2 below k*(n/p) and every other cell 1, worker k extends the 2s on the diagonal to below (k+1)*(n/p) |
| ChunkedMatVec.InitVectorWorker | 3rdTask/1/main.cpp:66-67 | with vector[i] == i+1 below k*(n/p) and 0 beyond, worker k extends the i+1 entries to below (k+1)*(n/p) |
| ChunkedMatVec.MultiplyPhase | 3rdTask/1/main.cpp:75-85 | result[i] is the row sum from the start of i's chunk for the assigned rows, and stays 0 for the unassigned remainder |
| ChunkedMatVec.RowSumOfCell | 3rdTask/1/main.cpp:23-30 | the arrays' row sum equals the row sum of the initialised cell values |
| ChunkedMatVec.CellRowSumValue | 3rdTask/1/main.cpp:26-27 | closed form of a row sum over [lo, hi) of the initialised data: twice it is Tri(min(hi, p*(n/p))) - Tri(lo), plus 2(i+1) when i < hi |
| ChunkedMatVec.CellResultValue | 3rdTask/1/main.cpp:24-28 | an assigned row's chunk starts at or before it, and twice its result is Tri(p*(n/p)) - Tri(chunk start) + 2(i+1) |
| ChunkedMatVec.BenchmarkCell | 3rdTask/1/main.cpp:53-85 | one (threads, size) cell gives the matrix, the vector and the result in closed form, with result 0 beyond p*(n/p) |
| ChunkedMatVec.FillTables | 3rdTask/1/main.cpp:47-92 | cell (i, j) holds the measured runtime, and the speedup divides the one-thread runtime of size j by it |
| RowScaling.Init | 2ndTask/1/main.cpp:8-15 | matrix[i][j] == i + j and vector[i] == i for all i, j < n |
| RowScaling.ScaleColumns | 2ndTask/1/main.cpp:51-57 | each matrix[q][w] is multiplied, once, by vector[w]; vector is not written |
| RowScaling.BenchmarkCell | 2ndTask/1/main.cpp:46-57 | after init and the timed loop matrix[q][w] == (q + w) * w and vector[i] == i |
| RowScaling.Multiplication | 2ndTask/1/main.cpp:17-27 | the by-value parameters leave the caller's matrix and vector unchanged; the private copy ends scaled column by column |
| RowScaling.Baseline | 2ndTask/1/main.cpp:62-67 | with the two matrix sizes, the j == 0 / else branch picks runtimes[0][j], the one-thread run of the same size |
| RowScaling.FillTables | 2ndTask/1/main.cpp:42-68 | cell (i, j) holds the measured runtime, and the speedup divides the one-thread runtime of size j by it |
| StringOps.SizeTSucc | 2ndTask/2/node.cpp:65 | size_t increment: x + 1 below npos, and npos + 1 wraps to 0 |
| StringOps.FindFrom | 2ndTask/2/node.cpp:51 | search from a position gives the first match at or after it, or npos when there is none |
| StringOps.Find | 2ndTask/2/node.cpp:51 | the result is the first position where the pattern occurs, or npos when it occurs nowhere |
| StringOps.Contains | 2ndTask/2/node.cpp:51-81 | the find(key) != npos test holds iff the key occurs somewhere in the line (for lines shorter than npos) |
| StringOps.ContainsAt | 2ndTask/2/node.cpp:64 | a line with an occurrence of the key contains it |
| StringOps.NotContainsChar | 2ndTask/2/node.cpp:64 | a key with a character the line lacks is not found |
| StringOps.MatchAtChar | 2ndTask/2/node.cpp:65 | a one-character pattern matches exactly where that character is |
| StringOps.FindChar | 2ndTask/2/node.cpp:65 | find of a character is its first position |
| StringOps.FindNoChar | 2ndTask/2/node.cpp:65 | find of an absent character is npos |
| StringOps.AfterFirst | 2ndTask/2/node.cpp:65-96 | substr(find(sep) + 1) is the whole line when sep is absent (npos + 1 wraps to 0); otherwise the line is the text before the first sep, that sep, then the result |
| StringOps.AfterFirstAt | 2ndTask/2/node.cpp:65 | with the first sep at k, the value is the text from k+1 on |
| StringOps.AfterFirstPrefix | 2ndTask/2/node.cpp:63-78 | a line made of a key ending in its only sep, then a rest, gives the rest |
| StringOps.FindFirstNotOfFrom | 2ndTask/2/node.cpp:79 | the first non-c position at or after a start, or npos when only c follows |
| StringOps.FindFirstNotOf | 2ndTask/2/node.cpp:79 | find_first_not_of gives the first non-c position, or npos when every character is c |
| StringOps.FindLastNotOfBelow | 2ndTask/2/node.cpp:80 | the last non-c position below a bound, or npos when only c lies below it |
| StringOps.FindLastNotOf | 2ndTask/2/node.cpp:80 | find_last_not_of gives the last non-c position, or npos when every character is c |
| StringOps.StripLeading | 2ndTask/2/node.cpp:79 | reference definition: the longest suffix without a leading quote, after only quotes |
| StringOps.StripTrailing | 2ndTask/2/node.cpp:80 | reference definition: the longest prefix without a trailing quote, before only quotes |
| StringOps.StripLeadingAt | 2ndTask/2/node.cpp:79 | stripping the leading quotes of a string whose first non-quote is at k gives the text from k |
| StringOps.StripTrailingAt | 2ndTask/2/node.cpp:80 | stripping the trailing quotes of a string whose last non-quote is at k-1 gives the first k characters |
| StringOps.EraseFrontIsStripLeading | 2ndTask/2/node.cpp:79 | erase(0, find_first_not_of('"')) (EraseFront: the suffix after the first count characters, nothing when count reaches the length) removes exactly the leading quotes, and everything when all are quotes |
| StringOps.EraseBackIsStripTrailing | 2ndTask/2/node.cpp:80 | erase(find_last_not_of('"') + 1) (EraseFrom: the first pos characters) removes exactly the trailing quotes, and everything when all are quotes (npos + 1 wraps to 0) |
| StringOps.TrimQuotes | 2ndTask/2/node.cpp:79-84 | the two erase calls equal the reference definition: strip the leading quotes, then the trailing ones |
| StringOps.StripBothAround | 2ndTask/2/node.cpp:79-80 | the stripped text is a slice of the value with only quotes before and after it |
| StringOps.StripBothNoOuterQuotes | 2ndTask/2/node.cpp:79-80 | the stripped text neither starts nor ends with a quote |
| StringOps.TrimQuotesShape | 2ndTask/2/node.cpp:79-84 | the trimmed value is the slice after the leading quotes, only quotes follow it, and it has no quote at either end; interior quotes are kept |
| StringOps.TrimAllQuotes | 2ndTask/2/node.cpp:79-80 | a value of only quotes becomes empty |
| StringOps.TrimUnquoted | 2ndTask/2/node.cpp:79-80 | a value with no quote at either end is unchanged |
| StringOps.TrimQuotePair | 2ndTask/2/node.cpp:83-84 | a quoted value "x" becomes x |
| StringOps.StripQuotePair | 2ndTask/2/node.cpp:83-84 | stripping both ends of a quoted nonempty x gives x |
| StringOps.TrimQuotesIdempotent | 2ndTask/2/node.cpp:79-80 | trimming an already trimmed value changes nothing |
| StringOps.IndexOfNewline | 2ndTask/2/node.cpp:50 | the position of the first newline, or the length when there is none |
| StringOps.Lines | 2ndTask/2/node.cpp:50 | getline splits the text into lines without newlines, no longer than the text |
| StringOps.LinesOfUnlines | 2ndTask/2/node.cpp:50 | lines without newlines, each terminated by a newline and read back by getline, give the same lines |
| StringOps.UnlinesCons | 2ndTask/2/node.cpp:29-33 | writing a line then more lines is the line, a newline, then the rest |
| StringOps.TerminatedAppend | 2ndTask/2/node.cpp:50 | terminating a text that starts with a full line keeps that line and terminates the rest |
| StringOps.UnlinesOfLines | 2ndTask/2/node.cpp:50 | rejoining the getline lines gives the text with a final newline added when it lacks one |
| StringOps.DigitChar | 2ndTask/2/node.cpp:92 | a digit below 10 becomes its decimal character |
| StringOps.NatToString | 2ndTask/2/node.cpp:92-96 | std::to_string of a count is a nonempty string of decimal digits with no leading zero |
| StringOps.NatToStringRoundTrip | 2ndTask/2/node.cpp:92-96 | reading the digits back gives the number |
| StringOps.NatToStringInjective | 2ndTask/2/node.cpp:96 | distinct node numbers give distinct "Memory Node i" labels |
| NodeInfo.CpuBranchesExclusive | 2ndTask/2/node.cpp:64-70 | each lscpu line sets at most one field, and sets one iff it contains one of the three keys |
| NodeInfo.CpuValue | 2ndTask/2/node.cpp:65-69 | an lscpu field is the whole line when it has no ':', and otherwise the text after its first ':' |
| NodeInfo.OsValue | 2ndTask/2/node.cpp:78-84 | an os-release value is the text after the first '=' with every leading and every trailing quote stripped, so it neither starts nor ends with a quote |
| NodeInfo.NumaLinesExactly | 2ndTask/2/node.cpp:50-55 | the kept lines are exactly the lines containing both "node" and "size" |
| NodeInfo.NumaLinesAppend | 2ndTask/2/node.cpp:50-55 | keeping lines commutes with concatenation, so the kept lines stay in input order |
| NodeInfo.LastValueIsLastMatch | 2ndTask/2/node.cpp:63-86 | a field holds the value of the last line its branch selects: a later match overwrites an earlier one |
| NodeInfo.LastValueNoMatch | 2ndTask/2/node.cpp:61-74 | a field that no line selects stays empty |
| NodeInfo.CodenameLineSetsOsName | 2ndTask/2/node.cpp:77-80 | a VERSION_CODENAME= line contains NAME=, so its unquoted value becomes the OS name |
| NodeInfo.CodenameLastIsOsName | 2ndTask/2/node.cpp:76-86 | when a VERSION_CODENAME= line is followed by no line containing NAME=, "OS Name" is the codename |
| NodeInfo.VersionLineSetsOsVersion | 2ndTask/2/node.cpp:81-84 | a VERSION="v" line (with no NAME= in it) sets the OS version to v without the quotes |
| NodeInfo.CpuCountLineValue | 2ndTask/2/node.cpp:68-69 | a "CPU(s):" line sets "Total CPUs" to the text after the colon |
| NodeInfo.NumaCpuLineValue | 2ndTask/2/node.cpp:68-69 | a "NUMA node<i> CPU(s):" line, for any node number i, also matches CPU(s): and sets "Total CPUs" to that node's CPU list |
| NodeInfo.NumaCpuListOverridesCount | 2ndTask/2/node.cpp:63-71 | when a NUMA node's CPU line is followed by no line containing CPU(s):, "Total CPUs" holds that node's CPU list instead of the count |
| NodeInfo.MemoryLineValue | 2ndTask/2/node.cpp:50-96 | a numactl "node 0 size:" line is kept, and its value is the text after the colon |
| NodeInfo.ScanNuma | 2ndTask/2/node.cpp:45-55 | memoryPerNode holds the lines with "node" and "size", in input order, and numaNodeCount is how many there are |
| NodeInfo.ScanCpu | 2ndTask/2/node.cpp:59-71 | each lscpu field is the value after ':' of the last line its branch selects, tested in the order Architecture:, Model name:, CPU(s): |
| NodeInfo.EraseQuotes | 2ndTask/2/node.cpp:79-84 | the two in-place erase calls compute the quote trimming whose properties TrimQuotesShape states |
| NodeInfo.ScanOs | 2ndTask/2/node.cpp:73-86 | osName comes from the last line containing NAME=, and osVersion from the last line containing VERSION= but not NAME=, each unquoted after the first '=' |
| NodeInfo.BuildData | 2ndTask/2/node.cpp:88-102 | the list holds the four fixed entries, one "Memory Node i" entry per memory line (text after its first ':', the whole line when it has none), then Server Name, OS Name and OS Version |
| NodeInfo.WriteCsv | 2ndTask/2/node.cpp:29-33 | the written text is the header line, then one "first,second" line per entry, in order and unescaped |
| NodeInfo.SplitCsvLine | 2ndTask/2/node.cpp:32 | a line written for a safe entry splits back into that entry |
| NodeInfo.CsvRoundTrip | 2ndTask/2/node.cpp:29-33 | the CSV has the header and one line per entry, and reading it back gives the data list, for entries without ',' in the key or newlines |
| NodeInfo.CsvTextLines | 2ndTask/2/node.cpp:29-33 | splitting the CSV text at newlines gives the header line followed by one line per entry, for entries without newlines |
| NodeInfo.EntriesOfCsvLines | 2ndTask/2/node.cpp:29-33 | splitting each written entry line at its first comma gives back the entry, for keys without a comma |
| NodeInfo.SystemInfo | 2ndTask/2/node.cpp:38-104 | the data list built from the four command outputs, field by field, and the CSV text written for it |

## Left out

- Concurrency: OpenMP regions, `atomic`, `barrier`, `single`, parallel-for scheduling and `std::thread`/`join` are modelled as a sequential run of each thread's share; interleavings, data races and scheduling are not.
- PartitionedSolver.RoundLoop: 2ndTask/3/main1.cpp has no barrier between one round's update of x and the next round's mat-vec, so a thread may read x before every thread has updated it; the model runs the phases in lockstep and does not capture that race.
- PartitionedSolver.IterationMethod: the unbounded `while(!stop)` loop of 2ndTask/3/main1.cpp takes a round budget `maxRounds`; the model makes no termination claim, and it says nothing about rounds beyond the budget.
- Floating point: `long double`/`double` are idealised as `real`, and rounding, `sqrt` (replaced by comparing squares) and `exp` are not modelled. Whether the iteration converges, the final `sum * step`, the value of the integral and the absolute and relative error sums are left out.
- Integration.IntegrateOmp: the samples `exp(-x*x)` at the midpoints are a parameter `sample` of the index, and `nsteps` is taken as non-negative.
- Timing: `CpuSecond` and `std::chrono` are left out; measured times are parameters of the table-filling methods.
- Integration.ThreadSweep, ChunkedMatVec.FillTables, RowScaling.FillTables: they require nonzero measured times, since Dafny's real division needs it; the C++ division by 0.0 would give inf.
- File output: the results CSV appends, the "header if tellp() == 0" rule, the open-failure paths, the console output and `printf` are I/O; writeCSV's file contents are returned as a string.
- `executeCommand` (`popen`/`fgets`) is I/O; the four command outputs are parameters of NodeInfo.SystemInfo.
- ChunkedMatVec and RowScaling: `vector<vector<double>>` holding small integers is modelled as `array2<int>`, which is exact for these values; the row-of-vectors layout is not modelled.
- BoundedSolver and PartitionedSolver: memory allocation and `delete[]` are left out; the exit(13) path is an `Exit(13)` outcome.
- 32-bit `int` overflow in the solvers: 2ndTask/3/main1.cpp:33 and :73 compute the flat index `i * MATRIX_SIZE + j` with `int i` (main.cpp uses `size_t` there), and both solvers allocate `new long double[MATRIX_SIZE * MATRIX_SIZE]` with an `int` product (main1.cpp:59, main.cpp:64). Both overflow, which is undefined behaviour, once N > 46340; the model's N is unbounded and its statements hold only for N*N < 2^31 in the C++ program.
- Some string lemmas require lengths below npos (2^64 - 1), where size_t positions are exact.
- The `#error` configuration guards are preprocessor checks and are left out.
- The Python scripts (plotting, subprocess launcher, 3rdTask/2/test.py) and 4thTask/main.py (camera, sensor threads) are not part of this model.
