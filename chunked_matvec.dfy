/** The std::thread matrix-vector benchmark (3rdTask/1/main.cpp).

    For every (thread count, size) cell, the matrix starts as all 1.0 and the
    vector and the result as all 0.0; then numThreads workers each run
    parallelMatrixInit, then parallelVectorInit, then
    matrixVectorMultiplication on their chunk [k * c, (k+1) * c) with
    c = size / numThreads (Partition.ChunkBounds), the last size mod
    numThreads indices belonging to nobody. Every value stored is an integer
    far below 2^53, so the doubles are modelled exactly as `int`. The workers
    of each phase are run one after the other; their ranges are disjoint. */
module ChunkedMatVec {
  import opened Partition

  const Sizes: seq<int> := [20000, 40000]
  const NumThreads: seq<int> := [1, 2, 4, 7, 8, 16, 20, 40]

  /** parallelMatrixInit (3rdTask/1/main.cpp:9-15): the diagonal block
      [start, end) x [start, end) gets 2 on the diagonal and 1 elsewhere;
      nothing outside the block changes. */
  method ParallelMatrixInit(matrix: array2<int>, start: int, end: int)
    requires 0 <= start && end <= matrix.Length0 && end <= matrix.Length1
    modifies matrix
    ensures forall i, j :: 0 <= i < matrix.Length0 && 0 <= j < matrix.Length1 ==>
      matrix[i, j] == if start <= i < end && start <= j < end then (if i == j then 2 else 1) else old(matrix[i, j])
  {
    var i := start;
    while i < end
      invariant start <= i && (i <= end || i == start)
      invariant forall r, c :: 0 <= r < matrix.Length0 && 0 <= c < matrix.Length1 ==>
        matrix[r, c] == if start <= r < i && start <= c < end then (if r == c then 2 else 1) else old(matrix[r, c])
    {
      var j := start;
      while j < end
        invariant start <= j <= end
        invariant forall r, c :: 0 <= r < matrix.Length0 && 0 <= c < matrix.Length1 ==>
          matrix[r, c] == if (start <= r < i && start <= c < end) || (r == i && start <= c < j)
                          then (if r == c then 2 else 1) else old(matrix[r, c])
      {
        matrix[i, j] := if i == j then 2 else 1;
        j := j + 1;
      }
      i := i + 1;
    }
  }

  /** parallelVectorInit (3rdTask/1/main.cpp:17-21): vector[i] := i + 1 on
      [start, end) only. */
  method ParallelVectorInit(vector: array<int>, start: int, end: int)
    requires 0 <= start && end <= vector.Length
    modifies vector
    ensures forall i :: 0 <= i < vector.Length ==>
      vector[i] == if start <= i < end then i + 1 else old(vector[i])
  {
    var i := start;
    while i < end
      invariant start <= i && (i <= end || i == start)
      invariant forall k :: 0 <= k < vector.Length ==>
        vector[k] == if start <= k < i then k + 1 else old(vector[k])
    {
      vector[i] := i + 1;
      i := i + 1;
    }
  }

  /** Row i of matrix times vector, over the columns lo, ..., hi-1 only. */
  function RowSum(matrix: array2<int>, vector: array<int>, i: int, lo: int, hi: int): int
    requires 0 <= i < matrix.Length0 && 0 <= lo
    requires hi <= lo || (hi <= matrix.Length1 && hi <= vector.Length)
    reads matrix, vector
    decreases hi - lo
  {
    if hi <= lo then 0 else RowSum(matrix, vector, i, lo, hi - 1) + matrix[i, hi - 1] * vector[hi - 1]
  }

  /** matrixVectorMultiplication (3rdTask/1/main.cpp:23-30): for every row i
      of [start, end), result[i] is row i times vector over the columns
      start, ..., n-1 only: the inner loop starts at start, not at 0. No
      other entry of result changes. */
  method MatrixVectorMultiplication(matrix: array2<int>, vector: array<int>, result: array<int>, start: int, end: int)
    requires 0 <= start && end <= matrix.Length0 && end <= result.Length
    requires matrix.Length1 <= vector.Length && result != vector
    modifies result
    ensures forall i :: 0 <= i < result.Length ==>
      result[i] == if start <= i < end then RowSum(matrix, vector, i, start, matrix.Length1) else old(result[i])
  {
    var i := start;
    while i < end
      invariant start <= i && (i <= end || i == start)
      invariant forall k :: 0 <= k < result.Length ==>
        result[k] == if start <= k < i then RowSum(matrix, vector, k, start, matrix.Length1) else old(result[k])
    {
      result[i] := 0;
      var j := start;
      while j < matrix.Length1
        invariant start <= j && (j <= matrix.Length1 || j == start)
        invariant result[i] == RowSum(matrix, vector, i, start, j)
        invariant forall k :: 0 <= k < result.Length && k != i ==>
          result[k] == if start <= k < i then RowSum(matrix, vector, k, start, matrix.Length1) else old(result[k])
      {
        result[i] := result[i] + matrix[i, j] * vector[j];
        j := j + 1;
      }
      i := i + 1;
    }
  }

  /** The first column of the chunk that holds row i (0 when chunks are empty). */
  function ChunkStart(n: nat, p: nat, i: nat): nat
    requires 1 <= p
  {
    var c := n / p;
    if c == 0 then 0 else (i / c) * c
  }

  /** The rows some chunk holds: [0, p * (n/p)). */
  function Covered(n: nat, p: nat): (c: nat)
    requires 1 <= p
    ensures c <= n
  {
    SharesFit(n, p, p);
    p * (n / p)
  }

  /** The entries the two init phases leave, starting from a matrix of 1.0
      and a vector of 0.0 (3rdTask/1/main.cpp:53, 65). */
  function CellMatrixEntry(n: nat, p: nat, i: int, j: int): int
    requires 1 <= p
  {
    if i == j && 0 <= i < p * (n / p) then 2 else 1
  }

  function CellVectorEntry(n: nat, p: nat, i: int): int
    requires 1 <= p
  {
    if 0 <= i < p * (n / p) then i + 1 else 0
  }

  /** The matrix phase for all workers (3rdTask/1/main.cpp:56-62). */
  method InitMatrixPhase(matrix: array2<int>, n: nat, p: nat)
    requires 1 <= p && matrix.Length0 == n && matrix.Length1 == n
    requires forall i, j :: 0 <= i < n && 0 <= j < n ==> matrix[i, j] == 1
    modifies matrix
    ensures forall i, j :: 0 <= i < n && 0 <= j < n ==> matrix[i, j] == CellMatrixEntry(n, p, i, j)
  {
    var chunkSize := n / p;
    var k := 0;
    ghost var cur := 0;
    while k < p
      invariant 0 <= k <= p && cur == k * chunkSize
      invariant forall i, j :: 0 <= i < n && 0 <= j < n ==> matrix[i, j] == if i == j && i < cur then 2 else 1
    {
      ChunkAfter(n, p, k, cur);
      InitMatrixWorker(matrix, n, p, k, cur);
      k := k + 1;
      cur := cur + chunkSize;
    }
    forall i, j | 0 <= i < n && 0 <= j < n
      ensures matrix[i, j] == CellMatrixEntry(n, p, i, j)
    {
      assert matrix[i, j] == if i == j && i < cur then 2 else 1;
    }
  }

  /** Worker k of the matrix phase: the diagonal of its chunk becomes 2. */
  method InitMatrixWorker(matrix: array2<int>, n: nat, p: nat, k: nat, ghost cur: int)
    requires 1 <= p && k < p && cur == k * (n / p) && matrix.Length0 == n && matrix.Length1 == n
    requires forall i, j :: 0 <= i < n && 0 <= j < n ==> matrix[i, j] == if i == j && i < cur then 2 else 1
    modifies matrix
    ensures forall i, j :: 0 <= i < n && 0 <= j < n ==> matrix[i, j] == if i == j && i < cur + n / p then 2 else 1
  {
    var range := ChunkBounds(n, p, k);
    ChunkAfter(n, p, k, cur);
    ParallelMatrixInit(matrix, range.start, range.end);
  }

  /** The vector phase for all workers (3rdTask/1/main.cpp:65-72). */
  method InitVectorPhase(vector: array<int>, n: nat, p: nat)
    requires 1 <= p && vector.Length == n
    requires forall i :: 0 <= i < n ==> vector[i] == 0
    modifies vector
    ensures forall i :: 0 <= i < n ==> vector[i] == CellVectorEntry(n, p, i)
  {
    var chunkSize := n / p;
    var k := 0;
    ghost var cur := 0;
    while k < p
      invariant 0 <= k <= p && cur == k * chunkSize
      invariant forall i :: 0 <= i < n ==> vector[i] == if i < cur then i + 1 else 0
    {
      ChunkAfter(n, p, k, cur);
      InitVectorWorker(vector, n, p, k, cur);
      k := k + 1;
      cur := cur + chunkSize;
    }
    assert cur == p * (n / p);
  }

  /** Worker k of the vector phase: its chunk gets vector[i] = i + 1. */
  method InitVectorWorker(vector: array<int>, n: nat, p: nat, k: nat, ghost cur: int)
    requires 1 <= p && k < p && cur == k * (n / p) && vector.Length == n
    requires forall i :: 0 <= i < n ==> vector[i] == if i < cur then i + 1 else 0
    modifies vector
    ensures forall i :: 0 <= i < n ==> vector[i] == if i < cur + n / p then i + 1 else 0
  {
    var range := ChunkBounds(n, p, k);
    ChunkAfter(n, p, k, cur);
    ParallelVectorInit(vector, range.start, range.end);
  }

  /** The multiplication phase for all workers (3rdTask/1/main.cpp:75-85):
      the rows of every chunk get their partial products from the chunk's
      first column on; the rows no chunk holds keep the initial 0. */
  method MultiplyPhase(matrix: array2<int>, vector: array<int>, result: array<int>, n: nat, p: nat)
    requires 1 <= p && matrix.Length0 == n && matrix.Length1 == n && vector.Length == n && result.Length == n
    requires result != vector
    requires forall i :: 0 <= i < n ==> result[i] == 0
    modifies result
    ensures forall i :: 0 <= i < n ==>
      result[i] == if i < p * (n / p) then RowSum(matrix, vector, i, ChunkStart(n, p, i), n) else 0
  {
    var chunkSize := n / p;
    var k := 0;
    ghost var cur := 0;
    while k < p
      invariant 0 <= k <= p && cur == k * chunkSize
      invariant forall i :: 0 <= i < n ==>
        result[i] == if i < cur then RowSum(matrix, vector, i, ChunkStart(n, p, i), n) else 0
    {
      var range := ChunkBounds(n, p, k);
      ChunkAfter(n, p, k, cur);
      forall i | cur <= i < cur + chunkSize
        ensures ChunkStart(n, p, i) == cur
      {
        DivBlock(i, chunkSize, k);
      }
      MatrixVectorMultiplication(matrix, vector, result, range.start, range.end);
      k := k + 1;
      cur := cur + chunkSize;
    }
  }

  /** k (k + 1): twice the sum 1 + 2 + ... + k. */
  function Tri(k: int): int { k * (k + 1) }

  /** Row i of the cell's matrix times the cell's vector, over the columns
      lo, ..., hi-1. */
  function CellRowSum(n: nat, p: nat, i: int, lo: int, hi: int): int
    requires 1 <= p
    decreases hi - lo
  {
    if hi <= lo then 0
    else CellRowSum(n, p, i, lo, hi - 1) + CellMatrixEntry(n, p, i, hi - 1) * CellVectorEntry(n, p, hi - 1)
  }

  /** On arrays holding the cell's matrix and vector, RowSum is CellRowSum. */
  lemma {:induction false} RowSumOfCell(matrix: array2<int>, vector: array<int>, n: nat, p: nat, i: int, lo: int, hi: int)
    requires 1 <= p && matrix.Length0 == n && matrix.Length1 == n && vector.Length == n
    requires 0 <= i < n && 0 <= lo && hi <= n
    requires forall r, c :: 0 <= r < n && 0 <= c < n ==> matrix[r, c] == CellMatrixEntry(n, p, r, c)
    requires forall r :: 0 <= r < n ==> vector[r] == CellVectorEntry(n, p, r)
    ensures RowSum(matrix, vector, i, lo, hi) == CellRowSum(n, p, i, lo, hi)
    decreases hi - lo
  {
    if lo < hi {
      RowSumOfCell(matrix, vector, n, p, i, lo, hi - 1);
    }
  }

  /** The closed form of a row sum that starts at or before the row's own
      column and inside the initialised part m = p * (n/p): the columns below
      m contribute j + 1 each, the diagonal once more. */
  lemma {:induction false} CellRowSumValue(n: nat, p: nat, i: int, lo: int, hi: int)
    requires 1 <= p && 0 <= lo <= i < p * (n / p) && lo <= hi
    ensures 2 * CellRowSum(n, p, i, lo, hi)
      == Tri(if hi < p * (n / p) then hi else p * (n / p)) - Tri(lo) + (if i < hi then 2 * (i + 1) else 0)
    decreases hi - lo
  {
    if lo < hi {
      CellRowSumValue(n, p, i, lo, hi - 1);
      assert Tri(hi) == Tri(hi - 1) + 2 * hi;
    }
  }

  /** The rows of chunk k > 0 miss the columns before the chunk: a row of the
      first chunk gets the full row sum Tri(m)/2 + (i + 1), a row of a later
      chunk starting at s gets (Tri(m) - Tri(s))/2 + (i + 1). */
  lemma CellResultValue(n: nat, p: nat, i: int)
    requires 1 <= p && 0 <= i < p * (n / p)
    ensures ChunkStart(n, p, i) <= i
    ensures 2 * CellRowSum(n, p, i, ChunkStart(n, p, i), n)
      == Tri(p * (n / p)) - Tri(ChunkStart(n, p, i)) + 2 * (i + 1)
  {
    var c := n / p;
    assert c > 0;
    assert i == (i / c) * c + i % c;
    SharesFit(n, p, p);
    CellRowSumValue(n, p, i, ChunkStart(n, p, i), n);
  }

  /** One (thread count, size) cell (3rdTask/1/main.cpp:53-85) up to the
      timing: the final matrix, vector and result. */
  method BenchmarkCell(matrixSize: nat, numThreads: nat) returns (matrix: array2<int>, vector: array<int>, result: array<int>)
    requires 1 <= numThreads
    ensures fresh(matrix) && fresh(vector) && fresh(result)
    ensures matrix.Length0 == matrixSize && matrix.Length1 == matrixSize
    ensures vector.Length == matrixSize && result.Length == matrixSize
    ensures forall i, j :: 0 <= i < matrixSize && 0 <= j < matrixSize ==>
      matrix[i, j] == CellMatrixEntry(matrixSize, numThreads, i, j)
    ensures forall i :: 0 <= i < matrixSize ==> vector[i] == CellVectorEntry(matrixSize, numThreads, i)
    ensures forall i :: 0 <= i < matrixSize ==>
      result[i] == if i < Covered(matrixSize, numThreads)
                   then RowSum(matrix, vector, i, ChunkStart(matrixSize, numThreads, i), matrixSize)
                   else 0
    ensures forall i :: 0 <= i < Covered(matrixSize, numThreads) ==>
      2 * result[i] == Tri(Covered(matrixSize, numThreads)) - Tri(ChunkStart(matrixSize, numThreads, i)) + 2 * (i + 1)
  {
    matrix := new int[matrixSize, matrixSize]((i, j) => 1);
    InitMatrixPhase(matrix, matrixSize, numThreads);
    vector := new int[matrixSize](i => 0);
    InitVectorPhase(vector, matrixSize, numThreads);
    result := new int[matrixSize](i => 0);
    MultiplyPhase(matrix, vector, result, matrixSize, numThreads);
    SharesFit(matrixSize, numThreads, numThreads);
    forall i | 0 <= i < Covered(matrixSize, numThreads)
      ensures 2 * result[i] == Tri(Covered(matrixSize, numThreads)) - Tri(ChunkStart(matrixSize, numThreads, i)) + 2 * (i + 1)
    {
      CellResultValue(matrixSize, numThreads, i);
      RowSumOfCell(matrix, vector, matrixSize, numThreads, i, ChunkStart(matrixSize, numThreads, i), matrixSize);
    }
  }

  /** The result tables (3rdTask/1/main.cpp:36-37, 47-50, 88-92): cell (i, j)
      is written once, on its own pass, with its measured runtime, and the
      speedup divides runtimes[0][j], the one-thread run of the same size,
      by it. Row 0 is filled first, so runtimes[0][j] is already the
      one-thread time when any later row reads it. The measured times are a
      parameter. */
  method FillTables(times: seq<seq<real>>) returns (runtimes: array2<real>, speedups: array2<real>)
    requires |times| == |NumThreads|
    requires forall i :: 0 <= i < |NumThreads| ==> |times[i]| == |Sizes|
    requires forall i, j :: 0 <= i < |NumThreads| && 0 <= j < |Sizes| ==> times[i][j] != 0.0
    ensures fresh(runtimes) && fresh(speedups)
    ensures runtimes.Length0 == |NumThreads| && runtimes.Length1 == |Sizes|
    ensures speedups.Length0 == |NumThreads| && speedups.Length1 == |Sizes|
    ensures forall i, j :: 0 <= i < |NumThreads| && 0 <= j < |Sizes| ==>
      runtimes[i, j] == times[i][j] && speedups[i, j] == times[0][j] / times[i][j]
  {
    runtimes := new real[|NumThreads|, |Sizes|]((i, j) => 0.0);
    speedups := new real[|NumThreads|, |Sizes|]((i, j) => 0.0);
    var i := 0;
    while i < |NumThreads|
      invariant 0 <= i <= |NumThreads|
      invariant forall r, c :: 0 <= r < |NumThreads| && 0 <= c < |Sizes| ==>
        if r < i then runtimes[r, c] == times[r][c] && speedups[r, c] == times[0][c] / times[r][c]
        else runtimes[r, c] == 0.0 && speedups[r, c] == 0.0
    {
      var j := 0;
      while j < |Sizes|
        invariant 0 <= j <= |Sizes|
        invariant forall r, c :: 0 <= r < |NumThreads| && 0 <= c < |Sizes| ==>
          if r < i || (r == i && c < j) then runtimes[r, c] == times[r][c] && speedups[r, c] == times[0][c] / times[r][c]
          else runtimes[r, c] == 0.0 && speedups[r, c] == 0.0
      {
        var runtime := times[i][j];
        runtimes[i, j] := runtime;
        var speedup := runtimes[0, j] / runtime;
        speedups[i, j] := speedup;
        j := j + 1;
      }
      i := i + 1;
    }
  }
}
