/** The OpenMP scaling benchmark (2ndTask/1/main.cpp).

    For every (thread count, size) cell, init fills matrix[i][j] = i + j and
    vector[i] = i, and the timed loop multiplies every matrix[q][w] by
    vector[w]. The values are integers far below 2^53, so the doubles are
    modelled exactly as `int`. The parallel-for loops split the rows among
    threads and join them before returning; their effect is that of one
    sequential sweep, which is what the model runs. */
module RowScaling {

  const NumThreads: seq<int> := [1, 2, 4, 7, 8, 16, 20, 40]
  const MatrixSizes: seq<int> := [20000, 40000]

  /** init (2ndTask/1/main.cpp:8-15). */
  method Init(matrix: array2<int>, vector: array<int>, matrixSize: nat)
    requires matrix.Length0 == matrixSize && matrix.Length1 == matrixSize && vector.Length == matrixSize
    modifies matrix, vector
    ensures forall i, j :: 0 <= i < matrixSize && 0 <= j < matrixSize ==> matrix[i, j] == i + j
    ensures forall i :: 0 <= i < matrixSize ==> vector[i] == i
  {
    var i := 0;
    while i < matrixSize
      invariant 0 <= i <= matrixSize
      invariant forall r, c :: 0 <= r < i && 0 <= c < matrixSize ==> matrix[r, c] == r + c
      invariant forall r :: 0 <= r < i ==> vector[r] == r
    {
      var j := 0;
      while j < matrixSize
        invariant 0 <= j <= matrixSize
        invariant forall r, c :: 0 <= r < i && 0 <= c < matrixSize ==> matrix[r, c] == r + c
        invariant forall c :: 0 <= c < j ==> matrix[i, c] == i + c
        invariant forall r :: 0 <= r < i ==> vector[r] == r
      {
        matrix[i, j] := i + j;
        j := j + 1;
      }
      vector[i] := i;
      i := i + 1;
    }
  }

  /** matrix[q][w] *= vector[w] for every q, w < n: each entry is multiplied
      exactly once by the entry of vector for its column; vector is not
      changed. */
  method ScaleColumns(matrix: array2<int>, vector: array<int>, n: nat)
    requires matrix.Length0 == n && matrix.Length1 == n && n <= vector.Length
    modifies matrix
    ensures forall q, w :: 0 <= q < n && 0 <= w < n ==> matrix[q, w] == old(matrix[q, w]) * vector[w]
  {
    var q := 0;
    while q < n
      invariant 0 <= q <= n
      invariant forall r, c :: 0 <= r < n && 0 <= c < n ==>
        matrix[r, c] == if r < q then old(matrix[r, c]) * vector[c] else old(matrix[r, c])
    {
      var w := 0;
      while w < n
        invariant 0 <= w <= n
        invariant forall r, c :: 0 <= r < n && 0 <= c < n ==>
          matrix[r, c] == if r < q || (r == q && c < w) then old(matrix[r, c]) * vector[c] else old(matrix[r, c])
      {
        matrix[q, w] := matrix[q, w] * vector[w];
        w := w + 1;
      }
      q := q + 1;
    }
  }

  /** One (thread count, size) cell (2ndTask/1/main.cpp:46-57) up to the
      timing: after init and the timed loop, matrix[q][w] == (q + w) * w and
      vector[i] == i. */
  method BenchmarkCell(matrixSize: nat) returns (matrix: array2<int>, vector: array<int>)
    ensures fresh(matrix) && fresh(vector)
    ensures matrix.Length0 == matrixSize && matrix.Length1 == matrixSize && vector.Length == matrixSize
    ensures forall q, w :: 0 <= q < matrixSize && 0 <= w < matrixSize ==> matrix[q, w] == (q + w) * w
    ensures forall i :: 0 <= i < matrixSize ==> vector[i] == i
  {
    matrix := new int[matrixSize, matrixSize];
    vector := new int[matrixSize];
    Init(matrix, vector, matrixSize);
    ScaleColumns(matrix, vector, matrixSize);
  }

  /** multiplication (2ndTask/1/main.cpp:17-27): matrix and vector are taken
      by value, so it scales a private copy of the matrix and leaves the
      caller's matrix and vector as they were. `scaled` is the copy after the
      loop, which the source discards. */
  method Multiplication(numThreads: int, matrix: array2<int>, vector: array<int>, threads: int)
    returns (ghost scaled: seq<seq<int>>)
    requires matrix.Length0 == matrix.Length1 && matrix.Length0 <= vector.Length
    ensures unchanged(matrix) && unchanged(vector)
    ensures |scaled| == matrix.Length0
    ensures forall i :: 0 <= i < |scaled| ==> |scaled[i]| == matrix.Length1
    ensures forall i, j :: 0 <= i < |scaled| && 0 <= j < matrix.Length1 ==> scaled[i][j] == matrix[i, j] * vector[j]
  {
    var n := matrix.Length0;
    var copy := new int[n, n]((i, j) reads matrix requires 0 <= i < n && 0 <= j < n => matrix[i, j]);
    ScaleColumns(copy, vector, n);
    scaled := seq(n, i requires 0 <= i < n reads copy => seq(n, j requires 0 <= j < n reads copy => copy[i, j]));
  }

  /** The speedup baseline (2ndTask/1/main.cpp:62-67): runtimes[0][0] for the
      first size and runtimes[0][1] for any other. */
  function Baseline(runtimes: array2<real>, j: int): (r: real)
    requires runtimes.Length0 >= 1 && runtimes.Length1 >= 2
    reads runtimes
    ensures runtimes.Length1 == |MatrixSizes| && 0 <= j < |MatrixSizes| ==> r == runtimes[0, j]
  {
    if j == 0 then runtimes[0, 0] else runtimes[0, 1]
  }

  /** The result tables (2ndTask/1/main.cpp:32-33, 42-68): cell (i, j) is
      written once, on its own pass, with its measured runtime, and the
      speedup divides the one-thread runtime of the same size by it. Row 0
      is filled first, so the baseline is already the one-thread time when
      any later row reads it. The measured times are a parameter. */
  method FillTables(times: seq<seq<real>>) returns (runtimes: array2<real>, speedups: array2<real>)
    requires |times| == |NumThreads|
    requires forall i :: 0 <= i < |NumThreads| ==> |times[i]| == |MatrixSizes|
    requires forall i, j :: 0 <= i < |NumThreads| && 0 <= j < |MatrixSizes| ==> times[i][j] != 0.0
    ensures fresh(runtimes) && fresh(speedups)
    ensures runtimes.Length0 == |NumThreads| && runtimes.Length1 == |MatrixSizes|
    ensures speedups.Length0 == |NumThreads| && speedups.Length1 == |MatrixSizes|
    ensures forall i, j :: 0 <= i < |NumThreads| && 0 <= j < |MatrixSizes| ==>
      runtimes[i, j] == times[i][j] && speedups[i, j] == times[0][j] / times[i][j]
  {
    runtimes := new real[|NumThreads|, |MatrixSizes|]((i, j) => 0.0);
    speedups := new real[|NumThreads|, |MatrixSizes|]((i, j) => 0.0);
    var i := 0;
    while i < |NumThreads|
      invariant 0 <= i <= |NumThreads|
      invariant forall r, c :: 0 <= r < |NumThreads| && 0 <= c < |MatrixSizes| ==>
        if r < i then runtimes[r, c] == times[r][c] && speedups[r, c] == times[0][c] / times[r][c]
        else runtimes[r, c] == 0.0 && speedups[r, c] == 0.0
    {
      var j := 0;
      while j < |MatrixSizes|
        invariant 0 <= j <= |MatrixSizes|
        invariant forall r, c :: 0 <= r < |NumThreads| && 0 <= c < |MatrixSizes| ==>
          if r < i || (r == i && c < j) then runtimes[r, c] == times[r][c] && speedups[r, c] == times[0][c] / times[r][c]
          else runtimes[r, c] == 0.0 && speedups[r, c] == 0.0
      {
        var runtime := times[i][j];
        runtimes[i, j] := runtime;
        var speedup := Baseline(runtimes, j) / runtime;
        speedups[i, j] := speedup;
        j := j + 1;
      }
      i := i + 1;
    }
  }
}
