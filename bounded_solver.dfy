/** The simple-iteration solver with recompute-per-phase parallelism and an
    iteration ceiling (2ndTask/3/main.cpp).

    Each kernel runs as one parallel-for over the whole index range [0, n);
    the parallel-for splits the range among threads and joins them before
    returning, so its effect is that of one sequential sweep, and the kernels
    here are the range-scoped ones applied to [0, n-1]. */
module BoundedSolver {
  import opened Kernels
  import opened Richardson

  const MaxIterations: int := 10000000

  /** How IterationMethod ends: normally, with the iteration count that is
      written to the results file, or through exit(status). */
  datatype Outcome = Finished(iterations: int) | Exit(status: int)

  /** vecRes := matrix * vec over every row. */
  method MatrixVectorProductOmp(matrix: array<real>, vec: array<real>, vecRes: array<real>, n: nat)
    requires matrix.Length == n * n && vec.Length == n && vecRes.Length == n
    requires vecRes != vec && vecRes != matrix
    modifies vecRes
    ensures vecRes[..] == MatVec(matrix[..], n, vec[..])
  {
    Kernels.MatrixVectorProductOmp(matrix, vec, vecRes, n, 0, n - 1);
  }

  /** vec1 := vec1 - vec2 at every index; vec2 is not changed. */
  method SubtractVecFromVec(vec1: array<real>, vec2: array<real>, n: nat)
    requires vec1.Length == n && vec2.Length == n && vec1 != vec2
    modifies vec1
    ensures vec1[..] == Sub(old(vec1[..]), vec2[..])
    ensures vec2[..] == old(vec2[..])
  {
    Kernels.SubtractVecFromVec(vec1, vec2, 0, n - 1);
  }

  /** vec := vec * scalar at every index. */
  method MultiplyVecByScalar(vec: array<real>, scalar: real, n: nat)
    requires vec.Length == n
    modifies vec
    ensures vec[..] == Scale(old(vec[..]), scalar)
  {
    Kernels.MultiplyVecByScalar(vec, scalar, 0, n - 1);
    assert forall i :: 0 <= i < n ==> vec[..][i] == Scale(old(vec[..]), scalar)[i];
  }

  /** VecL2Norm before its final square root: the sum of squares of vec. */
  method VecL2NormSquared(vec: array<real>, n: nat) returns (l2Norm: real)
    requires vec.Length == n
    ensures l2Norm == SumSquares(vec[..], 0, n - 1)
  {
    l2Norm := Kernels.VecL2NormOmp(vec, 0, n - 1);
  }

  /** The two initialisation loops (2ndTask/3/main.cpp:69-80): A gets 2 on the
      diagonal and 1 elsewhere, then b := n + 1 and x := 0 everywhere. */
  method InitSystem(matrix: array<real>, b: array<real>, x: array<real>, n: nat)
    requires matrix.Length == n * n && b.Length == n && x.Length == n
    requires matrix != b && matrix != x && b != x
    modifies matrix, b, x
    ensures matrix[..] == SystemMatrix(n)
    ensures b[..] == RightHandSide(n) && x[..] == Zeros(n)
  {
    var i := 0;
    ghost var cur := 0;
    while i < n
      invariant 0 <= i <= n && cur == i * n
      invariant forall k :: 0 <= k < n * n && k < cur ==> matrix[k] == SystemMatrix(n)[k]
    {
      InitRow(matrix, n, i);
      i := i + 1;
      cur := cur + n;
    }
    assert matrix[..] == SystemMatrix(n);
    i := 0;
    while i < n
      invariant 0 <= i <= n
      invariant matrix[..] == SystemMatrix(n)
      invariant forall k :: 0 <= k < i ==> b[k] == (n + 1) as real && x[k] == 0.0
    {
      b[i] := (n + 1) as real;
      x[i] := 0.0;
      i := i + 1;
    }
  }

  /** The first half of a pass and its test (2ndTask/3/main.cpp:93-96):
      temp := A x - b, and the test succeeds iff the squared norm of temp is
      below epsilon^2. A, b and x are not changed. */
  method ResidualPass(matrix: array<real>, b: array<real>, x: array<real>, temp: array<real>, n: nat,
                      epsilonSq: real)
    returns (converged: bool)
    requires matrix.Length == n * n && b.Length == n && x.Length == n && temp.Length == n
    requires matrix[..] == SystemMatrix(n) && b[..] == RightHandSide(n)
    requires temp != matrix && temp != b && temp != x
    requires epsilonSq == ThresholdSq(n)
    modifies temp
    ensures temp[..] == Residual(n, x[..])
    ensures converged == Converged(n, x[..])
  {
    MatrixVectorProductOmp(matrix, x, temp, n);
    SubtractVecFromVec(temp, b, n);
    var residualSq := VecL2NormSquared(temp, n);
    converged := residualSq < epsilonSq;
  }

  /** The second half of a pass (2ndTask/3/main.cpp:107-108): temp := step * temp,
      then x := x - temp. With temp holding the residual of x, x becomes the
      next iterate. */
  method UpdatePass(x: array<real>, temp: array<real>, n: nat)
    requires x.Length == n && temp.Length == n && x != temp
    requires temp[..] == Residual(n, x[..])
    modifies x, temp
    ensures x[..] == Step(n, old(x[..]))
  {
    MultiplyVecByScalar(temp, IterationStep, n);
    SubtractVecFromVec(x, temp, n);
  }

  /** One pass of the loop body (2ndTask/3/main.cpp:93-108) on pass k, with x
      the (k-1)-th iterate: test its residual; when the test succeeds the pass
      ends the loop normally with the count k and x untouched; when it fails
      on pass MaxIterations the pass ends the program with status 13;
      otherwise x becomes the k-th iterate and the loop goes on. */
  method Pass(matrixA: array<real>, vecB: array<real>, vecX: array<real>, vecTemp: array<real>,
              n: nat, epsilonSq: real, iterationCount: int)
    returns (done: bool, outcome: Outcome)
    requires matrixA.Length == n * n && vecB.Length == n && vecX.Length == n && vecTemp.Length == n
    requires vecTemp != matrixA && vecTemp != vecB && vecTemp != vecX
    requires vecX != matrixA && vecX != vecB
    requires matrixA[..] == SystemMatrix(n) && vecB[..] == RightHandSide(n)
    requires epsilonSq == ThresholdSq(n)
    requires 1 <= iterationCount <= MaxIterations
    requires vecX[..] == Iterate(n, iterationCount - 1) && NoneConvergedBefore(n, iterationCount - 1)
    modifies vecX, vecTemp
    ensures done && outcome.Finished? ==>
      && outcome.iterations == iterationCount
      && Converged(n, Iterate(n, iterationCount - 1))
      && vecX[..] == Iterate(n, iterationCount - 1)
    ensures done && outcome.Exit? ==>
      && outcome.status == 13 && iterationCount == MaxIterations
      && NoneConvergedBefore(n, MaxIterations)
    ensures !done ==>
      && iterationCount < MaxIterations
      && vecX[..] == Iterate(n, iterationCount) && NoneConvergedBefore(n, iterationCount)
  {
    var converged := ResidualPass(matrixA, vecB, vecX, vecTemp, n, epsilonSq);
    if converged {
      return true, Finished(iterationCount);
    }
    NoneConvergedExtend(n, iterationCount - 1);

    if iterationCount >= MaxIterations {
      return true, Exit(13);
    }

    UpdatePass(vecX, vecTemp, n);
    done, outcome := false, Exit(13);
  }

  /** The convergence loop (2ndTask/3/main.cpp:88-109), from x = 0.

      The loop guard `iterationCount++ >= 0` is always true, so on the k-th
      pass iterationCount == k. The pass computes the residual of the current
      x and tests it; a passing test leaves the loop before the update, so x
      stays the iterate that was tested. When the first MaxIterations tests
      all fail, the program exits with status 13. `checks` counts the
      residual tests. */
  method ConvergenceLoop(matrixA: array<real>, vecB: array<real>, vecX: array<real>, vecTemp: array<real>,
                         n: nat, epsilonSq: real)
    returns (outcome: Outcome, ghost checks: nat)
    requires matrixA.Length == n * n && vecB.Length == n && vecX.Length == n && vecTemp.Length == n
    requires vecTemp != matrixA && vecTemp != vecB && vecTemp != vecX
    requires vecX != matrixA && vecX != vecB
    requires matrixA[..] == SystemMatrix(n) && vecB[..] == RightHandSide(n) && vecX[..] == Zeros(n)
    requires epsilonSq == ThresholdSq(n)
    modifies vecX, vecTemp
    ensures outcome.Finished? ==>
      && 1 <= outcome.iterations <= MaxIterations
      && Converged(n, Iterate(n, outcome.iterations - 1))
      && NoneConvergedBefore(n, outcome.iterations - 1)
      && vecX[..] == Iterate(n, outcome.iterations - 1)
    ensures outcome.Exit? ==>
      && outcome.status == 13
      && NoneConvergedBefore(n, MaxIterations)
    ensures checks == if outcome.Finished? then outcome.iterations else MaxIterations
  {
    var iterationCount := 0;
    checks := 0;
    outcome := Exit(13);
    while iterationCount >= 0
      invariant 0 <= iterationCount < MaxIterations
      invariant matrixA[..] == SystemMatrix(n) && vecB[..] == RightHandSide(n)
      invariant vecX[..] == Iterate(n, iterationCount)
      invariant NoneConvergedBefore(n, iterationCount)
      invariant checks == iterationCount
      decreases MaxIterations - iterationCount
    {
      iterationCount := iterationCount + 1;
      var done;
      done, outcome := Pass(matrixA, vecB, vecX, vecTemp, n, epsilonSq, iterationCount);
      checks := checks + 1;
      if done {
        return;
      }
    }
  }

  /** IterationMethod up to the error sums (2ndTask/3/main.cpp:63-109): allocate
      and initialise the system, scale epsilon once by the norm of b, then run
      the convergence loop. On a normal end the iteration count k is the first
      pass whose residual test succeeds, k <= MaxIterations, and the solution
      is the (k-1)-th iterate; otherwise all MaxIterations tests failed and the
      status is 13. */
  method IterationMethod(n: nat) returns (outcome: Outcome, solution: seq<real>, ghost checks: nat)
    ensures outcome.Finished? ==>
      && 1 <= outcome.iterations <= MaxIterations
      && Converged(n, Iterate(n, outcome.iterations - 1))
      && NoneConvergedBefore(n, outcome.iterations - 1)
      && solution == Iterate(n, outcome.iterations - 1)
    ensures outcome.Exit? ==>
      && outcome.status == 13
      && NoneConvergedBefore(n, MaxIterations)
    ensures checks == if outcome.Finished? then outcome.iterations else MaxIterations
  {
    var matrixA := new real[n * n];
    var vecB := new real[n];
    var vecX := new real[n];
    var vecTemp := new real[n];
    InitSystem(matrixA, vecB, vecX, n);

    var epsilonSq := BaseEpsilon * BaseEpsilon;
    var l2VecB := VecL2NormSquared(vecB, n);
    epsilonSq := epsilonSq * l2VecB;

    outcome, checks := ConvergenceLoop(matrixA, vecB, vecX, vecTemp, n, epsilonSq);
    solution := vecX[..];
  }
}
