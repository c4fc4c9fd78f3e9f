/** The simple-iteration (Richardson) method both solver variants run, as
    functions on sequences of reals: the residual A x - b, one update
    x - step * (A x - b), the k-th iterate from x = 0, and the stopping test.

    The test in the source is sqrt(sum of squared residuals) < epsilon, where
    epsilon = 0.00001 * sqrt(sum of squares of b). There is no square root on
    `real`, so the model squares both sides: for non-negative operands,
    sqrt(r) < e * sqrt(s) holds exactly when r < e * e * s. */
module Richardson {
  import opened Kernels

  /** kITERATION_STEP */
  const IterationStep: real := 1.0 / 100000.0
  /** The initial value of the global epsilon. */
  const BaseEpsilon: real := 0.00001

  /** A x - b */
  function Residual(n: nat, x: seq<real>): (r: seq<real>)
    requires |x| == n
    ensures |r| == n
  {
    Sub(MatVec(SystemMatrix(n), n, x), RightHandSide(n))
  }

  /** One update: x - step * (A x - b). Entry i moves against row i's
      residual, sum over j of a_ij x_j minus b_i, scaled by the step. */
  function Step(n: nat, x: seq<real>): (y: seq<real>)
    requires |x| == n
    ensures |y| == n
    ensures forall i :: 0 <= i < n ==>
      y[i] == x[i] - (Dot(SystemMatrix(n), n, i, x, n) - (n + 1) as real) * IterationStep
  {
    Sub(x, Scale(Residual(n, x), IterationStep))
  }

  /** The iterate after k updates, starting from x = 0. */
  function Iterate(n: nat, k: nat): (x: seq<real>)
    ensures |x| == n
  {
    if k == 0 then Zeros(n) else Step(n, Iterate(n, k - 1))
  }

  /** epsilon^2 after the one multiplication by the norm of b. */
  function ThresholdSq(n: nat): real
  {
    BaseEpsilon * BaseEpsilon * SumSquares(RightHandSide(n), 0, n - 1)
  }

  /** The squared L2 norm of the residual of x. */
  function ResidualSq(n: nat, x: seq<real>): real
    requires |x| == n
  {
    SumSquares(Residual(n, x), 0, n - 1)
  }

  /** The stopping test sqrt(|A x - b|^2) < epsilon * |b|, squared: the
      squared residual norm is below 0.00001^2 * n * (n+1)^2. */
  predicate Converged(n: nat, x: seq<real>)
    requires |x| == n
    ensures Converged(n, x) <==>
      ResidualSq(n, x) < BaseEpsilon * BaseEpsilon * n as real * (n + 1) as real * (n + 1) as real
  {
    ThresholdValue(n);
    ResidualSq(n, x) < ThresholdSq(n)
  }

  /** No iterate before the k-th passed the test. */
  predicate NoneConvergedBefore(n: nat, k: nat)
  {
    forall j :: 0 <= j < k ==> !Converged(n, Iterate(n, j))
  }

  /** A failed test on the k-th iterate extends the run of failures by one. */
  lemma NoneConvergedExtend(n: nat, k: nat)
    requires NoneConvergedBefore(n, k) && !Converged(n, Iterate(n, k))
    ensures NoneConvergedBefore(n, k + 1)
  {
  }

  /** |b|^2 = n (n+1)^2, so epsilon^2 = 0.00001^2 * n * (n+1)^2. */
  lemma ThresholdValue(n: nat)
    ensures SumSquares(RightHandSide(n), 0, n - 1) == n as real * (n + 1) as real * (n + 1) as real
    ensures ThresholdSq(n) == BaseEpsilon * BaseEpsilon * n as real * (n + 1) as real * (n + 1) as real
  {
    SumSquaresConstant(RightHandSide(n), (n + 1) as real, n - 1);
  }

  function Ones(n: nat): (o: seq<real>)
    ensures |o| == n && forall i :: 0 <= i < n ==> o[i] == 1.0
  {
    seq(n, i => 1.0)
  }

  /** The first k terms of row i of A times the all-ones vector. */
  lemma {:induction false} DotOnes(n: nat, i: nat, k: nat)
    requires i < n && k <= n
    ensures Dot(SystemMatrix(n), n, i, Ones(n), k) == k as real + (if i < k then 1.0 else 0.0)
  {
    if k > 0 {
      DotOnes(n, i, k - 1);
      SystemMatrixEntry(n, i, k - 1);
    }
  }

  /** The all-ones vector is the exact solution: its residual is zero, the
      update leaves it where it is, and for n >= 1 it passes the test. */
  lemma OnesIsFixedPoint(n: nat)
    ensures Residual(n, Ones(n)) == Zeros(n)
    ensures Step(n, Ones(n)) == Ones(n)
    ensures n >= 1 ==> Converged(n, Ones(n))
  {
    OnesResidual(n);
    OnesStep(n);
    if n >= 1 {
      OnesPass(n);
    }
  }

  lemma OnesResidual(n: nat)
    ensures Residual(n, Ones(n)) == Zeros(n)
  {
    forall i | 0 <= i < n
      ensures Residual(n, Ones(n))[i] == 0.0
    {
      DotOnes(n, i, n);
    }
  }

  lemma OnesStep(n: nat)
    ensures Step(n, Ones(n)) == Ones(n)
  {
    forall i | 0 <= i < n
      ensures Step(n, Ones(n))[i] == 1.0
    {
      DotOnes(n, i, n);
    }
  }

  lemma OnesPass(n: nat)
    requires n >= 1
    ensures Converged(n, Ones(n))
  {
    OnesResidual(n);
    SumSquaresConstant(Zeros(n), 0.0, n - 1);
    assert ResidualSq(n, Ones(n)) == 0.0;
    assert 0.0 < n as real * (n + 1) as real;
    assert 0.0 < BaseEpsilon * BaseEpsilon * n as real * (n + 1) as real * (n + 1) as real;
  }

  /** An empty system (n = 0) never passes the test: 0 < 0 is false. */
  lemma EmptySystemNeverConverges(x: seq<real>)
    requires |x| == 0
    ensures !Converged(0, x)
  {
  }
}
