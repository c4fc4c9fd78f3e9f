/** The simple-iteration solver with a persistent partition
    (2ndTask/3/main1.cpp).

    Every thread computes its closed range [lower, upper] once per parallel
    region (the same rule, Partition.ClosedBounds, in both regions) and runs
    every kernel on that range only. The model runs the threads of each
    phase one after the other, tid = 0, 1, ..., p-1; since the ranges are
    disjoint and each phase reads only what earlier phases wrote, this is the
    effect of the parallel phase between two barriers. The shared scalars
    l2VecB and numerator are the sums of the threads' atomic additions. */
module PartitionedSolver {
  import opened Partition
  import opened Kernels
  import opened Richardson

  /** The sum of the partial squared norms of threads 0..t-1. */
  function PartialSums(v: seq<real>, n: nat, p: nat, t: nat): real
    requires 1 <= p && t <= p && |v| == n
  {
    if t == 0 then 0.0
    else
      var r := ClosedBounds(n, p, t - 1);
      PartialSums(v, n, p, t - 1) + SumSquares(v, r.lower, r.upper)
  }

  /** The partials of threads 0..t-1 add up to the sum of squares over the
      indices those threads own, and over all p threads to the full sum
      (2ndTask/3/main1.cpp:97-99, 110-113). */
  lemma {:induction false} PartialsAddUp(v: seq<real>, n: nat, p: nat, t: nat)
    requires 1 <= p && t <= p && |v| == n
    ensures PartialSums(v, n, p, t) == SumSquares(v, 0, Boundary(n, p, t) - 1)
    ensures t == p ==> PartialSums(v, n, p, t) == SumSquares(v, 0, n - 1)
  {
    if t > 0 {
      PartialsAddUp(v, n, p, t - 1);
      var r := ClosedBounds(n, p, t - 1);
      SumSquaresSplit(v, 0, r.lower - 1, r.upper);
    }
  }

  /** The first parallel region (2ndTask/3/main1.cpp:64-77): every thread
      initialises its own rows; together they initialise the whole system. */
  method InitRegion(matrix: array<real>, b: array<real>, x: array<real>, n: nat, p: nat)
    requires 1 <= p
    requires matrix.Length == n * n && b.Length == n && x.Length == n
    requires matrix != b && matrix != x && b != x
    modifies matrix, b, x
    ensures matrix[..] == SystemMatrix(n)
    ensures b[..] == RightHandSide(n) && x[..] == Zeros(n)
  {
    var threadId := 0;
    ghost var cur := 0;
    while threadId < p
      invariant 0 <= threadId <= p && cur == Boundary(n, p, threadId) * n
      invariant forall k :: 0 <= k < n * n && k < cur ==> matrix[k] == SystemMatrix(n)[k]
      invariant forall i :: 0 <= i < Boundary(n, p, threadId) ==> b[i] == (n + 1) as real && x[i] == 0.0
    {
      var range := ClosedBounds(n, p, threadId);
      InitRows(matrix, b, x, n, range.lower, range.upper);
      threadId := threadId + 1;
      cur := Boundary(n, p, threadId) * n;
    }
    assert matrix[..] == SystemMatrix(n);
  }

  /** Each thread adds VecL2NormOmp of its slice of b into l2VecB
      (2ndTask/3/main1.cpp:97-99); the total is the squared norm of b. */
  method NormOfB(vecB: array<real>, n: nat, p: nat) returns (l2VecB: real)
    requires 1 <= p && vecB.Length == n
    ensures l2VecB == SumSquares(vecB[..], 0, n - 1)
  {
    l2VecB := 0.0;
    var threadId := 0;
    while threadId < p
      invariant 0 <= threadId <= p
      invariant l2VecB == PartialSums(vecB[..], n, p, threadId)
    {
      var range := ClosedBounds(n, p, threadId);
      var l2VecBPart := VecL2NormOmp(vecB, range.lower, range.upper);
      l2VecB := l2VecB + l2VecBPart;
      threadId := threadId + 1;
    }
    PartialsAddUp(vecB[..], n, p, p);
  }

  /** The first phase of a round for all threads (2ndTask/3/main1.cpp:107-113):
      each thread writes temp := A x - b on its range and adds its partial
      squared norm to numerator. */
  method ResidualPhase(matrix: array<real>, b: array<real>, x: array<real>, temp: array<real>,
                       n: nat, p: nat, numerator: real)
    returns (numeratorAfter: real)
    requires 1 <= p
    requires matrix.Length == n * n && b.Length == n && x.Length == n && temp.Length == n
    requires matrix[..] == SystemMatrix(n) && b[..] == RightHandSide(n)
    requires temp != matrix && temp != b && temp != x
    modifies temp
    ensures temp[..] == Residual(n, x[..])
    ensures numeratorAfter == numerator + ResidualSq(n, x[..])
  {
    ghost var r := Residual(n, x[..]);
    numeratorAfter := numerator;
    var threadId := 0;
    while threadId < p
      invariant 0 <= threadId <= p
      invariant forall i :: 0 <= i < Boundary(n, p, threadId) ==> temp[i] == r[i]
      invariant numeratorAfter == numerator + PartialSums(r, n, p, threadId)
    {
      var range := ClosedBounds(n, p, threadId);
      Kernels.MatrixVectorProductOmp(matrix, x, temp, n, range.lower, range.upper);
      Kernels.SubtractVecFromVec(temp, b, range.lower, range.upper);
      var numeratorPart := VecL2NormOmp(temp, range.lower, range.upper);
      SumSquaresAgree(temp[..], r, range.lower, range.upper);
      numeratorAfter := numeratorAfter + numeratorPart;
      threadId := threadId + 1;
    }
    assert temp[..] == r;
    PartialsAddUp(r, n, p, p);
  }

  /** The update phase for all threads (2ndTask/3/main1.cpp:127-128): each
      thread scales temp by the step on its range, then subtracts it from x. */
  method UpdatePhase(x: array<real>, temp: array<real>, n: nat, p: nat)
    requires 1 <= p && x.Length == n && temp.Length == n && x != temp
    modifies x, temp
    ensures temp[..] == Scale(old(temp[..]), IterationStep)
    ensures x[..] == Sub(old(x[..]), Scale(old(temp[..]), IterationStep))
  {
    var threadId := 0;
    while threadId < p
      invariant 0 <= threadId <= p
      invariant forall i :: 0 <= i < Boundary(n, p, threadId) ==>
        temp[i] == old(temp[i]) * IterationStep && x[i] == old(x[i]) - old(temp[i]) * IterationStep
      invariant forall i :: Boundary(n, p, threadId) <= i < n ==> temp[i] == old(temp[i]) && x[i] == old(x[i])
    {
      var range := ClosedBounds(n, p, threadId);
      MultiplyVecByScalar(temp, IterationStep, range.lower, range.upper);
      Kernels.SubtractVecFromVec(x, temp, range.lower, range.upper);
      threadId := threadId + 1;
    }
    assert temp[..] == Scale(old(temp[..]), IterationStep);
    assert x[..] == Sub(old(x[..]), Scale(old(temp[..]), IterationStep));
  }

  /** One round of the loop (2ndTask/3/main1.cpp:107-128). The single thread
      sets stop when sqrt(numerator) < epsilon and then resets numerator to 0;
      when stop is set every thread breaks before the update, so x is left as
      it was when tested; otherwise x takes one step. */
  method Round(matrix: array<real>, b: array<real>, x: array<real>, temp: array<real>,
               n: nat, p: nat, epsilonSq: real, numerator: real)
    returns (stop: bool, numeratorAfter: real)
    requires 1 <= p
    requires matrix.Length == n * n && b.Length == n && x.Length == n && temp.Length == n
    requires matrix[..] == SystemMatrix(n) && b[..] == RightHandSide(n)
    requires temp != matrix && temp != b && temp != x && x != matrix && x != b
    modifies x, temp
    ensures stop == (numerator + ResidualSq(n, old(x[..])) < epsilonSq)
    ensures numeratorAfter == 0.0
    ensures x[..] == if stop then old(x[..]) else Step(n, old(x[..]))
  {
    numeratorAfter := ResidualPhase(matrix, b, x, temp, n, p, numerator);
    stop := false;
    if numeratorAfter < epsilonSq {
      stop := true;
    }
    numeratorAfter := 0.0;
    if stop {
      return;
    }
    UpdatePhase(x, temp, n, p);
  }

  /** The round loop (2ndTask/3/main1.cpp:104-130), from x = 0 and with
      numerator == 0, run for at most maxRounds rounds: the source's
      `while (!stop)` has no bound, and this model does not claim that it
      ends. Every round starts with numerator == 0 again, so the test of
      round k is the residual test of the (k-1)-th iterate. */
  method RoundLoop(matrixA: array<real>, vecB: array<real>, vecX: array<real>, vecTemp: array<real>,
                   n: nat, p: nat, epsilonSq: real, maxRounds: nat)
    returns (stopped: bool, rounds: nat)
    requires 1 <= p
    requires matrixA.Length == n * n && vecB.Length == n && vecX.Length == n && vecTemp.Length == n
    requires vecTemp != matrixA && vecTemp != vecB && vecTemp != vecX
    requires vecX != matrixA && vecX != vecB
    requires matrixA[..] == SystemMatrix(n) && vecB[..] == RightHandSide(n) && vecX[..] == Zeros(n)
    requires epsilonSq == ThresholdSq(n)
    modifies vecX, vecTemp
    ensures rounds <= maxRounds
    ensures stopped ==>
      && 1 <= rounds
      && Converged(n, Iterate(n, rounds - 1))
      && NoneConvergedBefore(n, rounds - 1)
      && vecX[..] == Iterate(n, rounds - 1)
    ensures !stopped ==>
      && rounds == maxRounds
      && NoneConvergedBefore(n, maxRounds)
      && vecX[..] == Iterate(n, maxRounds)
  {
    var numerator := 0.0;
    var stop := false;
    rounds := 0;
    while !stop && rounds < maxRounds
      invariant rounds <= maxRounds
      invariant matrixA[..] == SystemMatrix(n) && vecB[..] == RightHandSide(n)
      invariant numerator == 0.0
      invariant !stop ==> vecX[..] == Iterate(n, rounds) && NoneConvergedBefore(n, rounds)
      invariant stop ==>
        && 1 <= rounds
        && vecX[..] == Iterate(n, rounds - 1)
        && Converged(n, Iterate(n, rounds - 1))
        && NoneConvergedBefore(n, rounds - 1)
    {
      rounds := rounds + 1;
      stop, numerator := Round(matrixA, vecB, vecX, vecTemp, n, p, epsilonSq, numerator);
    }
    stopped := stop;
  }

  /** IterationMethod up to the error sums (2ndTask/3/main1.cpp:58-130):
      initialise the system in the first parallel region, scale epsilon once
      by the norm of b, then run the rounds. The partitioned solver tests and
      computes the same iterates as the bounded one. */
  method IterationMethod(n: nat, p: nat, maxRounds: nat) returns (stopped: bool, rounds: nat, solution: seq<real>)
    requires 1 <= p
    ensures rounds <= maxRounds
    ensures stopped ==>
      && 1 <= rounds
      && Converged(n, Iterate(n, rounds - 1))
      && NoneConvergedBefore(n, rounds - 1)
      && solution == Iterate(n, rounds - 1)
    ensures !stopped ==>
      && rounds == maxRounds
      && NoneConvergedBefore(n, maxRounds)
      && solution == Iterate(n, maxRounds)
  {
    var matrixA := new real[n * n];
    var vecB := new real[n];
    var vecX := new real[n];
    var vecTemp := new real[n];
    InitRegion(matrixA, vecB, vecX, n, p);

    var epsilonSq := BaseEpsilon * BaseEpsilon;
    var l2VecB := NormOfB(vecB, n, p);
    epsilonSq := epsilonSq * l2VecB;

    stopped, rounds := RoundLoop(matrixA, vecB, vecX, vecTemp, n, p, epsilonSq, maxRounds);
    solution := vecX[..];
  }
}
