/** The range-scoped vector and matrix kernels of the simple-iteration solver,
    and the sequence functions that specify them.

    Elements are `long double` in the solver; here they are `real`, an
    idealisation under which only structural and algebraic claims are made.
    The matrix is a flat row-major buffer of n*n elements: row i, column j
    lives at i*n + j. A range [lower, upper] is inclusive; it may be empty
    (upper < lower), and then nothing is read or written. */
module Kernels {
  import Partition

  // ---------------------------------------------------------------------
  // Specification functions
  // ---------------------------------------------------------------------

  /** Row i, column j of an n*n row-major buffer is a valid flat index. */
  lemma FlatIndex(n: nat, i: nat, j: nat)
    requires i < n && j < n
    ensures 0 <= i * n + j < n * n
  {
    Partition.MulLeft(i + 1, n, n);
    Partition.MulLeft(0, i, n);
  }

  /** The flat index i*n + j decodes back to row i and column j. */
  lemma FlatIndexDecode(n: nat, i: nat, j: nat)
    requires i < n && j < n
    ensures (i * n + j) / n == i && (i * n + j) % n == j
  {
    Partition.DivBlock(i * n + j, n, i);
  }

  /** The first k terms of row `row`'s dot product with v:
      the sum over j < k of m[row*n + j] * v[j]. */
  function Dot(m: seq<real>, n: nat, row: nat, v: seq<real>, k: nat): real
    requires row < n && k <= n && |m| == n * n && |v| == n
    decreases k
  {
    if k == 0 then 0.0
    else
      FlatIndex(n, row, k - 1);
      Dot(m, n, row, v, k - 1) + m[row * n + k - 1] * v[k - 1]
  }

  /** The matrix-vector product m * v. */
  function MatVec(m: seq<real>, n: nat, v: seq<real>): (r: seq<real>)
    requires |m| == n * n && |v| == n
    ensures |r| == n
  {
    seq(n, i requires 0 <= i < n => Dot(m, n, i, v, n))
  }

  /** Element-wise u - v. */
  function Sub(u: seq<real>, v: seq<real>): (r: seq<real>)
    requires |u| == |v|
    ensures |r| == |u|
  {
    seq(|u|, i requires 0 <= i < |u| => u[i] - v[i])
  }

  /** Element-wise u * s. */
  function Scale(u: seq<real>, s: real): (r: seq<real>)
    ensures |r| == |u|
  {
    seq(|u|, i requires 0 <= i < |u| => u[i] * s)
  }

  /** The sum of v[i]^2 over the inclusive range [lo, hi]; 0 when hi < lo. */
  function SumSquares(v: seq<real>, lo: int, hi: int): (r: real)
    requires lo <= hi ==> 0 <= lo && hi < |v|
    ensures 0.0 <= r
    decreases hi - lo
  {
    if hi < lo then 0.0 else SumSquares(v, lo, hi - 1) + v[hi] * v[hi]
  }

  /** A sum of squares splits at any point of its range. */
  lemma {:induction false} SumSquaresSplit(v: seq<real>, lo: int, mid: int, hi: int)
    requires lo - 1 <= mid <= hi
    requires lo <= hi ==> 0 <= lo && hi < |v|
    ensures SumSquares(v, lo, mid) + SumSquares(v, mid + 1, hi) == SumSquares(v, lo, hi)
    decreases hi - mid
  {
    if mid < hi {
      SumSquaresSplit(v, lo, mid, hi - 1);
    }
  }

  /** A sum of squares depends only on the elements in its range. */
  lemma {:induction false} SumSquaresAgree(u: seq<real>, v: seq<real>, lo: int, hi: int)
    requires lo <= hi ==> 0 <= lo && hi < |u| && hi < |v|
    requires forall i :: lo <= i <= hi ==> u[i] == v[i]
    ensures SumSquares(u, lo, hi) == SumSquares(v, lo, hi)
    decreases hi - lo
  {
    if lo <= hi {
      SumSquaresAgree(u, v, lo, hi - 1);
    }
  }

  /** n copies of c square-sum to n * c^2. */
  lemma {:induction false} SumSquaresConstant(v: seq<real>, c: real, hi: int)
    requires -1 <= hi < |v|
    requires forall i :: 0 <= i < |v| ==> v[i] == c
    ensures SumSquares(v, 0, hi) == (hi + 1) as real * c * c
    decreases hi
  {
    if hi >= 0 {
      SumSquaresConstant(v, c, hi - 1);
    }
  }

  /** The range [lower, upper] lies inside an array of length len, or is empty. */
  predicate RangeIn(lowerBound: int, upperBound: int, len: nat)
  {
    lowerBound <= upperBound ==> 0 <= lowerBound && upperBound < len
  }

  // ---------------------------------------------------------------------
  // The kernels (2ndTask/3/main1.cpp:29-56)
  // ---------------------------------------------------------------------

  /** vecRes[i] := row i of matrix times vec, for i in [lower, upper] only. */
  method MatrixVectorProductOmp(matrix: array<real>, vec: array<real>, vecRes: array<real>,
                             n: nat, lowerBound: int, upperBound: int)
    requires matrix.Length == n * n && vec.Length == n && vecRes.Length == n
    requires vecRes != vec && vecRes != matrix
    requires RangeIn(lowerBound, upperBound, n)
    modifies vecRes
    ensures forall i :: lowerBound <= i <= upperBound ==> vecRes[i] == MatVec(matrix[..], n, vec[..])[i]
    ensures forall i :: 0 <= i < n && !(lowerBound <= i <= upperBound) ==> vecRes[i] == old(vecRes[i])
  {
    if upperBound < lowerBound {
      return;
    }
    var i := lowerBound;
    while i <= upperBound
      invariant lowerBound <= i <= upperBound + 1
      invariant forall k :: lowerBound <= k < i ==> vecRes[k] == MatVec(matrix[..], n, vec[..])[k]
      invariant forall k :: 0 <= k < n && !(lowerBound <= k < i) ==> vecRes[k] == old(vecRes[k])
    {
      RowProduct(matrix, vec, vecRes, n, i);
      i := i + 1;
    }
  }

  /** One row of that loop: vecRes[i] := 0, then vecRes[i] += A[i*n + j] * vec[j]
      for j = 0 .. n-1; it ends as entry i of A * vec. */
  method RowProduct(matrix: array<real>, vec: array<real>, vecRes: array<real>, n: nat, i: nat)
    requires matrix.Length == n * n && vec.Length == n && vecRes.Length == n && i < n
    requires vecRes != vec && vecRes != matrix
    modifies vecRes
    ensures vecRes[..] == old(vecRes[..])[i := MatVec(matrix[..], n, vec[..])[i]]
  {
    vecRes[i] := 0.0;
    var j := 0;
    while j < n
      invariant 0 <= j <= n
      invariant vecRes[i] == Dot(matrix[..], n, i, vec[..], j)
      invariant forall k :: 0 <= k < n && k != i ==> vecRes[k] == old(vecRes[k])
    {
      FlatIndex(n, i, j);
      vecRes[i] := vecRes[i] + matrix[i * n + j] * vec[j];
      j := j + 1;
    }
  }

  /** vec1[i] := vec1[i] - vec2[i], for i in [lower, upper] only. */
  method SubtractVecFromVec(vec1: array<real>, vec2: array<real>, lowerBound: int, upperBound: int)
    requires RangeIn(lowerBound, upperBound, vec1.Length) && RangeIn(lowerBound, upperBound, vec2.Length)
    modifies vec1
    ensures forall i :: lowerBound <= i <= upperBound ==> vec1[i] == old(vec1[i]) - old(vec2[i])
    ensures forall i :: 0 <= i < vec1.Length && !(lowerBound <= i <= upperBound) ==> vec1[i] == old(vec1[i])
    ensures vec1 != vec2 ==> vec2[..] == old(vec2[..])
  {
    if upperBound < lowerBound {
      return;
    }
    var i := lowerBound;
    while i <= upperBound
      invariant lowerBound <= i <= upperBound + 1
      invariant forall k :: lowerBound <= k < i ==> vec1[k] == old(vec1[k]) - old(vec2[k])
      invariant forall k :: 0 <= k < vec1.Length && !(lowerBound <= k < i) ==> vec1[k] == old(vec1[k])
      invariant vec1 != vec2 ==> vec2[..] == old(vec2[..])
    {
      vec1[i] := vec1[i] - vec2[i];
      i := i + 1;
    }
  }

  /** vec[i] := vec[i] * scalar, for i in [lower, upper] only. */
  method MultiplyVecByScalar(vec: array<real>, scalar: real, lowerBound: int, upperBound: int)
    requires RangeIn(lowerBound, upperBound, vec.Length)
    modifies vec
    ensures forall i :: lowerBound <= i <= upperBound ==> vec[i] == old(vec[i]) * scalar
    ensures forall i :: 0 <= i < vec.Length && !(lowerBound <= i <= upperBound) ==> vec[i] == old(vec[i])
  {
    if upperBound < lowerBound {
      return;
    }
    var i := lowerBound;
    while i <= upperBound
      invariant lowerBound <= i <= upperBound + 1
      invariant forall k :: lowerBound <= k < i ==> vec[k] == old(vec[k]) * scalar
      invariant forall k :: 0 <= k < vec.Length && !(lowerBound <= k < i) ==> vec[k] == old(vec[k])
    {
      vec[i] := vec[i] * scalar;
      i := i + 1;
    }
  }

  /** The sum of squares of vec over [lower, upper] (not yet square-rooted). */
  method VecL2NormOmp(vec: array<real>, lowerBound: int, upperBound: int) returns (l2Norm: real)
    requires RangeIn(lowerBound, upperBound, vec.Length)
    ensures l2Norm == SumSquares(vec[..], lowerBound, upperBound)
  {
    l2Norm := 0.0;
    if upperBound < lowerBound {
      return;
    }
    var i := lowerBound;
    while i <= upperBound
      invariant lowerBound <= i <= upperBound + 1
      invariant l2Norm == SumSquares(vec[..], lowerBound, i - 1)
    {
      l2Norm := l2Norm + vec[i] * vec[i];
      i := i + 1;
    }
  }

  // ---------------------------------------------------------------------
  // The system A x = b
  // ---------------------------------------------------------------------

  /** A with 2 on the diagonal and 1 elsewhere, flattened row-major. */
  function SystemMatrix(n: nat): (a: seq<real>)
    ensures |a| == n * n
  {
    seq(n * n, k requires 0 <= k < n * n => if k / n == k % n then 2.0 else 1.0)
  }

  /** Row i, column j of SystemMatrix(n) is 2 on the diagonal and 1 elsewhere. */
  lemma SystemMatrixEntry(n: nat, i: nat, j: nat)
    requires i < n && j < n
    ensures 0 <= i * n + j < n * n
    ensures SystemMatrix(n)[i * n + j] == if i == j then 2.0 else 1.0
  {
    FlatIndex(n, i, j);
    FlatIndexDecode(n, i, j);
  }

  /** b: the value n + 1 at every index. */
  function RightHandSide(n: nat): seq<real>
  {
    seq(n, i => (n + 1) as real)
  }

  function Zeros(n: nat): seq<real>
  {
    seq(n, i => 0.0)
  }

  /** The flat indices of rows lower..upper of an n-column buffer. */
  predicate InRows(k: int, n: nat, lowerBound: int, upperBound: int)
  {
    lowerBound * n <= k < (upperBound + 1) * n
  }

  /** Row i of SystemMatrix(n), as n values. */
  function SystemRow(n: nat, i: nat): (row: seq<real>)
    ensures |row| == n && forall j :: 0 <= j < n ==> row[j] == if i == j then 2.0 else 1.0
  {
    seq(n, j => if i == j then 2.0 else 1.0)
  }

  /** Row i of the initialisation: A[i*n + j] := (i == j ? 2 : 1) for every j. */
  method InitRow(matrix: array<real>, n: nat, i: nat)
    requires matrix.Length == n * n && i < n
    modifies matrix
    ensures forall k :: 0 <= k < n * n && i * n <= k < i * n + n ==> matrix[k] == SystemMatrix(n)[k]
    ensures forall k :: 0 <= k < n * n && !(i * n <= k < i * n + n) ==> matrix[k] == old(matrix[k])
  {
    var first := i * n;
    FlatIndex(n, i, 0);
    Partition.MulLeft(i + 1, n, n);
    assert first + n <= matrix.Length;
    var j := 0;
    while j < n
      invariant 0 <= j <= n
      invariant forall k :: first <= k < first + j ==> matrix[k] == SystemRow(n, i)[k - first]
      invariant forall k :: 0 <= k < matrix.Length && !(first <= k < first + j) ==> matrix[k] == old(matrix[k])
    {
      matrix[first + j] := if i == j then 2.0 else 1.0;
      j := j + 1;
    }
    forall k | 0 <= k < n * n && first <= k < first + n
      ensures matrix[k] == SystemMatrix(n)[k]
    {
      SystemMatrixEntry(n, i, k - first);
    }
  }

  /** The initialisation loop of one worker (2ndTask/3/main1.cpp:71-76): for
      each row i in [lower, upper], A[i*n + j] := (i == j ? 2 : 1) for all j,
      b[i] := n + 1 and x[i] := 0; no other row or index is touched. */
  method InitRows(matrix: array<real>, b: array<real>, x: array<real>,
                  n: nat, lowerBound: int, upperBound: int)
    requires matrix.Length == n * n && b.Length == n && x.Length == n
    requires matrix != b && matrix != x && b != x
    requires RangeIn(lowerBound, upperBound, n)
    modifies matrix, b, x
    ensures forall k :: 0 <= k < n * n && InRows(k, n, lowerBound, upperBound) ==> matrix[k] == SystemMatrix(n)[k]
    ensures forall k :: 0 <= k < n * n && !InRows(k, n, lowerBound, upperBound) ==> matrix[k] == old(matrix[k])
    ensures forall i :: lowerBound <= i <= upperBound ==> b[i] == (n + 1) as real && x[i] == 0.0
    ensures forall i :: 0 <= i < n && !(lowerBound <= i <= upperBound) ==> b[i] == old(b[i]) && x[i] == old(x[i])
  {
    if upperBound < lowerBound {
      Partition.MulLeft(upperBound + 1, lowerBound, n);
      return;
    }
    Partition.MulLeft(0, lowerBound, n);
    var i := lowerBound;
    ghost var first := lowerBound * n;
    ghost var cur := first;
    while i <= upperBound
      invariant lowerBound <= i <= upperBound + 1
      invariant cur == i * n && 0 <= first <= cur
      invariant forall k :: 0 <= k < n * n && first <= k < cur ==> matrix[k] == SystemMatrix(n)[k]
      invariant forall k :: 0 <= k < n * n && !(first <= k < cur) ==> matrix[k] == old(matrix[k])
      invariant forall k :: lowerBound <= k < i ==> b[k] == (n + 1) as real && x[k] == 0.0
      invariant forall k :: 0 <= k < n && !(lowerBound <= k < i) ==> b[k] == old(b[k]) && x[k] == old(x[k])
    {
      assert cur + n == (i + 1) * n;
      InitIndex(matrix, b, x, n, i);
      i := i + 1;
      cur := cur + n;
    }
    assert i == upperBound + 1 && cur == (upperBound + 1) * n;
  }

  /** One pass of that loop: row i of the matrix, b[i] and x[i]. */
  method InitIndex(matrix: array<real>, b: array<real>, x: array<real>, n: nat, i: nat)
    requires matrix.Length == n * n && b.Length == n && x.Length == n && i < n
    requires matrix != b && matrix != x && b != x
    modifies matrix, b, x
    ensures forall k :: 0 <= k < n * n && i * n <= k < i * n + n ==> matrix[k] == SystemMatrix(n)[k]
    ensures forall k :: 0 <= k < n * n && !(i * n <= k < i * n + n) ==> matrix[k] == old(matrix[k])
    ensures b[..] == old(b[..])[i := (n + 1) as real] && x[..] == old(x[..])[i := 0.0]
  {
    InitRow(matrix, n, i);
    b[i] := (n + 1) as real;
    x[i] := 0.0;
  }
}
