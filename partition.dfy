/** The integer rules that split an index space [0, n) among p workers.

    Three variants occur in the benchmarks:
    - closed ranges [lower, upper], the remainder going to the last worker
      (the persistent-partition solver);
    - half-open ranges [start, end), the remainder going to the last worker
      (the midpoint-rule integration);
    - fixed chunks [k*c, (k+1)*c) with c = n / p, the remainder dropped
      (the std::thread matrix-vector benchmark).

    The operands are non-negative, so C++'s truncating `/` and `%` agree with
    Dafny's Euclidean ones. Every bound lies in [-1, n], so the bounds
    themselves cannot overflow a 32-bit `int`; the flat matrix indices built
    from them can, and the model does not track that (see README). */
module Partition {

  /** An inclusive range; it is empty when upper < lower. */
  datatype ClosedRange = ClosedRange(lower: int, upper: int) {
    predicate Contains(i: int) { lower <= i <= upper }
    function Size(): int { upper - lower + 1 }
  }

  /** A half-open range; it is empty when end <= start. */
  datatype HalfOpenRange = HalfOpenRange(start: int, end: int) {
    predicate Contains(i: int) { start <= i < end }
    function Size(): int { end - start }
  }

  // ---------------------------------------------------------------------
  // Arithmetic helpers
  // ---------------------------------------------------------------------

  lemma {:induction false} MulLeft(a: int, b: int, c: nat)
    requires a <= b
    ensures a * c <= b * c
  {
    if c > 0 {
      MulLeft(a, b, c - 1);
      assert a * c == a * (c - 1) + a;
      assert b * c == b * (c - 1) + b;
    }
  }

  /** MulLeft without the precondition, for use on both sides of a case split. */
  lemma MulMono(a: int, b: int, c: nat)
    ensures a <= b ==> a * c <= b * c
  {
    if a <= b {
      MulLeft(a, b, c);
    }
  }

  /** With q > 0, i lies in the block [t*q, t*q + q) exactly when i / q == t. */
  lemma DivBlock(i: int, q: int, t: int)
    requires q > 0
    ensures t * q <= i < t * q + q <==> i / q == t
  {
    var d, r := i / q, i % q;
    assert i == d * q + r && 0 <= r < q;
    assert (t + 1) * q == t * q + q && (d + 1) * q == d * q + q;
    MulMono(t + 1, d, q);
    MulMono(d + 1, t, q);
  }

  /** With q > 0, i / q >= t exactly when i >= t*q. */
  lemma DivAtLeast(i: int, q: int, t: int)
    requires q > 0
    ensures i >= t * q <==> i / q >= t
  {
    var d, r := i / q, i % q;
    assert i == d * q + r && 0 <= r < q;
    assert (d + 1) * q == d * q + q;
    MulMono(d + 1, t, q);
    MulMono(t, d, q);
  }

  lemma DivNonNegative(n: nat, p: nat)
    requires 1 <= p
    ensures 0 <= n / p <= n
  {
  }

  /** t whole shares of n / p items fit into n when t <= p. */
  lemma SharesFit(n: nat, p: nat, t: nat)
    requires 1 <= p && t <= p
    ensures 0 <= t * (n / p) <= n
  {
    MulLeft(t, p, n / p);
    assert n == p * (n / p) + n % p;
  }

  // ---------------------------------------------------------------------
  // Half-open ranges, remainder to the last worker
  // ---------------------------------------------------------------------

  /** The index where worker t's range starts, and the end of the whole space
      for t == p: the boundaries between consecutive workers. */
  function Boundary(n: nat, p: nat, t: nat): (b: nat)
    requires 1 <= p && t <= p
    ensures t == 0 ==> b == 0
    ensures t == p ==> b == n
    ensures b <= n
  {
    SharesFit(n, p, t);
    if t == p then n else t * (n / p)
  }

  /** Worker tid's range: start at tid * (n/p), end at start + n/p, except that
      the last worker ends at n. */
  function HalfOpenBounds(n: nat, p: nat, tid: nat): (r: HalfOpenRange)
    requires 1 <= p && tid < p
    ensures r.start == Boundary(n, p, tid) && r.end == Boundary(n, p, tid + 1)
    ensures 0 <= r.start <= r.end <= n
    ensures r.Size() == if tid == p - 1 then n / p + n % p else n / p
  {
    var items := n / p;
    var start := tid * items;
    SharesFit(n, p, tid + 1);
    assert n == p * items + n % p;
    HalfOpenRange(start, if tid == p - 1 then n else start + items)
  }

  /** The worker whose range holds index i. */
  function Owner(n: nat, p: nat, i: nat): (t: nat)
    requires 1 <= p
    ensures t < p
  {
    var q := n / p;
    if q == 0 then p - 1
    else if i / q < p - 1 then i / q
    else p - 1
  }

  /** Coverage and disjointness in one statement: each index of [0, n) lies in
      exactly one worker's range, that of Owner, and no range holds an index
      outside [0, n). */
  lemma HalfOpenExactlyOnce(n: nat, p: nat, tid: nat, i: int)
    requires 1 <= p && tid < p
    ensures HalfOpenBounds(n, p, tid).Contains(i) <==> 0 <= i < n && tid == Owner(n, p, i)
  {
    DivNonNegative(n, p);
    SharesFit(n, p, p);
    HalfOpenShape(n, p, tid);
    var owner := if 0 <= i then Owner(n, p, i) else 0;
    if 0 <= i {
      OwnerShape(n, p, i);
    }
    BlockWithRemainder(n / p, n, p, tid, i, HalfOpenBounds(n, p, tid), owner);
  }

  lemma HalfOpenShape(n: nat, p: nat, tid: nat)
    requires 1 <= p && tid < p
    ensures HalfOpenBounds(n, p, tid) ==
      HalfOpenRange(tid * (n / p), if tid == p - 1 then n else tid * (n / p) + n / p)
  {
  }

  lemma OwnerShape(n: nat, p: nat, i: nat)
    requires 1 <= p
    ensures Owner(n, p, i) ==
      if n / p == 0 then p - 1 else if i / (n / p) < p - 1 then i / (n / p) else p - 1
  {
  }

  /** The same statement for any block size q with p * q <= n, the last block
      running to n and taking the remainder; r and owner stand for the range
      and for the owner of i. */
  lemma BlockWithRemainder(q: nat, n: nat, p: nat, tid: nat, i: int, r: HalfOpenRange, owner: int)
    requires 1 <= p && tid < p && p * q <= n
    requires r == HalfOpenRange(tid * q, if tid == p - 1 then n else tid * q + q)
    requires 0 <= i ==> owner == if q == 0 then p - 1 else if i / q < p - 1 then i / q else p - 1
    ensures r.Contains(i) <==> 0 <= i < n && tid == owner
  {
    if q == 0 {
      assert tid * q == 0;
    } else {
      MulLeft(0, tid, q);
      DivAtLeast(i, q, p - 1);
      if tid < p - 1 {
        assert (tid + 1) * q == tid * q + q;
        MulLeft(tid + 1, p, q);
        DivBlock(i, q, tid);
      }
    }
  }

  /** Consecutive ranges touch: the ranges are ordered, contiguous, start at 0
      and end at n. */
  lemma HalfOpenContiguous(n: nat, p: nat, t: nat)
    requires 1 <= p && t + 1 < p
    ensures HalfOpenBounds(n, p, t).end == HalfOpenBounds(n, p, t + 1).start
    ensures HalfOpenBounds(n, p, 0).start == 0 && HalfOpenBounds(n, p, p - 1).end == n
  {
  }

  /** The sizes of all ranges add up to n. */
  function TotalSize(n: nat, p: nat, t: nat): int
    requires 1 <= p && t <= p
  {
    if t == 0 then 0 else TotalSize(n, p, t - 1) + HalfOpenBounds(n, p, t - 1).Size()
  }

  lemma {:induction false} HalfOpenSizesAddUp(n: nat, p: nat, t: nat)
    requires 1 <= p && t <= p
    ensures TotalSize(n, p, t) == Boundary(n, p, t)
  {
    if t > 0 {
      HalfOpenSizesAddUp(n, p, t - 1);
    }
  }

  /** More workers than items: every worker but the last gets nothing and the
      last one gets everything. */
  lemma HalfOpenFewItems(n: nat, p: nat, tid: nat)
    requires 1 <= p && tid < p && p > n
    ensures tid < p - 1 ==> HalfOpenBounds(n, p, tid).Size() == 0
    ensures tid == p - 1 ==> HalfOpenBounds(n, p, tid) == HalfOpenRange(0, n)
  {
    assert n / p == 0 && tid * (n / p) == 0;
    var r := HalfOpenBounds(n, p, tid);
    assert r.start == 0;
    if tid < p - 1 {
      assert r.end == (tid + 1) * (n / p) == 0;
    } else {
      assert r.end == n;
    }
  }

  // ---------------------------------------------------------------------
  // Closed ranges, remainder to the last worker
  // ---------------------------------------------------------------------

  /** Worker tid's range: lower at tid * (n/p), upper at lower + n/p - 1,
      except that the last worker's upper bound is n - 1. */
  function ClosedBounds(n: nat, p: nat, tid: nat): (r: ClosedRange)
    requires 1 <= p && tid < p
    ensures r.lower == Boundary(n, p, tid) && r.upper + 1 == Boundary(n, p, tid + 1)
    ensures 0 <= r.lower <= r.upper + 1 <= n
    ensures r.Size() == if tid == p - 1 then n / p + n % p else n / p
  {
    var itemsPerThread := n / p;
    var lowerBound := tid * itemsPerThread;
    SharesFit(n, p, tid + 1);
    assert n == p * itemsPerThread + n % p;
    ClosedRange(lowerBound,
                if tid == p - 1 then n - 1 else lowerBound + itemsPerThread - 1)
  }

  /** The closed ranges are the half-open ones with the end made inclusive. */
  lemma ClosedMatchesHalfOpen(n: nat, p: nat, tid: nat, i: int)
    requires 1 <= p && tid < p
    ensures ClosedBounds(n, p, tid).Contains(i) <==> HalfOpenBounds(n, p, tid).Contains(i)
  {
  }

  /** Each index of [0, n) lies in exactly one closed range, and no closed range
      holds an index outside [0, n). */
  lemma ClosedExactlyOnce(n: nat, p: nat, tid: nat, i: int)
    requires 1 <= p && tid < p
    ensures ClosedBounds(n, p, tid).Contains(i) <==> 0 <= i < n && tid == Owner(n, p, i)
  {
    ClosedMatchesHalfOpen(n, p, tid, i);
    HalfOpenExactlyOnce(n, p, tid, i);
  }

  /** More workers than items: every non-last range is [0, -1] and the last
      one is [0, n-1]. */
  lemma ClosedFewItems(n: nat, p: nat, tid: nat)
    requires 1 <= p && tid < p && p > n
    ensures tid < p - 1 ==> ClosedBounds(n, p, tid) == ClosedRange(0, -1)
    ensures tid == p - 1 ==> ClosedBounds(n, p, tid) == ClosedRange(0, n - 1)
  {
    assert n / p == 0 && n % p == n;
    assert tid * (n / p) == 0;
  }

  // ---------------------------------------------------------------------
  // Fixed chunks, remainder dropped
  // ---------------------------------------------------------------------

  /** Worker k's chunk [k * c, (k+1) * c) with c = n / p. */
  function ChunkBounds(n: nat, p: nat, k: nat): (r: HalfOpenRange)
    requires 1 <= p && k < p
    ensures 0 <= r.start <= r.end <= p * (n / p) <= n
    ensures r.Size() == n / p
  {
    var chunkSize := n / p;
    SharesFit(n, p, k + 1);
    SharesFit(n, p, p);
    MulLeft(k + 1, p, chunkSize);
    HalfOpenRange(k * chunkSize, (k + 1) * chunkSize)
  }

  /** Chunk k starts where the k chunks before it end, at k * (n/p). */
  lemma ChunkAfter(n: nat, p: nat, k: nat, cur: int)
    requires 1 <= p && k < p && cur == k * (n / p)
    ensures ChunkBounds(n, p, k) == HalfOpenRange(cur, cur + n / p)
    ensures cur + n / p == (k + 1) * (n / p)
  {
  }

  /** The chunks are disjoint and together cover exactly [0, p * (n/p)):
      index i is in chunk k exactly when i is below p * (n/p) and i / (n/p) == k. */
  lemma ChunkExactlyOnce(n: nat, p: nat, k: nat, i: int)
    requires 1 <= p && k < p
    ensures ChunkBounds(n, p, k).Contains(i) <==> 0 <= i < p * (n / p) && i / (n / p) == k
  {
    var c := n / p;
    assert ChunkBounds(n, p, k) == HalfOpenRange(k * c, (k + 1) * c);
    BlockOfSize(c, p, k, i);
  }

  /** Block k of size c among p blocks: i is in it exactly when it lies below
      p * c and i / c == k. */
  lemma BlockOfSize(c: nat, p: nat, k: nat, i: int)
    requires k < p
    ensures k * c <= i < (k + 1) * c <==> 0 <= i < p * c && i / c == k
  {
    if c == 0 {
      assert p * c == 0;
    } else {
      assert (k + 1) * c == k * c + c;
      DivBlock(i, c, k);
      MulLeft(0, k, c);
      MulLeft(k + 1, p, c);
    }
  }

  /** The last n mod p indices belong to no chunk. */
  lemma ChunkRemainderUnassigned(n: nat, p: nat, k: nat, i: int)
    requires 1 <= p && k < p
    requires n - n % p <= i < n
    ensures !ChunkBounds(n, p, k).Contains(i)
  {
    assert n == p * (n / p) + n % p;
    ChunkExactlyOnce(n, p, k, i);
  }
}
