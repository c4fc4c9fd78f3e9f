/** The midpoint-rule integration benchmark (2ndTask/2/main.cpp).

    integrate_omp splits the sample indices [0, nsteps) into one half-open
    range per thread (Partition.HalfOpenBounds), lets every thread add up the
    samples of its own range into local_sum, and adds each local_sum into the
    shared sum once. The sample at index i is exp(-x*x) at the midpoint
    x = a + step * (i + 0.5); floating point is not modelled, so the samples
    are a parameter `sample`, a function of the index, and the model proves
    which samples are added and how often. */
module Integration {
  import opened Partition

  /** The thread counts of the sweep. */
  const NumThreads: seq<int> := [1, 2, 4, 7, 8, 16, 20, 40]

  /** The sum of the samples at the indices lo, lo+1, ..., hi-1. */
  function SampleSum(sample: int -> real, lo: int, hi: int): real
    decreases hi - lo
  {
    if hi <= lo then 0.0 else SampleSum(sample, lo, hi - 1) + sample(hi - 1)
  }

  /** Summing [lo, mid) and then [mid, hi) gives the sum over [lo, hi). */
  lemma {:induction false} SampleSumSplit(sample: int -> real, lo: int, mid: int, hi: int)
    requires lo <= mid <= hi
    ensures SampleSum(sample, lo, mid) + SampleSum(sample, mid, hi) == SampleSum(sample, lo, hi)
    decreases hi - mid
  {
    if mid < hi {
      SampleSumSplit(sample, lo, mid, hi - 1);
    }
  }

  /** The sum over [lo, hi) depends on the samples inside [lo, hi) only. */
  lemma {:induction false} SampleSumLocal(f: int -> real, g: int -> real, lo: int, hi: int)
    requires forall i :: lo <= i < hi ==> f(i) == g(i)
    ensures SampleSum(f, lo, hi) == SampleSum(g, lo, hi)
    decreases hi - lo
  {
    if lo < hi {
      SampleSumLocal(f, g, lo, hi - 1);
    }
  }

  /** The indices lo, lo+1, ..., hi-1 in order. */
  function Indices(lo: int, hi: int): (s: seq<int>)
    ensures |s| == if hi <= lo then 0 else hi - lo
    ensures forall k :: 0 <= k < |s| ==> s[k] == lo + k
    decreases hi - lo
  {
    if hi <= lo then [] else Indices(lo, hi - 1) + [hi - 1]
  }

  /** One thread's body (2ndTask/2/main.cpp:24-30): local_sum over its own
      range; `visited` lists the indices it samples, in order. */
  method LocalSum(sample: int -> real, range: HalfOpenRange) returns (localSum: real, ghost visited: seq<int>)
    ensures localSum == SampleSum(sample, range.start, range.end)
    ensures visited == Indices(range.start, range.end)
  {
    localSum := 0.0;
    visited := [];
    var i := range.start;
    while i < range.end
      invariant range.start <= i && (i <= range.end || i == range.start)
      invariant localSum == SampleSum(sample, range.start, i)
      invariant visited == Indices(range.start, i)
      decreases range.end - i
    {
      localSum := localSum + sample(i);
      visited := visited + [i];
      i := i + 1;
    }
  }

  /** integrate_omp up to the final multiplication by step
      (2ndTask/2/main.cpp:15-34). Each of the numThreads threads adds the
      local_sum of its own range to sum, and together the threads sample
      every index of [0, nsteps) exactly once, in increasing order; so sum is
      the sum of all samples, whatever the number of threads. */
  method IntegrateOmp(sample: int -> real, nsteps: nat, numThreads: nat)
    returns (sum: real, ghost visited: seq<int>)
    requires 1 <= numThreads
    ensures sum == SampleSum(sample, 0, nsteps)
    ensures visited == Indices(0, nsteps)
  {
    sum := 0.0;
    visited := [];
    var threadId := 0;
    while threadId < numThreads
      invariant 0 <= threadId <= numThreads
      invariant sum == SampleSum(sample, 0, Boundary(nsteps, numThreads, threadId))
      invariant visited == Indices(0, Boundary(nsteps, numThreads, threadId))
    {
      var range := HalfOpenBounds(nsteps, numThreads, threadId);
      var localSum, localVisited := LocalSum(sample, range);
      SampleSumSplit(sample, 0, range.start, range.end);
      IndicesSplit(0, range.start, range.end);
      sum := sum + localSum;
      visited := visited + localVisited;
      threadId := threadId + 1;
    }
  }

  lemma IndicesSplit(lo: int, mid: int, hi: int)
    requires lo <= mid <= hi
    ensures Indices(lo, mid) + Indices(mid, hi) == Indices(lo, hi)
  {
    assert forall k :: 0 <= k < hi - lo ==> (Indices(lo, mid) + Indices(mid, hi))[k] == lo + k;
  }

  /** The thread-count sweep (2ndTask/2/main.cpp:43-44, 68-79): runtimes and
      speedup have one entry per thread count; pass i writes entry i of each,
      the measured time and serial_time divided by it. The measured times are
      a parameter. */
  method ThreadSweep(serialTime: real, parallelTimes: seq<real>) returns (runtimes: array<real>, speedup: array<real>)
    requires |parallelTimes| == |NumThreads|
    requires forall i :: 0 <= i < |parallelTimes| ==> parallelTimes[i] != 0.0
    ensures fresh(runtimes) && fresh(speedup)
    ensures runtimes.Length == |NumThreads| && speedup.Length == |NumThreads|
    ensures forall i :: 0 <= i < |NumThreads| ==>
      runtimes[i] == parallelTimes[i] && speedup[i] == serialTime / parallelTimes[i]
  {
    speedup := new real[|NumThreads|](_ => 0.0);
    runtimes := new real[|NumThreads|](_ => 0.0);
    var i := 0;
    while i < |NumThreads|
      invariant 0 <= i <= |NumThreads|
      invariant forall k :: 0 <= k < i ==> runtimes[k] == parallelTimes[k] && speedup[k] == serialTime / parallelTimes[k]
      invariant forall k :: i <= k < |NumThreads| ==> runtimes[k] == 0.0 && speedup[k] == 0.0
    {
      var parallelTime := parallelTimes[i];
      runtimes[i] := parallelTime;
      speedup[i] := serialTime / parallelTime;
      i := i + 1;
    }
  }
}
