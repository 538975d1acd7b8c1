/** The process-wide configuration: `thread_pool` (its size and the
    `use_threads` rule that decides how many threads a job gets),
    `settings` and `tuning`. Every setter validates its argument and leaves
    the old value in place when it throws. The detected hardware facts (the
    number of cores, the cache line size) are parameters. */
module Settings {
  import opened Wrappers

  // ---------------------------------------------------------------------------
  // Thread pool
  // ---------------------------------------------------------------------------

  /** `(a / b) * b` never exceeds `a`. */
  lemma DivTimesBelow(a: nat, b: nat)
    requires b > 0
    ensures (a / b) * b <= a
  {
    assert a == (a / b) * b + a % b;
  }

  /** `(a / b + 1) * b` exceeds `a`. */
  lemma DivTimesAbove(a: nat, b: nat)
    requires b > 0
    ensures (a / b + 1) * b > a
  {
    assert a == (a / b) * b + a % b;
  }

  /** Monotonicity of multiplication, one factor at a time. */
  lemma MulMonotone(x: nat, y: nat, c: nat)
    requires x <= y
    ensures x * c <= y * c
  {
  }

  /** `use_threads(work_size, min_work_per_thread)`: both arguments must be
      positive; a call from inside a pool thread gets one thread; otherwise
      the whole pool when every thread gets at least the minimum work, else
      as many threads as there are minimum shares of work, but at least
      one. */
  function UseThreads(work: int, minWork: int, poolSize: nat, inPoolThread: bool): (r: Result<nat>)
    requires poolSize >= 1
    ensures r.Err? <==> work <= 0 || minWork <= 0
    ensures r.Err? ==> r.error == InvalidArgument
    ensures r.Ok? ==> 1 <= r.value <= poolSize
    ensures r.Ok? && inPoolThread ==> r.value == 1
    ensures r.Ok? && !inPoolThread && work / poolSize >= minWork ==> r.value == poolSize
    ensures r.Ok? && r.value > 1 ==> r.value * minWork <= work
    // Short of the whole pool, one thread more would get less than the minimum.
    ensures r.Ok? && !inPoolThread && work / poolSize < minWork ==> (r.value + 1) * minWork > work
  {
    if work <= 0 then Err(InvalidArgument)
    else if minWork <= 0 then Err(InvalidArgument)
    else if inPoolThread then Ok(1)
    else if work / poolSize >= minWork then
      DivTimesBelow(work, poolSize);
      MulMonotone(minWork, work / poolSize, poolSize);
      Ok(poolSize)
    else
      var n := work / minWork;
      DivTimesBelow(work, minWork);
      DivTimesAbove(work, minWork);
      if n < 1 then Ok(1)
      else
        assert n < poolSize by {
          if n >= poolSize {
            MulMonotone(poolSize, n, minWork);
            DivLowerBound(work, poolSize, minWork);
          }
        }
        Ok(n)
  }

  /** `work >= k * m` puts `work / k` at or above `m`. */
  lemma DivLowerBound(work: nat, k: nat, m: nat)
    requires k > 0 && k * m <= work
    ensures work / k >= m
  {
    if work / k < m {
      assert work == (work / k) * k + work % k;
      MulMonotone(work / k + 1, m, k);
    }
  }

  /** The instances the library documents: with four threads, 100 units of
      work at 3 per thread use all 4 threads and at 30 per thread use 3;
      inside a pool thread, or with a single thread, the answer is 1. */
  lemma UseThreadsExamples()
    ensures UseThreads(100, 3, 4, false) == Ok(4)
    ensures UseThreads(100, 30, 4, false) == Ok(3)
    ensures UseThreads(100, 3, 4, true) == Ok(1)
    ensures UseThreads(100, 1, 4, true) == Ok(1)
    ensures UseThreads(100, 3, 1, false) == Ok(1)
    ensures UseThreads(100, 30, 1, false) == Ok(1)
    ensures UseThreads(100, 0, 4, true).Err? && UseThreads(0, 100, 4, false).Err?
    ensures UseThreads(-1, -1, 4, false).Err?
  {
  }

  /** The pool: its number of threads, never 0. */
  class ThreadPool {
    var size: nat

    predicate Valid()
      reads this
    {
      size >= 1
    }

    constructor (size: nat)
      requires size >= 1
      ensures Valid() && this.size == size
    {
      this.size := size;
    }

    /** `resize(n)`: a pool of `n` threads; 0 throws `invalid_argument` and
        keeps the present size. */
    method Resize(n: nat) returns (outcome: Outcome)
      requires Valid()
      modifies this
      ensures Valid()
      ensures outcome.Fail? <==> n == 0
      ensures outcome.Fail? ==> outcome.error == InvalidArgument && size == old(size)
      ensures outcome.Pass? ==> size == n
    {
      if n == 0 {
        return Fail(InvalidArgument);
      }
      size := n;
      return Pass;
    }

    /** The check `enqueue(n, ...)` makes before queueing a task: the thread
        index must name a thread of the pool. */
    method CheckThreadIndex(n: nat) returns (outcome: Outcome)
      requires Valid()
      ensures outcome.Fail? <==> n >= size
      ensures outcome.Fail? ==> outcome.error == InvalidArgument
    {
      if n >= size {
        return Fail(InvalidArgument);
      }
      return Pass;
    }

    /** `use_threads` against the present size of the pool. */
    method UseThreadsNow(work: int, minWork: int, inPoolThread: bool) returns (r: Result<nat>)
      requires Valid()
      ensures r == UseThreads(work, minWork, size, inPoolThread)
    {
      r := UseThreads(work, minWork, size, inPoolThread);
    }
  }

  // ---------------------------------------------------------------------------
  // settings
  // ---------------------------------------------------------------------------

  /** The default for `max_term_output`. */
  const DefaultMaxTermOutput: nat := 20

  /** The default thread count: the detected hardware concurrency, or one
      thread when the system reports none. */
  function DefaultThreads(hardwareConcurrency: nat): (r: nat)
    ensures r >= 1
    ensures hardwareConcurrency >= 1 ==> r == hardwareConcurrency
  {
    if hardwareConcurrency == 0 then 1 else hardwareConcurrency
  }

  /** `settings`: the number of threads (the size of the pool), the cache
      line size, the number of terms printed, and the minimum work per
      thread, each with its default. */
  class Settings {
    const pool: ThreadPool
    const defaultThreads: nat
    const defaultCacheLineSize: nat
    const defaultMinWorkPerThread: nat
    var cacheLineSize: nat
    var maxTermOutput: nat
    var minWorkPerThread: nat

    predicate Valid()
      reads this, pool
    {
      pool.Valid() && defaultThreads >= 1 && defaultMinWorkPerThread >= 1 && minWorkPerThread >= 1
    }

    /** The start-up state: every value at its default. */
    constructor (hardwareConcurrency: nat, cacheLine: nat, minWork: nat)
      requires minWork >= 1
      ensures Valid() && fresh(pool)
      ensures NThreads() == DefaultThreads(hardwareConcurrency) && defaultThreads == NThreads()
      ensures cacheLineSize == cacheLine && defaultCacheLineSize == cacheLine
      ensures maxTermOutput == DefaultMaxTermOutput
      ensures minWorkPerThread == minWork && defaultMinWorkPerThread == minWork
    {
      defaultThreads := DefaultThreads(hardwareConcurrency);
      pool := new ThreadPool(DefaultThreads(hardwareConcurrency));
      defaultCacheLineSize, cacheLineSize := cacheLine, cacheLine;
      maxTermOutput := DefaultMaxTermOutput;
      defaultMinWorkPerThread, minWorkPerThread := minWork, minWork;
    }

    /** `get_n_threads()`. */
    function NThreads(): (r: nat)
      reads this, pool
      requires Valid()
      ensures r >= 1
    {
      pool.size
    }

    /** `set_n_threads(n)`: resize the pool; 0 throws `invalid_argument`. */
    method SetNThreads(n: nat) returns (outcome: Outcome)
      requires Valid()
      modifies pool
      ensures Valid()
      ensures outcome.Fail? <==> n == 0
      ensures outcome.Fail? ==> outcome.error == InvalidArgument && NThreads() == old(NThreads())
      ensures outcome.Pass? ==> NThreads() == n
    {
      outcome := pool.Resize(n);
    }

    /** `reset_n_threads()`: back to the default thread count. */
    method ResetNThreads()
      requires Valid()
      modifies pool
      ensures Valid() && NThreads() == defaultThreads
    {
      var o := pool.Resize(defaultThreads);
    }

    /** `set_cache_line_size(n)`: any value, 0 included. */
    method SetCacheLineSize(n: nat)
      modifies this
      ensures cacheLineSize == n && maxTermOutput == old(maxTermOutput)
      ensures minWorkPerThread == old(minWorkPerThread)
    {
      cacheLineSize := n;
    }

    /** `reset_cache_line_size()`. */
    method ResetCacheLineSize()
      modifies this
      ensures cacheLineSize == defaultCacheLineSize && maxTermOutput == old(maxTermOutput)
      ensures minWorkPerThread == old(minWorkPerThread)
    {
      cacheLineSize := defaultCacheLineSize;
    }

    /** `set_max_term_output(n)`. */
    method SetMaxTermOutput(n: nat)
      modifies this
      ensures maxTermOutput == n && cacheLineSize == old(cacheLineSize)
      ensures minWorkPerThread == old(minWorkPerThread)
    {
      maxTermOutput := n;
    }

    /** `reset_max_term_output()`: back to 20. */
    method ResetMaxTermOutput()
      modifies this
      ensures maxTermOutput == DefaultMaxTermOutput && cacheLineSize == old(cacheLineSize)
      ensures minWorkPerThread == old(minWorkPerThread)
    {
      maxTermOutput := DefaultMaxTermOutput;
    }

    /** `set_min_work_per_thread(n)`: 0 throws `invalid_argument` and keeps
        the present value. */
    method SetMinWorkPerThread(n: nat) returns (outcome: Outcome)
      requires Valid()
      modifies this
      ensures Valid()
      ensures outcome.Fail? <==> n == 0
      ensures outcome.Fail? ==> outcome.error == InvalidArgument && minWorkPerThread == old(minWorkPerThread)
      ensures outcome.Pass? ==> minWorkPerThread == n
      ensures cacheLineSize == old(cacheLineSize) && maxTermOutput == old(maxTermOutput)
    {
      if n == 0 {
        return Fail(InvalidArgument);
      }
      minWorkPerThread := n;
      return Pass;
    }

    /** `reset_min_work_per_thread()`. */
    method ResetMinWorkPerThread()
      requires Valid()
      modifies this
      ensures Valid() && minWorkPerThread == defaultMinWorkPerThread
      ensures cacheLineSize == old(cacheLineSize) && maxTermOutput == old(maxTermOutput)
    {
      minWorkPerThread := defaultMinWorkPerThread;
    }
  }

  // ---------------------------------------------------------------------------
  // tuning
  // ---------------------------------------------------------------------------

  /** The defaults and the accepted range of the tunables. */
  const DefaultBlockSize: nat := 256
  const MinBlockSize: nat := 16
  const MaxBlockSize: nat := 4096
  const DefaultEstimateThreshold: nat := 200

  /** `multiplication_block_size` accepts sizes in `[16, 4096]`. Only 256,
      512 and 1024 being accepted and 8000 being refused is pinned down by
      the tests; the two bounds are assumed, as `tuning.hpp`, which sets
      them, is not part of this model. */
  predicate ValidBlockSize(n: nat)
  {
    MinBlockSize <= n <= MaxBlockSize
  }

  /** `tuning`: whether large buffers are zeroed in parallel, the block size
      of series multiplication, and the term count above which the size of
      a product is estimated first. */
  class Tuning {
    var parallelMemorySet: bool
    var blockSize: nat
    var estimateThreshold: nat

    predicate Valid()
      reads this
    {
      ValidBlockSize(blockSize)
    }

    constructor ()
      ensures Valid() && parallelMemorySet && blockSize == DefaultBlockSize
      ensures estimateThreshold == DefaultEstimateThreshold
    {
      parallelMemorySet := true;
      blockSize := DefaultBlockSize;
      estimateThreshold := DefaultEstimateThreshold;
    }

    /** `set_parallel_memory_set(flag)`. */
    method SetParallelMemorySet(flag: bool)
      modifies this
      ensures parallelMemorySet == flag
      ensures blockSize == old(blockSize) && estimateThreshold == old(estimateThreshold)
    {
      parallelMemorySet := flag;
    }

    /** `reset_parallel_memory_set()`: back to true. */
    method ResetParallelMemorySet()
      modifies this
      ensures parallelMemorySet
      ensures blockSize == old(blockSize) && estimateThreshold == old(estimateThreshold)
    {
      parallelMemorySet := true;
    }

    /** `set_multiplication_block_size(n)`: a size out of range throws
        `invalid_argument` and keeps the present one. */
    method SetBlockSize(n: nat) returns (outcome: Outcome)
      requires Valid()
      modifies this
      ensures Valid()
      ensures outcome.Fail? <==> !ValidBlockSize(n)
      ensures outcome.Fail? ==> outcome.error == InvalidArgument && blockSize == old(blockSize)
      ensures outcome.Pass? ==> blockSize == n
      ensures parallelMemorySet == old(parallelMemorySet) && estimateThreshold == old(estimateThreshold)
    {
      if !ValidBlockSize(n) {
        return Fail(InvalidArgument);
      }
      blockSize := n;
      return Pass;
    }

    /** `reset_multiplication_block_size()`: back to 256. */
    method ResetBlockSize()
      modifies this
      ensures Valid() && blockSize == DefaultBlockSize
      ensures parallelMemorySet == old(parallelMemorySet) && estimateThreshold == old(estimateThreshold)
    {
      blockSize := DefaultBlockSize;
    }

    /** `set_estimate_threshold(n)`. */
    method SetEstimateThreshold(n: nat)
      modifies this
      ensures estimateThreshold == n
      ensures parallelMemorySet == old(parallelMemorySet) && blockSize == old(blockSize)
    {
      estimateThreshold := n;
    }

    /** `reset_estimate_threshold()`: back to 200. */
    method ResetEstimateThreshold()
      modifies this
      ensures estimateThreshold == DefaultEstimateThreshold
      ensures parallelMemorySet == old(parallelMemorySet) && blockSize == old(blockSize)
    {
      estimateThreshold := DefaultEstimateThreshold;
    }
  }

  /** The block sizes the library is exercised with: the default and 512
      and 1024 are accepted, 8000 is refused. */
  lemma BlockSizeExamples()
    ensures ValidBlockSize(DefaultBlockSize) && ValidBlockSize(512) && ValidBlockSize(1024)
    ensures !ValidBlockSize(8000)
  {
  }
}
