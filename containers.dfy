/** What the container classes (`detail::dynamic_storage`, `small_vector`,
    `static_vector`) do to their contents, stated on sequences: resizing,
    erasing one element, the growth policy of the heap buffer, and the hash. */
module Containers {

  // ---------------------------------------------------------------------------
  // Contents
  // ---------------------------------------------------------------------------

  /** `resize(n)`: the first `n` elements are kept and any new ones are
      value-initialised (zero). */
  function Resized(s: seq<int>, n: nat): (r: seq<int>)
    ensures |r| == n
    ensures forall i :: 0 <= i < n ==> r[i] == (if i < |s| then s[i] else 0)
  {
    if n <= |s| then s[..n] else s + seq(n - |s|, i => 0)
  }

  /** `erase(it)`: the element at position `i` is removed and the later ones
      move one place to the left. */
  function Removed(s: seq<int>, i: nat): (r: seq<int>)
    requires i < |s|
    ensures |r| == |s| - 1
    ensures forall j :: 0 <= j < |r| ==> r[j] == (if j < i then s[j] else s[j + 1])
  {
    s[..i] + s[i + 1..]
  }

  /** Resizing to the current size changes nothing, and resizing down then up
      again zeroes what was cut off. */
  lemma ResizedCases(s: seq<int>, n: nat, m: nat)
    ensures Resized(s, |s|) == s
    ensures n <= m ==> Resized(Resized(s, m), n) == Resized(s, n)
    ensures n <= |s| && n <= m ==> Resized(Resized(s, n), m) == s[..n] + seq(m - n, i => 0)
  {
  }

  // ---------------------------------------------------------------------------
  // Growth of the heap buffer
  // ---------------------------------------------------------------------------

  /** The capacity a full buffer grows to: 1 from empty, then double, but
      never past the largest size. */
  function Grown(cap: nat, maxSize: nat): (r: nat)
    requires cap < maxSize
    ensures cap < r <= maxSize
  {
    if cap == 0 then 1 else if cap > maxSize / 2 then maxSize else 2 * cap
  }

  /** The capacity after `k` more `push_back`s on a buffer of capacity `cap`
      holding `size` elements. */
  function CapacityAfter(cap: nat, size: nat, k: nat, maxSize: nat): nat
    requires size <= cap <= maxSize && size + k <= maxSize
    decreases k
  {
    if k == 0 then cap
    else if size < cap then CapacityAfter(cap, size + 1, k - 1, maxSize)
    else CapacityAfter(Grown(cap, maxSize), size + 1, k - 1, maxSize)
  }

  /** The capacity always holds the elements and never exceeds the largest
      size; it does not move while there is room. */
  lemma {:induction false} CapacityAfterBounds(cap: nat, size: nat, k: nat, maxSize: nat)
    requires size <= cap <= maxSize && size + k <= maxSize
    ensures size + k <= CapacityAfter(cap, size, k, maxSize) <= maxSize
    ensures size + k <= cap ==> CapacityAfter(cap, size, k, maxSize) == cap
    decreases k
  {
    if k > 0 {
      if size < cap {
        CapacityAfterBounds(cap, size + 1, k - 1, maxSize);
      } else {
        CapacityAfterBounds(Grown(cap, maxSize), size + 1, k - 1, maxSize);
      }
    }
  }

  /** The growth the library promises: from empty the capacity goes 1, 2, 4;
      after `reserve(10)` eleven pushes give 20; and after
      `reserve(max_size - 1)` the last push takes the capacity to
      `max_size`. */
  lemma CapacityExamples(maxSize: nat)
    requires maxSize >= 20
    ensures CapacityAfter(0, 0, 1, maxSize) == 1
    ensures CapacityAfter(0, 0, 2, maxSize) == 2
    ensures CapacityAfter(1, 1, 3, maxSize) == 4
    ensures CapacityAfter(10, 0, 11, maxSize) == 20
    ensures CapacityAfter(maxSize - 1, 0, maxSize, maxSize) == maxSize
  {
    assert CapacityAfter(10, 10, 1, maxSize) == 20;
    assert CapacityAfter(maxSize - 1, maxSize - 1, 1, maxSize) == maxSize;
    CapacityAfterBounds(maxSize - 1, 0, maxSize - 1, maxSize);
    CapacityShift(maxSize - 1, 0, maxSize - 1, maxSize);
  }

  /** While there is room, pushes leave the capacity alone. */
  lemma {:induction false} CapacityShift(cap: nat, size: nat, k: nat, maxSize: nat)
    requires size <= cap <= maxSize && size + k <= cap && cap < maxSize
    ensures CapacityAfter(cap, size, k + 1, maxSize) == CapacityAfter(cap, size + k, 1, maxSize)
    decreases k
  {
    if k > 0 {
      CapacityShift(cap, size + 1, k - 1, maxSize);
    }
  }

  // ---------------------------------------------------------------------------
  // Hashing
  // ---------------------------------------------------------------------------

  /** `std::hash` of an integral value: the value converted to the 64-bit
      `std::size_t`. */
  function IntHash(x: int): bv64
  {
    (x % 0x1_0000_0000_0000_0000) as bv64
  }

  /** `boost::hash_combine(seed, h)`. */
  function Combine(seed: bv64, h: bv64): bv64
  {
    seed ^ (h + 0x9e37_79b9 + (seed << 6) + (seed >> 2))
  }

  /** `hash()` of a vector: 0 when empty, otherwise the hash of the first
      element combined in turn with the hash of each later one. */
  function Hash(s: seq<int>): bv64
    decreases |s|
  {
    if |s| == 0 then 0
    else if |s| == 1 then IntHash(s[0])
    else Combine(Hash(s[..|s| - 1]), IntHash(s[|s| - 1]))
  }

  /** The empty vector hashes to 0, a one-element vector to the hash of its
      element, and every longer one folds its last element into the hash of
      the rest. */
  lemma HashCases(s: seq<int>, x: int)
    ensures Hash([]) == 0
    ensures Hash([x]) == IntHash(x)
    ensures |s| > 0 ==> Hash(s + [x]) == Combine(Hash(s), IntHash(x))
  {
    if |s| > 0 {
      assert (s + [x])[..|s|] == s;
    }
  }

  // ---------------------------------------------------------------------------
  // Loops over buffers
  // ---------------------------------------------------------------------------

  /** The hash loop over the first `n` cells of a buffer. */
  method HashPrefix(a: array<int>, n: nat) returns (h: bv64)
    requires n <= a.Length
    ensures h == Hash(a[..n])
  {
    if n == 0 {
      return 0;
    }
    h := IntHash(a[0]);
    var i := 1;
    while i < n
      invariant 1 <= i <= n
      invariant h == Hash(a[..i])
    {
      assert a[..i + 1][..i] == a[..i];
      h := Combine(h, IntHash(a[i]));
      i := i + 1;
    }
  }

  /** `operator==`: the first `n` cells of `a` against the first `m` of `b`,
      which are equal exactly when the sizes and every element agree. */
  method EqualPrefix(a: array<int>, n: nat, b: array<int>, m: nat) returns (eq: bool)
    requires n <= a.Length && m <= b.Length
    ensures eq <==> a[..n] == b[..m]
  {
    if n != m {
      return false;
    }
    var i := 0;
    while i < n
      invariant 0 <= i <= n
      invariant forall j :: 0 <= j < i ==> a[j] == b[j]
    {
      if a[i] != b[i] {
        assert a[..n][i] != b[..m][i];
        return false;
      }
      i := i + 1;
    }
    assert a[..n] == b[..m];
    return true;
  }
}
