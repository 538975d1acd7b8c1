/** Symbol sets: sorted sets of names, and the utilities that merge, search,
    trim and intersect them (`ss_merge`, `ss_index_of`, `ss_trim`,
    `ss_intersect_idx`, `sm_intersect_idx`). */
module SymbolUtils {
  import opened Wrappers

  // ---------------------------------------------------------------------------
  // Order on names
  // ---------------------------------------------------------------------------

  /** The lexicographic order of `std::string`, on character codes. */
  predicate Lt(a: string, b: string)
    decreases |a|
  {
    if |a| == 0 then |b| > 0
    else if |b| == 0 then false
    else a[0] < b[0] || (a[0] == b[0] && Lt(a[1..], b[1..]))
  }

  lemma {:induction false} LtIrreflexive(a: string)
    ensures !Lt(a, a)
    decreases |a|
  {
    if |a| > 0 {
      LtIrreflexive(a[1..]);
    }
  }

  lemma {:induction false} LtTransitive(a: string, b: string, c: string)
    requires Lt(a, b) && Lt(b, c)
    ensures Lt(a, c)
    decreases |a|
  {
    if |a| > 0 && a[0] == b[0] && b[0] == c[0] {
      LtTransitive(a[1..], b[1..], c[1..]);
    }
  }

  lemma {:induction false} LtTotal(a: string, b: string)
    ensures a == b || Lt(a, b) || Lt(b, a)
    decreases |a|
  {
    if |a| > 0 && |b| > 0 && a[0] == b[0] {
      LtTotal(a[1..], b[1..]);
      if a[1..] == b[1..] {
        assert a == [a[0]] + a[1..] && b == [b[0]] + b[1..];
      }
    }
  }

  lemma LtAsymmetric(a: string, b: string)
    ensures !(Lt(a, b) && Lt(b, a))
  {
    if Lt(a, b) && Lt(b, a) {
      LtTransitive(a, b, a);
      LtIrreflexive(a);
    }
  }

  /** A `symbol_fset`: names in strictly increasing order. */
  predicate SortedSet(s: seq<string>)
  {
    forall i, j :: 0 <= i < j < |s| ==> Lt(s[i], s[j])
  }

  /** Every element of a sorted set after the first is greater than the first. */
  lemma SortedHead(s: seq<string>, x: string)
    requires SortedSet(s) && |s| > 0 && x in s[1..]
    ensures Lt(s[0], x)
  {
    var j :| 0 <= j < |s[1..]| && s[1..][j] == x;
    assert s[j + 1] == x;
  }

  lemma SortedTail(s: seq<string>)
    requires SortedSet(s) && |s| > 0
    ensures SortedSet(s[1..])
  {
    assert forall i, j :: 0 <= i < j < |s| - 1 ==> s[1..][i] == s[i + 1] && s[1..][j] == s[j + 1];
  }

  lemma SortedCons(x: string, s: seq<string>)
    requires SortedSet(s)
    requires forall y :: y in s ==> Lt(x, y)
    ensures SortedSet([x] + s)
  {
    var t := [x] + s;
    forall i, j | 0 <= i < j < |t|
      ensures Lt(t[i], t[j])
    {
      assert t[j] == s[j - 1];
      if i > 0 {
        assert t[i] == s[i - 1];
      }
    }
  }

  // ---------------------------------------------------------------------------
  // Merge
  // ---------------------------------------------------------------------------

  /** The sorted union of two symbol sets. */
  function Merge(s1: seq<string>, s2: seq<string>): (u: seq<string>)
    requires SortedSet(s1) && SortedSet(s2)
    ensures SortedSet(u)
    ensures forall x :: x in u <==> x in s1 || x in s2
    decreases |s1| + |s2|
  {
    if s1 == [] then s2
    else if s2 == [] then s1
    else if s1[0] == s2[0] then
      SortedTail(s1);
      SortedTail(s2);
      TailAbove(s1);
      TailAbove(s2);
      var rest := Merge(s1[1..], s2[1..]);
      MergeHead(s1[0], s1[1..], s2[1..], rest);
      [s1[0]] + rest
    else if Lt(s1[0], s2[0]) then
      SortedTail(s1);
      TailAbove(s1);
      AllAbove(s1[0], s2);
      var rest := Merge(s1[1..], s2);
      MergeHead(s1[0], s1[1..], s2, rest);
      [s1[0]] + rest
    else
      SortedTail(s2);
      TailAbove(s2);
      LtTotal(s1[0], s2[0]);
      AllAbove(s2[0], s1);
      var rest := Merge(s1, s2[1..]);
      MergeHead(s2[0], s1, s2[1..], rest);
      [s2[0]] + rest
  }

  lemma TailAbove(s: seq<string>)
    requires SortedSet(s) && |s| > 0
    ensures forall y :: y in s[1..] ==> Lt(s[0], y)
  {
    forall y | y in s[1..]
      ensures Lt(s[0], y)
    {
      SortedHead(s, y);
    }
  }

  lemma AllAbove(h: string, s: seq<string>)
    requires SortedSet(s) && |s| > 0 && Lt(h, s[0])
    ensures forall y :: y in s ==> Lt(h, y)
  {
    forall y | y in s
      ensures Lt(h, y)
    {
      if y != s[0] {
        assert y in s[1..];
        SortedHead(s, y);
        LtTransitive(h, s[0], y);
      }
    }
  }

  /** A head below everything in both remaining operands starts a sorted union. */
  lemma MergeHead(h: string, a: seq<string>, b: seq<string>, rest: seq<string>)
    requires SortedSet(rest)
    requires forall y :: y in a ==> Lt(h, y)
    requires forall y :: y in b ==> Lt(h, y)
    requires forall x :: x in rest ==> x in a || x in b
    ensures SortedSet([h] + rest)
  {
    SortedCons(h, rest);
  }

  // ---------------------------------------------------------------------------
  // Insertion maps
  // ---------------------------------------------------------------------------

  /** `s` occurs in `u` in order (with possibly other names in between). */
  predicate IsSubseq(s: seq<string>, u: seq<string>)
    decreases |u|
  {
    if s == [] then true
    else if u == [] then false
    else if s[0] == u[0] then IsSubseq(s[1..], u[1..])
    else IsSubseq(s, u[1..])
  }

  /** A sorted subset of a sorted set occurs in it in order. */
  lemma {:induction false} SortedSubsetIsSubseq(s: seq<string>, u: seq<string>)
    requires SortedSet(s) && SortedSet(u)
    requires forall x :: x in s ==> x in u
    ensures IsSubseq(s, u)
    decreases |u|
  {
    if s != [] {
      assert s[0] in u;
      SortedTail(u);
      if s[0] == u[0] {
        SortedTail(s);
        forall x | x in s[1..]
          ensures x in u[1..]
        {
          SortedHead(s, x);
          LtIrreflexive(x);
          assert x in s;
          assert u == [u[0]] + u[1..];
        }
        SortedSubsetIsSubseq(s[1..], u[1..]);
      } else {
        assert s[0] in u[1..];
        SortedHead(u, s[0]);
        forall x | x in s
          ensures x in u[1..]
        {
          if x != s[0] {
            assert x in s[1..];
            SortedHead(s, x);
            LtTransitive(u[0], s[0], x);
          }
          LtIrreflexive(x);
        }
        SortedSubsetIsSubseq(s, u[1..]);
      }
    }
  }

  /** The names of `u` missing from `s`, grouped by position: entry `i` holds
      those that go before `s[i]`, entry `|s|` those that go after the last one. */
  function Gaps(s: seq<string>, u: seq<string>): (g: seq<seq<string>>)
    requires IsSubseq(s, u)
    ensures |g| == |s| + 1
    decreases |u|
  {
    if s == [] then [u]
    else if s[0] == u[0] then [[]] + Gaps(s[1..], u[1..])
    else
      var rest := Gaps(s, u[1..]);
      [[u[0]] + rest[0]] + rest[1..]
  }

  /** Put `g[i]` in front of each `s[i]` and `g[|s|]` at the end. */
  function Interleave(s: seq<string>, g: seq<seq<string>>): seq<string>
    requires |g| == |s| + 1
  {
    if s == [] then g[0] else g[0] + [s[0]] + Interleave(s[1..], g[1..])
  }

  /** Inserting the gaps rebuilds the superset. */
  lemma {:induction false} InterleaveGaps(s: seq<string>, u: seq<string>)
    requires IsSubseq(s, u)
    ensures Interleave(s, Gaps(s, u)) == u
    decreases |u|
  {
    if s == [] {
    } else if s[0] == u[0] {
      InterleaveGaps(s[1..], u[1..]);
      assert u == [u[0]] + u[1..];
    } else {
      InterleaveGaps(s, u[1..]);
      var rest := Gaps(s, u[1..]);
      assert Gaps(s, u)[1..] == rest[1..];
      assert u == [u[0]] + u[1..];
    }
  }

  /** A subsequence of itself has no gaps. */
  lemma {:induction false} GapsOfSelf(s: seq<string>)
    ensures IsSubseq(s, s)
    ensures forall i :: 0 <= i < |Gaps(s, s)| ==> Gaps(s, s)[i] == []
    decreases |s|
  {
    if s != [] {
      GapsOfSelf(s[1..]);
    }
  }

  /** A `symbol_idx_fmap<symbol_fset>`: the nonempty gaps, keyed by position. */
  function InsertionMap(s: seq<string>, u: seq<string>): (m: map<nat, seq<string>>)
    requires IsSubseq(s, u)
    ensures forall i :: i in m ==> i <= |s| && m[i] != [] && m[i] == Gaps(s, u)[i]
    ensures forall i :: 0 <= i <= |s| && Gaps(s, u)[i] != [] ==> i in m
  {
    var g := Gaps(s, u);
    map i | 0 <= i < |g| && g[i] != [] :: g[i]
  }

  /** Re-insert the names of an insertion map into `s` at the indicated
      positions, as key re-encoding does after a merge. */
  function ApplyInsertionMap(s: seq<string>, m: map<nat, seq<string>>): seq<string>
  {
    Interleave(s, seq(|s| + 1, i => if i in m then m[i] else []))
  }

  /** Applying the insertion map of `s` in `u` to `s` gives `u` back. */
  lemma ApplyInsertionMapRebuilds(s: seq<string>, u: seq<string>)
    requires IsSubseq(s, u)
    ensures ApplyInsertionMap(s, InsertionMap(s, u)) == u
  {
    var g := Gaps(s, u);
    var m := InsertionMap(s, u);
    assert seq(|s| + 1, i => if i in m then m[i] else []) == g;
    InterleaveGaps(s, u);
  }

  /** `ss_merge(s1, s2)`: the sorted union, and for each operand the insertion
      map that turns it into the union. */
  function SsMerge(s1: seq<string>, s2: seq<string>): (r: (seq<string>, map<nat, seq<string>>, map<nat, seq<string>>))
    requires SortedSet(s1) && SortedSet(s2)
    ensures SortedSet(r.0)
    ensures forall x :: x in r.0 <==> x in s1 || x in s2
    ensures IsSubseq(s1, r.0) && IsSubseq(s2, r.0)
    ensures ApplyInsertionMap(s1, r.1) == r.0
    ensures ApplyInsertionMap(s2, r.2) == r.0
    // The maps are exact: a key for every nonempty gap and for nothing else.
    ensures forall i :: i in r.1 ==> i <= |s1| && r.1[i] != [] && r.1[i] == Gaps(s1, r.0)[i]
    ensures forall i :: 0 <= i <= |s1| && Gaps(s1, r.0)[i] != [] ==> i in r.1
    ensures forall i :: i in r.2 ==> i <= |s2| && r.2[i] != [] && r.2[i] == Gaps(s2, r.0)[i]
    ensures forall i :: 0 <= i <= |s2| && Gaps(s2, r.0)[i] != [] ==> i in r.2
  {
    var u := Merge(s1, s2);
    SortedSubsetIsSubseq(s1, u);
    SortedSubsetIsSubseq(s2, u);
    ApplyInsertionMapRebuilds(s1, u);
    ApplyInsertionMapRebuilds(s2, u);
    (u, InsertionMap(s1, u), InsertionMap(s2, u))
  }

  /** Merging a set with itself leaves the set unchanged, with empty maps. */
  lemma {:induction false} MergeWithSelf(s: seq<string>)
    requires SortedSet(s)
    ensures SsMerge(s, s) == (s, map[], map[])
    decreases |s|
  {
    if s != [] {
      SortedTail(s);
      MergeWithSelf(s[1..]);
    }
    GapsOfSelf(s);
    assert Merge(s, s) == s;
    assert InsertionMap(s, s) == map[];
  }

  /** Merging with the empty set: one map is empty, the other appends every name
      at position 0. */
  lemma MergeWithEmpty(s: seq<string>)
    requires SortedSet(s) && s != []
    ensures SsMerge(s, []) == (s, map[], map[0 := s])
    ensures SsMerge([], s) == (s, map[0 := s], map[])
  {
    GapsOfSelf(s);
    assert InsertionMap(s, s) == map[];
    assert InsertionMap([], s) == map[0 := s];
  }

  // ---------------------------------------------------------------------------
  // Index, trim, intersections
  // ---------------------------------------------------------------------------

  /** `ss_index_of(s, x)`: the position of `x`, or the size of `s` when absent. */
  function IndexOf(s: seq<string>, x: string): (r: nat)
    ensures r <= |s|
    ensures r < |s| ==> s[r] == x
    ensures r == |s| <==> x !in s
    ensures forall i :: 0 <= i < r ==> s[i] != x
  {
    if s == [] then 0
    else if s[0] == x then 0
    else 1 + IndexOf(s[1..], x)
  }

  /** A sorted set is determined by its names. */
  lemma {:induction false} SortedSetsEqual(s: seq<string>, t: seq<string>)
    requires SortedSet(s) && SortedSet(t)
    requires forall x :: x in s <==> x in t
    ensures s == t
    decreases |s|
  {
    assert s != [] ==> s[0] in t;
    assert t != [] ==> t[0] in s;
    if s != [] && t != [] {
      assert s[0] == t[0] by {
        assert t[0] in s && s[0] in t;
        var i :| 0 <= i < |s| && s[i] == t[0];
        var j :| 0 <= j < |t| && t[j] == s[0];
        if s[0] != t[0] {
          assert i > 0 && j > 0;
          assert Lt(s[0], s[i]) && Lt(t[0], t[j]);
          LtAsymmetric(s[0], t[0]);
        }
      }
      SortedTail(s);
      SortedTail(t);
      forall x ensures x in s[1..] <==> x in t[1..] {
        if x in s[1..] {
          SortedHead(s, x);
          LtIrreflexive(x);
          assert x in t && x != t[0] && t == [t[0]] + t[1..];
        }
        if x in t[1..] {
          SortedHead(t, x);
          LtIrreflexive(x);
          assert x in s && x != s[0] && s == [s[0]] + s[1..];
        }
      }
      SortedSetsEqual(s[1..], t[1..]);
      assert s == [s[0]] + s[1..] && t == [t[0]] + t[1..];
    }
  }

  /** The union does not depend on the order of the operands. */
  lemma MergeCommutes(s1: seq<string>, s2: seq<string>)
    requires SortedSet(s1) && SortedSet(s2)
    ensures Merge(s1, s2) == Merge(s2, s1)
  {
    SortedSetsEqual(Merge(s1, s2), Merge(s2, s1));
  }

  /** In a sorted set every name is found at its own position. */
  lemma IndexOfSorted(s: seq<string>, j: nat)
    requires SortedSet(s) && j < |s|
    ensures IndexOf(s, s[j]) == j
  {
    var r := IndexOf(s, s[j]);
    if r < j {
      assert Lt(s[r], s[j]);
      LtIrreflexive(s[j]);
    }
  }

  /** The names of `s` whose mask entry is false, in order. */
  function Keep(s: seq<string>, mask: seq<bool>): (r: seq<string>)
    requires |mask| == |s|
    ensures IsSubseq(r, s)
    ensures forall x :: x in r <==> exists i :: 0 <= i < |s| && s[i] == x && !mask[i]
  {
    if s == [] then []
    else
      var rest := Keep(s[1..], mask[1..]);
      assert forall i :: 0 < i < |s| ==> s[i] == s[1..][i - 1] && mask[i] == mask[1..][i - 1];
      if mask[0] then
        SubseqSkip(rest, s);
        rest
      else [s[0]] + rest
  }

  lemma SubseqSkip(r: seq<string>, s: seq<string>)
    requires |s| > 0 && IsSubseq(r, s[1..])
    ensures IsSubseq(r, s)
    decreases |s|, 0
  {
    if r != [] && r[0] == s[0] {
      SubseqDrop(r, s[1..]);
    }
  }

  lemma {:induction false} SubseqDrop(r: seq<string>, s: seq<string>)
    requires |r| > 0 && IsSubseq(r, s)
    ensures IsSubseq(r[1..], s)
    decreases |s|, 1
  {
    if s != [] {
      if r[0] == s[0] {
        SubseqSkip(r[1..], s);
      } else {
        SubseqDrop(r, s[1..]);
        SubseqSkip(r[1..], s);
      }
    }
  }

  /** Every name of a subsequence is a name of the sequence. */
  lemma {:induction false} SubseqMembers(r: seq<string>, s: seq<string>)
    requires IsSubseq(r, s)
    ensures forall x :: x in r ==> x in s
    decreases |s|
  {
    if r != [] {
      assert forall x :: x in s[1..] ==> x in s;
      if r[0] == s[0] {
        SubseqMembers(r[1..], s[1..]);
        assert r == [r[0]] + r[1..];
      } else {
        SubseqMembers(r, s[1..]);
      }
    }
  }

  /** A subsequence of a sorted set is sorted. */
  lemma {:induction false} SubseqSorted(r: seq<string>, s: seq<string>)
    requires SortedSet(s) && IsSubseq(r, s)
    ensures SortedSet(r)
    decreases |s|
  {
    if r != [] {
      SortedTail(s);
      if r[0] == s[0] {
        SubseqSorted(r[1..], s[1..]);
        SubseqMembers(r[1..], s[1..]);
        forall y | y in r[1..]
          ensures Lt(r[0], y)
        {
          SortedHead(s, y);
        }
        SortedCons(r[0], r[1..]);
        assert r == [r[0]] + r[1..];
      } else {
        SubseqSorted(r, s[1..]);
      }
    }
  }

  /** `ss_trim(s, mask)`: drop the names whose mask entry is set; a mask whose
      length differs from the set throws `invalid_argument`. */
  function SsTrim(s: seq<string>, mask: seq<bool>): (r: Result<seq<string>>)
    requires SortedSet(s)
    ensures r.Err? <==> |mask| != |s|
    ensures r.Err? ==> r.error == InvalidArgument
    ensures r.Ok? ==> SortedSet(r.value)
    ensures r.Ok? ==> forall x :: x in r.value <==> exists i :: 0 <= i < |s| && s[i] == x && !mask[i]
  {
    if |mask| != |s| then Err(InvalidArgument)
    else
      var k := Keep(s, mask);
      SubseqSorted(k, s);
      Ok(k)
  }

  /** The ascending positions `i >= from` of `s` whose name is in `keys`. */
  function PositionsFrom(s: seq<string>, keys: set<string>, from: nat): (r: seq<nat>)
    requires from <= |s|
    ensures forall k :: 0 <= k < |r| ==> from <= r[k] < |s| && s[r[k]] in keys
    ensures forall k, l :: 0 <= k < l < |r| ==> r[k] < r[l]
    ensures forall i :: from <= i < |s| && s[i] in keys ==> i in r
    decreases |s| - from
  {
    if from == |s| then []
    else if s[from] in keys then [from] + PositionsFrom(s, keys, from + 1)
    else PositionsFrom(s, keys, from + 1)
  }

  /** `ss_intersect_idx(s1, s2)`: the ascending positions, within `s1`, of the
      names that are also in `s2`. */
  function SsIntersectIdx(s1: seq<string>, s2: seq<string>): (r: seq<nat>)
    ensures forall k :: 0 <= k < |r| ==> r[k] < |s1| && s1[r[k]] in s2
    ensures forall k, l :: 0 <= k < l < |r| ==> r[k] < r[l]
    ensures forall i :: 0 <= i < |s1| && s1[i] in s2 ==> i in r
  {
    PositionsFrom(s1, set x | x in s2, 0)
  }

  /** `sm_intersect_idx(s, m)`: the same positions against the keys of a map,
      each paired with the value the map holds for that name. */
  function SmIntersectIdx<T>(s: seq<string>, m: map<string, T>): (r: seq<(nat, T)>)
    ensures forall k :: 0 <= k < |r| ==> r[k].0 < |s| && s[r[k].0] in m && r[k].1 == m[s[r[k].0]]
    ensures forall k, l :: 0 <= k < l < |r| ==> r[k].0 < r[l].0
    ensures forall i :: 0 <= i < |s| && s[i] in m ==> exists k :: 0 <= k < |r| && r[k].0 == i
  {
    var idx := PositionsFrom(s, m.Keys, 0);
    var r := seq(|idx|, k requires 0 <= k < |idx| => (idx[k], m[s[idx[k]]]));
    assert forall i :: 0 <= i < |s| && s[i] in m ==> i in idx;
    assert forall k :: 0 <= k < |idx| ==> r[k].0 == idx[k];
    r
  }
}
