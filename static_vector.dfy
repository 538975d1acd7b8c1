/** `static_vector<T, MaxSize>`: a vector whose elements live in a buffer of
    fixed capacity `MaxSize` inside the object; going past the capacity
    throws `bad_alloc`. The elements are integers. */
module StaticVector {
  import opened Wrappers
  import opened Containers

  class StaticVector {
    const capacity: nat
    const data: array<int>
    var size: nat

    predicate Valid()
      reads this
    {
      1 <= capacity && data.Length == capacity && size <= capacity
    }

    function Contents(): seq<int>
      reads this, data
      requires Valid()
    {
      data[..size]
    }

    /** The default constructor: empty. */
    constructor (capacity: nat)
      requires 1 <= capacity
      ensures Valid() && fresh(data) && this.capacity == capacity && Contents() == []
    {
      this.capacity := capacity;
      data := new int[capacity];
      size := 0;
    }

    /** `push_back(x)` and `emplace_back(x)`: append `x`; a full vector
        throws `bad_alloc` and is left alone. */
    method PushBack(x: int) returns (outcome: Outcome)
      requires Valid()
      modifies this, data
      ensures Valid()
      ensures outcome.Fail? <==> old(size) == capacity
      ensures outcome.Fail? ==> outcome.error == BadAlloc && Contents() == old(Contents())
      ensures outcome.Pass? ==> Contents() == old(Contents()) + [x]
    {
      if size == capacity {
        return Fail(BadAlloc);
      }
      data[size] := x;
      size := size + 1;
      return Pass;
    }

    /** `resize(n)`: keep the first `n` elements or value-initialise new ones
        at the end. A size past the capacity throws `bad_alloc`. The new
        elements are built one at a time and `constructible` says how many
        of them can be built before an element's constructor throws; when
        that happens the exception (`runtime_error` in the element type used
        to exercise this) escapes and the vector keeps its old elements and
        size. */
    method Resize(n: nat, constructible: nat) returns (outcome: Outcome)
      requires Valid()
      modifies this, data
      ensures Valid()
      ensures outcome.Fail? <==> n > capacity || (n > old(size) && n - old(size) > constructible)
      ensures outcome.Fail? ==> outcome.error == (if n > capacity then BadAlloc else RuntimeError)
      ensures outcome.Fail? ==> Contents() == old(Contents())
      ensures outcome.Pass? ==> Contents() == Resized(old(Contents()), n)
    {
      if n > capacity {
        return Fail(BadAlloc);
      }
      ghost var was := Contents();
      var i := size;
      while i < n
        invariant size == old(size) && size <= i && (i <= n || i == size)
        invariant i - size <= constructible
        invariant data[..size] == was
        invariant forall j :: size <= j < i ==> data[j] == 0
      {
        if i - size == constructible {
          return Fail(RuntimeError);
        }
        data[i] := 0;
        i := i + 1;
      }
      size := n;
      return Pass;
    }

    /** `erase(it)`: remove the element at `pos`, move the later ones one
        place left and return the position of the next element, which is the
        end when the last was removed. */
    method Erase(pos: nat) returns (next: nat)
      requires Valid() && pos < size
      modifies this, data
      ensures Valid()
      ensures Contents() == Removed(old(Contents()), pos)
      ensures next == pos && next <= |Contents()|
    {
      ghost var was := Contents();
      var i := pos;
      while i + 1 < size
        invariant size == old(size) && pos <= i < size
        invariant forall j :: 0 <= j < pos ==> data[j] == was[j]
        invariant forall j :: pos <= j < i ==> data[j] == was[j + 1]
        invariant forall j :: i <= j < size ==> data[j] == was[j]
      {
        data[i] := data[i + 1];
        i := i + 1;
      }
      size := size - 1;
      return pos;
    }

    /** `clear()`: no elements. */
    method Clear()
      requires Valid()
      modifies this
      ensures Valid() && Contents() == []
    {
      size := 0;
    }

    /** `v[i] = x`. */
    method Set(i: nat, x: int)
      requires Valid() && i < size
      modifies data
      ensures Valid() && Contents() == old(Contents())[i := x]
    {
      data[i] := x;
    }

    /** Copy the elements of `other` into this vector's buffer. */
    method CopyFrom(other: StaticVector)
      requires Valid() && other.Valid() && other.capacity == capacity
      requires other == this || other.data != data
      modifies this, data
      ensures Valid() && Contents() == old(other.Contents())
      ensures other != this ==> other.Contents() == old(other.Contents())
    {
      if other == this {
        return;
      }
      var i := 0;
      while i < other.size
        invariant size == old(size) && 0 <= i <= other.size
        invariant forall j :: 0 <= j < i ==> data[j] == other.data[j]
      {
        data[i] := other.data[i];
        i := i + 1;
      }
      size := other.size;
      assert Contents() == other.Contents();
    }

    /** The move constructor and move assignment: the elements of `other`
        move, in order, into this vector and `other` is left empty. Moving a
        vector onto itself changes nothing. */
    method MoveFrom(other: StaticVector)
      requires Valid() && other.Valid() && other.capacity == capacity
      requires other == this || other.data != data
      modifies this, data, other
      ensures Valid() && other.Valid()
      ensures Contents() == old(other.Contents())
      ensures other != this ==> other.Contents() == []
    {
      CopyFrom(other);
      if other != this {
        other.size := 0;
      }
    }

    /** `operator==`: the same size and the same elements. */
    method Equal(other: StaticVector) returns (eq: bool)
      requires Valid() && other.Valid()
      ensures eq <==> Contents() == other.Contents()
    {
      eq := EqualPrefix(data, size, other.data, other.size);
    }

    /** `hash()`: 0 when empty, else the elements' hashes combined in order. */
    method HashValue() returns (h: bv64)
      requires Valid()
      ensures h == Hash(Contents())
    {
      h := HashPrefix(data, size);
    }
  }

  /** The constructor from `n` copies of `x`, which throws `bad_alloc` when
      `n` exceeds the capacity. */
  method FromCopies(capacity: nat, n: nat, x: int) returns (r: Result<StaticVector>)
    requires 1 <= capacity
    ensures r.Err? <==> n > capacity
    ensures r.Err? ==> r.error == BadAlloc
    ensures r.Ok? ==> fresh(r.value) && r.value.Valid() && r.value.capacity == capacity
                      && r.value.Contents() == seq(n, i => x)
  {
    if n > capacity {
      return Err(BadAlloc);
    }
    var v := new StaticVector(capacity);
    var i := 0;
    while i < n
      invariant 0 <= i <= n && v.Valid() && v.capacity == capacity
      invariant fresh(v) && fresh(v.data)
      invariant v.Contents() == seq(i, k => x)
    {
      var o := v.PushBack(x);
      i := i + 1;
    }
    return Ok(v);
  }
}
