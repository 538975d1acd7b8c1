/** `detail::dynamic_storage<T>`, a heap buffer with a size and a capacity,
    and `small_vector<T>`, which keeps up to `max_static_size` elements in a
    buffer of its own and moves them to a `dynamic_storage` past that. The
    elements are integers. */
module SmallVector {
  import opened Wrappers
  import opened Containers
  import Monomial

  /** A `dynamic_storage`: the buffer's length is the capacity, its first
      `size` cells the contents; `maxSize` is the largest value of the size
      type. */
  class DynamicStorage {
    const maxSize: nat
    var data: array<int>
    var size: nat

    predicate Valid()
      reads this
    {
      size <= data.Length <= maxSize
    }

    function Contents(): seq<int>
      reads this, data
      requires Valid()
    {
      data[..size]
    }

    function Capacity(): nat
      reads this
    {
      data.Length
    }

    /** The default constructor: no buffer, size and capacity 0. */
    constructor (maxSize: nat)
      ensures Valid() && fresh(data) && this.maxSize == maxSize
      ensures Contents() == [] && Capacity() == 0
    {
      this.maxSize := maxSize;
      data := new int[0];
      size := 0;
    }

    /** A storage holding `s`, with just enough capacity; the copy
        constructor builds one from the contents of the original. */
    constructor FromSeq(maxSize: nat, s: seq<int>)
      requires |s| <= maxSize
      ensures Valid() && fresh(data) && this.maxSize == maxSize
      ensures Contents() == s && Capacity() == |s|
    {
      this.maxSize := maxSize;
      var a := new int[|s|];
      var i := 0;
      while i < |s|
        invariant 0 <= i <= |s| && a.Length == |s|
        invariant a[..i] == s[..i]
      {
        a[i] := s[i];
        i := i + 1;
      }
      data := a;
      size := |s|;
    }

    /** Move the elements into a new buffer of capacity `newCap`. */
    method Reallocate(newCap: nat)
      requires Valid() && size <= newCap <= maxSize
      modifies this
      ensures Valid() && fresh(data) && size == old(size)
      ensures Contents() == old(Contents()) && Capacity() == newCap
    {
      var a := new int[newCap];
      var i := 0;
      while i < size
        invariant data == old(data) && size == old(size)
        invariant 0 <= i <= size <= a.Length
        invariant a[..i] == data[..i]
      {
        a[i] := data[i];
        i := i + 1;
      }
      assert a[..size] == data[..size];
      data := a;
    }

    /** `reserve(n)`: a capacity of at least `n`; a request no larger than the
        present capacity does nothing. */
    method Reserve(n: nat)
      requires Valid() && n <= maxSize
      modifies this
      ensures Valid() && Contents() == old(Contents())
      ensures Capacity() == if n <= old(Capacity()) then old(Capacity()) else n
      ensures n <= old(Capacity()) ==> data == old(data)
      ensures n > old(Capacity()) ==> fresh(data)
    {
      if n > data.Length {
        Reallocate(n);
      }
    }

    /** `push_back(x)`: a full buffer first grows to `Grown(capacity)`; a
        storage already at `max_size` elements throws `bad_alloc` and is left
        alone. */
    method PushBack(x: int) returns (outcome: Outcome)
      requires Valid()
      modifies this, data
      ensures Valid()
      ensures outcome.Fail? <==> old(size) == maxSize
      ensures outcome.Fail? ==>
                outcome.error == BadAlloc && Contents() == old(Contents()) && Capacity() == old(Capacity())
      ensures outcome.Pass? ==>
                Contents() == old(Contents()) + [x]
                && Capacity() == CapacityAfter(old(Capacity()), old(size), 1, maxSize)
      ensures data == old(data) || fresh(data)
    {
      if size == maxSize {
        return Fail(BadAlloc);
      }
      if size == data.Length {
        Reallocate(Grown(data.Length, maxSize));
      }
      data[size] := x;
      size := size + 1;
      return Pass;
    }

    /** `resize(n)`: the contents become `Resized(contents, n)`; the capacity
        grows to exactly `n` when it was too small and never shrinks. */
    method Resize(n: nat)
      requires Valid() && n <= maxSize
      modifies this, data
      ensures Valid() && Contents() == Resized(old(Contents()), n)
      ensures Capacity() == if n <= old(Capacity()) then old(Capacity()) else n
      ensures data == old(data) || fresh(data)
    {
      ghost var was := Contents();
      if n > data.Length {
        Reallocate(n);
      }
      var d, sz := data, size;
      var i := size;
      if size < n {
        while i < n
          invariant data == d && size == sz
          invariant size <= i <= n <= data.Length
          invariant data[..size] == was
          invariant forall j :: size <= j < i ==> data[j] == 0
        {
          data[i] := 0;
          i := i + 1;
        }
      }
      size := n;
    }

    /** `erase(it)`: remove the element at `pos` and return the position of
        the element that followed it, which is the end when it was the
        last. */
    method Erase(pos: nat) returns (next: nat)
      requires Valid() && pos < size
      modifies this, data
      ensures Valid() && data == old(data)
      ensures Contents() == Removed(old(Contents()), pos)
      ensures next == pos && next <= |Contents()|
    {
      ghost var was := Contents();
      var i := pos;
      while i + 1 < size
        invariant data == old(data) && size == old(size)
        invariant pos <= i < size
        invariant forall j :: 0 <= j < pos ==> data[j] == was[j]
        invariant forall j :: pos <= j < i ==> data[j] == was[j + 1]
        invariant forall j :: i <= j < size ==> data[j] == was[j]
      {
        data[i] := data[i + 1];
        i := i + 1;
      }
      size := size - 1;
      return pos;
    }

    /** Write `s` over the contents, which have its size. */
    method Overwrite(s: seq<int>)
      requires Valid() && |s| == size
      modifies data
      ensures Valid() && Contents() == s
    {
      var i := 0;
      while i < |s|
        invariant 0 <= i <= |s|
        invariant forall j :: 0 <= j < i ==> data[j] == s[j]
      {
        data[i] := s[i];
        i := i + 1;
      }
    }

    /** The move constructor and move assignment: take over the buffer of
        `other`, which is left with no buffer. Moving onto itself changes
        nothing. */
    method MoveFrom(other: DynamicStorage)
      requires Valid() && other.Valid() && other.maxSize == maxSize
      modifies this, other
      ensures Valid() && other.Valid()
      ensures other == this ==> Contents() == old(Contents()) && Capacity() == old(Capacity())
      ensures other != this ==>
                data == old(other.data) && Contents() == old(other.Contents()) && Capacity() == old(other.Capacity())
                && other.Contents() == [] && other.Capacity() == 0 && fresh(other.data)
    {
      if other == this {
        return;
      }
      data, size := other.data, other.size;
      other.data := new int[0];
      other.size := 0;
    }

    /** `hash()`, accumulated over the elements. */
    method HashValue() returns (h: bv64)
      requires Valid()
      ensures h == Hash(Contents())
    {
      h := HashPrefix(data, size);
    }
  }

  /** A `small_vector`: the static buffer `st` holds the elements while
      `isStatic`, the dynamic storage `dyn` once the vector has switched. */
  class SmallVector {
    const maxStatic: nat
    const maxSize: nat
    const st: array<int>
    var stSize: nat
    var dyn: DynamicStorage
    var isStatic: bool

    predicate Valid()
      reads this, dyn
    {
      1 <= maxStatic < maxSize && st.Length == maxStatic && stSize <= maxStatic
      && dyn.maxSize == maxSize && dyn.Valid() && dyn.data != st
    }

    function Contents(): seq<int>
      reads this, st, dyn, dyn.data
      requires Valid()
    {
      if isStatic then st[..stSize] else dyn.Contents()
    }

    /** The objects the vector's state lives in. */
    function Repr(): set<object>
      reads this, dyn
    {
      {this, st, dyn, dyn.data}
    }

    /** The default constructor: empty and static. */
    constructor (maxStatic: nat, maxSize: nat)
      requires 1 <= maxStatic < maxSize
      ensures Valid() && fresh(Repr()) && this.maxStatic == maxStatic && this.maxSize == maxSize
      ensures Contents() == [] && isStatic
    {
      this.maxStatic, this.maxSize := maxStatic, maxSize;
      st := new int[maxStatic];
      stSize := 0;
      dyn := new DynamicStorage(maxSize);
      isStatic := true;
    }

    /** The constructors from an initialiser list and from `n` copies of a
        value: static exactly when the elements fit the static buffer. */
    constructor FromSeq(maxStatic: nat, maxSize: nat, s: seq<int>)
      requires 1 <= maxStatic < maxSize && |s| <= maxSize
      ensures Valid() && fresh(Repr()) && this.maxStatic == maxStatic && this.maxSize == maxSize
      ensures Contents() == s && isStatic == (|s| <= maxStatic)
    {
      this.maxStatic, this.maxSize := maxStatic, maxSize;
      var a := new int[maxStatic];
      st := a;
      if |s| <= maxStatic {
        var i := 0;
        while i < |s|
          invariant 0 <= i <= |s|
          invariant a[..i] == s[..i]
        {
          a[i] := s[i];
          i := i + 1;
        }
        stSize := |s|;
        dyn := new DynamicStorage(maxSize);
        isStatic := true;
        assert a[..|s|] == s;
      } else {
        stSize := 0;
        dyn := new DynamicStorage.FromSeq(maxSize, s);
        isStatic := false;
      }
    }

    function Size(): nat
      reads this, st, dyn, dyn.data
      requires Valid()
    {
      |Contents()|
    }

    /** Write `s` into the static buffer. */
    method FillStatic(s: seq<int>)
      requires Valid() && |s| <= maxStatic
      modifies this, st
      ensures Valid() && dyn == old(dyn) && isStatic == old(isStatic)
      ensures st[..stSize] == s
    {
      var i := 0;
      while i < |s|
        invariant dyn == old(dyn) && isStatic == old(isStatic) && stSize == old(stSize)
        invariant 0 <= i <= |s| && Valid()
        invariant st[..i] == s[..i]
      {
        st[i] := s[i];
        i := i + 1;
      }
      stSize := |s|;
    }

    /** `push_back(x)`: a full static buffer moves, with `x`, to a new
        dynamic storage; a dynamic vector pushes onto its storage, which
        throws `bad_alloc` at `max_size` elements. */
    method PushBack(x: int) returns (outcome: Outcome)
      requires Valid()
      modifies Repr()
      ensures Valid()
      ensures outcome.Fail? <==> !old(isStatic) && |old(Contents())| == maxSize
      ensures outcome.Fail? ==> outcome.error == BadAlloc && Contents() == old(Contents())
      ensures outcome.Fail? ==> isStatic == old(isStatic)
      ensures outcome.Pass? ==> Contents() == old(Contents()) + [x]
      ensures outcome.Pass? ==> isStatic == (old(isStatic) && |old(Contents())| < maxStatic)
    {
      if isStatic {
        if stSize < maxStatic {
          st[stSize] := x;
          stSize := stSize + 1;
        } else {
          dyn := new DynamicStorage.FromSeq(maxSize, st[..stSize] + [x]);
          isStatic := false;
        }
        return Pass;
      }
      outcome := dyn.PushBack(x);
    }

    /** `resize(n)`: a static vector stays static up to `max_static_size`
        elements and switches to dynamic storage beyond; a dynamic vector
        stays dynamic whatever the new size, even 0. */
    method Resize(n: nat)
      requires Valid() && n <= maxSize
      modifies Repr()
      ensures Valid() && Contents() == Resized(old(Contents()), n)
      ensures isStatic == (old(isStatic) && n <= maxStatic)
      ensures (dyn == old(dyn) || fresh(dyn)) && (dyn.data == old(dyn.data) || fresh(dyn.data))
    {
      if isStatic {
        if n <= maxStatic {
          FillStatic(Resized(st[..stSize], n));
        } else {
          dyn := new DynamicStorage.FromSeq(maxSize, Resized(st[..stSize], n));
          isStatic := false;
        }
      } else {
        dyn.Resize(n);
      }
    }

    /** `erase(it)`: remove the element at `pos` from whichever buffer holds
        the elements, keeping the storage kind, and return the position of
        the following element. */
    method Erase(pos: nat) returns (next: nat)
      requires Valid() && pos < |Contents()|
      modifies Repr()
      ensures Valid() && isStatic == old(isStatic)
      ensures Contents() == Removed(old(Contents()), pos)
      ensures next == pos
    {
      if isStatic {
        FillStatic(Removed(st[..stSize], pos));
        return pos;
      }
      next := dyn.Erase(pos);
    }

    /** Overwrite element `i`. */
    method Set(i: nat, x: int)
      requires Valid() && i < |Contents()|
      modifies Repr()
      ensures Valid() && isStatic == old(isStatic) && dyn == old(dyn) && dyn.data == old(dyn.data)
      ensures Contents() == old(Contents())[i := x]
    {
      if isStatic {
        st[i] := x;
      } else {
        dyn.data[i] := x;
      }
    }

    /** Copy assignment: the contents and the storage kind of `other`. */
    method CopyFrom(other: SmallVector)
      requires Valid() && other.Valid() && other.maxStatic == maxStatic && other.maxSize == maxSize
      modifies Repr()
      ensures Valid() && Contents() == old(other.Contents()) && isStatic == old(other.isStatic)
    {
      if other == this {
        return;
      }
      var s := other.Contents();
      if other.isStatic {
        FillStatic(s);
        isStatic := true;
      } else {
        dyn := new DynamicStorage.FromSeq(maxSize, s);
        isStatic := false;
      }
    }

    /** The move constructor and move assignment: the contents and storage
        kind of `other` pass to this vector, and `other` is left empty, of the
        kind it was. */
    method MoveFrom(other: SmallVector)
      requires Valid() && other.Valid() && other.maxStatic == maxStatic && other.maxSize == maxSize
      requires other != this ==> Repr() !! other.Repr()
      modifies Repr(), other.Repr()
      ensures Valid() && other.Valid()
      ensures Contents() == old(other.Contents()) && isStatic == old(other.isStatic)
      ensures other != this ==> other.Contents() == [] && other.isStatic == old(other.isStatic)
    {
      if other == this {
        return;
      }
      if other.isStatic {
        FillStatic(other.st[..other.stSize]);
        isStatic := true;
        other.stSize := 0;
      } else {
        dyn.MoveFrom(other.dyn);
        isStatic := false;
      }
    }

    /** `add(out, other)`: `out` becomes the element-wise sum of this vector
        and `other`, resized to their size. A size mismatch throws
        `invalid_argument` before anything is written. `out` may be this
        vector or `other`. */
    method Add(out: SmallVector, other: SmallVector) returns (outcome: Outcome)
      requires Valid() && other.Valid() && out.Valid()
      requires |Contents()| <= out.maxSize
      modifies out.Repr()
      ensures outcome.Fail? <==> |old(Contents())| != |old(other.Contents())|
      ensures outcome.Fail? ==> outcome.error == InvalidArgument
      ensures out.Valid()
      ensures outcome.Fail? ==> out.Contents() == old(out.Contents())
      ensures outcome.Pass? ==> out.Contents() == Monomial.Add(old(Contents()), old(other.Contents()))
    {
      if |Contents()| != |other.Contents()| {
        return Fail(InvalidArgument);
      }
      var r := Monomial.Add(Contents(), other.Contents());
      out.Assign(r);
      return Pass;
    }

    /** `sub(out, other)`: as `add`, with the element-wise difference. */
    method Sub(out: SmallVector, other: SmallVector) returns (outcome: Outcome)
      requires Valid() && other.Valid() && out.Valid()
      requires |Contents()| <= out.maxSize
      modifies out.Repr()
      ensures outcome.Fail? <==> |old(Contents())| != |old(other.Contents())|
      ensures outcome.Fail? ==> outcome.error == InvalidArgument
      ensures out.Valid()
      ensures outcome.Fail? ==> out.Contents() == old(out.Contents())
      ensures outcome.Pass? ==> out.Contents() == Monomial.Sub(old(Contents()), old(other.Contents()))
    {
      if |Contents()| != |other.Contents()| {
        return Fail(InvalidArgument);
      }
      var r := Monomial.Sub(Contents(), other.Contents());
      out.Assign(r);
      return Pass;
    }

    /** Resize to `|s|`, then write the elements of `s` over the result. */
    method Assign(s: seq<int>)
      requires Valid() && |s| <= maxSize
      modifies Repr()
      ensures Valid() && Contents() == s
      ensures isStatic == (old(isStatic) && |s| <= maxStatic)
    {
      Resize(|s|);
      if isStatic {
        FillStatic(s);
      } else {
        dyn.Overwrite(s);
      }
    }

    /** `operator==`: equal contents, whatever the storage kinds. */
    method Equal(other: SmallVector) returns (eq: bool)
      requires Valid() && other.Valid()
      ensures eq <==> Contents() == other.Contents()
    {
      var a := if isStatic then st else dyn.data;
      var n := if isStatic then stSize else dyn.size;
      var b := if other.isStatic then other.st else other.dyn.data;
      var m := if other.isStatic then other.stSize else other.dyn.size;
      eq := EqualPrefix(a, n, b, m);
    }

    /** `hash()`: the hash of the contents, whatever the storage kind. */
    method HashValue() returns (h: bv64)
      requires Valid()
      ensures h == Hash(Contents())
    {
      if isStatic {
        h := HashPrefix(st, stSize);
      } else {
        h := dyn.HashValue();
      }
    }
  }
}
