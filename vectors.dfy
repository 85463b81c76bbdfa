/** vector<T>: size_, capacity_ and a heap buffer (null until allocated),
    with bounds-checked access and the RemoveVector reallocation. */
module Vectors {
  import opened Wrappers

  /** What reading an index yields: an element slot's value, the exception
      thrown, or a read outside the buffer (no slot exists there). */
  datatype Read<T> = Value(v: T) | Thrown(e: Error) | OutsideBuffer

  class Vector<T(0)> {
    var size: nat
    var capacity: nat
    var buffer: array?<T>

    /** The buffer, when there is one, has capacity_ slots, of which the
        first size_ hold elements; with no buffer there is no room at all. */
    ghost predicate Valid()
      reads this
    {
      && size <= capacity
      && (buffer == null ==> capacity == 0)
      && (buffer != null ==> buffer.Length == capacity)
    }

    /** The elements, in order. */
    ghost function Elements(): (s: seq<T>)
      reads this, buffer
      requires Valid()
      ensures |s| == size
    {
      if buffer == null then [] else buffer[..size]
    }

    /** vector(): no elements, no room, no buffer. */
    constructor ()
      ensures Valid() && size == 0 && capacity == 0 && buffer == null
      ensures Elements() == []
    {
      size, capacity, buffer := 0, 0, null;
    }

    /** vector(size): size_ == capacity_ == n; a buffer only when n > 0. */
    constructor Sized(n: nat)
      ensures Valid() && size == n && capacity == n
      ensures buffer == null <==> n == 0
      ensures buffer != null ==> fresh(buffer)
    {
      size, capacity, buffer := n, n, null;
      if n > 0 {
        buffer := new T[n];
      }
    }

    /** vector(initializer_list): a buffer of exactly the list's length,
        holding the list's elements in order. */
    constructor FromList(init: seq<T>)
      ensures Valid() && size == |init| && capacity == |init|
      ensures buffer != null && fresh(buffer)
      ensures Elements() == init
    {
      var b := new T[|init|];
      for i := 0 to |init|
        invariant b[..i] == init[..i]
      {
        b[i] := init[i];
      }
      size, capacity, buffer := |init|, |init|, b;
    }

    /** vector(vector &&): take the other vector's fields and leave it empty
        (0, 0, null). */
    constructor Move(other: Vector<T>)
      requires other.Valid()
      modifies other
      ensures Valid() && other.Valid()
      ensures size == old(other.size) && capacity == old(other.capacity) && buffer == old(other.buffer)
      ensures other.size == 0 && other.capacity == 0 && other.buffer == null
    {
      size, capacity, buffer := other.size, other.capacity, other.buffer;
      other.size, other.capacity, other.buffer := 0, 0, null;
    }

    /** operator=(vector &): take the other vector's fields and leave it
        empty; assigning a vector to itself changes nothing. */
    method StealAssign(other: Vector<T>)
      requires Valid() && other.Valid()
      modifies this, other
      ensures Valid() && other.Valid()
      ensures other != this ==> size == old(other.size) && capacity == old(other.capacity) && buffer == old(other.buffer)
      ensures other != this ==> other.size == 0 && other.capacity == 0 && other.buffer == null
      ensures other == this ==> size == old(size) && capacity == old(capacity) && buffer == old(buffer)
    {
      if other != this {
        size, capacity, buffer := other.size, other.capacity, other.buffer;
        other.size, other.capacity, other.buffer := 0, 0, null;
      }
    }

    /** at(ind): the element at `ind`, or logic_error when ind >= size_. */
    function At(ind: nat): (r: Result<T>)
      reads this, buffer
      requires Valid()
      ensures r.Ok? <==> ind < size
      ensures r.Ok? ==> r.value == Elements()[ind]
      ensures r.Err? ==> r.error == LogicError
    {
      if ind >= size then Err(LogicError) else Ok(buffer[ind])
    }

    /** operator[](ind): forwards to at(ind). */
    function Index(ind: nat): (r: Result<T>)
      reads this, buffer
      requires Valid()
      ensures r.Ok? <==> ind < size
      ensures r.Ok? ==> r.value == Elements()[ind]
      ensures r.Err? ==> r.error == LogicError
    {
      At(ind)
    }

    /** at(ind) const as written: it rejects only ind > size_, so ind == size_
        reads the slot past the last element, or outside the buffer when the
        vector is full. */
    function ConstAtAsWritten(ind: nat): (r: Read<T>)
      reads this, buffer
      requires Valid()
      ensures r.Thrown? <==> ind > size
      ensures r.Thrown? ==> r.e == LogicError
      ensures r.OutsideBuffer? <==> ind == size == capacity
      ensures ind < size ==> r == Value(Elements()[ind])
    {
      if ind > size then Thrown(LogicError)
      else if ind < capacity then Value(buffer[ind])
      else OutsideBuffer
    }

    /** The as-written const at() lets index size_ through: it never throws
        there, and on a full vector (an empty default one, say) it reads
        outside the buffer. */
    lemma ConstAtAsWrittenAcceptsSize()
      requires Valid()
      ensures !ConstAtAsWritten(size).Thrown?
      ensures size == capacity ==> ConstAtAsWritten(size) == OutsideBuffer
      ensures At(size) == Err(LogicError)
    {
    }

    /** The const at() with the bound of the non-const one is at() itself.
        The as-written const at() agrees with it on every index except
        size_, where at() throws and the as-written one reads. */
    lemma ConstAtAgrees(ind: nat)
      requires Valid()
      ensures ind != size ==> (At(ind).Err? <==> ConstAtAsWritten(ind).Thrown?)
      ensures ind < size ==> ConstAtAsWritten(ind) == Value(At(ind).value)
      ensures ind == size ==> At(ind).Err? && !ConstAtAsWritten(ind).Thrown?
    {
    }

    /** RemoveVector(c): move the elements into a fresh buffer of `c` slots.
        The caller must not shrink below size_: the loop writes size_ slots. */
    method RemoveVector(c: nat)
      requires Valid() && size <= c
      modifies this
      ensures Valid() && fresh(buffer)
      ensures capacity == c && size == old(size)
      ensures Elements() == old(Elements())
    {
      var temp := new T[c];
      for i := 0 to size
        invariant unchanged(this) && Valid()
        invariant temp[..i] == old(Elements())[..i]
      {
        temp[i] := buffer[i];
      }
      buffer := temp;
      capacity := c;
    }
  }
}
