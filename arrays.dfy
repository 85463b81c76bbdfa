/** array<T, size_>: a fixed-size buffer of `n` elements with checked access,
    fill and element-wise swap. The buffer `arr` stands for the member arr_. */
module Arrays {
  import opened Wrappers

  class Array<T(0)> {
    /** The template parameter size_. */
    const n: nat
    const arr: array<T>

    ghost predicate Valid()
      reads this
    {
      arr.Length == n
    }

    /** array(): every element value-initialised; `zero` stands for T{}. */
    constructor (n: nat, zero: T)
      ensures Valid() && this.n == n && fresh(arr)
      ensures forall i :: 0 <= i < n ==> arr[i] == zero
    {
      this.n := n;
      arr := new T[n](_ => zero);
    }

    /** array(initializer_list): logic_error unless the list has exactly
        size_ elements, which are then copied in order. */
    static method FromList(n: nat, init: seq<T>) returns (r: Result<Array<T>>)
      ensures r.Err? <==> |init| != n
      ensures r.Err? ==> r.error == LogicError
      ensures r.Ok? ==> r.value.Valid() && r.value.n == n && r.value.arr[..] == init && fresh(r.value.arr)
    {
      if |init| != n {
        return Err(LogicError);
      }
      var a := new Array.Sized(n);
      for i := 0 to n
        invariant a.arr[..i] == init[..i]
      {
        a.arr[i] := init[i];
      }
      return Ok(a);
    }

    /** Storage for `n` elements, each to be overwritten by the caller. */
    constructor Sized(n: nat)
      ensures Valid() && this.n == n && fresh(arr)
    {
      this.n := n;
      arr := new T[n];
    }

    /** array(const array &): copy the elements one by one; `other` is unchanged. */
    constructor Copy(other: Array<T>)
      requires other.Valid()
      ensures Valid() && n == other.n && fresh(arr)
      ensures arr[..] == other.arr[..]
    {
      n := other.n;
      arr := new T[other.n];
      new;
      for i := 0 to n
        invariant arr[..i] == other.arr[..i]
      {
        arr[i] := other.arr[i];
      }
    }

    /** operator=(const array &): copy the elements one by one. Assigning an
        array to itself leaves it as it was. */
    method CopyAssign(other: Array<T>)
      requires Valid() && other.Valid() && other.n == n
      requires other != this ==> other.arr != arr
      modifies arr
      ensures arr[..] == old(other.arr[..])
      ensures other != this ==> other.arr[..] == old(other.arr[..])
    {
      for i := 0 to n
        invariant arr[..i] == old(other.arr[..i])
        invariant arr[i..] == old(arr[i..])
        invariant other != this ==> other.arr[..] == old(other.arr[..])
      {
        arr[i] := other.arr[i];
      }
    }

    /** operator=(array &&): move the elements one by one unless `other` is
        this array. */
    method MoveAssign(other: Array<T>)
      requires Valid() && other.Valid() && other.n == n
      requires other != this ==> other.arr != arr
      modifies arr
      ensures arr[..] == old(other.arr[..])
    {
      if other != this {
        for i := 0 to n
          invariant arr[..i] == old(other.arr[..i])
          invariant other.arr[..] == old(other.arr[..])
        {
          arr[i] := other.arr[i];
        }
      }
    }

    /** at(ind): the element at `ind`, or out_of_range when ind >= size_. */
    function At(ind: nat): (r: Result<T>)
      reads this, arr
      requires Valid()
      ensures r.Ok? <==> ind < n
      ensures r.Ok? ==> r.value == arr[ind]
      ensures r.Err? ==> r.error == OutOfRange
    {
      if ind >= n then Err(OutOfRange) else Ok(arr[ind])
    }

    /** operator[](ind): forwards to at(ind), so it is bounds-checked too. */
    function Index(ind: nat): (r: Result<T>)
      reads this, arr
      requires Valid()
      ensures r.Ok? <==> ind < n
      ensures r.Ok? ==> r.value == arr[ind]
      ensures r.Err? ==> r.error == OutOfRange
    {
      At(ind)
    }

    /** front(): the first element, or logic_error for a zero-size array. */
    function Front(): (r: Result<T>)
      reads this, arr
      requires Valid()
      ensures r.Ok? <==> n > 0
      ensures r.Ok? ==> r.value == arr[0]
      ensures r.Err? ==> r.error == LogicError
    {
      if n == 0 then Err(LogicError) else Ok(arr[0])
    }

    /** back(): the last element, or logic_error for a zero-size array. */
    function Back(): (r: Result<T>)
      reads this, arr
      requires Valid()
      ensures r.Ok? <==> n > 0
      ensures r.Ok? ==> r.value == arr[n - 1]
      ensures r.Err? ==> r.error == LogicError
    {
      if n == 0 then Err(LogicError) else Ok(arr[n - 1])
    }

    /** front() and back() are the elements at() gives at both ends, and
        only the exception differs on a zero-size array. */
    lemma FrontBackAgreeWithAt()
      requires Valid()
      ensures n > 0 ==> Front() == At(0) && Back() == At(n - 1)
      ensures n == 0 ==> Front() == Back() == Err(LogicError) && At(0) == Err(OutOfRange)
    {
    }

    /** size(): the distance from begin() to end(). */
    function Size(): (s: nat)
      reads this, arr
      requires Valid()
      ensures s == arr.Length
    {
      n
    }

    /** max_size(): the same distance; a fixed array never grows. */
    function MaxSize(): (s: nat)
      reads this, arr
      requires Valid()
      ensures s == Size()
    {
      n
    }

    /** empty(): begin() equals end(), so no index is accessible. */
    function Empty(): (b: bool)
      reads this, arr
      requires Valid()
      ensures b <==> Size() == 0
      ensures b <==> At(0).Err?
    {
      n == 0
    }

    /** swap(other): exchange the arrays element by element. */
    method Swap(other: Array<T>)
      requires Valid() && other.Valid() && other.n == n
      requires other != this ==> other.arr != arr
      modifies arr, other.arr
      ensures arr[..] == old(other.arr[..]) && other.arr[..] == old(arr[..])
    {
      for i := 0 to n
        invariant other != this ==> arr[..i] == old(other.arr[..i]) && other.arr[..i] == old(arr[..i])
        invariant other != this ==> arr[i..] == old(arr[i..]) && other.arr[i..] == old(other.arr[i..])
        invariant other == this ==> arr[..] == old(arr[..])
      {
        var temp := arr[i];
        arr[i] := other.arr[i];
        other.arr[i] := temp;
      }
    }

    /** Swapping twice restores both arrays. */
    method SwapTwice(other: Array<T>)
      requires Valid() && other.Valid() && other.n == n
      requires other != this ==> other.arr != arr
      modifies arr, other.arr
      ensures arr[..] == old(arr[..]) && other.arr[..] == old(other.arr[..])
    {
      Swap(other);
      Swap(other);
    }

    /** fill(val): every element becomes `val`. */
    method Fill(val: T)
      requires Valid()
      modifies arr
      ensures forall i :: 0 <= i < n ==> arr[i] == val
      ensures forall i :: 0 <= i < n ==> At(i) == Ok(val)
    {
      for i := 0 to n
        invariant forall j :: 0 <= j < i ==> arr[j] == val
      {
        arr[i] := val;
      }
    }
  }
}
