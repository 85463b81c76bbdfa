/** stack<T>: an adaptor over a list whose back is the top. The underlying
    list_ is modelled by its contents, front to back. */
module Stacks {

  /** The contents after push(value): the value goes on top. */
  function Pushed<T>(s: seq<T>, value: T): (r: seq<T>)
    ensures |r| == |s| + 1 && r[|s|] == value && r[..|s|] == s
  {
    s + [value]
  }

  /** The contents after pop(): the top is gone. */
  function Popped<T>(s: seq<T>): (r: seq<T>)
    requires s != []
    ensures |r| == |s| - 1 && r == s[..|s| - 1]
  {
    s[..|s| - 1]
  }

  /** top(): the back of the list, the element pushed last. */
  function TopOf<T>(s: seq<T>): (t: T)
    requires s != []
    ensures t == s[|s| - 1]
    ensures Pushed(Popped(s), t) == s
  {
    s[|s| - 1]
  }

  /** The elements in the order successive pops remove them. */
  function PopOrder<T>(s: seq<T>): (r: seq<T>)
    ensures |r| == |s|
    decreases |s|
  {
    if s == [] then [] else [TopOf(s)] + PopOrder(Popped(s))
  }

  /** `s` read back to front. */
  function Reverse<T>(s: seq<T>): (r: seq<T>)
    ensures |r| == |s|
  {
    if s == [] then [] else Reverse(s[1..]) + [s[0]]
  }

  /** Reversing puts the last element first. */
  lemma {:induction false} ReverseLast<T>(s: seq<T>)
    requires s != []
    ensures Reverse(s) == [s[|s| - 1]] + Reverse(s[..|s| - 1])
    decreases |s|
  {
    if |s| > 1 {
      ReverseLast(s[1..]);
      assert s[1..][..|s| - 2] == s[..|s| - 1][1..];
    }
  }

  /** A pushed element is on top, and popping it restores the stack. */
  lemma PushPop<T>(s: seq<T>, value: T)
    ensures TopOf(Pushed(s, value)) == value
    ensures Popped(Pushed(s, value)) == s
  {
  }

  /** Last in, first out: after pushing `xs` onto `s`, the pops yield `xs`
      in reverse order and then what `s` yields. */
  lemma {:induction false} LastInFirstOut<T>(s: seq<T>, xs: seq<T>)
    ensures PopOrder(s + xs) == Reverse(xs) + PopOrder(s)
    decreases |xs|
  {
    if xs != [] {
      var n := |xs|;
      assert Popped(s + xs) == s + xs[..n - 1];
      assert TopOf(s + xs) == xs[n - 1];
      LastInFirstOut(s, xs[..n - 1]);
      ReverseLast(xs);
      calc {
        PopOrder(s + xs);
        [xs[n - 1]] + PopOrder(s + xs[..n - 1]);
        [xs[n - 1]] + (Reverse(xs[..n - 1]) + PopOrder(s));
        ([xs[n - 1]] + Reverse(xs[..n - 1])) + PopOrder(s);
        Reverse(xs) + PopOrder(s);
      }
    } else {
      assert s + xs == s;
    }
  }

  /** emplace as written puts the new element at the bottom (the front of the
      list), so it does not become the top. */
  function EmplacedAsWritten<T>(s: seq<T>, value: T): (r: seq<T>)
    ensures |r| == |s| + 1 && r[0] == value && r[1..] == s
  {
    [value] + s
  }

  /** On a non-empty stack the as-written emplace leaves the old top on top;
      for the stack [1], emplacing 2 leaves 1 on top. */
  lemma EmplacedAsWrittenMissesTop<T>(s: seq<T>, value: T)
    requires s != []
    ensures TopOf(EmplacedAsWritten(s, value)) == TopOf(s)
    ensures TopOf(EmplacedAsWritten([1], 2)) == 1 != TopOf(Pushed([1], 2))
  {
  }

  class Stack<T> {
    /** list_, front to back; the back is the top. */
    var list: seq<T>

    /** stack(): no elements. */
    constructor ()
      ensures list == []
    {
      list := [];
    }

    /** stack(initializer_list): the items in order, the last one on top. */
    constructor FromList(items: seq<T>)
      ensures list == items
    {
      list := items;
    }

    /** stack(const stack &): a copy of the other stack's list. */
    constructor Copy(other: Stack<T>)
      ensures list == other.list
    {
      list := other.list;
    }

    /** stack(stack &&): take over the other stack's list; the moved-from
        list is left empty. */
    constructor Move(other: Stack<T>)
      modifies other
      ensures list == old(other.list) && other.list == []
    {
      list := other.list;
      other.list := [];
    }

    /** operator=(const stack &): copy-and-swap unless assigning to itself. */
    method CopyAssign(other: Stack<T>)
      modifies this
      ensures list == old(other.list)
      ensures other.list == old(other.list)
    {
      if other != this {
        var copy := new Stack.Copy(other);
        copy.Swap(this);
      }
    }

    /** operator=(stack &&): take over the other stack's list unless it is
        this one; the moved-from list is left empty. */
    method MoveAssign(other: Stack<T>)
      modifies this, other
      ensures list == old(other.list)
      ensures other != this ==> other.list == []
    {
      if other != this {
        list := other.list;
        other.list := [];
      }
    }

    /** top(): the element pushed last. */
    function Top(): (t: T)
      reads this
      requires list != []
      ensures t == TopOf(list)
      ensures Pushed(Popped(list), t) == list
    {
      list[|list| - 1]
    }

    /** empty(): whether the list is empty. */
    function Empty(): (b: bool)
      reads this
      ensures b <==> list == []
    {
      |list| == 0
    }

    /** size(): the number of elements. */
    function Size(): (n: nat)
      reads this
      ensures n == |list| && (n == 0 <==> Empty())
    {
      |list|
    }

    /** push(value): push_back on the list. */
    method Push(value: T)
      modifies this
      ensures list == Pushed(old(list), value)
      ensures Top() == value && Size() == old(Size()) + 1
    {
      list := list + [value];
    }

    /** emplace(args) as written: emplace_front on the list. */
    method EmplaceAsWritten(value: T)
      modifies this
      ensures list == EmplacedAsWritten(old(list), value)
    {
      list := [value] + list;
    }

    /** emplace(args) building the element on top, as push does. */
    method Emplace(value: T)
      modifies this
      ensures list == Pushed(old(list), value)
      ensures Top() == value
    {
      list := list + [value];
    }

    /** pop(): pop_back on the list. Popping an empty list is undefined. */
    method Pop()
      requires list != []
      modifies this
      ensures list == Popped(old(list))
      ensures Size() == old(Size()) - 1
    {
      list := list[..|list| - 1];
    }

    /** swap(other): exchange the two lists. */
    method Swap(other: Stack<T>)
      modifies this, other
      ensures list == old(other.list) && other.list == old(list)
    {
      list, other.list := other.list, list;
    }
  }
}
