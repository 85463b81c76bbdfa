/** queue<T>: an adaptor over a list that is pushed at the back and popped at
    the front. The underlying list_ is modelled by its contents, front to
    back. */
module Queues {

  /** The contents after push(value) or emplace_back(value): the value joins
      at the back. */
  function Enqueued<T>(q: seq<T>, value: T): (r: seq<T>)
    ensures |r| == |q| + 1 && r[|q|] == value && r[..|q|] == q
  {
    q + [value]
  }

  /** The contents after pop(): the front element is gone. */
  function Dequeued<T>(q: seq<T>): (r: seq<T>)
    requires q != []
    ensures |r| == |q| - 1 && [q[0]] + r == q
  {
    q[1..]
  }

  /** The elements in the order successive pops remove them, each one being
      front() at the time. */
  function PopOrder<T>(q: seq<T>): (r: seq<T>)
    ensures |r| == |q|
    decreases |q|
  {
    if q == [] then [] else [q[0]] + PopOrder(Dequeued(q))
  }

  /** First in, first out: pops yield the elements in the order they were
      pushed. */
  lemma {:induction false} FirstInFirstOut<T>(q: seq<T>)
    ensures PopOrder(q) == q
    decreases |q|
  {
    if q != [] {
      FirstInFirstOut(Dequeued(q));
    }
  }

  /** Pushing and popping commute on a non-empty queue: the front is not
      disturbed by a push, and a push after a pop joins the same back. */
  lemma PushPopCommute<T>(q: seq<T>, value: T)
    requires q != []
    ensures Enqueued(q, value)[0] == q[0]
    ensures Dequeued(Enqueued(q, value)) == Enqueued(Dequeued(q), value)
  {
  }

  /** Pushing onto a queue appends to its pop order. */
  lemma PushJoinsPopOrder<T>(q: seq<T>, value: T)
    ensures PopOrder(Enqueued(q, value)) == PopOrder(q) + [value]
  {
    FirstInFirstOut(q);
    FirstInFirstOut(Enqueued(q, value));
  }

  class Queue<T> {
    /** list_, front to back. */
    var list: seq<T>

    /** queue(): no elements. */
    constructor ()
      ensures list == []
    {
      list := [];
    }

    /** queue(const queue &): a copy of the other queue's list. */
    constructor Copy(other: Queue<T>)
      ensures list == other.list
    {
      list := other.list;
    }

    /** queue(initializer_list): the items in order, the first at the front. */
    constructor FromList(items: seq<T>)
      ensures list == items
    {
      list := items;
    }

    /** queue(queue &&): take over the other queue's list; the moved-from
        list is left empty. */
    constructor Move(other: Queue<T>)
      modifies other
      ensures list == old(other.list) && other.list == []
    {
      list := other.list;
      other.list := [];
    }

    /** operator=(const queue &): copy-and-swap unless assigning to itself. */
    method CopyAssign(other: Queue<T>)
      modifies this
      ensures list == old(other.list)
      ensures other.list == old(other.list)
    {
      if other != this {
        var copy := new Queue.Copy(other);
        copy.Swap(this);
      }
    }

    /** operator=(queue &&): take over the other queue's list unless it is
        this one; the moved-from list is left empty. */
    method MoveAssign(other: Queue<T>)
      modifies this, other
      ensures list == old(other.list)
      ensures other != this ==> other.list == []
    {
      if other != this {
        list := other.list;
        other.list := [];
      }
    }

    /** front(): the element that has waited longest, the next to be popped. */
    function Front(): (t: T)
      reads this
      requires list != []
      ensures [t] + Dequeued(list) == list
      ensures PopOrder(list)[0] == t
    {
      FirstInFirstOut(list);
      list[0]
    }

    /** back(): the element pushed last. */
    function Back(): (t: T)
      reads this
      requires list != []
      ensures Enqueued(list[..|list| - 1], t) == list
    {
      list[|list| - 1]
    }

    /** empty(): whether the list is empty. */
    function Empty(): (b: bool)
      reads this
      ensures b <==> list == []
    {
      |list| == 0
    }

    /** size(): the number of elements. */
    function Size(): (n: nat)
      reads this
      ensures n == |list| && (n == 0 <==> Empty())
    {
      |list|
    }

    /** push(value): push_back on the list. */
    method Push(value: T)
      modifies this
      ensures list == Enqueued(old(list), value)
      ensures Back() == value && Size() == old(Size()) + 1
    {
      list := list + [value];
    }

    /** emplace_back(args): emplace_back on the list, the same effect as push. */
    method EmplaceBack(value: T)
      modifies this
      ensures list == Enqueued(old(list), value)
      ensures Back() == value
    {
      list := list + [value];
    }

    /** pop(): pop_front on the list. Popping an empty list is undefined. */
    method Pop()
      requires list != []
      modifies this
      ensures list == Dequeued(old(list))
      ensures Size() == old(Size()) - 1
    {
      list := list[1..];
    }

    /** swap(other): exchange the two lists. */
    method Swap(other: Queue<T>)
      modifies this, other
      ensures list == old(other.list) && other.list == old(list)
    {
      list, other.list := other.list, list;
    }
  }
}
