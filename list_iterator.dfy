/** ListIterator<T>: a position in a List<T>, held as a pointer to one of
    its nodes (possibly the end_ sentinel). ++ and -- follow next_ and prev_
    and stay put where there is no neighbour; *, == and != refuse a null
    position with out_of_range. */
module ListIterators {
  import opened Wrappers
  import opened Lists

  /** The node ++ moves to from `n`: its successor, or `n` itself when it
      has none. */
  function StepNext<T>(nodes: seq<LNode<T>>, n: nat): (m: nat)
    requires n < |nodes|
    ensures nodes[n].next.None? ==> m == n
    ensures nodes[n].next.Some? ==> Some(m) == nodes[n].next
  {
    match nodes[n].next
    case Some(s) => s
    case None => n
  }

  /** The node -- moves to from `n`: its predecessor, or `n` itself when it
      has none. */
  function StepPrev<T>(nodes: seq<LNode<T>>, n: nat): (m: nat)
    requires n < |nodes|
    ensures nodes[n].prev.None? ==> m == n
    ensures nodes[n].prev.Some? ==> Some(m) == nodes[n].prev
  {
    match nodes[n].prev
    case Some(p) => p
    case None => n
  }

  /** The node reached from `n` by `steps` applications of ++, while the
      nodes stay inside the arena. */
  function Advance<T>(nodes: seq<LNode<T>>, n: nat, steps: nat): Option<nat>
    decreases steps
  {
    if n >= |nodes| then None
    else if steps == 0 then Some(n)
    else Advance(nodes, StepNext(nodes, n), steps - 1)
  }

  /** The position of the k-th element of a well-linked list, or end_ for
      k = |cells|. */
  function PositionAt(end: nat, cells: seq<nat>, k: nat): nat
    requires k <= |cells|
  {
    if k == |cells| then end else cells[k]
  }

  /** Starting at begin_, i steps of ++ reach the i-th element, |cells|
      steps reach end_, and further steps stay at end_. */
  lemma {:induction false} AdvanceWalksList<T>(nodes: seq<LNode<T>>, begin: Option<nat>, end: nat, cells: seq<nat>, i: nat, steps: nat)
    requires Linked(nodes, begin, end, cells) && i <= |cells|
    ensures Advance(nodes, PositionAt(end, cells, i), steps) ==
            Some(if i + steps <= |cells| then PositionAt(end, cells, i + steps) else end)
    decreases steps
  {
    if steps > 0 {
      var n := PositionAt(end, cells, i);
      if i < |cells| {
        assert StepNext(nodes, n) == PositionAt(end, cells, i + 1) by {
          if i + 1 < |cells| {
            assert nodes[cells[i]].next == Some(cells[i + 1]);
          }
        }
        AdvanceWalksList(nodes, begin, end, cells, i + 1, steps - 1);
      } else {
        assert StepNext(nodes, n) == end;
        AdvanceWalksList(nodes, begin, end, cells, i, steps - 1);
      }
    }
  }

  /** On a well-linked list ++ moves from each position to the next one and
      -- moves back, so each undoes the other; at begin_ -- stays put, and at
      end_ ++ stays put. */
  lemma StepsInverse<T>(nodes: seq<LNode<T>>, begin: Option<nat>, end: nat, cells: seq<nat>, i: nat)
    requires Linked(nodes, begin, end, cells) && i < |cells|
    ensures StepNext(nodes, PositionAt(end, cells, i)) == PositionAt(end, cells, i + 1)
    ensures StepPrev(nodes, PositionAt(end, cells, i + 1)) == PositionAt(end, cells, i)
    ensures StepPrev(nodes, PositionAt(end, cells, 0)) == PositionAt(end, cells, 0)
    ensures StepNext(nodes, end) == end
  {
    if i + 1 < |cells| {
      assert nodes[cells[i]].next == Some(cells[i + 1]);
      assert nodes[cells[i + 1]].prev == Some(cells[i]);
    }
  }

  class ListIterator<T(0)> {
    /** The list whose nodes this iterator walks. */
    const list: List<T>
    /** node_, or None for a null pointer. */
    var node: Option<nat>

    /** ListIterator(list): out_of_range for a list with no begin_, otherwise
        an iterator at begin_. */
    static method Create(list: List<T>) returns (r: Result<ListIterator<T>>)
      ensures r.Err? <==> list.begin.None?
      ensures r.Err? ==> r.error == OutOfRange
      ensures r.Ok? ==> r.value.list == list && r.value.node == list.begin && fresh(r.value)
    {
      if list.begin.None? {
        return Err(OutOfRange);
      }
      var it := new ListIterator.At(list, list.begin);
      return Ok(it);
    }

    /** An iterator at `node` of `list`. */
    constructor At(list: List<T>, node: Option<nat>)
      ensures this.list == list && this.node == node
    {
      this.list := list;
      this.node := node;
    }

    /** operator++: move to node_->next_ unless it is null. The node is
        dereferenced unchecked, so it must exist. */
    method Next()
      requires node.Some? && node.value < |list.nodes|
      modifies this
      ensures node == Some(StepNext(list.nodes, old(node.value)))
    {
      var n := node.value;
      if list.nodes[n].next != None {
        node := list.nodes[n].next;
      }
    }

    /** operator--: move to node_->prev_ unless it is null. */
    method Prev()
      requires node.Some? && node.value < |list.nodes|
      modifies this
      ensures node == Some(StepPrev(list.nodes, old(node.value)))
    {
      var n := node.value;
      if list.nodes[n].prev != None {
        node := list.nodes[n].prev;
      }
    }

    /** operator*: the value at node_, or out_of_range for a null node. On a
        well-linked list the value at the i-th element is the i-th content. */
    function Deref(): (r: Result<T>)
      reads this, list
      requires node.Some? ==> node.value < |list.nodes|
      ensures r.Err? <==> node.None?
      ensures r.Err? ==> r.error == OutOfRange
      ensures r.Ok? ==> r.value == list.nodes[node.value].value
      ensures forall i :: Linked(list.nodes, list.begin, list.end, list.cells) && 0 <= i < |list.cells| && node == Some(list.cells[i])
                ==> r == Ok(list.Contents()[i])
    {
      match node
      case None => Err(OutOfRange)
      case Some(n) => Ok(list.nodes[n].value)
    }

    /** operator==: out_of_range when either node is null, otherwise whether
        both point at the same node. */
    function Equal(other: ListIterator<T>): (r: Result<bool>)
      reads this, other
      ensures r.Err? <==> node.None? || other.node.None?
      ensures r.Err? ==> r.error == OutOfRange
      ensures r.Ok? ==> (r.value <==> node == other.node)
    {
      if node.None? || other.node.None? then Err(OutOfRange)
      else Ok(node == other.node)
    }

    /** operator!=: the same checks, with the opposite answer. */
    function NotEqual(other: ListIterator<T>): (r: Result<bool>)
      reads this, other
      ensures r.Err? <==> Equal(other).Err?
      ensures r.Err? ==> r.error == OutOfRange
      ensures r.Ok? ==> r.value == !Equal(other).value
    {
      if node.None? || other.node.None? then Err(OutOfRange)
      else Ok(node != other.node)
    }
  }

  /** An iterator made from a non-empty well-linked list designates its
      first element. */
  lemma CreateAtFirst<T(0)>(list: List<T>, it: ListIterator<T>)
    requires list.Valid() && list.cells != []
    requires it.list == list && it.node == list.begin
    ensures it.Deref() == Ok(list.Contents()[0])
  {
  }
}
