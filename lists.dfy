/** List<T>: a doubly linked list of Node<T> cells closed by an end_
    sentinel, with insert-before-position relinking, push_back and
    push_front. Nodes live in an arena owned by the list; a pointer is an
    index into it. The ghost `cells` are the element nodes from begin_ to the
    node before end_. */
module Lists {
  import opened Wrappers

  /** Node<T>: the value and the two links. */
  datatype LNode<T> = LNode(value: T, next: Option<nat>, prev: Option<nat>)

  /** The list's link fields after an insert, and the node the returned
      iterator designates. */
  datatype Links<T> = Links(nodes: seq<LNode<T>>, begin: Option<nat>, res: nat)

  /** `cells` are distinct arena nodes, chained forwards and backwards from
      begin_ to end_: the first has no predecessor and end_'s predecessor is
      the last; an empty list has no begin_ and end_ has no predecessor.
      Nothing follows end_. */
  ghost predicate Linked<T>(nodes: seq<LNode<T>>, begin: Option<nat>, end: nat, cells: seq<nat>)
  {
    && end < |nodes| && nodes[end].next == None
    && (forall i :: 0 <= i < |cells| ==> cells[i] < |nodes| && cells[i] != end)
    && (forall i, j :: 0 <= i < j < |cells| ==> cells[i] != cells[j])
    && (forall i, j :: 0 <= i && j == i + 1 && j < |cells| ==> nodes[cells[i]].next == Some(cells[j]))
    && (forall i, j :: 0 <= i && j == i + 1 && j < |cells| ==> nodes[cells[j]].prev == Some(cells[i]))
    && (if cells == [] then begin == None && nodes[end].prev == None
        else
          && begin == Some(cells[0])
          && nodes[cells[0]].prev == None
          && nodes[cells[|cells| - 1]].next == Some(end)
          && nodes[end].prev == Some(cells[|cells| - 1]))
  }

  /** The values held by `cells`, in order. */
  ghost function Values<T>(nodes: seq<LNode<T>>, cells: seq<nat>): (s: seq<T>)
    requires forall i :: 0 <= i < |cells| ==> cells[i] < |nodes|
    ensures |s| == |cells|
    ensures forall i :: 0 <= i < |cells| ==> s[i] == nodes[cells[i]].value
  {
    seq(|cells|, i requires 0 <= i < |cells| => nodes[cells[i]].value)
  }

  /** The position an insert may be given: an element node or end_. */
  ghost predicate IsPosition(end: nat, cells: seq<nat>, pos: nat, k: nat)
  {
    k <= |cells| && pos == if k == |cells| then end else cells[k]
  }

  /** insert(pos, value) before any node `pos`, as the branches for a
      position other than end_ do it (s21_list.cpp:50-57): a fresh node
      linked between pos's predecessor (if any) and pos. */
  function InsertBefore<T>(nodes: seq<LNode<T>>, begin: Option<nat>, pos: nat, v: T): (r: Links<T>)
    requires pos < |nodes|
    requires nodes[pos].prev.Some? ==> nodes[pos].prev.value < |nodes|
    ensures |r.nodes| == |nodes| + 1 && r.res == |nodes|
    ensures r.nodes[|nodes|] == LNode(v, Some(pos), nodes[pos].prev)
  {
    var f := |nodes|;
    var ns := nodes + [LNode(v, Some(pos), nodes[pos].prev)];
    if nodes[pos].prev.None? then
      Links(ns[pos := ns[pos].(prev := Some(f))], Some(f), f)
    else
      var p := nodes[pos].prev.value;
      var ns1 := ns[p := ns[p].(next := Some(f))];
      Links(ns1[pos := ns1[pos].(prev := Some(f))], begin, f)
  }

  /** insert(pos, value) as written: at end_ of a non-empty list the old last
      node's next_ is pointed at the new node, but end_->prev_ keeps pointing
      at the old last node, which is also what the result designates. */
  function InsertAsWrittenLinks<T>(nodes: seq<LNode<T>>, begin: Option<nat>, end: nat, pos: nat, v: T): (r: Links<T>)
    requires pos < |nodes| && end < |nodes|
    requires nodes[pos].prev.Some? ==> nodes[pos].prev.value < |nodes|
    ensures |r.nodes| == |nodes| + 1 && r.nodes[|nodes|].value == v
    ensures r.nodes[|nodes|].next == Some(pos) && r.nodes[|nodes|].prev == nodes[pos].prev
    ensures pos == end && nodes[end].prev.Some? ==>
      && r.nodes[end].prev == nodes[end].prev
      && r.begin == begin && Some(r.res) == nodes[end].prev
      && r.nodes[r.res].next == Some(|nodes|)
  {
    if pos == end && nodes[end].prev.Some? then
      var f := |nodes|;
      var last := nodes[end].prev.value;
      var ns := nodes + [LNode(v, Some(end), Some(last))];
      Links(ns[last := ns[last].(next := Some(f))], begin, last)
    else
      InsertBefore(nodes, begin, pos, v)
  }

  /** The chain with a fresh node `f` spliced in at index k. */
  function Spliced(cells: seq<nat>, k: nat, f: nat): (c: seq<nat>)
    requires k <= |cells|
    ensures |c| == |cells| + 1
    ensures forall i :: 0 <= i < |c| ==> c[i] == if i < k then cells[i] else if i == k then f else cells[i - 1]
  {
    cells[..k] + [f] + cells[k..]
  }

  /** What insert before the k-th position does to the arena: a fresh node
      `f` after the old ones, pointing back at the predecessor (if any) and
      forward at `pos`; pos's prev_ and the predecessor's next_ now point at
      `f`; every other node is as it was. */
  ghost predicate Relinked<T>(nodes: seq<LNode<T>>, end: nat, cells: seq<nat>, k: nat, ns: seq<LNode<T>>, f: nat)
    requires end < |nodes| && k <= |cells|
    requires forall i :: 0 <= i < |cells| ==> cells[i] < |nodes|
  {
    var pos := if k == |cells| then end else cells[k];
    && f == |nodes| && |ns| == f + 1
    && ns[f].next == Some(pos)
    && ns[f].prev == (if k == 0 then None else Some(cells[k - 1]))
    && ns[pos] == nodes[pos].(prev := Some(f))
    && (k > 0 ==> ns[cells[k - 1]] == nodes[cells[k - 1]].(next := Some(f)))
    && (forall j :: 0 <= j < |nodes| && j != pos && (k == 0 || j != cells[k - 1]) ==> ns[j] == nodes[j])
  }

  /** After relinking, every next_ along the spliced chain points at its
      successor. */
  lemma SplicedNext<T>(nodes: seq<LNode<T>>, begin: Option<nat>, end: nat, cells: seq<nat>, k: nat, ns: seq<LNode<T>>, f: nat)
    requires Linked(nodes, begin, end, cells) && k <= |cells|
    requires Relinked(nodes, end, cells, k, ns, f)
    ensures var c := Spliced(cells, k, f);
      forall i, j :: 0 <= i && j == i + 1 && j < |c| ==> ns[c[i]].next == Some(c[j])
  {
    var c := Spliced(cells, k, f);
    var pos := if k == |cells| then end else cells[k];
    forall i | 0 <= i < |c| - 1
      ensures ns[c[i]].next == Some(c[i + 1])
    {
      if i < k - 1 {
        assert c[i] == cells[i] && c[i + 1] == cells[i + 1];
        assert c[i] != pos && c[i] != cells[k - 1];
      } else if i == k - 1 {
        assert c[i] == cells[k - 1] && c[i + 1] == f;
      } else if i == k {
        assert c[i] == f && c[i + 1] == cells[k] == pos;
      } else if i == k + 1 {
        assert c[i] == pos == cells[k] && c[i + 1] == cells[k + 1];
      } else {
        assert c[i] == cells[i - 1] && c[i + 1] == cells[i];
        assert cells[i - 1] != pos;
        assert k > 0 ==> cells[i - 1] != cells[k - 1];
      }
    }
  }

  /** After relinking, every prev_ along the spliced chain points at its
      predecessor. */
  lemma SplicedPrev<T>(nodes: seq<LNode<T>>, begin: Option<nat>, end: nat, cells: seq<nat>, k: nat, ns: seq<LNode<T>>, f: nat)
    requires Linked(nodes, begin, end, cells) && k <= |cells|
    requires Relinked(nodes, end, cells, k, ns, f)
    ensures var c := Spliced(cells, k, f);
      forall i, j :: 0 <= i && j == i + 1 && j < |c| ==> ns[c[j]].prev == Some(c[i])
  {
    var c := Spliced(cells, k, f);
    var pos := if k == |cells| then end else cells[k];
    forall i | 0 < i < |c|
      ensures ns[c[i]].prev == Some(c[i - 1])
    {
      if i < k - 1 {
        assert c[i] == cells[i] && c[i - 1] == cells[i - 1];
        assert c[i] != pos && c[i] != cells[k - 1];
      } else if i == k - 1 {
        assert c[i] == cells[k - 1] && c[i - 1] == cells[k - 2];
        assert c[i] != pos;
      } else if i == k {
        assert c[i] == f && c[i - 1] == cells[k - 1];
      } else if i == k + 1 {
        assert c[i] == pos == cells[k] && c[i - 1] == f;
      } else {
        assert c[i] == cells[i - 1] && c[i - 1] == cells[i - 2];
        assert cells[i - 1] != pos;
        assert k > 0 ==> cells[i - 1] != cells[k - 1];
      }
    }
  }

  /** The spliced chain still holds distinct element nodes of the arena. */
  lemma SplicedCells(end: nat, cells: seq<nat>, k: nat, f: nat)
    requires k <= |cells| && end < f
    requires forall i :: 0 <= i < |cells| ==> cells[i] < f && cells[i] != end
    requires forall i, j :: 0 <= i < j < |cells| ==> cells[i] != cells[j]
    ensures var c := Spliced(cells, k, f);
      && (forall i :: 0 <= i < |c| ==> c[i] < f + 1 && c[i] != end)
      && (forall i, j :: 0 <= i < j < |c| ==> c[i] != c[j])
  {
    var c := Spliced(cells, k, f);
    forall i, j | 0 <= i < j < |c|
      ensures c[i] != c[j]
    {
      if j < k || i > k {
      } else if i == k || j == k {
        assert c[i] < f || c[j] < f;
      } else {
        assert c[i] == cells[i] && c[j] == cells[j - 1];
      }
    }
  }

  /** Relinking as above keeps the chain well linked, with `f` at index k. */
  lemma SplicedLinked<T>(nodes: seq<LNode<T>>, begin: Option<nat>, end: nat, cells: seq<nat>, k: nat, ns: seq<LNode<T>>, f: nat)
    requires Linked(nodes, begin, end, cells) && k <= |cells|
    requires Relinked(nodes, end, cells, k, ns, f)
    ensures Linked(ns, if k == 0 then Some(f) else begin, end, Spliced(cells, k, f))
  {
    var c := Spliced(cells, k, f);
    var pos := if k == |cells| then end else cells[k];
    SplicedNext(nodes, begin, end, cells, k, ns, f);
    SplicedPrev(nodes, begin, end, cells, k, ns, f);
    SplicedCells(end, cells, k, f);
    if k < |cells| {
      assert c[|c| - 1] == cells[|cells| - 1];
      if k < |cells| - 1 {
        assert cells[|cells| - 1] != pos;
      }
      if k > 0 {
        assert cells[|cells| - 1] != cells[k - 1];
      }
      assert ns[end] == nodes[end];
    }
    if k > 0 {
      assert c[0] == cells[0];
      if k > 1 {
        assert cells[0] != cells[k - 1];
      }
      assert cells[0] != pos;
    }
  }

  /** The values along the spliced chain are the old values with `v` at index k. */
  lemma SplicedValues<T>(nodes: seq<LNode<T>>, end: nat, cells: seq<nat>, k: nat, ns: seq<LNode<T>>, f: nat, v: T)
    requires end < |nodes| && k <= |cells|
    requires forall i :: 0 <= i < |cells| ==> cells[i] < |nodes|
    requires forall i, j :: 0 <= i < j < |cells| ==> cells[i] != cells[j]
    requires Relinked(nodes, end, cells, k, ns, f) && ns[f].value == v
    ensures Values(ns, Spliced(cells, k, f)) == Values(nodes, cells)[..k] + [v] + Values(nodes, cells)[k..]
  {
    var c := Spliced(cells, k, f);
    assert forall i :: 0 <= i < |cells| ==> ns[cells[i]].value == nodes[cells[i]].value by {
      forall i | 0 <= i < |cells|
        ensures ns[cells[i]].value == nodes[cells[i]].value
      {
        if k > 0 && cells[i] == cells[k - 1] {
        } else if k < |cells| && cells[i] == cells[k] {
        }
      }
    }
  }

  /** A position of a well-linked list is an arena node whose predecessor
      is the previous element, if any. */
  lemma PositionPrev<T>(nodes: seq<LNode<T>>, begin: Option<nat>, end: nat, cells: seq<nat>, pos: nat, k: nat)
    requires Linked(nodes, begin, end, cells) && IsPosition(end, cells, pos, k)
    ensures pos < |nodes| && nodes[pos].prev == if k == 0 then None else Some(cells[k - 1])
    ensures nodes[pos].prev.Some? ==> nodes[pos].prev.value < |nodes|
  {
  }

  /** InsertBefore relinks the arena as described by Relinked. */
  lemma InsertBeforeRelinks<T>(nodes: seq<LNode<T>>, begin: Option<nat>, end: nat, cells: seq<nat>, pos: nat, k: nat, v: T)
    requires Linked(nodes, begin, end, cells) && IsPosition(end, cells, pos, k)
    ensures pos < |nodes| && nodes[pos].prev == if k == 0 then None else Some(cells[k - 1])
    ensures var r := InsertBefore(nodes, begin, pos, v);
      && Relinked(nodes, end, cells, k, r.nodes, |nodes|)
      && r.begin == (if k == 0 then Some(|nodes|) else begin)
      && r.res == |nodes| && r.nodes[r.res].value == v
  {
    assert nodes[pos].prev == if k == 0 then None else Some(cells[k - 1]);
    if k > 0 {
      assert cells[k - 1] != pos;
    }
    var r := InsertBefore(nodes, begin, pos, v);
    assert r.nodes[|nodes|].next == Some(pos);
  }

  /** Inserting before the k-th position of a well-linked list splices a
      fresh node holding `v` in at index k of the chain. */
  lemma InsertBeforeSplices<T>(nodes: seq<LNode<T>>, begin: Option<nat>, end: nat, cells: seq<nat>, pos: nat, k: nat, v: T)
    requires Linked(nodes, begin, end, cells) && IsPosition(end, cells, pos, k)
    ensures pos < |nodes| && (nodes[pos].prev.Some? ==> nodes[pos].prev.value < |nodes|)
    ensures var r := InsertBefore(nodes, begin, pos, v);
      var cells' := Spliced(cells, k, |nodes|);
      && Linked(r.nodes, r.begin, end, cells')
      && Values(r.nodes, cells') == Values(nodes, cells)[..k] + [v] + Values(nodes, cells)[k..]
  {
    InsertBeforeRelinks(nodes, begin, end, cells, pos, k, v);
    var r := InsertBefore(nodes, begin, pos, v);
    SplicedLinked(nodes, begin, end, cells, k, r.nodes, |nodes|);
    SplicedValues(nodes, end, cells, k, r.nodes, |nodes|, v);
  }

  /** The same, for links computed by InsertBefore and named. */
  lemma InsertedLinks<T>(nodes: seq<LNode<T>>, begin: Option<nat>, end: nat, cells: seq<nat>, pos: nat, k: nat, v: T,
                         ns: seq<LNode<T>>, b: Option<nat>, res: nat)
    requires Linked(nodes, begin, end, cells) && IsPosition(end, cells, pos, k)
    requires pos < |nodes| && (nodes[pos].prev.Some? ==> nodes[pos].prev.value < |nodes|)
    requires Links(ns, b, res) == InsertBefore(nodes, begin, pos, v)
    ensures res == |nodes| && ns[res].value == v
    ensures Linked(ns, b, end, Spliced(cells, k, res))
    ensures Values(ns, Spliced(cells, k, res)) == Values(nodes, cells)[..k] + [v] + Values(nodes, cells)[k..]
  {
    InsertBeforeSplices(nodes, begin, end, cells, pos, k, v);
  }

  /** Away from the append case the as-written insert is the corrected one. */
  lemma InsertAsWrittenAgrees<T>(nodes: seq<LNode<T>>, begin: Option<nat>, end: nat, cells: seq<nat>, pos: nat, k: nat, v: T)
    requires Linked(nodes, begin, end, cells) && IsPosition(end, cells, pos, k)
    requires pos != end || cells == []
    ensures pos < |nodes| && (nodes[pos].prev.Some? ==> nodes[pos].prev.value < |nodes|)
    ensures InsertAsWrittenLinks(nodes, begin, end, pos, v) == InsertBefore(nodes, begin, pos, v)
  {
    InsertBeforeSplices(nodes, begin, end, cells, pos, k, v);
    assert pos == end ==> nodes[end].prev == None;
  }

  /** Appending to a non-empty list as written links the new node forwards
      but leaves end_->prev_ on the old last node, so the result is not the
      chain with the node appended, and the returned iterator designates the
      old last node instead of the new one. */
  lemma AppendAsWrittenBreaksLinks<T>(nodes: seq<LNode<T>>, begin: Option<nat>, end: nat, cells: seq<nat>, v: T)
    requires Linked(nodes, begin, end, cells) && cells != []
    ensures var r := InsertAsWrittenLinks(nodes, begin, end, end, v);
      && r.nodes[cells[|cells| - 1]].next == Some(|nodes|)
      && r.nodes[|nodes|].next == Some(end)
      && r.nodes[end].prev == Some(cells[|cells| - 1])
      && r.res == cells[|cells| - 1] != |nodes|
      && !Linked(r.nodes, r.begin, end, cells + [|nodes|])
  {
    var r := InsertAsWrittenLinks(nodes, begin, end, end, v);
    var c := cells + [|nodes|];
    assert c[|c| - 1] == |nodes|;
    assert r.nodes[end].prev != Some(c[|c| - 1]);
  }

  /** A concrete case: appending 2 to the list [1] leaves end_'s predecessor
      on the node holding 1 and returns that node. */
  lemma AppendAsWrittenExample()
    ensures var nodes := [LNode(0, None, Some(1)), LNode(1, Some(0), None)];
      var r := InsertAsWrittenLinks(nodes, Some(1), 0, 0, 2);
      r.nodes[0].prev == Some(1) && r.res == 1 && r.nodes[r.res].value == 1
  {
  }

  /** The arena List(n) builds as written, after i rounds, starting from a
      sentinel at index 0: the first round links node 1 in properly; every
      later round appends through end_->prev_, which stays on node 1, so
      node 1's next_ is redirected to the newest node and the nodes between
      keep next_ = end_ and prev_ = node 1. */
  ghost predicate AsWrittenChain<T>(nodes: seq<LNode<T>>, begin: Option<nat>, i: nat, zero: T)
  {
    && |nodes| == i + 1 && nodes[0].next == None
    && (i == 0 ==> begin == None && nodes[0].prev == None)
    && (i >= 1 ==> begin == Some(1) && nodes[0].prev == Some(1) && nodes[1].value == zero && nodes[1].prev == None)
    && (i == 1 ==> nodes[1].next == Some(0))
    && (i >= 2 ==> nodes[1].next == Some(i))
    && (forall j :: 2 <= j <= i ==> nodes[j] == LNode(zero, Some(0), Some(1)))
  }

  /** One push_back as written takes the chain after i rounds to the chain
      after i + 1 rounds. */
  lemma AsWrittenChainStep<T>(nodes: seq<LNode<T>>, begin: Option<nat>, i: nat, zero: T)
    requires AsWrittenChain(nodes, begin, i, zero)
    ensures nodes[0].prev.Some? ==> nodes[0].prev.value < |nodes|
    ensures var r := InsertAsWrittenLinks(nodes, begin, 0, 0, zero);
      AsWrittenChain(r.nodes, r.begin, i + 1, zero)
  {
    var r := InsertAsWrittenLinks(nodes, begin, 0, 0, zero);
    if i >= 1 {
      assert r.nodes[1].next == Some(i + 1);
    }
  }

  /** With two or more rounds the chain is not a list: no order of cells is
      well-linked, walking next_ from begin_ visits node 1 and the newest
      node only, and every node in between is orphaned (no next_ points at
      it). With at most one round it is the list of i copies of `zero`. */
  lemma AsWrittenChainBroken<T>(nodes: seq<LNode<T>>, begin: Option<nat>, i: nat, zero: T)
    requires AsWrittenChain(nodes, begin, i, zero)
    ensures i >= 2 ==> forall c :: !Linked(nodes, begin, 0, c)
    ensures i >= 2 ==> nodes[1].next == Some(i) && nodes[i].next == Some(0)
    ensures forall m, j :: 0 <= m < |nodes| && 2 <= j < i ==> nodes[m].next != Some(j)
    ensures i <= 1 ==> var c := if i == 0 then [] else [1];
      Linked(nodes, begin, 0, c) && Values(nodes, c) == seq(i, _ => zero)
  {
    if i >= 2 {
      forall c
        ensures !Linked(nodes, begin, 0, c)
      {
        if c != [] && c[0] == 1 && nodes[0].prev == Some(c[|c| - 1]) {
          if |c| == 1 {
            assert nodes[c[|c| - 1]].next != Some(0);
          } else {
            assert c[0] == c[|c| - 1];
          }
        }
      }
    }
    forall m, j | 0 <= m < |nodes| && 2 <= j < i
      ensures nodes[m].next != Some(j)
    {
      if m >= 2 {
        assert nodes[m] == LNode(zero, Some(0), Some(1));
      }
    }
    if i <= 1 {
      var c: seq<nat> := if i == 0 then [] else [1];
      assert Values(nodes, c) == seq(i, _ => zero);
    }
  }

  class List<T(0)> {
    var nodes: seq<LNode<T>>
    var begin: Option<nat>
    /** The end_ sentinel. */
    var end: nat
    var size: nat
    ghost var cells: seq<nat>

    ghost predicate Valid()
      reads this
    {
      Linked(nodes, begin, end, cells) && size == |cells|
    }

    /** The elements from begin_ to end_. */
    ghost function Contents(): seq<T>
      reads this
      requires Linked(nodes, begin, end, cells)
    {
      Values(nodes, cells)
    }

    /** List() as written: it sets size_ = 1 although the list holds no
        element (the sentinel set-up is commented out; here end_ is a fresh
        sentinel). */
    constructor AsWritten()
      ensures Linked(nodes, begin, end, cells) && Contents() == [] && size == 1
      ensures !Valid() && !Empty()
    {
      var blank: T := *;
      nodes := [LNode(blank, None, None)];
      begin := None;
      end := 0;
      size := 1;
      cells := [];
    }

    /** List() with the count the rest of the class relies on: no elements,
        size_ 0, and a fresh end_ sentinel. */
    constructor ()
      ensures Valid() && Contents() == [] && Empty()
    {
      var blank: T := *;
      nodes := [LNode(blank, None, None)];
      begin := None;
      end := 0;
      size := 0;
      cells := [];
    }

    /** List(n) as written: it starts from List()'s size_ 1, and every round
        counts the new element twice (once in insert, once more in the
        loop), so size_ is 1 + 2n. Its push_back is the as-written one, so
        from the second round on the appended nodes are not linked in. */
    constructor SizedAsWritten(n: nat, zero: T)
      ensures end == 0 && AsWrittenChain(nodes, begin, n, zero)
      ensures size == 1 + 2 * n && !Valid()
      ensures n <= 1 ==> Linked(nodes, begin, end, cells) && Contents() == seq(n, _ => zero)
      ensures n >= 2 ==> forall c :: !Linked(nodes, begin, end, c)
      ensures forall m, j :: 0 <= m < |nodes| && 2 <= j < n ==> nodes[m].next != Some(j)
    {
      var blank: T := *;
      nodes := [LNode(blank, None, None)];
      begin := None;
      end := 0;
      size := 1;
      cells := [];
      new;
      for i := 0 to n
        invariant end == 0 && AsWrittenChain(nodes, begin, i, zero)
        invariant size == 1 + 2 * i
      {
        AsWrittenChainStep(nodes, begin, i, zero);
        PushBackAsWritten(zero);
        size := size + 1;
      }
      cells := if n == 0 then [] else [1];
      AsWrittenChainBroken(nodes, begin, n, zero);
    }

    /** List(n) counted once per element: n value-initialised elements. */
    constructor Sized(n: nat, zero: T)
      ensures Valid() && Contents() == seq(n, _ => zero)
    {
      var blank: T := *;
      nodes := [LNode(blank, None, None)];
      begin := None;
      end := 0;
      size := 0;
      cells := [];
      new;
      for i := 0 to n
        invariant Valid() && Contents() == seq(i, _ => zero)
      {
        PushBack(zero);
      }
    }

    /** empty(): size_ is zero. */
    function Empty(): (b: bool)
      reads this
      ensures Valid() ==> (b <==> Contents() == [])
    {
      size == 0
    }

    /** insert(pos, value) as written, at any node `pos` of the arena whose
        predecessor (if any) is one too; the list need not be well-linked. */
    method InsertAsWritten(pos: nat, value: T) returns (res: nat)
      requires pos < |nodes| && end < |nodes|
      requires nodes[pos].prev.Some? ==> nodes[pos].prev.value < |nodes|
      modifies this
      ensures end == old(end) && size == old(size) + 1
      ensures Links(nodes, begin, res) == InsertAsWrittenLinks(old(nodes), old(begin), end, pos, value)
    {
      var ns, b, f := nodes, begin, |nodes|;
      if pos == end && ns[end].prev != None {
        var last := ns[end].prev.value;
        ns := ns + [LNode(value, Some(end), ns[end].prev)];
        ns := ns[last := ns[last].(next := Some(f))];
        res := ns[end].prev.value;
      } else {
        ns, b, res := RelinkBefore(ns, b, pos, value);
      }
      nodes, begin, size := ns, b, size + 1;
    }

    /** insert(pos, value) with end_ relinked like any other position: the
        value is spliced in before `pos`, and the result designates it. */
    method Insert(pos: nat, value: T, ghost k: nat) returns (res: nat)
      requires Linked(nodes, begin, end, cells) && IsPosition(end, cells, pos, k)
      modifies this
      ensures Linked(nodes, begin, end, cells) && end == old(end)
      ensures size == old(size) + 1
      ensures pos < |old(nodes)| && (old(nodes)[pos].prev.Some? ==> old(nodes)[pos].prev.value < |old(nodes)|)
      ensures Links(nodes, begin, res) == InsertBefore(old(nodes), old(begin), pos, value)
      ensures cells == Spliced(old(cells), k, res)
      ensures Contents() == old(Contents())[..k] + [value] + old(Contents())[k..]
      ensures nodes[res].value == value
    {
      PositionPrev(nodes, begin, end, cells, pos, k);
      var ns, b;
      ns, b, res := RelinkBefore(nodes, begin, pos, value);
      ghost var c := Spliced(cells, k, res);
      InsertedLinks(nodes, begin, end, cells, pos, k, value, ns, b, res);
      nodes, begin, size, cells := ns, b, size + 1, c;
    }

    /** The relinking of insert() at a position other than end_, which works
        for end_ as well: a fresh node between pos's predecessor (or none,
        making it the new begin_) and pos. */
    static method RelinkBefore(nodes: seq<LNode<T>>, begin: Option<nat>, pos: nat, value: T) returns (ns: seq<LNode<T>>, b: Option<nat>, res: nat)
      requires pos < |nodes|
      requires nodes[pos].prev.Some? ==> nodes[pos].prev.value < |nodes|
      ensures Links(ns, b, res) == InsertBefore(nodes, begin, pos, value)
    {
      var f := |nodes|;
      ns, b := nodes, begin;
      if ns[pos].prev == None {
        ns := ns + [LNode(value, Some(pos), None)];
        b := Some(f);
        ns := ns[pos := ns[pos].(prev := b)];
        res := b.value;
      } else {
        var p := ns[pos].prev.value;
        ns := ns + [LNode(value, Some(pos), ns[pos].prev)];
        ns := ns[p := ns[p].(next := Some(f))];
        ns := ns[pos := ns[pos].(prev := ns[p].next)];
        res := ns[pos].prev.value;
      }
    }

    /** push_back(value): insert before end_. */
    method PushBack(value: T)
      requires Linked(nodes, begin, end, cells)
      modifies this
      ensures Linked(nodes, begin, end, cells) && end == old(end)
      ensures size == old(size) + 1
      ensures Contents() == old(Contents()) + [value]
    {
      var _ := Insert(end, value, |cells|);
      assert old(cells)[..|old(cells)|] == old(cells);
    }

    /** push_back(value) as written: the as-written insert before end_. */
    method PushBackAsWritten(value: T)
      requires end < |nodes| && (nodes[end].prev.Some? ==> nodes[end].prev.value < |nodes|)
      modifies this
      ensures end == old(end) && size == old(size) + 1
      ensures var r := InsertAsWrittenLinks(old(nodes), old(begin), end, end, value);
        nodes == r.nodes && begin == r.begin
    {
      var _ := InsertAsWritten(end, value);
    }

    /** push_front(value): push_back when size_ says the list is empty,
        otherwise insert before begin(), which must then be an element. */
    method PushFront(value: T)
      requires Linked(nodes, begin, end, cells) && (size != 0 ==> cells != [])
      modifies this
      ensures Linked(nodes, begin, end, cells) && end == old(end)
      ensures size == old(size) + 1
      ensures Contents() == if old(size) == 0 then old(Contents()) + [value] else [value] + old(Contents())
    {
      if Empty() {
        PushBack(value);
      } else {
        var _ := Insert(begin.value, value, 0);
      }
    }
  }
}
