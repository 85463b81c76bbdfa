/** The skeleton of RBTree: a head (sentinel) node whose parent slot holds the
    root and whose left and right slots cache the leftmost and rightmost nodes,
    the min/max descents, clear, swap, move, and the recursive copy.

    Nodes live in an arena owned by the tree; a pointer is an index into it.
    The ghost `shape` is the tree reachable from the root, and `Represents`
    ties it to the arena (parent links consistent, no cell shared). */
module Tree {
  import opened Wrappers

  /** RBTreeColor: tRed and tBlack. */
  datatype Color = Red | Black

  /** A node pointer: an index into the arena, or None for nullptr. */
  type Ref = Option<nat>

  datatype Node<K> = Node(key: K, color: Color, parent: Ref, left: Ref, right: Ref)

  /** The abstract subtree below a node: keys and colours, without addresses. */
  datatype Shape<K> = Leaf | Branch(key: K, color: Color, left: Shape<K>, right: Shape<K>)

  function Count<K>(t: Shape<K>): nat
  {
    match t
    case Leaf => 0
    case Branch(_, _, l, r) => Count(l) + 1 + Count(r)
  }

  /** The keys in in-order (iteration) order. */
  function InOrder<K>(t: Shape<K>): (s: seq<K>)
    ensures |s| == Count(t)
  {
    match t
    case Leaf => []
    case Branch(k, _, l, r) => InOrder(l) + [k] + InOrder(r)
  }

  /** The arena cells occupied by the subtree `t` hanging from `r`. */
  ghost function Cells<K>(nodes: seq<Node<K>>, r: Ref, t: Shape<K>): set<nat>
    decreases t
  {
    match t
    case Leaf => {}
    case Branch(_, _, l, rt) =>
      if r.Some? && r.value < |nodes| then
        {r.value} + Cells(nodes, nodes[r.value].left, l) + Cells(nodes, nodes[r.value].right, rt)
      else {}
  }

  lemma {:induction false} CellsBounded<K>(nodes: seq<Node<K>>, r: Ref, t: Shape<K>)
    ensures forall j :: j in Cells(nodes, r, t) ==> j < |nodes|
    decreases t
  {
    match t
    case Leaf =>
    case Branch(_, _, l, rt) =>
      if r.Some? && r.value < |nodes| {
        CellsBounded(nodes, nodes[r.value].left, l);
        CellsBounded(nodes, nodes[r.value].right, rt);
      }
  }

  /** `r` points at a subtree of the arena whose keys and colours are `t`,
      whose top node's parent is `p`, whose every child's parent link points
      back, and in which no cell is reachable twice. */
  ghost predicate Represents<K>(nodes: seq<Node<K>>, r: Ref, t: Shape<K>, p: Ref)
    decreases t
  {
    match t
    case Leaf => r == None
    case Branch(k, c, l, rt) =>
      r.Some? && r.value < |nodes| &&
      var n := nodes[r.value];
      n.key == k && n.color == c && n.parent == p &&
      Represents(nodes, n.left, l, r) &&
      Represents(nodes, n.right, rt, r) &&
      r.value !in Cells(nodes, n.left, l) &&
      r.value !in Cells(nodes, n.right, rt) &&
      Cells(nodes, n.left, l) !! Cells(nodes, n.right, rt)
  }

  /** A null pointer represents only the empty subtree, a non-null one a node
      of the arena whose parent link is `p`. */
  lemma RefMatchesShape<K>(nodes: seq<Node<K>>, r: Ref, t: Shape<K>, p: Ref)
    requires Represents(nodes, r, t, p)
    ensures r.None? <==> t.Leaf?
    ensures r.Some? ==> r.value < |nodes| && nodes[r.value].parent == p
  {
    match t
    case Leaf =>
    case Branch(_, _, _, _) =>
  }

  /** Assemble a subtree from a node and two disjoint child subtrees. */
  lemma Link<K>(nodes: seq<Node<K>>, r: nat, t: Shape<K>, p: Ref)
    requires t.Branch? && r < |nodes|
    requires nodes[r].key == t.key && nodes[r].color == t.color && nodes[r].parent == p
    requires Represents(nodes, nodes[r].left, t.left, Some(r))
    requires Represents(nodes, nodes[r].right, t.right, Some(r))
    requires r !in Cells(nodes, nodes[r].left, t.left) && r !in Cells(nodes, nodes[r].right, t.right)
    requires Cells(nodes, nodes[r].left, t.left) !! Cells(nodes, nodes[r].right, t.right)
    ensures Represents(nodes, Some(r), t, p)
    ensures Cells(nodes, Some(r), t) == {r} + Cells(nodes, nodes[r].left, t.left) + Cells(nodes, nodes[r].right, t.right)
  {
  }

  /** The node MinimumSearch stops at: follow left links while there is one. */
  ghost function MinIndex<K>(nodes: seq<Node<K>>, i: nat, t: Shape<K>, p: Ref): (m: nat)
    requires Represents(nodes, Some(i), t, p)
    ensures m < |nodes| && m in Cells(nodes, Some(i), t)
    ensures nodes[m].left == None
    ensures nodes[m].key == InOrder(t)[0]
    decreases t
  {
    RefMatchesShape(nodes, nodes[i].left, t.left, Some(i));
    if nodes[i].left == None then i
    else MinIndex(nodes, nodes[i].left.value, t.left, Some(i))
  }

  /** The node MaximumSearch stops at: follow right links while there is one. */
  ghost function MaxIndex<K>(nodes: seq<Node<K>>, i: nat, t: Shape<K>, p: Ref): (m: nat)
    requires Represents(nodes, Some(i), t, p)
    ensures m < |nodes| && m in Cells(nodes, Some(i), t)
    ensures nodes[m].right == None
    ensures nodes[m].key == InOrder(t)[|InOrder(t)| - 1]
    decreases t
  {
    RefMatchesShape(nodes, nodes[i].right, t.right, Some(i));
    if nodes[i].right == None then i
    else MaxIndex(nodes, nodes[i].right.value, t.right, Some(i))
  }

  /** Changing cells outside a subtree changes neither the subtree nor its extremes. */
  lemma {:induction false} FrameRepresents<K>(a: seq<Node<K>>, b: seq<Node<K>>, r: Ref, t: Shape<K>, p: Ref)
    requires Represents(a, r, t, p)
    requires forall j :: j in Cells(a, r, t) ==> j < |a| && j < |b| && b[j] == a[j]
    ensures Represents(b, r, t, p) && Cells(b, r, t) == Cells(a, r, t)
    ensures r.Some? ==> MinIndex(b, r.value, t, p) == MinIndex(a, r.value, t, p)
    ensures r.Some? ==> MaxIndex(b, r.value, t, p) == MaxIndex(a, r.value, t, p)
    decreases t
  {
    match t
    case Leaf =>
    case Branch(_, _, l, rt) =>
      var i := r.value;
      assert i in Cells(a, r, t);
      FrameRepresents(a, b, a[i].left, l, r);
      FrameRepresents(a, b, a[i].right, rt, r);
  }

  /** The subtree `t` hanging from `r` is represented, and every cell it
      occupies lies in the index range [lo, hi) of the arena. */
  ghost predicate Placed<K>(nodes: seq<Node<K>>, r: Ref, t: Shape<K>, p: Ref, lo: nat, hi: nat)
  {
    && Represents(nodes, r, t, p)
    && hi <= |nodes|
    && forall j :: j in Cells(nodes, r, t) ==> lo <= j < hi
  }

  /** Cells outside [lo, hi) may change, and the arena may grow, without
      disturbing a subtree placed in that range. */
  lemma PlacedFrame<K>(a: seq<Node<K>>, b: seq<Node<K>>, r: Ref, t: Shape<K>, p: Ref, lo: nat, hi: nat)
    requires Placed(a, r, t, p, lo, hi)
    requires hi <= |b| && forall j :: lo <= j < hi ==> b[j] == a[j]
    ensures Placed(b, r, t, p, lo, hi) && Cells(b, r, t) == Cells(a, r, t)
    ensures r.Some? ==> MinIndex(b, r.value, t, p) == MinIndex(a, r.value, t, p)
    ensures r.Some? ==> MaxIndex(b, r.value, t, p) == MaxIndex(a, r.value, t, p)
  {
    FrameRepresents(a, b, r, t, p);
  }

  /** Appending cells to the arena changes no placed subtree. */
  lemma PlacedAppend<K>(a: seq<Node<K>>, b: seq<Node<K>>, r: Ref, t: Shape<K>, p: Ref, lo: nat, hi: nat)
    requires Placed(a, r, t, p, lo, hi) && a <= b
    ensures Placed(b, r, t, p, lo, hi)
  {
    PlacedFrame(a, b, r, t, p, lo, hi);
  }

  /** Overwriting a cell outside [lo, hi) changes no subtree placed there. */
  lemma PlacedUpdate<K>(a: seq<Node<K>>, i: nat, x: Node<K>, r: Ref, t: Shape<K>, p: Ref, lo: nat, hi: nat)
    requires Placed(a, r, t, p, lo, hi) && i < |a| && (i < lo || hi <= i)
    ensures Placed(a[i := x], r, t, p, lo, hi) && Cells(a[i := x], r, t) == Cells(a, r, t)
    ensures r.Some? ==> MinIndex(a[i := x], r.value, t, p) == MinIndex(a, r.value, t, p)
    ensures r.Some? ==> MaxIndex(a[i := x], r.value, t, p) == MaxIndex(a, r.value, t, p)
  {
    PlacedFrame(a, a[i := x], r, t, p, lo, hi);
  }

  /** A node at `r`, followed by its left subtree in [r+1, mid) and its right
      subtree in [mid, |nodes|), is a subtree placed in [r, |nodes|). */
  lemma LinkPlaced<K>(nodes: seq<Node<K>>, r: nat, mid: nat, t: Shape<K>, p: Ref)
    requires t.Branch? && r < mid && r < |nodes|
    requires nodes[r].key == t.key && nodes[r].color == t.color && nodes[r].parent == p
    requires Placed(nodes, nodes[r].left, t.left, Some(r), r + 1, mid)
    requires Placed(nodes, nodes[r].right, t.right, Some(r), mid, |nodes|)
    ensures Placed(nodes, Some(r), t, p, r, |nodes|)
  {
    var lc := Cells(nodes, nodes[r].left, t.left);
    var rc := Cells(nodes, nodes[r].right, t.right);
    assert r !in lc && r !in rc;
    assert forall j :: j in lc ==> j < mid;
    assert forall j :: j in rc ==> mid <= j;
    Link(nodes, r, t, p);
  }

  /** Store the node `x` in the cell `r` allocated after the prefix `a`,
      above a left subtree in [r+1, mid) and a right subtree in [mid, |b|):
      the result keeps the prefix and places the whole subtree in [r, |b|). */
  function Attach<K>(ghost a: seq<Node<K>>, b: seq<Node<K>>, r: nat, ghost mid: nat, x: Node<K>, ghost t: Shape<K>): (c: seq<Node<K>>)
    requires a <= b && |a| == r < mid <= |b|
    requires t.Branch? && x.key == t.key && x.color == t.color
    requires Placed(b, x.left, t.left, Some(r), r + 1, mid)
    requires Placed(b, x.right, t.right, Some(r), mid, |b|)
    ensures a <= c && |c| == |b|
    ensures Placed(c, Some(r), t, x.parent, r, |c|)
  {
    PlacedUpdate(b, r, x, x.left, t.left, Some(r), r + 1, mid);
    PlacedUpdate(b, r, x, x.right, t.right, Some(r), mid, |b|);
    PrefixKept(a, b, r, x);
    LinkPlaced(b[r := x], r, mid, t, x.parent);
    b[r := x]
  }

  /** Overwriting a cell past the end of a prefix keeps the prefix. */
  lemma PrefixKept<T>(a: seq<T>, b: seq<T>, i: nat, x: T)
    requires a <= b && |a| <= i < |b|
    ensures a <= b[i := x]
  {
    assert b[i := x][..|a|] == b[..|a|];
  }

  /** Re-pointing the top node's parent link keeps the subtree and its extremes. */
  lemma Reparent<K>(a: seq<Node<K>>, i: nat, t: Shape<K>, p: Ref, p': Ref)
    requires Represents(a, Some(i), t, p)
    ensures Represents(a[i := a[i].(parent := p')], Some(i), t, p')
    ensures Cells(a[i := a[i].(parent := p')], Some(i), t) == Cells(a, Some(i), t)
    ensures MinIndex(a[i := a[i].(parent := p')], i, t, p') == MinIndex(a, i, t, p)
    ensures MaxIndex(a[i := a[i].(parent := p')], i, t, p') == MaxIndex(a, i, t, p)
  {
    var b := a[i := a[i].(parent := p')];
    CellsBounded(a, a[i].left, t.left);
    CellsBounded(a, a[i].right, t.right);
    FrameRepresents(a, b, a[i].left, t.left, Some(i));
    FrameRepresents(a, b, a[i].right, t.right, Some(i));
    Link(b, i, t, p');
    RefMatchesShape(a, a[i].left, t.left, Some(i));
    RefMatchesShape(a, a[i].right, t.right, Some(i));
  }

  /** What copytree builds as written (s21_tree.h:156-170): the right slot is
      filled with a second copy of the LEFT subtree, and a node with a right
      child but no left child makes it copy a null pointer (None: the call
      dereferences nullptr). */
  function CopiedAsWritten<K>(t: Shape<K>): (r: Option<Shape<K>>)
    requires t.Branch?
    ensures t.left.Leaf? && t.right.Branch? ==> r.None?
    ensures r.Some? ==> r.value.Branch? && r.value.key == t.key && r.value.color == t.color
    ensures r.Some? ==> (r.value.left.Leaf? <==> t.left.Leaf?) && (r.value.right.Leaf? <==> t.right.Leaf?)
    ensures r.Some? && t.right.Branch? ==> r.value.right == r.value.left
  {
    var left := if t.left.Leaf? then Some(Leaf) else CopiedAsWritten(t.left);
    var right := if t.right.Leaf? then Some(Leaf)
                 else if t.left.Leaf? then None
                 else CopiedAsWritten(t.left);
    if left.None? || right.None? then None
    else Some(Branch(t.key, t.color, left.value, right.value))
  }

  /** Every right subtree is empty or identical to its sibling on the left. */
  ghost predicate RightMirrorsLeft<K>(t: Shape<K>)
  {
    match t
    case Leaf => true
    case Branch(_, _, l, r) => RightMirrorsLeft(l) && (r.Leaf? || (l.Branch? && r == l))
  }

  /** The as-written copy reproduces a tree exactly when every right subtree
      is empty or equal to its left sibling: on any other tree the copy is
      wrong or dereferences nullptr. */
  lemma {:induction false} CopiedAsWrittenFaithfulIff<K>(t: Shape<K>)
    requires t.Branch?
    ensures CopiedAsWritten(t) == Some(t) <==> RightMirrorsLeft(t)
    decreases t
  {
    if t.left.Branch? {
      CopiedAsWrittenFaithfulIff(t.left);
    }
  }

  /** Two concrete trees on which the as-written copy goes wrong. */
  lemma CopiedAsWrittenCounterexamples()
    ensures CopiedAsWritten(Branch(2, Black, Leaf, Branch(3, Red, Leaf, Leaf))) == None
    ensures CopiedAsWritten(Branch(2, Black, Branch(1, Red, Leaf, Leaf), Branch(3, Red, Leaf, Leaf)))
         == Some(Branch(2, Black, Branch(1, Red, Leaf, Leaf), Branch(1, Red, Leaf, Leaf)))
  {
  }

  /** The arena around a head node: the head's parent slot holds the root of
      `shape`, the head is not one of the tree's cells, and the head's left
      and right slots hold the leftmost and rightmost nodes. An empty tree's
      head has null links (freshly made) or links to itself (cleared). */
  ghost predicate Wellformed<K>(nodes: seq<Node<K>>, head: nat, shape: Shape<K>)
  {
    && head < |nodes|
    && Represents(nodes, nodes[head].parent, shape, Some(head))
    && head !in Cells(nodes, nodes[head].parent, shape)
    && (match shape
        case Leaf =>
          nodes[head].left == nodes[head].right &&
          (nodes[head].left == None || nodes[head].left == Some(head))
        case Branch(_, _, _, _) =>
          nodes[head].left == Some(MinIndex(nodes, nodes[head].parent.value, shape, Some(head))) &&
          nodes[head].right == Some(MaxIndex(nodes, nodes[head].parent.value, shape, Some(head))))
  }

  /** Hanging a subtree placed above the head under it: the head's parent
      slot points at the subtree's top node and that node's parent at the head. */
  lemma Adopt<K>(a: seq<Node<K>>, h: nat, c: nat, t: Shape<K>, len: nat)
    requires h < c && h < |a| && Placed(a, Some(c), t, None, c, len)
    ensures var b := a[h := a[h].(parent := Some(c))][c := a[c].(parent := Some(h))];
      && Placed(b, Some(c), t, Some(h), c, len)
      && b[h].parent == Some(c)
  {
    var a1 := a[h := a[h].(parent := Some(c))];
    PlacedUpdate(a, h, a[h].(parent := Some(c)), Some(c), t, None, c, len);
    Reparent(a1, c, t, None, Some(h));
  }

  /** Caching the extremes of the tree below the head, leftmost first, makes
      the arena well formed. */
  lemma CacheExtremes<K>(a: seq<Node<K>>, h: nat, c: nat, t: Shape<K>, len: nat)
    requires h < c && h < |a| && Placed(a, Some(c), t, Some(h), c, len) && a[h].parent == Some(c)
    ensures var a1 := a[h := a[h].(left := Some(MinIndex(a, c, t, Some(h))))];
      Placed(a1, Some(c), t, Some(h), c, len) &&
      MaxIndex(a1, c, t, Some(h)) == MaxIndex(a, c, t, Some(h)) &&
      Wellformed(a1[h := a1[h].(right := Some(MaxIndex(a1, c, t, Some(h))))], h, t)
  {
    var a1 := a[h := a[h].(left := Some(MinIndex(a, c, t, Some(h))))];
    PlacedUpdate(a, h, a1[h], Some(c), t, Some(h), c, len);
    var a2 := a1[h := a1[h].(right := Some(MaxIndex(a1, c, t, Some(h))))];
    PlacedUpdate(a1, h, a2[h], Some(c), t, Some(h), c, len);
  }

  /** RBTree<key, Comparator>. `nodes` is the set of heap cells the tree owns;
      `head` is head_, `size` is size_, `cmprt` the comparator object. */
  class RBTree<K(0), C(0)> {
    var nodes: seq<Node<K>>
    var head: nat
    var cmprt: C
    var size: nat
    ghost var shape: Shape<K>

    ghost predicate Valid()
      reads this
    {
      Wellformed(nodes, head, shape) && size == Count(shape)
    }

    /** Root(): the head's parent slot. */
    function Root(): (r: Ref)
      reads this
      requires Valid()
      ensures r == None <==> shape == Leaf
      ensures r.Some? ==> r.value < |nodes| && nodes[r.value].parent == Some(head)
    {
      RefMatchesShape(nodes, nodes[head].parent, shape, Some(head));
      nodes[head].parent
    }

    /** MostLeft(): the head's left slot, the node holding the first key. */
    function MostLeft(): (r: Ref)
      reads this
      requires Valid()
      ensures shape.Branch? ==> r.Some? && r.value < |nodes| && nodes[r.value].key == InOrder(shape)[0]
      ensures shape.Leaf? ==> r == None || r == Some(head)
    {
      nodes[head].left
    }

    /** MostRight(): the head's right slot, the node holding the last key. */
    function MostRight(): (r: Ref)
      reads this
      requires Valid()
      ensures shape.Branch? ==> r.Some? && r.value < |nodes| && nodes[r.value].key == InOrder(shape)[|InOrder(shape)| - 1]
      ensures shape.Leaf? ==> r == None || r == Some(head)
    {
      nodes[head].right
    }

    /** RBTree(): a freshly allocated head node with null links, and size 0. */
    constructor ()
      ensures Valid() && size == 0 && shape == Leaf && IsEmpty()
      ensures Root() == None && MostLeft() == None && MostRight() == None
    {
      var blank: K := *;
      var c: C := *;
      nodes := [Node(blank, Red, None, None, None)];
      head := 0;
      cmprt := c;
      size := 0;
      shape := Leaf;
    }

    /** RBTree(const RBTree &): start empty, then copy when `other` is not empty. */
    constructor Copy(other: RBTree<K, C>)
      requires other.Valid()
      ensures Valid() && shape == other.shape && size == other.size
      ensures other.size > 0 ==> cmprt == other.cmprt
    {
      var blank: K := *;
      var c: C := *;
      nodes := [Node(blank, Red, None, None, None)];
      head := 0;
      cmprt := c;
      size := 0;
      shape := Leaf;
      new;
      if other.size > 0 {
        CopyFromOther(other);
      }
    }

    /** RBTree(RBTree &&): start empty, then swap with `other`. */
    constructor Move(other: RBTree<K, C>)
      requires other.Valid()
      modifies other
      ensures Valid() && other.Valid()
      ensures nodes == old(other.nodes) && head == old(other.head) && shape == old(other.shape)
      ensures size == old(other.size) && cmprt == old(other.cmprt)
      ensures other.size == 0 && other.shape == Leaf && other.Root() == None
    {
      var blank: K := *;
      var c: C := *;
      nodes := [Node(blank, Red, None, None, None)];
      head := 0;
      cmprt := c;
      size := 0;
      shape := Leaf;
      new;
      Swap(other);
    }

    /** operator=(const RBTree &): copy a non-empty tree, clear for an empty one,
        do nothing on self-assignment. */
    method CopyAssign(other: RBTree<K, C>)
      requires Valid() && other.Valid()
      modifies this`nodes, this`size, this`shape, this`cmprt
      ensures Valid() && head == old(head)
      ensures shape == old(other.shape) && size == old(other.size)
      ensures other != this && old(other.size) > 0 ==> cmprt == old(other.cmprt)
      ensures other != this && old(other.size) == 0 ==> cmprt == old(cmprt) && MostLeft() == Some(head)
    {
      if this != other {
        if other.size > 0 {
          CopyFromOther(other);
        } else {
          Clear();
        }
      }
    }

    /** operator=(RBTree &&): clear, then swap. `other` is left with this
        tree's cleared head; a self-move therefore empties the tree. */
    method MoveAssign(other: RBTree<K, C>)
      requires Valid() && other.Valid()
      modifies this, other
      ensures Valid() && other.Valid()
      ensures other != this ==> nodes == old(other.nodes) && head == old(other.head) && shape == old(other.shape)
      ensures other != this ==> size == old(other.size) && cmprt == old(other.cmprt)
      ensures other != this ==> other.shape == Leaf && other.size == 0 && other.Root() == None
      ensures other != this ==> other.MostLeft() == Some(other.head) && other.MostRight() == Some(other.head)
      ensures other == this ==> shape == Leaf && size == 0
    {
      Clear();
      Swap(other);
    }

    /** _size_(): the number of nodes reachable from the root. */
    function Size(): (n: nat)
      reads this
      requires Valid()
      ensures n == |InOrder(shape)|
    {
      size
    }

    /** isEmpty(): size_ is zero, which is exactly when the root slot is null. */
    function IsEmpty(): (b: bool)
      reads this
      requires Valid()
      ensures b <==> shape == Leaf
      ensures b <==> nodes[head].parent == None
    {
      size == 0
    }

    /** swap: exchange head_, size_ and cmprt (and with head_, the cells it owns). */
    method Swap(other: RBTree<K, C>)
      requires Valid() && other.Valid()
      modifies this, other
      ensures Valid() && other.Valid()
      ensures nodes == old(other.nodes) && head == old(other.head) && shape == old(other.shape)
      ensures size == old(other.size) && cmprt == old(other.cmprt)
      ensures other.nodes == old(nodes) && other.head == old(head) && other.shape == old(shape)
      ensures other.size == old(size) && other.cmprt == old(cmprt)
    {
      var n, h, s, c := nodes, head, size, cmprt;
      ghost var sh := shape;
      ghost var mine, theirs := Wellformed(n, h, sh), Wellformed(other.nodes, other.head, other.shape);
      assert mine && theirs;
      nodes, head, size, cmprt := other.nodes, other.head, other.size, other.cmprt;
      shape := other.shape;
      other.nodes, other.head, other.size, other.cmprt := n, h, s, c;
      other.shape := sh;
    }

    /** Swapping twice restores both trees. */
    method SwapTwice(other: RBTree<K, C>)
      requires Valid() && other.Valid()
      modifies this, other
      ensures nodes == old(nodes) && head == old(head) && shape == old(shape)
      ensures size == old(size) && cmprt == old(cmprt)
      ensures other.nodes == old(other.nodes) && other.head == old(other.head) && other.shape == old(other.shape)
      ensures other.size == old(other.size) && other.cmprt == old(other.cmprt)
    {
      Swap(other);
      Swap(other);
    }

    /** clear: destroy the nodes, reset the head, size 0. The destroyed cells
        stay in the arena, unreachable. */
    method Clear()
      requires head < |nodes|
      modifies this`nodes, this`size, this`shape
      ensures Valid() && size == 0 && shape == Leaf
      ensures Root() == None && MostLeft() == Some(head) && MostRight() == Some(head)
      ensures nodes == old(nodes)[head := old(nodes)[head].(parent := None, left := Some(head), right := Some(head))]
    {
      InitializerHead();
      size := 0;
      shape := Leaf;
    }

    /** initializerHead: Root() = nullptr, MostLeft() = MostRight() = head_. */
    method InitializerHead()
      requires head < |nodes|
      modifies this`nodes
      ensures nodes == old(nodes)[head := old(nodes)[head].(parent := None, left := Some(head), right := Some(head))]
    {
      nodes := nodes[head := nodes[head].(parent := None)];
      nodes := nodes[head := nodes[head].(left := Some(head))];
      nodes := nodes[head := nodes[head].(right := Some(head))];
    }

    /** MinimumSearch: descend left links until a node has no left child. */
    static method MinimumSearch(nodes: seq<Node<K>>, n: nat, ghost t: Shape<K>, ghost p: Ref) returns (m: nat)
      requires Represents(nodes, Some(n), t, p)
      ensures m == MinIndex(nodes, n, t, p)
      ensures nodes[m].left == None && nodes[m].key == InOrder(t)[0]
    {
      m := n;
      ghost var s, q := t, p;
      while nodes[m].left != None
        invariant Represents(nodes, Some(m), s, q)
        invariant MinIndex(nodes, m, s, q) == MinIndex(nodes, n, t, p)
        decreases s
      {
        q := Some(m);
        m := nodes[m].left.value;
        s := s.left;
      }
    }

    /** MaximumSearch: descend right links until a node has no right child. */
    static method MaximumSearch(nodes: seq<Node<K>>, n: nat, ghost t: Shape<K>, ghost p: Ref) returns (m: nat)
      requires Represents(nodes, Some(n), t, p)
      ensures m == MaxIndex(nodes, n, t, p)
      ensures nodes[m].right == None && nodes[m].key == InOrder(t)[|InOrder(t)| - 1]
    {
      m := n;
      ghost var s, q := t, p;
      while nodes[m].right != None
        invariant Represents(nodes, Some(m), s, q)
        invariant MaxIndex(nodes, m, s, q) == MaxIndex(nodes, n, t, p)
        decreases s
      {
        q := Some(m);
        m := nodes[m].right.value;
        s := s.right;
      }
    }

    /** copytree as written, on the arena `a`: copies `src[n]`'s key and
        colour into a fresh cell, copies the left subtree for the left slot
        and, when there is a right child, copies the left subtree again for
        the right slot; the copy's parent is `p`. The new cell's links are
        stored once both children exist (nothing reads them before).
        None: the call reached copytree(nullptr). */
    static method CopyTreeAsWritten(a: seq<Node<K>>, src: seq<Node<K>>, n: nat, ghost t: Shape<K>, ghost q: Ref, p: Ref)
      returns (b: seq<Node<K>>, r: Option<nat>)
      requires Represents(src, Some(n), t, q)
      ensures a <= b
      ensures r.None? <==> CopiedAsWritten(t).None?
      ensures r.Some? ==> r.value == |a| && Placed(b, r, CopiedAsWritten(t).value, p, r.value, |b|)
      decreases t
    {
      var node := src[n];
      RefMatchesShape(src, node.left, t.left, Some(n));
      RefMatchesShape(src, node.right, t.right, Some(n));
      var tmp := |a|;
      b := a + [Node(node.key, node.color, None, None, None)];
      var left: Ref := None;
      ghost var lt: Shape<K> := Leaf;
      if node.left.Some? {
        b, left := CopyTreeAsWritten(b, src, node.left.value, t.left, Some(n), Some(tmp));
        if left.None? {
          return b, None;
        }
        lt := CopiedAsWritten(t.left).value;
      }
      ghost var mid := |b|;
      var right: Ref := None;
      ghost var rt: Shape<K> := Leaf;
      if node.right.Some? {
        if node.left.None? {
          // copytree(node->_left_, tmp) with node->_left_ == nullptr
          return b, None;
        }
        ghost var before := b;
        b, right := CopyTreeAsWritten(b, src, node.left.value, t.left, Some(n), Some(tmp));
        rt := CopiedAsWritten(t.left).value;
        PlacedAppend(before, b, left, lt, Some(tmp), tmp + 1, mid);
      }
      ghost var ct := Branch(t.key, t.color, lt, rt);
      assert CopiedAsWritten(t) == Some(ct);
      r := Some(tmp);
      b := Attach(a, b, tmp, mid, Node(node.key, node.color, p, left, right), ct);
    }

    /** copytree with the right slot copied from the right subtree, on the
        arena `a`: the copy has exactly the shape of the source subtree,
        occupies only cells appended to the arena, and its top node's parent
        is `p`. */
    static method CopyInto(a: seq<Node<K>>, src: seq<Node<K>>, n: nat, ghost t: Shape<K>, ghost q: Ref, p: Ref)
      returns (b: seq<Node<K>>, r: nat)
      requires Represents(src, Some(n), t, q)
      ensures a <= b && r == |a|
      ensures Placed(b, Some(r), t, p, r, |b|)
      decreases t
    {
      var node := src[n];
      RefMatchesShape(src, node.left, t.left, Some(n));
      RefMatchesShape(src, node.right, t.right, Some(n));
      r := |a|;
      b := a + [Node(node.key, node.color, None, None, None)];
      var left: Ref := None;
      if node.left.Some? {
        var l;
        b, l := CopyInto(b, src, node.left.value, t.left, Some(n), Some(r));
        left := Some(l);
      }
      ghost var mid := |b|;
      var right: Ref := None;
      if node.right.Some? {
        ghost var before := b;
        var rt;
        b, rt := CopyInto(b, src, node.right.value, t.right, Some(n), Some(r));
        right := Some(rt);
        PlacedAppend(before, b, left, t.left, Some(r), r + 1, mid);
      }
      b := Attach(a, b, r, mid, Node(node.key, node.color, p, left, right), t);
    }

    /** copyFromOther: copy `other`'s nodes, clear this tree, hang the copy
        under the head, cache its extremes, and take `other`'s size and
        comparator. The caller guarantees `other` is not empty. */
    method CopyFromOther(other: RBTree<K, C>)
      requires head < |nodes| && other.Valid() && other != this
      requires other.size > 0
      modifies this`nodes, this`size, this`shape, this`cmprt
      ensures Valid() && head == old(head)
      ensures shape == other.shape && size == other.size && cmprt == other.cmprt
    {
      ghost var t := other.shape;
      RefMatchesShape(other.nodes, other.nodes[other.head].parent, t, Some(other.head));
      var copied, copyRoot := CopyInto(nodes, other.nodes, other.nodes[other.head].parent.value, t, Some(other.head), None);
      nodes := copied;
      Clear();
      var a := nodes;
      PlacedUpdate(copied, head, a[head], Some(copyRoot), t, None, copyRoot, |a|);
      a := HangUnderHead(a, head, copyRoot, t);
      nodes, size, cmprt := a, other.size, other.cmprt;
      shape := t;
    }

    /** The tail of copyFromOther: the copied root and head_ become each
        other's parent, and head_ caches the leftmost and rightmost nodes
        found by MinimumSearch and MaximumSearch. */
    static method HangUnderHead(a: seq<Node<K>>, head: nat, root: nat, ghost t: Shape<K>) returns (b: seq<Node<K>>)
      requires head < root && head < |a| && Placed(a, Some(root), t, None, root, |a|)
      ensures Wellformed(b, head, t)
    {
      ghost var len := |a|;
      Adopt(a, head, root, t, len);
      b := a[head := a[head].(parent := Some(root))];
      b := b[root := b[root].(parent := Some(head))];
      CacheExtremes(b, head, root, t, len);
      var lo := MinimumSearch(b, root, t, Some(head));
      b := b[head := b[head].(left := Some(lo))];
      var hi := MaximumSearch(b, root, t, Some(head));
      b := b[head := b[head].(right := Some(hi))];
    }
  }
}
