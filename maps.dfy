/** map<Key, Type> over its tree, seen as an abstract store of (key, value)
    pairs with pairwise distinct keys. The tree's Find and UniqueInsert have
    no bodies in the repository; here Find locates the pair whose key is
    equivalent under MapCmprt (which, for a strict total order on keys, is
    the pair with an equal key) and UniqueInsert adds a pair only when no
    such pair exists. An iterator into the tree is the index of its pair. */
module Maps {
  import opened Wrappers

  /** MapCmprt: pairs are ordered by their keys alone. */
  function MapCmprt<K, V>(less: (K, K) -> bool, a: (K, V), b: (K, V)): (r: bool)
    ensures r <==> less(a.0, b.0)
  {
    less(a.0, b.0)
  }

  /** `less` is irreflexive and any two distinct keys are ordered one way or the other. */
  ghost predicate StrictTotal<K(!new)>(less: (K, K) -> bool)
  {
    && (forall x :: !less(x, x))
    && (forall x, y :: x != y ==> less(x, y) || less(y, x))
  }

  /** Two pairs are equivalent under MapCmprt (neither precedes the other)
      exactly when their keys are equal; the mapped values play no part. */
  lemma EquivalentIffSameKey<K(!new), V>(less: (K, K) -> bool, a: (K, V), b: (K, V))
    requires StrictTotal(less)
    ensures !MapCmprt(less, a, b) && !MapCmprt(less, b, a) <==> a.0 == b.0
  {
    if a.0 == b.0 {
      assert !less(a.0, a.0);
    }
  }

  /** No two pairs share a key. */
  ghost predicate UniqueKeys<K, V>(items: seq<(K, V)>)
  {
    forall i, j :: 0 <= i < j < |items| ==> items[i].0 != items[j].0
  }

  /** The value of the first pair with key `k`. */
  function Lookup<K(==), V>(items: seq<(K, V)>, k: K): Option<V>
  {
    if items == [] then None
    else if items[0].0 == k then Some(items[0].1)
    else Lookup(items[1..], k)
  }

  /** Find: the position of the first pair with key `k`, None for end(). */
  function Find<K(==), V>(items: seq<(K, V)>, k: K): (r: Option<nat>)
    ensures r.None? <==> Lookup(items, k).None?
    ensures r.None? ==> forall i :: 0 <= i < |items| ==> items[i].0 != k
    ensures r.Some? ==> r.value < |items| && items[r.value].0 == k && Lookup(items, k) == Some(items[r.value].1)
    ensures r.Some? ==> forall i :: 0 <= i < r.value ==> items[i].0 != k
  {
    if items == [] then None
    else if items[0].0 == k then Some(0)
    else
      var r := Find(items[1..], k);
      if r.None? then None else Some(r.value + 1)
  }

  /** UniqueInsert: add `p` unless a pair with its key is already there. */
  function UniqueInsert<K(==), V>(items: seq<(K, V)>, p: (K, V)): (r: seq<(K, V)>)
    ensures items <= r && |r| <= |items| + 1
    ensures |r| == |items| + 1 <==> Lookup(items, p.0).None?
    ensures exists i :: 0 <= i < |r| && r[i].0 == p.0
  {
    var i := Find(items, p.0);
    if i.None? then
      assert (items + [p])[|items|] == p;
      items + [p]
    else
      assert items[i.value].0 == p.0;
      items
  }

  /** insert_or_assign on the store: overwrite the value of the pair with key
      `k`, or add (k, v) when there is none. */
  function Assign<K(==), V>(items: seq<(K, V)>, k: K, v: V): (r: seq<(K, V)>)
    ensures |r| == if Lookup(items, k).None? then |items| + 1 else |items|
    ensures forall i :: 0 <= i < |items| && items[i].0 != k ==> r[i] == items[i]
    ensures exists i :: 0 <= i < |r| && r[i] == (k, v)
  {
    var i := Find(items, k);
    if i.None? then
      assert (items + [(k, v)])[|items|] == (k, v);
      items + [(k, v)]
    else
      assert items[i.value := (k, v)][i.value] == (k, v);
      items[i.value := (k, v)]
  }

  /** The store the initializer-list constructor builds: the items inserted in order. */
  function Build<K(==), V>(list: seq<(K, V)>): (r: seq<(K, V)>)
    ensures |r| <= |list|
    ensures forall i :: 0 <= i < |r| ==> r[i] in list
  {
    if list == [] then [] else UniqueInsert(Build(list[..|list| - 1]), list[|list| - 1])
  }

  /** Appending a pair only matters to a lookup that found nothing before. */
  lemma {:induction false} LookupAppend<K, V>(items: seq<(K, V)>, p: (K, V), k: K)
    ensures Lookup(items + [p], k) ==
      if Lookup(items, k).Some? then Lookup(items, k) else if p.0 == k then Some(p.1) else None
  {
    if items != [] {
      assert (items + [p])[1..] == items[1..] + [p];
      LookupAppend(items[1..], p, k);
    }
  }

  /** After a unique insert, the inserted key maps to the new value exactly
      when it was absent; every other key keeps its value. */
  lemma LookupUniqueInsert<K, V>(items: seq<(K, V)>, p: (K, V), k: K)
    ensures Lookup(UniqueInsert(items, p), k) ==
      if k == p.0 && Lookup(items, k).None? then Some(p.1) else Lookup(items, k)
  {
    if Find(items, p.0).None? {
      LookupAppend(items, p, k);
    }
  }

  /** A unique insert keeps keys distinct and grows the store by one exactly
      when the key was absent. */
  lemma UniqueInsertKeepsUnique<K, V>(items: seq<(K, V)>, p: (K, V))
    requires UniqueKeys(items)
    ensures UniqueKeys(UniqueInsert(items, p))
    ensures |UniqueInsert(items, p)| == if Lookup(items, p.0).None? then |items| + 1 else |items|
  {
  }

  /** Overwriting the value at the first pair with a key changes only that key. */
  lemma {:induction false} LookupUpdate<K, V>(items: seq<(K, V)>, i: nat, k: K, v: V, k': K)
    requires i < |items| && items[i].0 == k
    requires forall j :: 0 <= j < i ==> items[j].0 != k
    ensures Lookup(items[i := (k, v)], k') == if k' == k then Some(v) else Lookup(items, k')
  {
    if i > 0 {
      assert items[i := (k, v)][1..] == items[1..][i - 1 := (k, v)];
      LookupUpdate(items[1..], i - 1, k, v, k');
    }
  }

  /** After insert_or_assign, `k` maps to `v` and every other key is unchanged. */
  lemma LookupAssign<K, V>(items: seq<(K, V)>, k: K, v: V, k': K)
    ensures Lookup(Assign(items, k, v), k') == if k' == k then Some(v) else Lookup(items, k')
  {
    var i := Find(items, k);
    if i.None? {
      LookupAppend(items, (k, v), k');
    } else {
      LookupUpdate(items, i.value, k, v, k');
    }
  }

  /** insert_or_assign keeps keys distinct and grows the store only for a new key. */
  lemma AssignKeepsUnique<K, V>(items: seq<(K, V)>, k: K, v: V)
    requires UniqueKeys(items)
    ensures UniqueKeys(Assign(items, k, v))
    ensures |Assign(items, k, v)| == if Lookup(items, k).None? then |items| + 1 else |items|
  {
  }

  /** Inserting a list in order keeps, for every key, the value of its first
      occurrence in the list. */
  lemma {:induction false} LookupBuild<K, V>(list: seq<(K, V)>, k: K)
    ensures Lookup(Build(list), k) == Lookup(list, k)
    decreases |list|
  {
    if list != [] {
      var init, last := list[..|list| - 1], list[|list| - 1];
      LookupBuild(init, k);
      LookupUniqueInsert(Build(init), last, k);
      assert list == init + [last];
      LookupAppend(init, last, k);
    }
  }

  /** The store the initializer-list constructor builds has distinct keys. */
  lemma {:induction false} BuildUnique<K, V>(list: seq<(K, V)>)
    ensures UniqueKeys(Build(list))
    decreases |list|
  {
    if list != [] {
      BuildUnique(list[..|list| - 1]);
      UniqueInsertKeepsUnique(Build(list[..|list| - 1]), list[|list| - 1]);
    }
  }

  /** map<Key, Type>. `items` stands for the pairs the owned tree holds and
      `zero` for the value-initialised mapped_type{}. */
  class Map<K(==), V> {
    var items: seq<(K, V)>
    const zero: V

    ghost predicate Valid()
      reads this
    {
      UniqueKeys(items)
    }

    /** map(): an empty tree. */
    constructor (zero: V)
      ensures Valid() && items == [] && this.zero == zero
    {
      items := [];
      this.zero := zero;
    }

    /** map(initializer_list): insert the items one by one, in order. */
    constructor FromList(list: seq<(K, V)>, zero: V)
      ensures Valid() && items == Build(list) && this.zero == zero
      ensures forall k :: Lookup(items, k) == Lookup(list, k)
    {
      items := [];
      this.zero := zero;
      new;
      for i := 0 to |list|
        invariant Valid() && items == Build(list[..i])
      {
        assert list[..i + 1][..i] == list[..i];
        var _, _ := Insert(list[i]);
      }
      assert list[..|list|] == list;
      forall k ensures Lookup(items, k) == Lookup(list, k) {
        LookupBuild(list, k);
      }
    }

    /** map(const map &): a copy of the other map's tree. */
    constructor Copy(other: Map<K, V>)
      requires other.Valid()
      ensures Valid() && items == other.items && zero == other.zero
    {
      items := other.items;
      zero := other.zero;
    }

    /** map(map &&): a tree move-constructed from the other map's tree, which
        is left empty. */
    constructor Move(other: Map<K, V>)
      requires other.Valid()
      modifies other
      ensures Valid() && other.Valid()
      ensures items == old(other.items) && zero == other.zero && other.items == []
    {
      items := other.items;
      zero := other.zero;
      new;
      other.items := [];
    }

    /** operator=(const map &): the tree's copy assignment; assigning a map to
        itself changes nothing. */
    method CopyAssign(other: Map<K, V>)
      requires Valid() && other.Valid()
      modifies this
      ensures Valid() && items == old(other.items)
    {
      items := other.items;
    }

    /** at(key): the value paired with `key`, or out_of_range. */
    function At(key: K): (r: Result<V>)
      reads this
      requires Valid()
      ensures r.Ok? <==> Contains(key)
      ensures r.Ok? ==> Lookup(items, key) == Some(r.value)
      ensures r.Err? ==> r.error == OutOfRange
      ensures r.Ok? ==> exists i :: 0 <= i < |items| && items[i] == (key, r.value)
    {
      var i := Find(items, key);
      if i.None? then Err(OutOfRange) else Ok(items[i.value].1)
    }

    /** operator[](key): the value paired with `key`, inserting (key, mapped_type{})
        first when there is none. */
    method Index(key: K) returns (v: V)
      requires Valid()
      modifies this
      ensures Valid()
      ensures items == UniqueInsert(old(items), (key, zero))
      ensures old(Lookup(items, key)).None? ==> v == zero && |items| == old(|items|) + 1
      ensures old(Lookup(items, key)).Some? ==> Some(v) == old(Lookup(items, key)) && items == old(items)
      ensures Lookup(items, key) == Some(v)
    {
      var i := Find(items, key);
      UniqueInsertKeepsUnique(items, (key, zero));
      LookupUniqueInsert(items, (key, zero), key);
      if i.None? {
        items := items + [(key, zero)];
        v := items[|items| - 1].1;
      } else {
        v := items[i.value].1;
      }
    }

    /** size(): the number of pairs. */
    function Size(): (n: nat)
      reads this
      ensures n == |items|
    {
      |items|
    }

    /** empty(): the tree holds no pair, so no key is contained. */
    function Empty(): (b: bool)
      reads this
      requires Valid()
      ensures b <==> Size() == 0
      ensures !b ==> Contains(items[0].0)
    {
      |items| == 0
    }

    /** clear(): remove every pair. */
    method Clear()
      modifies this
      ensures Valid() && items == []
    {
      items := [];
    }

    /** swap(other): exchange the two trees. */
    method Swap(other: Map<K, V>)
      requires Valid() && other.Valid()
      modifies this, other
      ensures Valid() && other.Valid()
      ensures other != this ==> items == old(other.items) && other.items == old(items)
      ensures other == this ==> items == old(items)
    {
      var mine := items;
      items := other.items;
      other.items := mine;
    }

    /** contains(key): Find does not return end(). */
    function Contains(key: K): (b: bool)
      reads this
      ensures b <==> exists i :: 0 <= i < |items| && items[i].0 == key
      ensures b <==> Lookup(items, key).Some?
    {
      Find(items, key).Some?
    }

    /** insert(value): UniqueInsert. `pos` designates the pair with the key;
        `inserted` tells whether the pair was added. */
    method Insert(value: (K, V)) returns (pos: nat, inserted: bool)
      requires Valid()
      modifies this
      ensures Valid()
      ensures items == UniqueInsert(old(items), value)
      ensures inserted <==> old(Lookup(items, value.0)).None?
      ensures pos < |items| && items[pos].0 == value.0
      ensures inserted ==> items[pos] == value && |items| == old(|items|) + 1
      ensures !inserted ==> items == old(items)
    {
      var i := Find(items, value.0);
      UniqueInsertKeepsUnique(items, value);
      if i.None? {
        items := items + [value];
        pos, inserted := |items| - 1, true;
      } else {
        pos, inserted := i.value, false;
      }
    }

    /** insert(key, obj): UniqueInsert of the pair (key, obj). */
    method InsertKeyValue(key: K, obj: V) returns (pos: nat, inserted: bool)
      requires Valid()
      modifies this
      ensures Valid()
      ensures items == UniqueInsert(old(items), (key, obj))
      ensures inserted <==> old(Lookup(items, key)).None?
      ensures pos < |items| && items[pos].0 == key
      ensures inserted ==> items[pos] == (key, obj)
    {
      pos, inserted := Insert((key, obj));
    }

    /** insert_or_assign(key, obj): insert when the key is absent, otherwise
        overwrite that pair's value and report `false`. */
    method InsertOrAssign(key: K, obj: V) returns (pos: nat, inserted: bool)
      requires Valid()
      modifies this
      ensures Valid()
      ensures items == Assign(old(items), key, obj)
      ensures inserted <==> old(Lookup(items, key)).None?
      ensures pos < |items| && items[pos] == (key, obj)
      ensures |items| == if inserted then old(|items|) + 1 else old(|items|)
      ensures forall k :: Lookup(items, k) == if k == key then Some(obj) else Lookup(old(items), k)
    {
      var res := Find(items, key);
      ghost var before := items;
      AssignKeepsUnique(before, key, obj);
      if res.None? {
        pos, inserted := Insert((key, obj));
      } else {
        items := items[res.value := (key, obj)];
        pos, inserted := res.value, false;
      }
      assert items == Assign(before, key, obj);
      forall k ensures Lookup(items, k) == if k == key then Some(obj) else Lookup(before, k) {
        LookupAssign(before, key, obj, k);
      }
    }
  }
}
