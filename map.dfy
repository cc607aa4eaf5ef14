/** The two maps of LearnDataStructures/Map/Map.swift. `LinkedListMap` keeps
    key-value nodes in a singly linked chain searched front to back, adding new
    keys at the front; `BinarySearchTreeMap` keeps them in a binary search tree
    ordered by key. Both keep an element counter `size` that `removeAll()`
    leaves as it was. */
module Maps {
  import opened Wrappers
  import opened Sequences

  // LinkedListMap

  /** A node of the chain, as a value. */
  datatype Entry<K, V> = Entry(key: K, value: V)

  ghost predicate DistinctKeys<K, V>(es: seq<Entry<K, V>>) {
    forall i, j :: 0 <= i < j < |es| ==> es[i].key != es[j].key
  }

  /** The mapping a chain represents: the first entry with a key gives its
      value, as the front-to-back search finds it. */
  ghost function EntriesMap<K, V>(es: seq<Entry<K, V>>): map<K, V> {
    if es == [] then map[] else EntriesMap(es[1..])[es[0].key := es[0].value]
  }

  /** `node(_:)`: the position of the first entry with the key, if any. */
  function Find<K(==), V>(es: seq<Entry<K, V>>, key: K): (r: Option<nat>)
    ensures r.Some? ==> r.value < |es| && es[r.value].key == key
    ensures r.Some? ==> forall j :: 0 <= j < r.value ==> es[j].key != key
    ensures r.None? ==> forall j :: 0 <= j < |es| ==> es[j].key != key
  {
    if es == [] then None
    else if es[0].key == key then Some(0)
    else
      match Find(es[1..], key)
      case None => None
      case Some(i) => Some(i + 1)
  }

  /** A key no entry carries is not mapped. */
  lemma {:induction false} EntriesMapAbsent<K, V>(es: seq<Entry<K, V>>, key: K)
    requires forall j :: 0 <= j < |es| ==> es[j].key != key
    ensures key !in EntriesMap(es)
  {
    if es != [] {
      EntriesMapAbsent(es[1..], key);
    }
  }

  /** The first entry with a key gives the mapped value. */
  lemma {:induction false} EntriesMapAt<K, V>(es: seq<Entry<K, V>>, i: nat)
    requires i < |es| && forall j :: 0 <= j < i ==> es[j].key != es[i].key
    ensures es[i].key in EntriesMap(es) && EntriesMap(es)[es[i].key] == es[i].value
  {
    if i > 0 {
      EntriesMapAt(es[1..], i - 1);
    }
  }

  /** `find` and the mapping agree: the key is mapped exactly when an entry
      carries it, to the value of the entry found. */
  lemma FindIsLookup<K, V>(es: seq<Entry<K, V>>, key: K)
    ensures Find(es, key).None? <==> key !in EntriesMap(es)
    ensures Find(es, key).Some? ==> EntriesMap(es)[key] == es[Find(es, key).value].value
  {
    match Find(es, key)
    case None => EntriesMapAbsent(es, key);
    case Some(i) => EntriesMapAt(es, i);
  }

  /** Overwriting the value of an entry overwrites the mapping at its key. */
  lemma {:induction false} EntriesMapUpdate<K, V>(es: seq<Entry<K, V>>, i: nat, v: V)
    requires DistinctKeys(es) && i < |es|
    ensures EntriesMap(es[i := Entry(es[i].key, v)]) == EntriesMap(es)[es[i].key := v]
  {
    var es' := es[i := Entry(es[i].key, v)];
    if i == 0 {
      assert es'[1..] == es[1..];
    } else {
      assert es'[1..] == es[1..][i - 1 := Entry(es[i].key, v)];
      EntriesMapUpdate(es[1..], i - 1, v);
      assert es[0].key != es[i].key;
    }
  }

  /** Unlinking the entry of a key removes the key from the mapping. */
  lemma {:induction false} EntriesMapRemove<K, V>(es: seq<Entry<K, V>>, i: nat)
    requires DistinctKeys(es) && i < |es|
    ensures DistinctKeys(RemoveAt(es, i))
    ensures EntriesMap(RemoveAt(es, i)) == EntriesMap(es) - {es[i].key}
  {
    if i == 0 {
      assert RemoveAt(es, 0) == es[1..];
      EntriesMapAbsent(es[1..], es[0].key);
    } else {
      var r, rest := RemoveAt(es, i), RemoveAt(es[1..], i - 1);
      assert r[0] == es[0] && r[1..] == rest;
      EntriesMapRemove(es[1..], i - 1);
      assert es[0].key != es[i].key;
      UpdateCommutes(EntriesMap(es[1..]), es[0].key, es[0].value, es[i].key, es[0].value);
      assert EntriesMap(r) == EntriesMap(rest)[es[0].key := es[0].value];
      forall j | 0 < j < |r| ensures r[0].key != r[j].key {
        assert r[j] == es[j] || r[j] == es[j + 1];
      }
    }
  }

  /** A new key at the front extends the mapping. */
  lemma EntriesMapPrepend<K, V>(es: seq<Entry<K, V>>, key: K, v: V)
    requires DistinctKeys(es) && key !in EntriesMap(es)
    ensures DistinctKeys([Entry(key, v)] + es)
    ensures EntriesMap([Entry(key, v)] + es) == EntriesMap(es)[key := v]
  {
    var es' := [Entry(key, v)] + es;
    assert es'[1..] == es;
    forall j | 0 <= j < |es| ensures es[j].key != key {
      if es[j].key == key {
        EntriesMapAt(es, j);
      }
    }
  }

  /** Without repeated keys, the chain has one entry per mapped key. */
  lemma {:induction false} EntriesCount<K, V>(es: seq<Entry<K, V>>)
    requires DistinctKeys(es)
    ensures |EntriesMap(es)| == |es|
  {
    if es != [] {
      EntriesCount(es[1..]);
      EntriesMapAbsent(es[1..], es[0].key);
    }
  }

  class LinkedListMap<K(==), V> {
    /** The key-value nodes reachable from `head`, front to back. */
    var entries: seq<Entry<K, V>>
    var size: int

    /** No key is stored twice, and the counter is never below the number of
        nodes: it is exact until `removeAll()`, which clears the chain only. */
    ghost predicate Valid()
      reads this
    {
      DistinctKeys(entries) && |entries| <= size
    }

    ghost function Mapping(): map<K, V>
      reads this
    {
      EntriesMap(entries)
    }

    constructor ()
      ensures entries == [] && size == 0 && Valid()
    {
      entries := [];
      size := 0;
    }

    /** `node(_:)`: a walk from `head`. */
    method NodeIndex(key: K) returns (r: Option<nat>)
      ensures r == Find(entries, key)
    {
      var k := 0;
      while k < |entries|
        invariant k <= |entries|
        invariant forall j :: 0 <= j < k ==> entries[j].key != key
      {
        if entries[k].key == key {
          return Some(k);
        }
        k := k + 1;
      }
      return None;
    }

    /** `isEmpty` tests the counter. */
    function IsEmpty(): (b: bool)
      reads this
      requires Valid()
      ensures b ==> Mapping() == map[]
      ensures size == |entries| ==> (b <==> Mapping() == map[])
    {
      EntriesCount(entries);
      size == 0
    }

    /** `count` is the counter: at least the number of mapped keys. */
    function Count(): (n: int)
      reads this
      requires Valid()
      ensures n >= |Mapping()|
      ensures size == |entries| ==> n == |Mapping()|
    {
      EntriesCount(entries);
      size
    }

    method Contains(key: K) returns (b: bool)
      ensures b <==> key in Mapping()
    {
      var node := NodeIndex(key);
      FindIsLookup(entries, key);
      b := node.Some?;
    }

    /** The subscript's getter. */
    method Get(key: K) returns (r: Option<V>)
      ensures r == if key in Mapping() then Some(Mapping()[key]) else None
    {
      var node := NodeIndex(key);
      FindIsLookup(entries, key);
      if node.None? {
        return None;
      }
      return Some(entries[node.value].value);
    }

    /** The subscript's setter: a value overwrites the entry of its key, or
        becomes a new front entry and bumps the counter; nil removes the key. */
    method Set(key: K, newValue: Option<V>)
      requires Valid()
      modifies this
      ensures Valid()
      ensures Mapping() == if newValue.Some? then old(Mapping())[key := newValue.value] else old(Mapping()) - {key}
      ensures size == old(size) +
        (if newValue.Some? && key !in old(Mapping()) then 1
         else if newValue.None? && key in old(Mapping()) then -1
         else 0)
      ensures entries ==
        match (Find(old(entries), key), newValue)
        case (None, Some(v)) => [Entry(key, v)] + old(entries)
        case (None, None) => old(entries)
        case (Some(i), Some(v)) => old(entries)[i := Entry(key, v)]
        case (Some(i), None) => RemoveAt(old(entries), i)
    {
      var node := NodeIndex(key);
      FindIsLookup(entries, key);
      if node.None? {
        if newValue.Some? {
          EntriesMapPrepend(entries, key, newValue.value);
          entries := [Entry(key, newValue.value)] + entries;
          size := size + 1;
        }
        return;
      }
      if newValue.Some? {
        EntriesMapUpdate(entries, node.value, newValue.value);
        entries := entries[node.value := Entry(key, newValue.value)];
      } else {
        var _ := RemoveValue(key);
      }
    }

    /** `removeValue(forKey:)`: unlink the first node with the key, checking
        the head first and then each successor; the counter drops by one. */
    method RemoveValue(key: K) returns (r: Option<V>)
      requires Valid()
      modifies this
      ensures Valid()
      ensures r == if key in old(Mapping()) then Some(old(Mapping())[key]) else None
      ensures Mapping() == old(Mapping()) - {key}
      ensures entries == match Find(old(entries), key)
        case None => old(entries)
        case Some(i) => RemoveAt(old(entries), i)
      ensures size == old(size) - (if key in old(Mapping()) then 1 else 0)
    {
      FindIsLookup(entries, key);
      if entries == [] {
        return None;
      }
      if entries[0].key == key {
        r := Some(entries[0].value);
        EntriesMapRemove(entries, 0);
        entries := RemoveAt(entries, 0);
        size := size - 1;
        return;
      }
      var k := 1;
      while k < |entries|
        invariant 1 <= k <= |entries|
        invariant forall j :: 0 <= j < k ==> entries[j].key != key
      {
        if entries[k].key == key {
          r := Some(entries[k].value);
          EntriesMapRemove(entries, k);
          entries := RemoveAt(entries, k);
          size := size - 1;
          return;
        }
        k := k + 1;
      }
      return None;
    }

    /** `removeAll()`: drops the chain; the counter keeps its value. */
    method RemoveAll()
      requires Valid()
      modifies this
      ensures Valid()
      ensures entries == [] && size == old(size)
      ensures Mapping() == map[]
    {
      entries := [];
    }
  }

  // BinarySearchTreeMap

  /** A subtree of key-value nodes, as a value. */
  datatype MapTree<V> = Leaf | Branch(left: MapTree<V>, key: int, value: V, right: MapTree<V>)

  ghost function TreeKeys<V>(t: MapTree<V>): set<int> {
    match t
    case Leaf => {}
    case Branch(l, k, _, r) => TreeKeys(l) + {k} + TreeKeys(r)
  }

  /** Every node's key is above all keys on its left and below all keys on its
      right. */
  ghost predicate SearchOrdered<V>(t: MapTree<V>) {
    match t
    case Leaf => true
    case Branch(l, k, _, r) =>
      && SearchOrdered(l) && SearchOrdered(r)
      && (forall x :: x in TreeKeys(l) ==> x < k)
      && (forall x :: x in TreeKeys(r) ==> k < x)
  }

  /** The mapping a tree represents. */
  ghost function TreeMap<V>(t: MapTree<V>): (m: map<int, V>)
    ensures m.Keys == TreeKeys(t)
  {
    match t
    case Leaf => map[]
    case Branch(l, k, v, r) => (TreeMap(l) + TreeMap(r))[k := v]
  }

  function NodeCount<V>(t: MapTree<V>): nat {
    match t
    case Leaf => 0
    case Branch(l, _, _, r) => NodeCount(l) + 1 + NodeCount(r)
  }

  /** The keys on the two sides of a node and the node's own key are apart. */
  lemma SidesDisjoint<V>(l: MapTree<V>, k: int, r: MapTree<V>)
    requires forall x :: x in TreeKeys(l) ==> x < k
    requires forall x :: x in TreeKeys(r) ==> k < x
    ensures TreeKeys(l) !! TreeKeys(r) && k !in TreeKeys(l) + TreeKeys(r)
  {
    forall x | x in TreeKeys(l) ensures x !in TreeKeys(r) {
    }
  }

  lemma DisjointCardinality(a: set<int>, k: int, b: set<int>)
    requires a !! b && k !in a + b
    ensures |a + {k} + b| == |a| + 1 + |b|
  {
    assert a + {k} + b == (a + b) + {k};
  }

  /** In a search tree each key has one node. */
  lemma {:induction false} NodeCountIsKeyCount<V>(t: MapTree<V>)
    requires SearchOrdered(t)
    ensures NodeCount(t) == |TreeKeys(t)|
  {
    match t
    case Leaf =>
    case Branch(l, k, _, r) =>
      NodeCountIsKeyCount(l);
      NodeCountIsKeyCount(r);
      SidesDisjoint(l, k, r);
      DisjointCardinality(TreeKeys(l), k, TreeKeys(r));
  }

  /** `contains(_:in:)`. */
  function ContainsIn<V>(t: MapTree<V>, key: int): (b: bool)
    ensures SearchOrdered(t) ==> (b <==> key in TreeKeys(t))
  {
    match t
    case Leaf => false
    case Branch(l, k, _, r) =>
      if k == key then true
      else if k > key then ContainsIn(l, key)
      else ContainsIn(r, key)
  }

  /** `find(_:in:)`, read through the found node's `value`. */
  function FindIn<V>(t: MapTree<V>, key: int): (r: Option<V>)
    ensures SearchOrdered(t) ==> r == if key in TreeMap(t) then Some(TreeMap(t)[key]) else None
  {
    match t
    case Leaf => None
    case Branch(l, k, v, r) =>
      if k == key then Some(v)
      else if k > key then FindIn(l, key)
      else FindIn(r, key)
  }

  /** `minimum(_:)`: the leftmost node, the entry of the smallest key. */
  function MinimumEntry<V>(t: MapTree<V>): (e: (int, V))
    requires t.Branch?
    ensures e.0 in TreeKeys(t)
    ensures SearchOrdered(t) ==> (forall x :: x in TreeKeys(t) ==> e.0 <= x) && TreeMap(t)[e.0] == e.1
  {
    if t.left.Leaf? then (t.key, t.value) else MinimumEntry(t.left)
  }

  /** Facts about maps over disjoint key sets, used when a node's two
      subtrees are combined. */
  lemma UpdateUnion<V>(a: map<int, V>, b: map<int, V>, key: int, x: V)
    ensures key !in b ==> a[key := x] + b == (a + b)[key := x]
    ensures a + b[key := x] == (a + b)[key := x]
  {
  }

  lemma RemoveUnion<V>(a: map<int, V>, b: map<int, V>, key: int)
    ensures key !in b ==> (a - {key}) + b == (a + b) - {key}
    ensures key !in a ==> a + (b - {key}) == (a + b) - {key}
  {
  }

  lemma UpdateCommutes<K, V>(m: map<K, V>, k: K, x: V, key: K, y: V)
    requires k != key
    ensures m[key := y][k := x] == m[k := x][key := y]
    ensures m[k := x] - {key} == (m - {key})[k := x]
  {
  }

  /** Putting a new key into a subtree on the side its order demands. */
  lemma InsertLeft<V>(l: MapTree<V>, k: int, v: V, r: MapTree<V>, l': MapTree<V>, key: int, value: V)
    requires SearchOrdered(Branch(l, k, v, r)) && key < k
    requires SearchOrdered(l') && TreeMap(l') == TreeMap(l)[key := value]
    ensures SearchOrdered(Branch(l', k, v, r))
    ensures TreeMap(Branch(l', k, v, r)) == TreeMap(Branch(l, k, v, r))[key := value]
  {
    assert TreeKeys(l') == TreeKeys(l) + {key};
    assert key !in TreeKeys(r);
    UpdateUnion(TreeMap(l), TreeMap(r), key, value);
    UpdateCommutes(TreeMap(l) + TreeMap(r), k, v, key, value);
  }

  lemma InsertRight<V>(l: MapTree<V>, k: int, v: V, r: MapTree<V>, r': MapTree<V>, key: int, value: V)
    requires SearchOrdered(Branch(l, k, v, r)) && k < key
    requires SearchOrdered(r') && TreeMap(r') == TreeMap(r)[key := value]
    ensures SearchOrdered(Branch(l, k, v, r'))
    ensures TreeMap(Branch(l, k, v, r')) == TreeMap(Branch(l, k, v, r))[key := value]
  {
    assert TreeKeys(r') == TreeKeys(r) + {key};
    UpdateUnion(TreeMap(l), TreeMap(r), key, value);
    UpdateCommutes(TreeMap(l) + TreeMap(r), k, v, key, value);
  }

  /** Removing a key from one side of a node. */
  lemma RemoveLeft<V>(l: MapTree<V>, k: int, v: V, r: MapTree<V>, l': MapTree<V>, key: int)
    requires SearchOrdered(Branch(l, k, v, r)) && key < k
    requires SearchOrdered(l') && TreeMap(l') == TreeMap(l) - {key}
    ensures SearchOrdered(Branch(l', k, v, r))
    ensures TreeMap(Branch(l', k, v, r)) == TreeMap(Branch(l, k, v, r)) - {key}
  {
    assert TreeKeys(l') == TreeKeys(l) - {key};
    assert key !in TreeKeys(r);
    RemoveUnion(TreeMap(l), TreeMap(r), key);
    UpdateCommutes(TreeMap(l) + TreeMap(r), k, v, key, v);
  }

  lemma RemoveRight<V>(l: MapTree<V>, k: int, v: V, r: MapTree<V>, r': MapTree<V>, key: int)
    requires SearchOrdered(Branch(l, k, v, r)) && k < key
    requires SearchOrdered(r') && TreeMap(r') == TreeMap(r) - {key}
    ensures SearchOrdered(Branch(l, k, v, r'))
    ensures TreeMap(Branch(l, k, v, r')) == TreeMap(Branch(l, k, v, r)) - {key}
  {
    assert TreeKeys(r') == TreeKeys(r) - {key};
    assert key !in TreeKeys(l);
    RemoveUnion(TreeMap(l), TreeMap(r), key);
    UpdateCommutes(TreeMap(l) + TreeMap(r), k, v, key, v);
  }

  /** A node with one empty side gives way to the other side. */
  lemma RemoveRoot<V>(l: MapTree<V>, k: int, v: V, r: MapTree<V>)
    requires SearchOrdered(Branch(l, k, v, r)) && (l.Leaf? || r.Leaf?)
    ensures l.Leaf? ==> TreeMap(r) == TreeMap(Branch(l, k, v, r)) - {k}
    ensures r.Leaf? ==> TreeMap(l) == TreeMap(Branch(l, k, v, r)) - {k}
  {
    assert k !in TreeKeys(l) && k !in TreeKeys(r);
    assert TreeMap(l) + map[] == TreeMap(l);
    assert map[] + TreeMap(r) == TreeMap(r);
  }

  /** The in-order successor, with the right subtree left after its removal,
      takes the place of a node with two children. */
  lemma MapSuccessorReplaces<V>(l: MapTree<V>, k: int, v: V, r: MapTree<V>, r': MapTree<V>)
    requires SearchOrdered(Branch(l, k, v, r)) && r.Branch?
    requires SearchOrdered(r') && TreeMap(r') == TreeMap(r) - {MinimumEntry(r).0}
    ensures SearchOrdered(Branch(l, MinimumEntry(r).0, MinimumEntry(r).1, r'))
    ensures TreeMap(Branch(l, MinimumEntry(r).0, MinimumEntry(r).1, r')) == TreeMap(Branch(l, k, v, r)) - {k}
  {
    var (m, mv) := MinimumEntry(r);
    SuccessorOrdered(l, k, v, r, r', m);
    SuccessorMap(TreeMap(l), k, v, TreeMap(r), m, mv);
  }

  lemma SuccessorOrdered<V>(l: MapTree<V>, k: int, v: V, r: MapTree<V>, r': MapTree<V>, m: int)
    requires SearchOrdered(Branch(l, k, v, r)) && SearchOrdered(r')
    requires m in TreeKeys(r) && forall x :: x in TreeKeys(r) ==> m <= x
    requires TreeKeys(r') == TreeKeys(r) - {m}
    ensures forall x :: x in TreeKeys(l) ==> x < m
    ensures forall x :: x in TreeKeys(r') ==> m < x
  {
  }

  lemma SuccessorMap<V>(ml: map<int, V>, k: int, v: V, mr: map<int, V>, m: int, mv: V)
    requires k !in ml && k !in mr && m in mr && mr[m] == mv
    ensures (ml + (mr - {m}))[m := mv] == (ml + mr)[k := v] - {k}
  {
    assert (mr - {m})[m := mv] == mr;
    UpdateUnion(ml, mr - {m}, m, mv);
    assert (ml + mr)[k := v] - {k} == ml + mr;
  }

  /** The leftmost node gives way to its right subtree. */
  lemma RemoveMinimumLeft<V>(l: MapTree<V>, k: int, v: V, r: MapTree<V>, l': MapTree<V>)
    requires SearchOrdered(Branch(l, k, v, r)) && l.Branch?
    requires SearchOrdered(l') && TreeMap(l') == TreeMap(l) - {MinimumEntry(l).0}
    ensures MinimumEntry(Branch(l, k, v, r)) == MinimumEntry(l)
    ensures SearchOrdered(Branch(l', k, v, r))
    ensures TreeMap(Branch(l', k, v, r)) == TreeMap(Branch(l, k, v, r)) - {MinimumEntry(l).0}
  {
    var m := MinimumEntry(l).0;
    assert m < k;
    assert TreeKeys(l') == TreeKeys(l) - {m};
    assert m !in TreeKeys(r);
    RemoveUnion(TreeMap(l), TreeMap(r), m);
    UpdateCommutes(TreeMap(l) + TreeMap(r), k, v, m, v);
  }

  class BinarySearchTreeMap<V> {
    var root: MapTree<V>
    var size: int

    /** The tree is ordered, and the counter is never below the number of
        nodes: it is exact until `removeAll()`, which drops the tree only. */
    ghost predicate Valid()
      reads this
    {
      SearchOrdered(root) && NodeCount(root) <= size
    }

    ghost function Mapping(): map<int, V>
      reads this
    {
      TreeMap(root)
    }

    constructor ()
      ensures root == Leaf && size == 0 && Valid()
    {
      root := Leaf;
      size := 0;
    }

    /** `isEmpty` tests the counter. */
    function IsEmpty(): (b: bool)
      reads this
      requires Valid()
      ensures b ==> Mapping() == map[]
      ensures size == NodeCount(root) ==> (b <==> Mapping() == map[])
    {
      NodeCountIsKeyCount(root);
      size == 0
    }

    /** `count` is the counter: at least the number of mapped keys. */
    function Count(): (n: int)
      reads this
      requires Valid()
      ensures n >= |Mapping()|
      ensures size == NodeCount(root) ==> n == |Mapping()|
    {
      NodeCountIsKeyCount(root);
      size
    }

    function Contains(key: int): (b: bool)
      reads this
      requires Valid()
      ensures b <==> key in Mapping()
    {
      ContainsIn(root, key)
    }

    /** The subscript's getter. */
    function Get(key: int): (r: Option<V>)
      reads this
      requires Valid()
      ensures r == if key in Mapping() then Some(Mapping()[key]) else None
    {
      FindIn(root, key)
    }

    /** The subscript's setter: a value goes through `insert(_:_:to:)`, nil
        through `removeValue(forKey:)`. */
    method Set(key: int, newValue: Option<V>)
      requires Valid()
      modifies this
      ensures Valid()
      ensures Mapping() == if newValue.Some? then old(Mapping())[key := newValue.value] else old(Mapping()) - {key}
      ensures size == old(size) +
        (if newValue.Some? && key !in old(Mapping()) then 1
         else if newValue.None? && key in old(Mapping()) then -1
         else 0)
    {
      if newValue.Some? {
        root := InsertInto(key, newValue.value, root);
      } else {
        var _ := RemoveValue(key);
      }
    }

    /** `insert(_:_:to:)`: a missing key becomes a new leaf and bumps `size`;
        a present one has its value overwritten. */
    method InsertInto(key: int, value: V, node: MapTree<V>) returns (t: MapTree<V>)
      requires SearchOrdered(node)
      modifies this
      ensures SearchOrdered(t)
      ensures TreeMap(t) == TreeMap(node)[key := value]
      ensures NodeCount(t) == NodeCount(node) + (if key in TreeKeys(node) then 0 else 1)
      ensures size == old(size) + (if key in TreeKeys(node) then 0 else 1)
      ensures root == old(root)
      decreases node
    {
      if node.Leaf? {
        size := size + 1;
        return Branch(Leaf, key, value, Leaf);
      }
      if node.key > key {
        var l := InsertInto(key, value, node.left);
        t := Branch(l, node.key, node.value, node.right);
        InsertLeft(node.left, node.key, node.value, node.right, l, key, value);
      } else if node.key < key {
        var r := InsertInto(key, value, node.right);
        t := Branch(node.left, node.key, node.value, r);
        InsertRight(node.left, node.key, node.value, node.right, r, key, value);
      } else {
        t := Branch(node.left, node.key, value, node.right);
      }
    }

    /** `removeValue(forKey:)`: nil when the key is absent, otherwise the
        found node's value, after `remove(_:from:)`. */
    method RemoveValue(key: int) returns (r: Option<V>)
      requires Valid()
      modifies this
      ensures Valid()
      ensures r == if key in old(Mapping()) then Some(old(Mapping())[key]) else None
      ensures Mapping() == old(Mapping()) - {key}
      ensures size == old(size) - (if key in old(Mapping()) then 1 else 0)
    {
      r := FindIn(root, key);
      if r.None? {
        return;
      }
      root := RemoveFrom(key, root);
    }

    /** `removeMinimum(from:)`: the leftmost node gives way to its right
        subtree, and `size` drops by one. */
    method RemoveMinimumFrom(node: MapTree<V>) returns (t: MapTree<V>)
      requires node.Branch? && SearchOrdered(node)
      modifies this
      ensures SearchOrdered(t)
      ensures TreeMap(t) == TreeMap(node) - {MinimumEntry(node).0}
      ensures NodeCount(t) == NodeCount(node) - 1
      ensures size == old(size) - 1
      ensures root == old(root)
      decreases node
    {
      if node.left.Leaf? {
        RemoveRoot(node.left, node.key, node.value, node.right);
        size := size - 1;
        return node.right;
      }
      var l := RemoveMinimumFrom(node.left);
      t := Branch(l, node.key, node.value, node.right);
      RemoveMinimumLeft(node.left, node.key, node.value, node.right, l);
    }

    /** `remove(_:from:)`: a node with an empty side gives way to the other
        side; a node with two children is replaced by its in-order successor,
        which is removed from the right subtree. */
    method RemoveFrom(key: int, node: MapTree<V>) returns (t: MapTree<V>)
      requires SearchOrdered(node)
      modifies this
      ensures SearchOrdered(t)
      ensures TreeMap(t) == TreeMap(node) - {key}
      ensures NodeCount(t) == NodeCount(node) - (if key in TreeKeys(node) then 1 else 0)
      ensures size == old(size) - (if key in TreeKeys(node) then 1 else 0)
      ensures root == old(root)
      decreases node
    {
      if node.Leaf? {
        return Leaf;
      }
      if key < node.key {
        var l := RemoveFrom(key, node.left);
        t := Branch(l, node.key, node.value, node.right);
        RemoveLeft(node.left, node.key, node.value, node.right, l, key);
      } else if key > node.key {
        var r := RemoveFrom(key, node.right);
        t := Branch(node.left, node.key, node.value, r);
        RemoveRight(node.left, node.key, node.value, node.right, r, key);
      } else {
        if node.left.Leaf? || node.right.Leaf? {
          RemoveRoot(node.left, node.key, node.value, node.right);
          size := size - 1;
          return if node.left.Leaf? then node.right else node.left;
        }
        var successor := MinimumEntry(node.right);
        var r := RemoveMinimumFrom(node.right);
        t := Branch(node.left, successor.0, successor.1, r);
        MapSuccessorReplaces(node.left, node.key, node.value, node.right, r);
      }
    }

    /** `removeAll()`: drops the tree; the counter keeps its value. */
    method RemoveAll()
      requires Valid()
      modifies this
      ensures Valid()
      ensures root == Leaf && size == old(size)
      ensures Mapping() == map[]
    {
      root := Leaf;
    }
  }
}
