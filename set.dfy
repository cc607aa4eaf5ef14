/** The two sets of LearnDataStructures/Set/Set.swift: `LinkedListSet` keeps
    its members in a `LinkedList`, inserting at the front after a duplicate
    check, and `BinarySearchTreeSet` keeps them in a `BinarySearchTree`. */
module Sets {
  import opened Sequences
  import opened LinkedLists
  import opened BinarySearchTrees

  ghost predicate NoDuplicates<T>(s: seq<T>) {
    forall i, j :: 0 <= i < j < |s| ==> s[i] != s[j]
  }

  ghost function Elements<T>(s: seq<T>): set<T> {
    set x | x in s
  }

  /** The test `remove(_:)` hands to `removeAll(where:)`. */
  function Equals<T(==)>(m: T): T -> bool {
    x => x == m
  }

  lemma NoDuplicatesCons<T>(s: seq<T>)
    requires s != []
    ensures NoDuplicates(s) <==> s[0] !in s[1..] && NoDuplicates(s[1..])
  {
    if s[0] in s[1..] {
      var j :| 0 <= j < |s[1..]| && s[1..][j] == s[0];
      assert s[0] == s[j + 1];
    }
    if NoDuplicates(s[1..]) && s[0] !in s[1..] {
      forall i, j | 0 <= i < j < |s| ensures s[i] != s[j] {
        if i == 0 {
          assert s[j] == s[1..][j - 1];
        } else {
          assert s[i] == s[1..][i - 1] && s[j] == s[1..][j - 1];
        }
      }
    }
  }

  /** Filtering keeps a sequence free of duplicates. */
  lemma {:induction false} FilterNoDuplicates<T>(p: T -> bool, s: seq<T>)
    requires NoDuplicates(s)
    ensures NoDuplicates(Filter(p, s))
  {
    if s != [] {
      NoDuplicatesCons(s);
      FilterNoDuplicates(p, s[1..]);
      if p(s[0]) {
        FilterMember(p, s[1..], s[0]);
        var r := [s[0]] + Filter(p, s[1..]);
        assert r[1..] == Filter(p, s[1..]);
        NoDuplicatesCons(r);
      }
    }
  }

  /** Without duplicates, the length of a sequence is the number of its
      members. */
  lemma {:induction false} DistinctCardinality<T>(s: seq<T>)
    requires NoDuplicates(s)
    ensures |Elements(s)| == |s|
  {
    if s != [] {
      NoDuplicatesCons(s);
      DistinctCardinality(s[1..]);
      assert Elements(s) == {s[0]} + Elements(s[1..]) by {
        assert s == [s[0]] + s[1..];
      }
    }
  }

  /** On a coherent list holding `m`, `remove(m)` unlinks its node but leaves
      `count` one too high. */
  lemma RemoveLeavesCountHigh<T>(s: ListState<T>, m: T)
    requires Coherent(s) && NoDuplicates(s.chain) && m in s.chain
    ensures Elements(Filtered(s, Equals(m)).chain) == Elements(s.chain) - {m}
    ensures Filtered(s, Equals(m)).size == |Filtered(s, Equals(m)).chain| + 1
  {
    var r := Filtered(s, Equals(m));
    forall x ensures x in r.chain <==> x in s.chain && x != m {
      FilteredKeeps(s, Equals(m), x);
    }
    FilterNoDuplicates(Not(Equals(m)), s.chain);
    DistinctCardinality(s.chain);
    DistinctCardinality(r.chain);
    assert Elements(r.chain) == Elements(s.chain) - {m};
  }

  /** The set `{1}` after `remove(1)`: no member is left, yet `isEmpty` is
      false and `count` is 1. */
  lemma RemoveLastMemberExample()
    ensures var s := Filtered(ListState([1], InChain(0), 1), Equals(1));
      s.chain == [] && s.size == 1
  {
    assert Filter(Not(Equals(1)), [1]) == [] by { assert [1][1..] == []; }
  }

  class LinkedListSet<T(==)> {
    const linkedList: LinkedList<T>

    /** The list never holds a value twice. */
    ghost predicate Valid()
      reads this, linkedList
    {
      linkedList.Valid() && NoDuplicates(linkedList.chain)
    }

    ghost function Members(): set<T>
      reads this, linkedList
    {
      Elements(linkedList.chain)
    }

    constructor ()
      ensures Valid() && fresh(linkedList) && Coherent(linkedList.State()) && Members() == {}
    {
      linkedList := new LinkedList<T>();
    }

    /** `isEmpty` is the list's: it tests the counter, which `remove(_:)` leaves
        stale, so it is exact only on a coherent list. */
    function IsEmpty(): (b: bool)
      reads this, linkedList
      requires Valid()
      ensures b ==> Members() == {}
      ensures Coherent(linkedList.State()) ==> (b <==> Members() == {})
    {
      assert linkedList.chain != [] ==> linkedList.chain[0] in Members();
      linkedList.IsEmpty()
    }

    /** `count` is the list's counter: at least the number of members. */
    function Count(): (n: int)
      reads this, linkedList
      requires Valid()
      ensures n >= |Members()|
      ensures Coherent(linkedList.State()) ==> n == |Members()|
    {
      DistinctCardinality(linkedList.chain);
      linkedList.Count()
    }

    /** `insert(_:)`: at the front, unless the list already contains it. */
    method Insert(newMember: T)
      requires Valid()
      modifies linkedList
      ensures Valid()
      ensures Members() == old(Members()) + {newMember}
      ensures linkedList.State() ==
        if newMember in old(linkedList.chain) then old(linkedList.State())
        else Inserted(old(linkedList.State()), newMember, 0)
      ensures old(Coherent(linkedList.State())) ==> Coherent(linkedList.State())
    {
      var found := linkedList.Contains(newMember);
      if !found {
        if Coherent(linkedList.State()) {
          InsertCoherent(linkedList.State(), newMember, 0);
        }
        ghost var c := linkedList.chain;
        linkedList.Insert(newMember, 0);
        assert linkedList.chain == [newMember] + c;
        assert linkedList.chain[1..] == c;
        NoDuplicatesCons(linkedList.chain);
        assert Elements(linkedList.chain) == {newMember} + Elements(c);
      }
    }

    /** `remove(_:)`: `removeAll(where:)` with an equality test, which leaves
        the counter as it was. */
    method Remove(member: T)
      requires Valid()
      modifies linkedList
      ensures Valid()
      ensures Members() == old(Members()) - {member}
      ensures linkedList.State() == Filtered(old(linkedList.State()), Equals(member))
      ensures linkedList.size == old(linkedList.size)
    {
      ghost var s := linkedList.State();
      ghost var kept := Filtered(s, Equals(member)).chain;
      forall x ensures x in kept <==> x in s.chain && x != member {
        FilteredKeeps(s, Equals(member), x);
      }
      assert Elements(kept) == Elements(s.chain) - {member};
      FilterNoDuplicates(Not(Equals(member)), s.chain);
      linkedList.RemoveAllWhere(Equals(member));
    }

    method Contains(member: T) returns (found: bool)
      requires Valid()
      ensures found <==> member in Members()
    {
      found := linkedList.Contains(member);
    }
  }

  class BinarySearchTreeSet {
    const binarySearchTree: BinarySearchTree

    ghost predicate Valid()
      reads this, binarySearchTree
    {
      binarySearchTree.Valid()
    }

    ghost function Members(): set<int>
      reads this, binarySearchTree
    {
      Keys(binarySearchTree.root)
    }

    constructor ()
      ensures Valid() && fresh(binarySearchTree) && Members() == {}
    {
      binarySearchTree := new BinarySearchTree();
    }

    function IsEmpty(): (b: bool)
      reads this, binarySearchTree
      requires Valid()
      ensures b <==> Members() == {}
    {
      binarySearchTree.IsEmpty()
    }

    function Count(): (n: int)
      reads this, binarySearchTree
      requires Valid()
      ensures n == |Members()|
    {
      binarySearchTree.Count()
    }

    method Insert(newMember: int)
      requires Valid()
      modifies binarySearchTree
      ensures Valid()
      ensures Members() == old(Members()) + {newMember}
    {
      binarySearchTree.Insert(newMember);
    }

    method Remove(member: int)
      requires Valid()
      modifies binarySearchTree
      ensures Valid()
      ensures Members() == old(Members()) - {member}
    {
      binarySearchTree.Remove(member);
    }

    function Contains(member: int): (b: bool)
      reads this, binarySearchTree
      requires Valid()
      ensures b <==> member in Members()
    {
      binarySearchTree.ContainsKey(member)
    }
  }
}
