/** The singly linked list with a tail pointer of
    LearnDataStructures/LinkedList/LinkedList.swift.

    The nodes reachable from `head` are modelled by the sequence `chain` of
    their values, front to back. The `tail` pointer is a reference into that
    chain by position or, after some removals, a node no longer reachable from
    `head` (which then has no successor). The element counter `size` is a field
    of its own: `removeAll()` and `removeAll(where:)` do not update it. Each
    mutation is specified by a function on `ListState` values; on a coherent
    list (count equal to the length, tail on the last node) the functions do
    what the list promises, which the lemmas below prove. */
module LinkedLists {
  import opened Wrappers
  import opened Sequences

  /** Where `tail` points. */
  datatype TailRef<T> = NoTail | InChain(pos: nat) | Detached(value: T)

  /** What `node(at:)` returns: a node of the chain, or the detached tail. */
  datatype NodeRef = AtPos(pos: nat) | TailNode

  datatype ListState<T> = ListState(chain: seq<T>, tail: TailRef<T>, size: int)

  /** What every reachable state satisfies: the counter never falls below the
      number of reachable nodes, and a tail inside the chain is one of them. */
  predicate WellFormed<T>(s: ListState<T>) {
    |s.chain| <= s.size && (s.tail.InChain? ==> s.tail.pos < |s.chain|)
  }

  /** The state the list's documentation describes: `size` counts the nodes
      and `tail` is the last one. */
  predicate Coherent<T>(s: ListState<T>) {
    s.size == |s.chain| && if |s.chain| == 0 then s.tail.NoTail? else s.tail.InChain? && s.tail.pos == |s.chain| - 1
  }

  function FirstValue<T>(s: ListState<T>): (r: Option<T>)
    ensures r.Some? <==> s.chain != []
    ensures r.Some? ==> r.value == s.chain[0]
  {
    if s.chain == [] then None else Some(s.chain[0])
  }

  /** `last`: the value of the tail node, whichever node that is. */
  function LastValue<T>(s: ListState<T>): (r: Option<T>)
    requires WellFormed(s)
    ensures Coherent(s) ==> r == if s.chain == [] then None else Some(s.chain[|s.chain| - 1])
  {
    match s.tail
    case NoTail => None
    case InChain(p) => Some(s.chain[p])
    case Detached(v) => Some(v)
  }

  // node(at:)

  /** `node(at:)` does not abort: the index is below the counter, and the
      node it reaches exists (the tail for the last index, otherwise a node
      reached from `head`). */
  predicate NodeAtDefined<T>(s: ListState<T>, index: int) {
    0 <= index < s.size &&
    if index == s.size - 1 then !s.tail.NoTail? else index < |s.chain|
  }

  function Locate<T>(s: ListState<T>, index: int): (r: NodeRef)
    requires WellFormed(s) && NodeAtDefined(s, index)
    ensures r.AtPos? ==> r.pos < |s.chain|
    ensures r.TailNode? ==> s.tail.Detached?
    ensures index < s.size - 1 ==> r == AtPos(index)
  {
    if index == s.size - 1 then
      (if s.tail.InChain? then AtPos(s.tail.pos) else TailNode)
    else AtPos(index)
  }

  function NodeValue<T>(s: ListState<T>, r: NodeRef): T
    requires WellFormed(s)
    requires r.AtPos? ==> r.pos < |s.chain|
    requires r.TailNode? ==> s.tail.Detached?
  {
    match r
    case AtPos(k) => s.chain[k]
    case TailNode => s.tail.value
  }

  /** The position of a node's successor, `nil` at the end of the chain and
      for the detached tail. */
  function Successor<T>(s: ListState<T>, r: NodeRef): (q: Option<nat>)
    ensures q.Some? ==> r.AtPos? && q.value == r.pos + 1 && q.value < |s.chain|
  {
    match r
    case AtPos(k) => if k + 1 < |s.chain| then Some(k + 1) else None
    case TailNode => None
  }

  /** Subscript read. */
  function ValueAt<T>(s: ListState<T>, index: int): T
    requires WellFormed(s) && NodeAtDefined(s, index)
  {
    NodeValue(s, Locate(s, index))
  }

  /** Subscript write: the located node gets the new value. */
  function Assigned<T>(s: ListState<T>, index: int, v: T): (r: ListState<T>)
    requires WellFormed(s) && NodeAtDefined(s, index)
    ensures WellFormed(r) && r.size == s.size
  {
    match Locate(s, index)
    case AtPos(k) => s.(chain := s.chain[k := v])
    case TailNode => s.(tail := Detached(v))
  }

  // insert(_:at:)

  /** A tail inside the chain moves one place down when a node is linked in at
      or before its position. */
  function ShiftedUp<T>(t: TailRef<T>, from: nat): TailRef<T> {
    if t.InChain? && t.pos >= from then InChain(t.pos + 1) else t
  }

  /** `insert(_:at:)` does not abort: the front, the position `size`, or a
      position whose predecessor `node(at:)` reaches. */
  predicate InsertDefined<T>(s: ListState<T>, index: int) {
    index == 0 || index == s.size || NodeAtDefined(s, index - 1)
  }

  function Inserted<T>(s: ListState<T>, v: T, index: int): (r: ListState<T>)
    requires WellFormed(s) && InsertDefined(s, index)
    ensures WellFormed(r) && r.size == s.size + 1
    ensures index == s.size ==> LastValue(r) == Some(v)
  {
    if index == 0 then
      ListState([v] + s.chain, if s.size == 0 then InChain(0) else ShiftedUp(s.tail, 0), s.size + 1)
    else if index == s.size then
      match s.tail
      case InChain(p) => ListState(s.chain[..p + 1] + [v], InChain(p + 1), s.size + 1)
      case _ => ListState(s.chain, Detached(v), s.size + 1)
    else
      var q := Locate(s, index - 1).pos + 1;
      ListState(InsertAt(s.chain, q, v), ShiftedUp(s.tail, q), s.size + 1)
  }

  // remove(at:)

  /** The tail after the node at chain position `q` is unlinked and its `next`
      cleared, when that node was not the last. */
  function TailAfterRemoval<T>(t: TailRef<T>, q: nat, removed: T): TailRef<T> {
    match t
    case InChain(p) => if p == q then Detached(removed) else if p > q then InChain(p - 1) else t
    case _ => t
  }

  /** `remove(at:)` does not abort: at the front `node(at: 0)` must succeed;
      elsewhere `node(at: index - 1)` must succeed and have a successor. */
  predicate RemoveDefined<T>(s: ListState<T>, index: int)
    requires WellFormed(s)
  {
    if index == 0 then NodeAtDefined(s, 0)
    else NodeAtDefined(s, index - 1) && Successor(s, Locate(s, index - 1)).Some?
  }

  /** The new state and the removed value. */
  function Removed<T>(s: ListState<T>, index: int): (r: (ListState<T>, T))
    requires WellFormed(s) && RemoveDefined(s, index)
    ensures WellFormed(r.0) && r.0.size == s.size - 1
  {
    if index == 0 then
      if Locate(s, 0).TailNode? then
        (ListState([], NoTail, s.size - 1), s.tail.value)
      else if |s.chain| == 1 then
        (ListState([], NoTail, s.size - 1), s.chain[0])
      else
        (ListState(s.chain[1..], TailAfterRemoval(s.tail, 0, s.chain[0]), s.size - 1), s.chain[0])
    else
      var prev := Locate(s, index - 1).pos;
      var q := prev + 1;
      var t := if q + 1 == |s.chain| then InChain(prev) else TailAfterRemoval(s.tail, q, s.chain[q]);
      (ListState(RemoveAt(s.chain, q), t, s.size - 1), s.chain[q])
  }

  /** `removeAll()`: both pointers are cleared; the counter is not. */
  function Cleared<T>(s: ListState<T>): (r: ListState<T>)
    ensures r.chain == [] && r.tail == NoTail && r.size == s.size
  {
    ListState([], NoTail, s.size)
  }

  // removeAll(where:)

  function Not<T>(f: T -> bool): T -> bool {
    x => !f(x)
  }

  /** Where the tail points once the first `c` nodes of `orig` have been
      examined by `removeAll(where:)`: a removed tail node is detached, a kept
      one is renumbered among the kept nodes. */
  function FilteredTail<T>(t: TailRef<T>, orig: seq<T>, f: T -> bool, c: nat): TailRef<T>
    requires c <= |orig| && (t.InChain? ==> t.pos < |orig|)
  {
    match t
    case InChain(p) =>
      if p < c then
        (if f(orig[p]) then Detached(orig[p]) else InChain(|Filter(Not(f), orig[..p])|))
      else InChain(p - c + |Filter(Not(f), orig[..c])|)
    case _ => t
  }

  /** `removeAll(where:)`: the nodes satisfying `f` are unlinked; neither
      `size` nor `tail` is adjusted beyond that. */
  function Filtered<T>(s: ListState<T>, f: T -> bool): (r: ListState<T>)
    requires WellFormed(s)
    ensures WellFormed(r) && r.size == s.size
  {
    var t := FilteredTail(s.tail, s.chain, f, |s.chain|);
    assert t.InChain? ==> t.pos < |Filter(Not(f), s.chain)| by {
      if s.tail.InChain? && !f(s.chain[s.tail.pos]) {
        assert s.chain[..|s.chain|] == s.chain;
        FilterPrefixLength(Not(f), s.chain, s.tail.pos, |s.chain|);
      }
    }
    ListState(Filter(Not(f), s.chain), t, s.size)
  }

  /** The kept prefix grows by the examined element exactly when it stays. */
  lemma FilterStep<T>(f: T -> bool, orig: seq<T>, c: nat)
    requires c < |orig|
    ensures Filter(Not(f), orig[..c + 1]) ==
      Filter(Not(f), orig[..c]) + (if f(orig[c]) then [] else [orig[c]])
  {
    assert orig[..c + 1] == orig[..c] + [orig[c]];
    FilterSnoc(Not(f), orig[..c], orig[c]);
  }

  /** The chain during `removeAll(where:)` is the kept prefix followed by the
      unexamined rest; unlinking or keeping the next node moves on by one. */
  lemma UnlinkStep<T>(kept: seq<T>, orig: seq<T>, c: nat)
    requires c < |orig|
    ensures (kept + orig[c..])[|kept|] == orig[c]
    ensures RemoveAt(kept + orig[c..], |kept|) == kept + orig[c + 1..]
    ensures kept + orig[c..] == (kept + [orig[c]]) + orig[c + 1..]
  {
    var s := kept + orig[c..];
    assert s[..|kept|] == kept;
    assert s[|kept| + 1..] == orig[c + 1..];
  }

  /** Examining one more node: a removed node is unlinked at the position
      the kept prefix ends. */
  lemma FilteredTailStep<T>(t: TailRef<T>, orig: seq<T>, f: T -> bool, c: nat)
    requires c < |orig| && (t.InChain? ==> t.pos < |orig|)
    ensures FilteredTail(t, orig, f, c + 1) ==
      if f(orig[c]) then TailAfterRemoval(FilteredTail(t, orig, f, c), |Filter(Not(f), orig[..c])|, orig[c])
      else FilteredTail(t, orig, f, c)
  {
    assert orig[..c + 1] == orig[..c] + [orig[c]];
    FilterSnoc(Not(f), orig[..c], orig[c]);
    if t.InChain? && t.pos < c && !f(orig[t.pos]) {
      FilterPrefixLength(Not(f), orig, t.pos, c);
    }
  }

  // The documented behaviour, on coherent lists.

  /** `insert(v, at: i)` with `0 <= i <= count` never aborts, yields
      `old[..i] + [v] + old[i..]` with a count one larger, and keeps the tail
      on the last node. */
  lemma InsertCoherent<T>(s: ListState<T>, v: T, i: int)
    requires Coherent(s) && 0 <= i <= s.size
    ensures InsertDefined(s, i)
    ensures Coherent(Inserted(s, v, i))
    ensures Inserted(s, v, i).chain == InsertAt(s.chain, i, v)
    ensures Inserted(s, v, i).size == s.size + 1
  {
    if i == s.size && i > 0 {
      assert s.chain[..|s.chain|] == s.chain;
    }
  }

  /** `append`: on a coherent list the value goes to the end; on any list it
      becomes `last`. */
  lemma AppendCoherent<T>(s: ListState<T>, v: T)
    requires Coherent(s)
    ensures Coherent(Inserted(s, v, s.size)) && Inserted(s, v, s.size).chain == s.chain + [v]
  {
    InsertCoherent(s, v, s.size);
    assert InsertAt(s.chain, |s.chain|, v) == s.chain + [v];
  }

  /** `remove(at: i)` with `0 <= i < count` never aborts, returns `old[i]`,
      leaves `old[..i] + old[i+1..]` with a count one smaller, and keeps the
      tail on the last node. */
  lemma RemoveCoherent<T>(s: ListState<T>, i: int)
    requires Coherent(s) && 0 <= i < s.size
    ensures RemoveDefined(s, i)
    ensures Coherent(Removed(s, i).0)
    ensures Removed(s, i).0.chain == RemoveAt(s.chain, i)
    ensures Removed(s, i).0.size == s.size - 1
    ensures Removed(s, i).1 == s.chain[i]
  {
    if i == 0 && |s.chain| > 1 {
      assert s.chain[1..] == RemoveAt(s.chain, 0);
    }
  }

  /** Removing what was just inserted restores the list. */
  lemma RemoveInsertedRestores<T>(s: ListState<T>, v: T, i: int)
    requires Coherent(s) && 0 <= i <= s.size
    ensures InsertDefined(s, i) && RemoveDefined(Inserted(s, v, i), i)
    ensures Removed(Inserted(s, v, i), i) == (s, v)
  {
    InsertCoherent(s, v, i);
    var s' := Inserted(s, v, i);
    RemoveCoherent(s', i);
    RemoveInserted(s.chain, i, v);
  }

  /** Re-inserting a removed value at its place restores the list. */
  lemma InsertRemovedRestores<T>(s: ListState<T>, i: int)
    requires Coherent(s) && 0 <= i < s.size
    ensures RemoveDefined(s, i) && InsertDefined(Removed(s, i).0, i)
    ensures Inserted(Removed(s, i).0, Removed(s, i).1, i) == s
  {
    RemoveCoherent(s, i);
    var r := Removed(s, i);
    InsertCoherent(r.0, r.1, i);
    InsertRemoved(s.chain, i);
  }

  /** The subscript reads and writes position `i` of a coherent list and
      nothing else. */
  lemma SubscriptCoherent<T>(s: ListState<T>, i: int, v: T)
    requires Coherent(s) && 0 <= i < s.size
    ensures NodeAtDefined(s, i)
    ensures ValueAt(s, i) == s.chain[i]
    ensures Assigned(s, i, v) == ListState(s.chain[i := v], s.tail, s.size)
  {
  }

  /** `first` and `last` of a coherent list are its end values. */
  lemma EndsCoherent<T>(s: ListState<T>)
    requires Coherent(s) && s.chain != []
    ensures FirstValue(s) == Some(s.chain[0])
    ensures LastValue(s) == Some(s.chain[|s.chain| - 1])
  {
  }

  /** After `removeAll()` the list holds nothing, yet the count keeps its old
      value, so the result is coherent only when the list was already empty. */
  lemma ClearedKeepsCount<T>(s: ListState<T>)
    requires WellFormed(s)
    ensures FirstValue(Cleared(s)) == None && LastValue(Cleared(s)) == None
    ensures Coherent(Cleared(s)) <==> s.size == 0
  {
  }

  /** `removeAll(where: f)` keeps exactly the elements failing `f`, in their
      order; the count is the old one. */
  lemma FilteredKeeps<T>(s: ListState<T>, f: T -> bool, x: T)
    requires WellFormed(s)
    ensures Filtered(s, f).chain == Filter(Not(f), s.chain)
    ensures x in Filtered(s, f).chain <==> x in s.chain && !f(x)
    ensures Filtered(s, f).size == s.size
  {
    FilterMember(Not(f), s.chain, x);
  }

  /** On a coherent list, `removeAll(where: f)` leaves a coherent list exactly
      when nothing was removed. */
  lemma FilteredCoherent<T>(s: ListState<T>, f: T -> bool)
    requires Coherent(s)
    ensures Coherent(Filtered(s, f)) <==> forall k :: 0 <= k < |s.chain| ==> !f(s.chain[k])
  {
    FilterIdentity(Not(f), s.chain);
    if forall k :: 0 <= k < |s.chain| ==> !f(s.chain[k]) {
      if s.chain != [] {
        var p := |s.chain| - 1;
        var pre := s.chain[..p];
        assert forall k :: 0 <= k < |pre| ==> pre[k] == s.chain[k];
        FilterIdentity(Not(f), pre);
        assert Filter(Not(f), pre) == pre;
        assert FilteredTail(s.tail, s.chain, f, |s.chain|) == InChain(p);
      }
    }
  }

  /** A list `[a, b]` from which `b` is removed by `removeAll(where:)`: one
      node remains, but `count` is still 2 and `last` is still `b`. */
  lemma FilteredStaleExample()
    ensures var s := Filtered(ListState([1, 2], InChain(1), 2), x => x == 2);
      s.chain == [1] && s.size == 2 && LastValue(s) == Some(2)
  {
    var f := (x: int) => x == 2;
    var s := ListState([1, 2], InChain(1), 2);
    assert Filter(Not(f), [2]) == [] by { assert [2][1..] == []; }
    assert Filter(Not(f), [1, 2]) == [1] by { assert [1, 2][1..] == [2]; }
  }

  /** `removeAll(where:)` over the chain `orig` with tail `t0`: first the
      matching nodes at the head are unlinked, then `prev` walks the chain and
      unlinks each matching successor. */
  method UnlinkMatching<T>(orig: seq<T>, t0: TailRef<T>, shouldBeRemoved: T -> bool)
    returns (nodes: seq<T>, tailRef: TailRef<T>)
    requires t0.InChain? ==> t0.pos < |orig|
    ensures nodes == Filter(Not(shouldBeRemoved), orig)
    ensures tailRef == FilteredTail(t0, orig, shouldBeRemoved, |orig|)
  {
    ghost var c;
    nodes, tailRef, c := UnlinkMatchingHead(orig, t0, shouldBeRemoved);
    if nodes != [] {
      FilteredTailStep(t0, orig, shouldBeRemoved, c);
      FilterStep(shouldBeRemoved, orig, c);
      nodes, tailRef := UnlinkMatchingSuccessors(orig, t0, shouldBeRemoved, nodes, tailRef, c + 1);
    } else {
      assert orig[..c] == orig;
    }
  }

  /** The first loop: while the head matches, unlink it. `c` counts the nodes
      examined. */
  method UnlinkMatchingHead<T>(orig: seq<T>, t0: TailRef<T>, shouldBeRemoved: T -> bool)
    returns (nodes: seq<T>, tailRef: TailRef<T>, ghost c: nat)
    requires t0.InChain? ==> t0.pos < |orig|
    ensures c <= |orig| && nodes == orig[c..]
    ensures Filter(Not(shouldBeRemoved), orig[..c]) == []
    ensures tailRef == FilteredTail(t0, orig, shouldBeRemoved, c)
    ensures nodes != [] ==> !shouldBeRemoved(nodes[0])
  {
    nodes, tailRef, c := orig, t0, 0;
    while nodes != [] && shouldBeRemoved(nodes[0])
      invariant c <= |orig| && nodes == orig[c..]
      invariant Filter(Not(shouldBeRemoved), orig[..c]) == []
      invariant tailRef == FilteredTail(t0, orig, shouldBeRemoved, c)
      decreases |nodes|
    {
      FilteredTailStep(t0, orig, shouldBeRemoved, c);
      FilterStep(shouldBeRemoved, orig, c);
      tailRef := TailAfterRemoval(tailRef, 0, nodes[0]);
      nodes := nodes[1..];
      c := c + 1;
    }
  }

  /** The second loop: `prev` starts at the kept head; a matching successor
      is unlinked, otherwise `prev` advances. */
  method UnlinkMatchingSuccessors<T>(orig: seq<T>, t0: TailRef<T>, shouldBeRemoved: T -> bool,
                                     start: seq<T>, startTail: TailRef<T>, ghost c0: nat)
    returns (nodes: seq<T>, tailRef: TailRef<T>)
    requires t0.InChain? ==> t0.pos < |orig|
    requires 0 < c0 <= |orig|
    requires |Filter(Not(shouldBeRemoved), orig[..c0])| == 1
    requires start == Filter(Not(shouldBeRemoved), orig[..c0]) + orig[c0..]
    requires startTail == FilteredTail(t0, orig, shouldBeRemoved, c0)
    ensures nodes == Filter(Not(shouldBeRemoved), orig)
    ensures tailRef == FilteredTail(t0, orig, shouldBeRemoved, |orig|)
  {
    nodes, tailRef := start, startTail;
    ghost var c := c0;
    var prev := 0;
    while prev + 1 < |nodes|
      invariant c <= |orig|
      invariant |Filter(Not(shouldBeRemoved), orig[..c])| == prev + 1
      invariant nodes == Filter(Not(shouldBeRemoved), orig[..c]) + orig[c..]
      invariant tailRef == FilteredTail(t0, orig, shouldBeRemoved, c)
      decreases |nodes| - prev
    {
      ghost var kept := Filter(Not(shouldBeRemoved), orig[..c]);
      UnlinkStep(kept, orig, c);
      FilteredTailStep(t0, orig, shouldBeRemoved, c);
      FilterStep(shouldBeRemoved, orig, c);
      if shouldBeRemoved(nodes[prev + 1]) {
        tailRef := TailAfterRemoval(tailRef, prev + 1, nodes[prev + 1]);
        nodes := RemoveAt(nodes, prev + 1);
      } else {
        prev := prev + 1;
      }
      c := c + 1;
    }
    assert orig[..c] == orig;
  }

  class LinkedList<T(==)> {
    /** The values of the nodes reachable from `head`, front to back. */
    var chain: seq<T>
    var tail: TailRef<T>
    var size: int

    function State(): ListState<T>
      reads this
    {
      ListState(chain, tail, size)
    }

    ghost predicate Valid()
      reads this
    {
      WellFormed(State())
    }

    constructor ()
      ensures State() == ListState([], NoTail, 0) && Coherent(State())
    {
      chain := [];
      tail := NoTail;
      size := 0;
    }

    /** `isEmpty` tests the counter. */
    function IsEmpty(): (b: bool)
      reads this
      requires Valid()
      ensures b ==> chain == []
      ensures Coherent(State()) ==> (b <==> chain == [])
    {
      size == 0
    }

    /** `count` is the counter, at least the number of reachable nodes. */
    function Count(): (n: int)
      reads this
      requires Valid()
      ensures n >= |chain|
      ensures Coherent(State()) ==> n == |chain|
    {
      size
    }

    function First(): (r: Option<T>)
      reads this
      ensures r == FirstValue(State())
    {
      if chain == [] then None else Some(chain[0])
    }

    function Last(): (r: Option<T>)
      reads this
      requires Valid()
      ensures r == LastValue(State())
    {
      match tail
      case NoTail => None
      case InChain(p) => Some(chain[p])
      case Detached(v) => Some(v)
    }

    /** `node(at:)`: the tail for the last index, otherwise a walk of `index`
        `next` links from `head`; the index bound guarantees every link it
        follows exists. */
    method NodeAt(index: int) returns (r: NodeRef)
      requires Valid() && NodeAtDefined(State(), index)
      ensures r == Locate(State(), index)
    {
      if index == size - 1 {
        return if tail.InChain? then AtPos(tail.pos) else TailNode;
      }
      var node := AtPos(0);
      for i := 0 to index
        invariant node == AtPos(i)
      {
        var next := Successor(State(), node);
        node := AtPos(next.value);
      }
      return node;
    }

    method Get(index: int) returns (x: T)
      requires Valid() && NodeAtDefined(State(), index)
      ensures x == ValueAt(State(), index)
    {
      var n := NodeAt(index);
      x := if n.AtPos? then chain[n.pos] else tail.value;
    }

    method Set(index: int, newValue: T)
      requires Valid() && NodeAtDefined(State(), index)
      modifies this
      ensures State() == Assigned(old(State()), index, newValue)
    {
      var n := NodeAt(index);
      if n.AtPos? {
        chain := chain[n.pos := newValue];
      } else {
        tail := Detached(newValue);
      }
    }

    method Insert(value: T, index: int)
      requires Valid() && InsertDefined(State(), index)
      modifies this
      ensures State() == Inserted(old(State()), value, index)
    {
      if index == 0 {
        chain := [value] + chain;
        tail := if size == 0 then InChain(0) else ShiftedUp(tail, 0);
      } else if index == size {
        if tail.InChain? {
          chain := chain[..tail.pos + 1] + [value];
          tail := InChain(tail.pos + 1);
        } else {
          tail := Detached(value);
        }
      } else {
        var prev := NodeAt(index - 1);
        chain := InsertAt(chain, prev.pos + 1, value);
        tail := ShiftedUp(tail, prev.pos + 1);
      }
      size := size + 1;
    }

    method Append(value: T)
      requires Valid()
      modifies this
      ensures State() == Inserted(old(State()), value, old(size))
      ensures Last() == Some(value)
      ensures old(Coherent(State())) ==> Coherent(State()) && chain == old(chain) + [value]
    {
      if Coherent(State()) {
        AppendCoherent(State(), value);
      }
      Insert(value, size);
    }

    method RemoveAll()
      modifies this
      ensures State() == Cleared(old(State()))
    {
      tail := NoTail;
      chain := [];
    }

    method RemoveAt(index: int) returns (x: T)
      requires Valid() && RemoveDefined(State(), index)
      modifies this
      ensures (State(), x) == Removed(old(State()), index)
    {
      if index == 0 {
        var n := NodeAt(0);
        if n.TailNode? {
          x := tail.value;
          tail := NoTail;
          chain := [];
        } else {
          x := chain[0];
          tail := if |chain| == 1 then NoTail else TailAfterRemoval(tail, 0, chain[0]);
          chain := chain[1..];
        }
      } else {
        var prev := NodeAt(index - 1);
        var q := prev.pos + 1;
        x := chain[q];
        tail := if q + 1 == |chain| then InChain(prev.pos) else TailAfterRemoval(tail, q, chain[q]);
        chain := Sequences.RemoveAt(chain, q);
      }
      size := size - 1;
    }

    method RemoveFirst() returns (x: T)
      requires Valid() && RemoveDefined(State(), 0)
      modifies this
      ensures (State(), x) == Removed(old(State()), 0)
    {
      x := RemoveAt(0);
    }

    method RemoveLast() returns (x: T)
      requires Valid() && RemoveDefined(State(), size - 1)
      modifies this
      ensures (State(), x) == Removed(old(State()), old(size) - 1)
    {
      x := RemoveAt(size - 1);
    }

    /** `removeAll(where:)`: the walk below relinks the chain; the counter
        is left as it was. */
    method RemoveAllWhere(shouldBeRemoved: T -> bool)
      requires Valid()
      modifies this
      ensures State() == Filtered(old(State()), shouldBeRemoved)
    {
      chain, tail := UnlinkMatching(chain, tail, shouldBeRemoved);
    }

    /** `map`: a fresh list built by appending the transformed values. */
    method Map<U(==)>(transform: T -> U) returns (result: LinkedList<U>)
      ensures fresh(result) && Coherent(result.State())
      ensures result.chain == MapSeq(transform, chain)
    {
      result := new LinkedList<U>();
      var k := 0;
      while k < |chain|
        invariant k <= |chain|
        invariant fresh(result) && Coherent(result.State())
        invariant result.chain == MapSeq(transform, chain[..k])
      {
        result.Append(transform(chain[k]));
        MapSeqSnoc(transform, chain[..k], chain[k]);
        assert chain[..k + 1] == chain[..k] + [chain[k]];
        k := k + 1;
      }
      assert chain[..k] == chain;
    }

    /** `filter`: a fresh list of the values satisfying `isIncluded`. */
    method Filter(isIncluded: T -> bool) returns (result: LinkedList<T>)
      ensures fresh(result) && Coherent(result.State())
      ensures result.chain == Sequences.Filter(isIncluded, chain)
    {
      result := new LinkedList<T>();
      var k := 0;
      while k < |chain|
        invariant k <= |chain|
        invariant fresh(result) && Coherent(result.State())
        invariant result.chain == Sequences.Filter(isIncluded, chain[..k])
      {
        if isIncluded(chain[k]) {
          result.Append(chain[k]);
        }
        FilterSnoc(isIncluded, chain[..k], chain[k]);
        assert chain[..k + 1] == chain[..k] + [chain[k]];
        k := k + 1;
      }
      assert chain[..k] == chain;
    }

    /** `contains(_:)`: a walk from `head`. */
    method Contains(value: T) returns (found: bool)
      ensures found <==> value in chain
    {
      var k := 0;
      while k < |chain|
        invariant k <= |chain|
        invariant value !in chain[..k]
      {
        if chain[k] == value {
          return true;
        }
        assert chain[..k + 1] == chain[..k] + [chain[k]];
        k := k + 1;
      }
      assert chain[..k] == chain;
      return false;
    }
  }
}
