/** The two last-in first-out stacks of LearnDataStructures/Stack/Stack.swift:
    `ArrayStack` over a growable array whose end is the top, and
    `LinkedListStack` over a `LinkedList` whose head is the top. */
module Stacks {
  import opened Wrappers
  import opened Sequences
  import opened LinkedLists

  /** The reference stack: pushing puts a value on top, popping takes the top
      off, or yields nothing on an empty stack. `s` lists the elements from the
      bottom up. */
  function Pushed<T>(s: seq<T>, x: T): seq<T> {
    s + [x]
  }

  function Popped<T>(s: seq<T>): (r: (seq<T>, Option<T>))
    ensures s == [] ==> r == (s, None)
    ensures s != [] ==> r.1 == Some(s[|s| - 1]) && r.0 + [s[|s| - 1]] == s
  {
    if s == [] then (s, None) else (s[..|s| - 1], Some(s[|s| - 1]))
  }

  /** Popping undoes a push and returns the pushed value. */
  lemma PopUndoesPush<T>(s: seq<T>, x: T)
    ensures Popped(Pushed(s, x)) == (s, Some(x))
  {
    assert (s + [x])[..|s|] == s;
  }

  /** Last in, first out: after pushing `xs` in order, popping `|xs|` times
      returns them in reverse order and leaves the stack as it was. */
  lemma {:induction false} LastInFirstOut<T>(s: seq<T>, xs: seq<T>)
    ensures PopTimes(s + xs, |xs|) == (s, Reversed(xs))
    decreases |xs|
  {
    if xs != [] {
      var n := |xs| - 1;
      var init := xs[..n];
      assert s + xs == (s + init) + [xs[n]];
      PopUndoesPush(s + init, xs[n]);
      LastInFirstOut(s, init);
      assert xs == init + [xs[n]];
      ReversedSnoc(init, xs[n]);
      assert Popped(s + xs) == (s + init, Some(xs[n]));
      assert PopTimes(s + xs, |xs|) == (PopTimes(s + init, n).0, [xs[n]] + PopTimes(s + init, n).1);
    } else {
      assert s + xs == s;
    }
  }

  /** Pops `n` times, collecting the popped values. */
  function PopTimes<T>(s: seq<T>, n: nat): (seq<T>, seq<T>)
    requires n <= |s|
  {
    if n == 0 then (s, [])
    else
      var (rest, top) := Popped(s);
      var (left, later) := PopTimes(rest, n - 1);
      (left, [top.value] + later)
  }

  function Reversed<T>(s: seq<T>): seq<T> {
    if s == [] then [] else Reversed(s[1..]) + [s[0]]
  }

  /** `xs` reversed, read from its end. */
  lemma {:induction false} ReversedSnoc<T>(xs: seq<T>, x: T)
    ensures Reversed(xs + [x]) == [x] + Reversed(xs)
  {
    if xs != [] {
      assert (xs + [x])[1..] == xs[1..] + [x];
      ReversedSnoc(xs[1..], x);
    } else {
      assert [x][1..] == [];
    }
  }

  class ArrayStack<T> {
    /** The stacked values, bottom first. */
    var items: seq<T>

    constructor ()
      ensures items == []
    {
      items := [];
    }

    function IsEmpty(): (b: bool)
      reads this
      ensures b <==> items == []
    {
      |items| == 0
    }

    function Count(): (n: nat)
      reads this
      ensures n == |items|
    {
      |items|
    }

    method Push(element: T)
      modifies this
      ensures items == Pushed(old(items), element)
    {
      items := items + [element];
    }

    /** `pop()`: `popLast` on the array; nil on an empty stack. */
    method Pop() returns (r: Option<T>)
      modifies this
      ensures (items, r) == Popped(old(items))
    {
      if |items| == 0 {
        return None;
      }
      r := Some(items[|items| - 1]);
      items := items[..|items| - 1];
    }

    /** `top()`: what `pop()` would return. */
    function Top(): (r: Option<T>)
      reads this
      ensures r == Popped(items).1
    {
      if |items| == 0 then None else Some(items[|items| - 1])
    }
  }

  class LinkedListStack<T(==)> {
    const linkedList: LinkedList<T>

    /** Only `insert(_:at: 0)` and `removeFirst()` touch the list, so it stays
        coherent. */
    ghost predicate Valid()
      reads this, linkedList
    {
      Coherent(linkedList.State())
    }

    /** The stacked values, bottom first: the list read from its end. */
    ghost function Elements(): seq<T>
      reads this, linkedList
    {
      Reversed(linkedList.chain)
    }

    constructor ()
      ensures Valid() && fresh(linkedList) && Elements() == []
    {
      linkedList := new LinkedList<T>();
    }

    function IsEmpty(): (b: bool)
      reads this, linkedList
      requires Valid()
      ensures b <==> linkedList.chain == []
    {
      linkedList.IsEmpty()
    }

    function Count(): (n: int)
      reads this, linkedList
      requires Valid()
      ensures n == |linkedList.chain|
    {
      linkedList.Count()
    }

    method Push(element: T)
      requires Valid()
      modifies linkedList
      ensures Valid()
      ensures linkedList.chain == [element] + old(linkedList.chain)
      ensures Elements() == Pushed(old(Elements()), element)
    {
      InsertCoherent(linkedList.State(), element, 0);
      linkedList.Insert(element, 0);
      ReversedSnoc(old(linkedList.chain), element);
      assert [element] + old(linkedList.chain) == InsertAt(old(linkedList.chain), 0, element);
    }

    /** `pop()`: nil when empty, otherwise `removeFirst()`. */
    method Pop() returns (r: Option<T>)
      requires Valid()
      modifies linkedList
      ensures Valid()
      ensures old(linkedList.chain) == [] ==> r == None && linkedList.chain == []
      ensures old(linkedList.chain) != [] ==>
        r == Some(old(linkedList.chain)[0]) && linkedList.chain == old(linkedList.chain)[1..]
      ensures (Elements(), r) == Popped(old(Elements()))
    {
      if IsEmpty() {
        return None;
      }
      ghost var c := linkedList.chain;
      RemoveCoherent(linkedList.State(), 0);
      var x := linkedList.RemoveFirst();
      r := Some(x);
      assert c == [c[0]] + c[1..];
      assert RemoveAt(c, 0) == c[1..];
      ReversedSnoc(c[1..], c[0]);
      assert Reversed(c) == Reversed(c[1..]) + [c[0]];
    }

    /** `top()`: the list's `first`, what `pop()` would return. */
    function Top(): (r: Option<T>)
      reads this, linkedList
      requires Valid()
      ensures r == Popped(Elements()).1
    {
      ReversedHead(linkedList.chain);
      linkedList.First()
    }
  }

  /** The last element of a reversed sequence is its first. */
  lemma ReversedHead<T>(s: seq<T>)
    ensures |Reversed(s)| == |s|
    ensures s != [] ==> Reversed(s)[|s| - 1] == s[0]
  {
    ReversedLength(s);
  }

  lemma {:induction false} ReversedLength<T>(s: seq<T>)
    ensures |Reversed(s)| == |s|
  {
    if s != [] {
      ReversedLength(s[1..]);
    }
  }
}
