/** The three first-in first-out queues of LearnDataStructures/Queue/Queue.swift:
    `ArrayQueue` over a growable array, `LazyQueue` over an array of optional
    slots whose vacated front is dropped now and then, and `LinkedListQueue`
    over a `LinkedList` with a tail pointer. */
module Queues {
  import opened Wrappers
  import opened Sequences
  import opened LinkedLists

  /** The reference queue: enqueueing adds at the back, dequeueing takes the
      front off, or yields nothing on an empty queue. `s` lists the elements
      front first. */
  function Enqueued<T>(s: seq<T>, x: T): seq<T> {
    s + [x]
  }

  function Dequeued<T>(s: seq<T>): (r: (seq<T>, Option<T>))
    ensures s == [] ==> r == (s, None)
    ensures s != [] ==> r.1 == Some(s[0]) && [s[0]] + r.0 == s
  {
    if s == [] then (s, None) else (s[1..], Some(s[0]))
  }

  /** On a non-empty queue, enqueueing does not change what comes out first;
      on an empty one, it is what comes out. */
  lemma EnqueueBehindFront<T>(s: seq<T>, x: T)
    ensures s == [] ==> Dequeued(Enqueued(s, x)) == ([], Some(x))
    ensures s != [] ==> Dequeued(Enqueued(s, x)) == (Enqueued(Dequeued(s).0, x), Dequeued(s).1)
  {
    if s != [] {
      assert (s + [x])[1..] == s[1..] + [x];
    }
  }

  /** Dequeues `n` times, collecting the values that come out. */
  function DequeueTimes<T>(s: seq<T>, n: nat): (seq<T>, seq<T>)
    requires n <= |s|
  {
    if n == 0 then (s, [])
    else
      var (rest, front) := Dequeued(s);
      var (left, later) := DequeueTimes(rest, n - 1);
      (left, [front.value] + later)
  }

  /** First in, first out: whatever was queued before `xs` comes out first, in
      the order it went in, and leaves `xs` behind. */
  lemma {:induction false} FirstInFirstOut<T>(s: seq<T>, xs: seq<T>)
    ensures DequeueTimes(s + xs, |s|) == (xs, s)
    decreases |s|
  {
    if s != [] {
      assert (s + xs)[1..] == s[1..] + xs;
      assert Dequeued(s + xs) == (s[1..] + xs, Some(s[0]));
      FirstInFirstOut(s[1..], xs);
      assert [s[0]] + s[1..] == s;
      assert DequeueTimes(s + xs, |s|) == (DequeueTimes(s[1..] + xs, |s| - 1).0, [s[0]] + DequeueTimes(s[1..] + xs, |s| - 1).1);
    } else {
      assert s + xs == xs;
    }
  }

  class ArrayQueue<T> {
    /** The queued values, front first. */
    var items: seq<T>

    constructor ()
      ensures items == []
    {
      items := [];
    }

    function IsEmpty(): (b: bool)
      reads this
      ensures b <==> items == []
    {
      |items| == 0
    }

    function Count(): (n: nat)
      reads this
      ensures n == |items|
    {
      |items|
    }

    method Enqueue(element: T)
      modifies this
      ensures items == Enqueued(old(items), element)
    {
      items := items + [element];
    }

    /** `dequeue()`: nil when empty, otherwise `removeFirst()` on the array. */
    method Dequeue() returns (r: Option<T>)
      modifies this
      ensures (items, r) == Dequeued(old(items))
    {
      if IsEmpty() {
        return None;
      }
      r := Some(items[0]);
      items := items[1..];
    }

    /** `front`: what `dequeue()` would return. */
    function Front(): (r: Option<T>)
      reads this
      ensures r == Dequeued(items).1
    {
      if |items| == 0 then None else Some(items[0])
    }
  }

  // LazyQueue

  /** The array of optional slots and the index `head` of the front slot. */
  datatype LazyState<T> = LazyState(slots: seq<Option<T>>, head: int)

  /** Every slot before `head` has been vacated; every slot from `head` on
      holds a queued value. */
  predicate LazyValid<T>(q: LazyState<T>) {
    0 <= q.head <= |q.slots| &&
    (forall i :: 0 <= i < q.head ==> q.slots[i].None?) &&
    (forall i :: q.head <= i < |q.slots| ==> q.slots[i].Some?)
  }

  /** The vacated front never exceeds 50 slots or a quarter of the array. */
  predicate LazyCompact<T>(q: LazyState<T>) {
    q.head <= 50 || 4 * q.head <= |q.slots|
  }

  /** The values of a run of filled slots. */
  function Present<T>(slots: seq<Option<T>>): (r: seq<T>)
    requires forall i :: 0 <= i < |slots| ==> slots[i].Some?
    ensures |r| == |slots|
    ensures forall i :: 0 <= i < |slots| ==> slots[i] == Some(r[i])
  {
    if slots == [] then [] else [slots[0].value] + Present(slots[1..])
  }

  /** The queued values, front first. */
  function LazyElements<T>(q: LazyState<T>): seq<T>
    requires LazyValid(q)
  {
    Present(q.slots[q.head..])
  }

  function LazyCount<T>(q: LazyState<T>): (n: int)
    requires LazyValid(q)
    ensures n == |LazyElements(q)|
  {
    |q.slots| - q.head
  }

  /** `enqueue`: append a filled slot. */
  function LazyEnqueued<T>(q: LazyState<T>, x: T): LazyState<T> {
    LazyState(q.slots + [Some(x)], q.head)
  }

  /** `dequeue()`: nil when `head` is past the end; otherwise vacate the front
      slot, advance `head` and, when the array has more than 50 slots and the
      vacated share of it exceeds a quarter, drop the vacated slots. */
  function LazyDequeued<T>(q: LazyState<T>): (LazyState<T>, Option<T>)
    requires LazyValid(q)
  {
    if q.head >= |q.slots| then (q, None)
    else
      var slots := q.slots[q.head := None];
      var head := q.head + 1;
      if |slots| > 50 && 4 * head > |slots| then (LazyState(slots[head..], 0), q.slots[q.head])
      else (LazyState(slots, head), q.slots[q.head])
  }

  /** `front`: nil when empty, otherwise the front slot. */
  function LazyFront<T>(q: LazyState<T>): (r: Option<T>)
    requires LazyValid(q)
    ensures r == Dequeued(LazyElements(q)).1
  {
    if LazyCount(q) == 0 then None else q.slots[q.head]
  }

  /** Enqueueing keeps the slots valid, adds the value at the back of the queue
      and keeps the vacated front bounded. */
  lemma LazyEnqueueRefines<T>(q: LazyState<T>, x: T)
    requires LazyValid(q)
    ensures LazyValid(LazyEnqueued(q, x))
    ensures LazyElements(LazyEnqueued(q, x)) == Enqueued(LazyElements(q), x)
    ensures LazyCompact(q) ==> LazyCompact(LazyEnqueued(q, x))
  {
    var r := LazyEnqueued(q, x);
    assert r.slots[r.head..] == q.slots[q.head..] + [Some(x)];
  }

  /** Dequeueing keeps the slots valid, takes the front of the queue off, and
      leaves the vacated front bounded: whatever it was before when a value
      comes out, and bounded as before otherwise. */
  lemma LazyDequeueRefines<T>(q: LazyState<T>)
    requires LazyValid(q)
    ensures LazyValid(LazyDequeued(q).0)
    ensures (LazyElements(LazyDequeued(q).0), LazyDequeued(q).1) == Dequeued(LazyElements(q))
    ensures q.head < |q.slots| ==> LazyCompact(LazyDequeued(q).0)
    ensures LazyCompact(q) ==> LazyCompact(LazyDequeued(q).0)
  {
    if q.head < |q.slots| {
      var slots := q.slots[q.head := None];
      var head := q.head + 1;
      assert slots[head..] == q.slots[head..];
      assert q.slots[q.head..][1..] == q.slots[head..];
      var r := LazyDequeued(q).0;
      assert r.slots[r.head..] == q.slots[head..];
    }
  }

  class LazyQueue<T> {
    var items: seq<Option<T>>
    var head: int

    function State(): LazyState<T>
      reads this
    {
      LazyState(items, head)
    }

    ghost predicate Valid()
      reads this
    {
      LazyValid(State()) && LazyCompact(State())
    }

    constructor ()
      ensures State() == LazyState([], 0) && Valid()
    {
      items := [];
      head := 0;
    }

    function IsEmpty(): (b: bool)
      reads this
      requires Valid()
      ensures b <==> LazyElements(State()) == []
    {
      Count() == 0
    }

    function Count(): (n: int)
      reads this
      requires Valid()
      ensures n == |LazyElements(State())|
    {
      |items| - head
    }

    method Enqueue(element: T)
      requires Valid()
      modifies this
      ensures State() == LazyEnqueued(old(State()), element) && Valid()
      ensures LazyElements(State()) == Enqueued(old(LazyElements(State())), element)
    {
      LazyEnqueueRefines(State(), element);
      items := items + [Some(element)];
    }

    method Dequeue() returns (r: Option<T>)
      requires Valid()
      modifies this
      ensures (State(), r) == LazyDequeued(old(State())) && Valid()
      ensures (LazyElements(State()), r) == Dequeued(old(LazyElements(State())))
    {
      LazyDequeueRefines(State());
      if head >= |items| || items[head].None? {
        return None;
      }
      r := items[head];
      items := items[head := None];
      head := head + 1;
      if |items| > 50 && 4 * head > |items| {
        items := items[head..];
        head := 0;
      }
    }

    function Front(): (r: Option<T>)
      reads this
      requires Valid()
      ensures r == Dequeued(LazyElements(State())).1
    {
      if IsEmpty() then None else items[head]
    }
  }

  class LinkedListQueue<T(==)> {
    const linkedList: LinkedList<T>

    /** Only `append` and `removeFirst()` touch the list, so it stays
        coherent. */
    ghost predicate Valid()
      reads this, linkedList
    {
      Coherent(linkedList.State())
    }

    constructor ()
      ensures Valid() && fresh(linkedList) && linkedList.chain == []
    {
      linkedList := new LinkedList<T>();
    }

    function IsEmpty(): (b: bool)
      reads this, linkedList
      requires Valid()
      ensures b <==> linkedList.chain == []
    {
      linkedList.IsEmpty()
    }

    function Count(): (n: int)
      reads this, linkedList
      requires Valid()
      ensures n == |linkedList.chain|
    {
      linkedList.Count()
    }

    method Enqueue(element: T)
      requires Valid()
      modifies linkedList
      ensures Valid()
      ensures linkedList.chain == Enqueued(old(linkedList.chain), element)
    {
      linkedList.Append(element);
    }

    /** `dequeue()`: nil when empty, otherwise `removeFirst()`. */
    method Dequeue() returns (r: Option<T>)
      requires Valid()
      modifies linkedList
      ensures Valid()
      ensures (linkedList.chain, r) == Dequeued(old(linkedList.chain))
    {
      if IsEmpty() {
        return None;
      }
      ghost var c := linkedList.chain;
      RemoveCoherent(linkedList.State(), 0);
      var x := linkedList.RemoveFirst();
      r := Some(x);
      assert RemoveAt(c, 0) == c[1..];
    }

    /** `front`: the list's `first`, what `dequeue()` would return. */
    function Front(): (r: Option<T>)
      reads this, linkedList
      requires Valid()
      ensures r == Dequeued(linkedList.chain).1
    {
      linkedList.First()
    }
  }
}
