/** The growable array of LearnDataStructures/Array/ArrayList.swift: a backing
    buffer `data` whose length is the capacity, and a logical `size`. The buffer
    doubles when an insertion finds it full and halves when a removal leaves it
    a quarter full. */
module Arrays {
  import opened Wrappers
  import opened Sequences

  /** The loop of `insert(_:at:)`: moves the slots `[from, to)` one place
      right, from the high end down; slot `from` keeps its old value. */
  method ShiftRight<T>(a: array<T>, from: int, to: int)
    requires 0 <= from <= to < a.Length
    modifies a
    ensures forall k :: 0 <= k <= from ==> a[k] == old(a[k])
    ensures forall k :: from < k <= to ==> a[k] == old(a[k - 1])
    ensures forall k :: to < k < a.Length ==> a[k] == old(a[k])
  {
    for index := to downto from
      invariant forall k :: 0 <= k <= index ==> a[k] == old(a[k])
      invariant forall k :: index < k <= to ==> a[k] == old(a[k - 1])
      invariant forall k :: to < k < a.Length ==> a[k] == old(a[k])
    {
      a[index + 1] := a[index];
    }
  }

  /** The loop of `remove(at:)`: moves the slots `(at, to)` one place left,
      from the low end up, overwriting slot `at`; slot `to - 1` keeps its old
      value. */
  method ShiftLeft<T>(a: array<T>, at: int, to: int)
    requires 0 <= at < to <= a.Length
    modifies a
    ensures forall k :: 0 <= k < at ==> a[k] == old(a[k])
    ensures forall k :: at <= k < to - 1 ==> a[k] == old(a[k + 1])
    ensures forall k :: to - 1 <= k < a.Length ==> a[k] == old(a[k])
  {
    for i := at + 1 to to
      invariant forall k :: 0 <= k < at ==> a[k] == old(a[k])
      invariant forall k :: at <= k < i - 1 ==> a[k] == old(a[k + 1])
      invariant forall k :: i - 1 <= k < a.Length ==> a[k] == old(a[k])
    {
      a[i - 1] := a[i];
    }
  }

  class ArrayList<T(==)> {
    var data: array<T>
    var size: int
    /** The value that fills unused slots of a fresh buffer. */
    const initialValue: T

    ghost predicate Valid()
      reads this
    {
      0 <= size <= data.Length
    }

    /** The live elements, positions `[0, size)` of the buffer. */
    ghost function Elements(): seq<T>
      reads this, data
      requires Valid()
    {
      data[..size]
    }

    function Count(): (n: int)
      reads this, data
      requires Valid()
      ensures n == |Elements()|
    {
      size
    }

    function Capacity(): (c: int)
      reads this
      requires Valid()
      ensures c >= Count()
    {
      data.Length
    }

    function IsEmpty(): (b: bool)
      reads this, data
      requires Valid()
      ensures b <==> Elements() == []
    {
      size == 0
    }

    /** `init(capacity:initialValue:)`: an empty list with the given capacity. */
    constructor WithCapacity(capacity: nat, initialValue: T)
      ensures Valid() && fresh(data)
      ensures Elements() == [] && data.Length == capacity
      ensures forall k :: 0 <= k < capacity ==> data[k] == initialValue
      ensures this.initialValue == initialValue
    {
      data := new T[capacity](_ => initialValue);
      this.initialValue := initialValue;
      size := 0;
    }

    /** `init(initialValue:)`: an empty list of capacity 0. */
    constructor (initialValue: T)
      ensures Valid() && fresh(data)
      ensures Elements() == [] && data.Length == 0
      ensures this.initialValue == initialValue
    {
      data := new T[0];
      this.initialValue := initialValue;
      size := 0;
    }

    /** `init(array:initialValue:)`: the list holds `items`, and is full. */
    constructor FromArray(items: seq<T>, initialValue: T)
      ensures Valid() && fresh(data)
      ensures Elements() == items && data.Length == |items|
      ensures this.initialValue == initialValue
    {
      data := new T[|items|](k requires 0 <= k < |items| => items[k]);
      this.initialValue := initialValue;
      size := |items|;
      new;
      assert data[..] == items;
    }

    /** Subscript read; an index outside `[0, count)` is a fatal error. */
    function Get(index: int): (x: T)
      reads this, data
      requires Valid()
      requires 0 <= index < size
      ensures x == Elements()[index]
    {
      data[index]
    }

    /** Subscript write: only slot `index` changes. */
    method Set(index: int, newValue: T)
      requires Valid()
      requires 0 <= index < size
      modifies data
      ensures Valid()
      ensures Elements() == old(Elements())[index := newValue]
      ensures size == old(size)
    {
      data[index] := newValue;
    }

    function First(): (r: Option<T>)
      reads this, data
      requires Valid()
      ensures r == if Elements() == [] then None else Some(Elements()[0])
    {
      if size > 0 then Some(data[0]) else None
    }

    function Last(): (r: Option<T>)
      reads this, data
      requires Valid()
      ensures r == if Elements() == [] then None else Some(Elements()[|Elements()| - 1])
    {
      if size > 0 then Some(data[size - 1]) else None
    }

    /** `resize(to:)`: moves the live elements, in order, into a fresh buffer of
        length `newCapacity` whose other slots hold `initialValue`. */
    method Resize(newCapacity: int)
      requires Valid()
      requires newCapacity >= size
      modifies this
      ensures Valid() && fresh(data)
      ensures data.Length == newCapacity
      ensures Elements() == old(Elements())
      ensures size == old(size)
      ensures forall k :: size <= k < newCapacity ==> data[k] == initialValue
    {
      var newData := new T[newCapacity](_ => initialValue);
      for i := 0 to size
        modifies newData
        invariant forall k :: 0 <= k < i ==> newData[k] == data[k]
        invariant forall k :: size <= k < newCapacity ==> newData[k] == initialValue
      {
        newData[i] := data[i];
      }
      data := newData;
    }

    /** `insert(_:at:)`: grows a full buffer to twice its capacity (or to 1 from
        0), shifts `[i, size)` one slot right from the high end down, and writes
        the new element at `i`. */
    method Insert(newElement: T, i: int)
      requires Valid()
      requires 0 <= i <= size
      modifies this, data
      ensures Valid()
      ensures Elements() == InsertAt(old(Elements()), i, newElement)
      ensures size == old(size) + 1
      ensures data.Length ==
        if old(size) == old(data.Length) then
          (if old(data.Length) == 0 then 1 else 2 * old(data.Length))
        else old(data.Length)
    {
      if size == data.Length {
        if data.Length == 0 {
          Resize(1);
        } else {
          Resize(2 * data.Length);
        }
      }
      ghost var s := data[..size];
      ShiftRight(data, i, size);
      data[i] := newElement;
      size := size + 1;
      assert Elements() == InsertAt(s, i, newElement);
    }

    method Append(newElement: T)
      requires Valid()
      modifies this, data
      ensures Valid()
      ensures Elements() == old(Elements()) + [newElement]
      ensures size == old(size) + 1
    {
      Insert(newElement, size);
    }

    /** `remove(at:)`: returns the element at `index`, shifts the tail left,
        and halves the capacity when the count drops to a quarter of it (unless
        half the capacity would be 0). */
    method RemoveAt(index: int) returns (ret: T)
      requires Valid()
      requires 0 <= index < size
      modifies this, data
      ensures Valid()
      ensures ret == old(Elements())[index]
      ensures Elements() == Sequences.RemoveAt(old(Elements()), index)
      ensures size == old(size) - 1
      ensures data.Length ==
        if size == old(data.Length) / 4 && old(data.Length) / 2 != 0 then old(data.Length) / 2
        else old(data.Length)
    {
      ret := data[index];
      ghost var s := data[..size];
      ShiftLeft(data, index, size);
      size := size - 1;
      assert Elements() == Sequences.RemoveAt(s, index);
      if size == data.Length / 4 && data.Length / 2 != 0 {
        Resize(data.Length / 2);
      }
    }

    method RemoveFirst() returns (ret: T)
      requires Valid()
      requires size > 0
      modifies this, data
      ensures Valid()
      ensures ret == old(Elements())[0]
      ensures Elements() == old(Elements())[1..]
      ensures size == old(size) - 1
    {
      ret := RemoveAt(0);
    }

    method RemoveLast() returns (ret: T)
      requires Valid()
      requires size > 0
      modifies this, data
      ensures Valid()
      ensures ret == old(Elements())[old(size) - 1]
      ensures Elements() == old(Elements())[..old(size) - 1]
      ensures size == old(size) - 1
    {
      ret := RemoveAt(size - 1);
    }

    /** `contains(_:)`: a linear scan of the live elements. */
    method Contains(element: T) returns (found: bool)
      requires Valid()
      ensures found <==> element in Elements()
    {
      if size == 0 {
        return false;
      }
      for i := 0 to size
        invariant element !in data[..i]
      {
        if data[i] == element {
          assert data[..size][i] == element;
          return true;
        }
      }
      assert data[..size] == data[..size];
      return false;
    }

    /** `firstIndex(of:)`: the smallest live index holding `element`, or nil. */
    method FirstIndex(element: T) returns (r: Option<int>)
      requires Valid()
      ensures r.None? <==> element !in Elements()
      ensures r.Some? ==>
        0 <= r.value < size && Elements()[r.value] == element &&
        forall k :: 0 <= k < r.value ==> Elements()[k] != element
    {
      if size == 0 {
        return None;
      }
      for i := 0 to size
        invariant forall k :: 0 <= k < i ==> data[k] != element
      {
        if data[i] == element {
          return Some(i);
        }
      }
      return None;
    }
  }
}
