/** `Vector<T>` of search/vector.h: a growable array whose capacity starts at
    16 and doubles whenever a push finds it full. The C++ `data` pointer is
    null while the capacity is 0; here it is then an array of length 0. */
module Vectors {

  const INITIAL_CAPACITY: nat := 16

  /** The capacity `resize` moves to from `capacity`. */
  function GrownCapacity(capacity: nat): (r: nat)
    ensures r > capacity
    ensures capacity > 0 ==> r == 2 * capacity
  {
    if capacity == 0 then INITIAL_CAPACITY else capacity * 2
  }

  class Vector<T(0)> {
    var data: array<T>
    var size: nat
    var capacity: nat

    /** The buffer is exactly `capacity` long and holds the `size` elements in front. */
    ghost predicate Valid()
      reads this
    {
      size <= capacity && capacity == data.Length
    }

    /** The elements, in index order. */
    ghost function Contents(): seq<T>
      reads this, data
      requires Valid()
    {
      data[..size]
    }

    constructor ()
      ensures Valid() && fresh(data)
      ensures size == 0 && capacity == 0 && Contents() == []
    {
      data := new T[0];
      size := 0;
      capacity := 0;
    }

    /** The copy constructor: same size, same capacity, same elements, own buffer. */
    constructor Copy(other: Vector<T>)
      requires other.Valid()
      ensures Valid() && fresh(data)
      ensures size == other.size && capacity == other.capacity
      ensures Contents() == other.Contents()
    {
      size := other.size;
      capacity := other.capacity;
      var buffer := new T[other.capacity];
      var i := 0;
      while i < other.size
        invariant 0 <= i <= other.size
        invariant buffer[..i] == other.data[..i]
      {
        buffer[i] := other.data[i];
        i := i + 1;
      }
      data := buffer;
    }

    /** `operator=`: copies size, capacity and elements of `other` into a fresh
        buffer; assigning a vector to itself changes nothing. */
    method Assign(other: Vector<T>)
      requires Valid() && other.Valid()
      modifies this
      ensures Valid()
      ensures size == old(other.size) && capacity == old(other.capacity)
      ensures Contents() == old(other.Contents())
      ensures other == this ==> data == old(data)
      ensures other != this ==> fresh(data)
    {
      if other != this {
        var buffer := new T[other.capacity];
        var i := 0;
        while i < other.size
          invariant 0 <= i <= other.size
          invariant buffer[..i] == other.data[..i]
          modifies buffer
        {
          buffer[i] := other.data[i];
          i := i + 1;
        }
        size := other.size;
        capacity := other.capacity;
        data := buffer;
      }
    }

    /** `resize`: moves the elements into a buffer of the grown capacity. */
    method Resize()
      requires Valid()
      modifies this
      ensures Valid() && fresh(data)
      ensures capacity == GrownCapacity(old(capacity))
      ensures size == old(size) && Contents() == old(Contents())
    {
      var newCapacity := GrownCapacity(capacity);
      var newData := new T[newCapacity];
      var i := 0;
      while i < size
        invariant 0 <= i <= size
        invariant newData[..i] == data[..i]
        modifies newData
      {
        newData[i] := data[i];
        i := i + 1;
      }
      data := newData;
      capacity := newCapacity;
    }

    /** `push_back`: the value lands at index `old(size)`, earlier elements stay,
        and the buffer grows only when it was full. */
    method PushBack(value: T)
      requires Valid()
      modifies this, data
      ensures Valid()
      ensures size == old(size) + 1
      ensures Contents() == old(Contents()) + [value]
      ensures old(size) < old(capacity) ==> capacity == old(capacity) && data == old(data)
      ensures old(size) == old(capacity) ==> capacity == GrownCapacity(old(capacity)) && fresh(data)
    {
      if size >= capacity {
        Resize();
      }
      data[size] := value;
      size := size + 1;
    }

    /** Reading `operator[]`; the C++ operator checks nothing, so the index must be in range. */
    method Get(index: nat) returns (value: T)
      requires Valid() && index < size
      ensures value == Contents()[index]
    {
      value := data[index];
    }

    /** Writing through the reference that `operator[]` returns. */
    method Set(index: nat, value: T)
      requires Valid() && index < size
      modifies data
      ensures Valid()
      ensures Contents() == old(Contents())[index := value]
    {
      data[index] := value;
    }

    method GetSize() returns (n: nat)
      requires Valid()
      ensures n == |Contents()|
    {
      n := size;
    }

    method Empty() returns (e: bool)
      requires Valid()
      ensures e <==> Contents() == []
    {
      e := size == 0;
    }

    /** `clear` forgets the elements and keeps the buffer and its capacity. */
    method Clear()
      requires Valid()
      modifies this
      ensures Valid()
      ensures Contents() == [] && capacity == old(capacity) && data == old(data)
    {
      size := 0;
    }
  }

  /** A client: pushes land in order, and the seventeenth push doubles the
      capacity from 16 to 32 without disturbing the first sixteen elements. */
  method PushSeventeen(x: int) returns (v: Vector<int>)
    ensures v.Valid()
    ensures v.Contents() == seq(17, i => x)
    ensures v.capacity == 32
  {
    v := new Vector<int>();
    var i := 0;
    while i < 17
      invariant 0 <= i <= 17
      invariant v.Valid() && fresh(v) && fresh(v.data)
      invariant v.Contents() == seq(i, k => x)
      invariant v.capacity == (if i == 0 then 0 else if i <= 16 then 16 else 32)
    {
      v.PushBack(x);
      i := i + 1;
    }
  }
}
