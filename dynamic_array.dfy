/**
 * The growable array `Array<T, capacityInc>` of array/Array.h: a heap buffer
 * of `capacity` slots of which the first `size` hold the elements, grown by a
 * capacity-increase function that is a template parameter of the type.
 */
module DynamicArray {
  import opened Memory

  /**
   * _ArrayCapacityIncrease, the default growth rule: 0 becomes 2, a capacity
   * below 5 becomes twice its successor, and a larger one is multiplied by
   * 1.618 and truncated (written here in integers, see README).
   */
  function CapacityIncrease(current: nat): (r: nat)
    ensures current < r <= 2 * current + 2
  {
    if current == 0 then 2
    else if current < 5 then (current + 1) * 2
    else current * 1618 / 1000
  }

  /** A capacity-increase function the array can rely on: it yields more room than it was given. */
  ghost predicate Grows(f: nat -> nat)
  {
    forall c: nat :: c < f(c)
  }

  /** The default growth rule is one the array can rely on. */
  lemma CapacityIncreaseGrows()
    ensures Grows(CapacityIncrease)
  {
    forall c: nat ensures c < CapacityIncrease(c) {
      assert c < CapacityIncrease(c);
    }
  }

  /** The first steps of the default growth rule, starting from an empty buffer and from the default array. */
  lemma CapacityIncreaseSteps()
    ensures CapacityIncrease(0) == 2 && CapacityIncrease(2) == 6 && CapacityIncrease(6) == 9
    ensures CapacityIncrease(1) == 4 && CapacityIncrease(4) == 10 && CapacityIncrease(10) == 16
    ensures CapacityIncrease(16) == 25 && CapacityIncrease(100) == 161
  {
  }

  /** How many times `v` occurs in `s`. */
  function Count<T(==)>(s: seq<T>, v: T): (n: nat)
    ensures n <= |s|
  {
    if s == [] then 0 else Count(s[..|s| - 1], v) + (if s[|s| - 1] == v then 1 else 0)
  }

  /** `s` with every occurrence of `v` taken out, the other elements kept in order. */
  function Without<T(==)>(s: seq<T>, v: T): (r: seq<T>)
    ensures |r| + Count(s, v) == |s|
  {
    if s == [] then [] else Without(s[..|s| - 1], v) + (if s[|s| - 1] == v then [] else [s[|s| - 1]])
  }

  /** Count is the multiplicity of `v` in `s`. */
  lemma {:induction false} CountIsMultiplicity<T>(s: seq<T>, v: T)
    ensures Count(s, v) == multiset(s)[v]
  {
    if s != [] {
      assert s == s[..|s| - 1] + [s[|s| - 1]];
      CountIsMultiplicity(s[..|s| - 1], v);
    }
  }

  /** Without keeps every element other than `v` as often as `s` holds it, and no `v` at all. */
  lemma {:induction false} WithoutMultiset<T>(s: seq<T>, v: T)
    ensures multiset(Without(s, v)) == multiset(s)[v := 0]
    ensures v !in Without(s, v)
  {
    if s != [] {
      assert s == s[..|s| - 1] + [s[|s| - 1]];
      WithoutMultiset(s[..|s| - 1], v);
      assert v !in multiset(Without(s, v));
    }
  }

  /** Extending a prefix by one element adds one to the count exactly when that element is `v`. */
  lemma CountPrefixStep<T>(s: seq<T>, v: T, i: nat)
    requires i < |s|
    ensures Count(s[..i + 1], v) == Count(s[..i], v) + (if s[i] == v then 1 else 0)
  {
    assert s[..i + 1][..i] == s[..i];
  }

  /** Extending a prefix by one element keeps that element in the filtered prefix exactly when it is not `v`. */
  lemma WithoutPrefixStep<T>(s: seq<T>, v: T, i: nat)
    requires i < |s|
    ensures Without(s[..i + 1], v) == Without(s[..i], v) + (if s[i] == v then [] else [s[i]])
  {
    assert s[..i + 1][..i] == s[..i];
  }

  /** Longer prefixes never hold fewer occurrences, and passing an occurrence adds one. */
  lemma {:induction false} CountPrefixMono<T>(s: seq<T>, v: T, i: nat, j: nat)
    requires i < j <= |s| && s[i] == v
    ensures Count(s[..i], v) < Count(s[..j], v)
    decreases j - i
  {
    CountPrefixStep(s, v, j - 1);
    if i < j - 1 {
      CountPrefixMono(s, v, i, j - 1);
    }
  }

  /** `k` is the position of the `n`-th occurrence of `v` in `s` (counting from 1). */
  ghost predicate IsNthOccurrence<T>(s: seq<T>, v: T, n: nat, k: nat)
  {
    k < |s| && s[k] == v && Count(s[..k], v) + 1 == n
  }

  /** The `n`-th occurrence, when there is one, sits at one position only. */
  lemma NthOccurrenceUnique<T>(s: seq<T>, v: T, n: nat, k1: nat, k2: nat)
    requires IsNthOccurrence(s, v, n, k1) && IsNthOccurrence(s, v, n, k2)
    ensures k1 == k2
  {
    if k1 < k2 {
      CountPrefixMono(s, v, k1, k2);
    } else if k2 < k1 {
      CountPrefixMono(s, v, k2, k1);
    }
  }

  /** Occurrences are counted from 1: there is no 0-th occurrence. */
  lemma NoZerothOccurrence<T>(s: seq<T>, v: T, k: nat)
    ensures !IsNthOccurrence(s, v, 0, k)
  {
  }

  class Array<T(0,==)> {
    var data: array<T>
    var size: nat
    var capacity: nat
    /** The `capacityInc` template parameter. */
    const capacityInc: nat -> nat
    ghost var Repr: set<object>

    ghost predicate Valid()
      reads this, Repr
    {
      Repr == {this, data} && data.Length == capacity && size <= capacity && Grows(capacityInc)
    }

    /** The elements held, in order. */
    function Elements(): seq<T>
      reads this, data
      requires size <= data.Length
    {
      data[..size]
    }

    /** Default constructor: room for one element, none held. */
    constructor (grow: nat -> nat)
      requires Grows(grow)
      ensures Valid() && fresh(Repr)
      ensures Elements() == [] && capacity == 1 && capacityInc == grow
    {
      data := new T[1];
      size := 0;
      capacity := 1;
      capacityInc := grow;
      Repr := {this, data};
    }

    /** Initializer-list constructor: exactly as much room as there are elements. */
    constructor FromList(grow: nat -> nat, il: seq<T>)
      requires Grows(grow)
      ensures Valid() && fresh(Repr)
      ensures Elements() == il && capacity == |il| && capacityInc == grow
    {
      var a := new T[|il|];
      MemCopy(a, 0, il);
      data := a;
      size := |il|;
      capacity := |il|;
      capacityInc := grow;
      Repr := {this, data};
    }

    /** Copy constructor: the same elements in a new buffer of the other array's capacity. */
    constructor Copy(other: Array<T>)
      requires other.Valid()
      ensures Valid() && fresh(Repr)
      ensures Elements() == other.Elements() && capacity == other.capacity && capacityInc == other.capacityInc
    {
      var a := new T[other.capacity];
      MemCopy(a, 0, other.Elements());
      data := a;
      size := other.size;
      capacity := other.capacity;
      capacityInc := other.capacityInc;
      Repr := {this, data};
    }

    /** Number of elements held. */
    function Size(): (n: nat)
      reads Repr
      requires Valid()
      ensures n == |Elements()|
    {
      size
    }

    /** Number of elements the buffer holds without reallocating. */
    function Capacity(): (c: nat)
      reads Repr
      requires Valid()
      ensures |Elements()| <= c
    {
      capacity
    }

    /** Moves the elements to a fresh buffer of `newCapacity` slots; the elements that do not fit are dropped. */
    method Reallocate(newCapacity: nat)
      requires Valid()
      modifies Repr
      ensures Valid() && fresh(data) && capacity == newCapacity
      ensures Elements() == old(Elements())[..if newCapacity < old(size) then newCapacity else old(size)]
    {
      var newData := new T[newCapacity];
      if newCapacity < size {
        size := newCapacity;
      }
      MemCopy(newData, 0, data[..size]);
      data := newData;
      capacity := newCapacity;
      Repr := {this, data};
    }

    /** Grows the buffer to what the capacity-increase function gives for the current capacity. */
    method IncreaseCapacityFromAllocator()
      requires Valid()
      modifies Repr
      ensures Valid() && fresh(data)
      ensures Elements() == old(Elements()) && capacity == capacityInc(old(capacity))
    {
      Reallocate(capacityInc(capacity));
    }

    /** The element at `index`; the source aborts on an index at or past the size. */
    function At(index: nat): (v: T)
      reads Repr
      requires Valid() && index < |Elements()|
      ensures v == Elements()[index]
    {
      data[index]
    }

    /** Reallocates to `newCapacity` only when that is more than the current capacity. */
    method Reserve(newCapacity: nat)
      requires Valid()
      modifies Repr
      ensures Valid() && fresh(Repr - old(Repr))
      ensures Elements() == old(Elements())
      ensures capacity == if newCapacity > old(capacity) then newCapacity else old(capacity)
    {
      if newCapacity > capacity {
        Reallocate(newCapacity);
      }
    }

    /** Reallocates to `extraCapacity` more slots than the current capacity. */
    method ReserveExtra(extraCapacity: nat)
      requires Valid()
      modifies Repr
      ensures Valid() && fresh(Repr - old(Repr))
      ensures Elements() == old(Elements()) && capacity == old(capacity) + extraCapacity
    {
      Reallocate(capacity + extraCapacity);
    }

    /** Appends `value`, growing the buffer first when it is full. */
    method Add(value: T)
      requires Valid()
      modifies Repr
      ensures Valid() && fresh(Repr - old(Repr))
      ensures Elements() == old(Elements()) + [value]
      ensures capacity == if old(size) == old(capacity) then capacityInc(old(capacity)) else old(capacity)
    {
      if size == capacity {
        IncreaseCapacityFromAllocator();
      }
      data[size] := value;
      size := size + 1;
    }

    /**
     * Appends the elements of `items` (an initializer list, or a pointer and a
     * count).  When the result would reach or pass the capacity, the buffer is
     * first reallocated to exactly the new size.
     */
    method InsertElements(items: seq<T>)
      requires Valid()
      modifies Repr
      ensures Valid() && fresh(Repr - old(Repr))
      ensures Elements() == old(Elements()) + items
      ensures capacity == if old(size) + |items| >= old(capacity) then old(size) + |items| else old(capacity)
    {
      if size + |items| >= capacity {
        Reallocate(size + |items|);
      }
      var i := 0;
      while i < |items|
        modifies this`size, data
        invariant size <= data.Length
        invariant 0 <= i <= |items| && size == old(size) + i
        invariant Elements() == old(Elements()) + items[..i]
      {
        data[size] := items[i];
        size := size + 1;
        i := i + 1;
        assert items[..i] == items[..i - 1] + [items[i - 1]];
      }
      assert items[..i] == items;
    }

    /**
     * Appends the elements of another array.  Unlike InsertElements, the
     * buffer is reallocated only when the new size passes the capacity.
     */
    method AppendArray(other: Array<T>)
      requires Valid() && other.Valid() && other != this && Repr !! other.Repr
      modifies Repr
      ensures Valid() && fresh(Repr - old(Repr))
      ensures Elements() == old(Elements()) + other.Elements()
      ensures capacity == if old(size) + other.size > old(capacity) then old(size) + other.size else old(capacity)
    {
      var newSize := size + other.size;
      if newSize > capacity {
        Reallocate(newSize);
      }
      var i := 0;
      while i < other.size
        modifies this`size, data
        invariant size <= data.Length
        invariant 0 <= i <= other.size && size == old(size) + i
        invariant Elements() == old(Elements()) + other.Elements()[..i]
      {
        data[size] := other.data[i];
        size := size + 1;
        i := i + 1;
        assert other.Elements()[..i] == other.Elements()[..i - 1] + [other.Elements()[i - 1]];
      }
      assert other.Elements()[..i] == other.Elements();
    }

    /** Whether `element` is held, and the index of its first occurrence. */
    method Contains(element: T) returns (found: bool, index: nat)
      requires Valid()
      ensures found <==> element in Elements()
      ensures found ==> index < |Elements()| && Elements()[index] == element && element !in Elements()[..index]
    {
      var i := 0;
      while i < size
        invariant 0 <= i <= size
        invariant element !in Elements()[..i]
      {
        if element == At(i) {
          return true, i;
        }
        assert Elements()[..i + 1] == Elements()[..i] + [Elements()[i]];
        i := i + 1;
      }
      assert Elements()[..i] == Elements();
      return false, 0;
    }

    /** The index of the `occurrence`-th occurrence of `element` (counting from 1), if there is one. */
    method Find(element: T, occurrence: nat) returns (found: bool, index: nat)
      requires Valid()
      ensures found <==> exists k: nat :: IsNthOccurrence(Elements(), element, occurrence, k)
      ensures found ==> IsNthOccurrence(Elements(), element, occurrence, index)
    {
      var occurrenceCount := 1;
      var i := 0;
      while i < size
        invariant 0 <= i <= size
        invariant occurrenceCount == Count(Elements()[..i], element) + 1
        invariant forall k :: 0 <= k < i ==> !IsNthOccurrence(Elements(), element, occurrence, k)
      {
        CountPrefixStep(Elements(), element, i);
        if element == At(i) {
          if occurrenceCount == occurrence {
            assert IsNthOccurrence(Elements(), element, occurrence, i);
            return true, i;
          } else {
            occurrenceCount := occurrenceCount + 1;
          }
        }
        i := i + 1;
      }
      return false, 0;
    }

    /** The index of the last occurrence of `element`, searching from the back; the source aborts on an empty array. */
    method FindLast(element: T) returns (found: bool, index: nat)
      requires Valid() && 0 < |Elements()|
      ensures found <==> element in Elements()
      ensures found ==> index < |Elements()| && Elements()[index] == element && element !in Elements()[index + 1..]
    {
      var reachedEnd := false;
      var i: int := size - 1;
      while !reachedEnd
        invariant -1 <= i < size
        invariant reachedEnd <==> i == -1
        invariant element !in Elements()[i + 1..]
        decreases i + 1
      {
        if element == At(i) {
          assert i >= 0;
          found, index := true, i;
          return;
        }
        assert Elements()[i..] == [Elements()[i]] + Elements()[i + 1..];
        if i == 0 {
          reachedEnd := true;
        }
        i := i - 1;
      }
      return false, 0;
    }

    /** Shifts the elements after `index` one slot down over it and drops the last slot from the size. */
    method CloseGap(index: nat)
      requires Valid() && index < size
      modifies data, this`size
      ensures Valid() && data == old(data)
      ensures Elements() == old(Elements()[..index] + Elements()[index + 1..])
    {
      ghost var before := Elements();
      var j := index;
      while j < size - 1
        invariant Valid() && data == old(data) && size == old(size) && |before| == size
        invariant index <= j <= size - 1
        invariant forall k :: 0 <= k < index ==> data[k] == before[k]
        invariant forall k :: index <= k < j ==> data[k] == before[k + 1]
        invariant forall k :: j < k < size ==> data[k] == before[k]
      {
        data[j] := data[j + 1];
        j := j + 1;
      }
      size := size - 1;
      assert forall k :: 0 <= k < size ==> Elements()[k] == (before[..index] + before[index + 1..])[k];
    }

    /** Removes the `occurrence`-th occurrence of `element` (counting from 1), if there is one. */
    method Remove(element: T, occurrence: nat)
      requires Valid()
      modifies Repr
      ensures Valid() && Repr == old(Repr) && capacity == old(capacity)
      ensures (exists k: nat :: IsNthOccurrence(old(Elements()), element, occurrence, k)
                 && Elements() == old(Elements()[..k] + Elements()[k + 1..]))
           || ((forall k: nat :: !IsNthOccurrence(old(Elements()), element, occurrence, k)) && Elements() == old(Elements()))
    {
      var occurrenceCount := 1;
      var i := 0;
      while i < size
        invariant Valid() && Repr == old(Repr) && Elements() == old(Elements())
        invariant 0 <= i <= size
        invariant occurrenceCount == Count(Elements()[..i], element) + 1
        invariant forall k :: 0 <= k < i ==> !IsNthOccurrence(Elements(), element, occurrence, k)
      {
        CountPrefixStep(Elements(), element, i);
        if element == At(i) {
          if occurrenceCount == occurrence {
            assert IsNthOccurrence(Elements(), element, occurrence, i);
            CloseGap(i);
            return;
          } else {
            occurrenceCount := occurrenceCount + 1;
          }
        }
        i := i + 1;
      }
      forall k: nat ensures !IsNthOccurrence(Elements(), element, occurrence, k) {
      }
    }

    /**
     * Removes every occurrence of `element`, moving the others in order to a
     * fresh buffer of the same capacity, and returns how many were removed.
     */
    method RemoveAll(element: T) returns (amount: nat)
      requires Valid()
      modifies Repr
      ensures Valid() && fresh(data) && capacity == old(capacity)
      ensures Elements() == Without(old(Elements()), element)
      ensures amount == Count(old(Elements()), element)
    {
      ghost var before := Elements();
      amount := 0;
      var i := 0;
      var newData := new T[capacity];
      var ind := 0;
      while ind < size
        modifies newData
        invariant 0 <= i <= ind <= size
        invariant newData[..i] == Without(before[..ind], element)
        invariant amount == Count(before[..ind], element)
      {
        CountPrefixStep(before, element, ind);
        WithoutPrefixStep(before, element, ind);
        if data[ind] != element {
          newData[i] := data[ind];
          i := i + 1;
          assert newData[..i] == newData[..i - 1] + [before[ind]];
        } else {
          amount := amount + 1;
        }
        ind := ind + 1;
      }
      assert before[..ind] == before;
      data := newData;
      size := i;
      Repr := {this, data};
    }

    /** Reallocates to exactly the size. */
    method Shrink()
      requires Valid()
      modifies Repr
      ensures Valid() && fresh(data)
      ensures Elements() == old(Elements()) && capacity == |Elements()|
    {
      Reallocate(size);
    }

    /** Shifts the elements from `index` on one slot up and writes `element` into the freed slot. */
    method OpenGap(element: T, index: nat)
      requires Valid() && index < size < capacity
      modifies data, this`size
      ensures Valid() && data == old(data)
      ensures Elements() == old(Elements()[..index]) + [element] + old(Elements()[index..])
    {
      ghost var before := Elements();
      size := size + 1;
      var i := size - 1;
      while i > index
        modifies data
        invariant index <= i <= size - 1
        invariant forall k :: 0 <= k < i ==> data[k] == before[k]
        invariant forall k :: i < k < size ==> data[k] == before[k - 1]
      {
        data[i] := data[i - 1];
        i := i - 1;
      }
      data[index] := element;
      assert forall k :: 0 <= k < size ==> Elements()[k] == (before[..index] + [element] + before[index..])[k];
    }

    /**
     * Inserts `element` at `index`, shifting the later elements up; the source
     * aborts on an index at or past the size.  Grows the buffer when the size
     * plus one reaches the capacity.
     */
    method InsertAt(element: T, index: nat)
      requires Valid() && index < |Elements()|
      modifies Repr
      ensures Valid() && fresh(Repr - old(Repr))
      ensures Elements() == old(Elements()[..index]) + [element] + old(Elements()[index..])
      ensures capacity == if old(size) + 1 >= old(capacity) then capacityInc(old(capacity)) else old(capacity)
    {
      if size + 1 >= capacity {
        IncreaseCapacityFromAllocator();
      }
      OpenGap(element, index);
    }

    /** Removes the element at `index` and returns it; the source aborts on an index at or past the size. */
    method RemoveAt(index: nat) returns (removed: T)
      requires Valid() && index < |Elements()|
      modifies Repr
      ensures Valid() && Repr == old(Repr) && capacity == old(capacity)
      ensures removed == old(Elements()[index])
      ensures Elements() == old(Elements()[..index] + Elements()[index + 1..])
    {
      removed := At(index);
      CloseGap(index);
    }

    /** Assignment from a by-value copy of `other`: its elements in a fresh buffer of its capacity. */
    method Assign(other: Array<T>)
      requires Valid() && other.Valid()
      modifies Repr
      ensures Valid() && fresh(data)
      ensures Elements() == old(other.Elements()) && capacity == old(other.capacity)
    {
      var items := other.Elements();
      var otherCapacity := other.capacity;
      var newData := new T[otherCapacity];
      MemCopy(newData, 0, items);
      data := newData;
      size := |items|;
      capacity := otherCapacity;
      Repr := {this, data};
    }

    /**
     * operator+: a new array with the default growth rule holding the elements
     * of `left` followed by those of `right`, of capacity their total size
     * (one when both are empty).
     */
    static method Concat(left: Array<T>, right: Array<T>) returns (r: Array<T>)
      requires left.Valid() && right.Valid()
      ensures r.Valid() && fresh(r.Repr)
      ensures r.Elements() == left.Elements() + right.Elements()
      ensures r.capacity == if left.size + right.size == 0 then 1 else left.size + right.size
      ensures r.capacityInc == CapacityIncrease
    {
      CapacityIncreaseGrows();
      r := new Array(CapacityIncrease);
      r.Reserve(left.Size() + right.Size());
      r.InsertElements(left.Elements());
      r.InsertElements(right.Elements());
    }

    /** Whether `element` is held, and the index of its first occurrence. */
    method TryGetIndex(element: T) returns (found: bool, outIndex: nat)
      requires Valid()
      ensures found <==> element in Elements()
      ensures found ==> outIndex < |Elements()| && Elements()[outIndex] == element && element !in Elements()[..outIndex]
    {
      var i := 0;
      while i < Size()
        invariant 0 <= i <= size
        invariant element !in Elements()[..i]
      {
        if At(i) == element {
          return true, i;
        }
        assert Elements()[..i + 1] == Elements()[..i] + [Elements()[i]];
        i := i + 1;
      }
      assert Elements()[..i] == Elements();
      return false, 0;
    }

    /** Adds copies of `element` until the size reaches the capacity; the buffer is never grown. */
    method FillWith(element: T)
      requires Valid()
      modifies Repr
      ensures Valid() && fresh(Repr - old(Repr)) && capacity == old(capacity)
      ensures Elements() == old(Elements()) + seq(old(capacity) - old(size), _ => element)
    {
      var i := Size();
      while i < Capacity()
        invariant Valid() && fresh(Repr - old(Repr))
        invariant capacity == old(capacity) && old(size) <= i == size
        invariant Elements() == old(Elements()) + seq(i - old(size), _ => element)
      {
        Add(element);
        i := i + 1;
      }
    }
  }
}
