/**
 * sarray<T, size>: a fixed number of elements held inline.  Constructors that
 * take more elements than fit keep only the first `size`; `At` and `CopyInto`
 * abort on an index range past the end.
 */
module StaticArrays {
  import opened Memory

  /** The smaller of two counts. */
  function Min(a: nat, b: nat): (m: nat)
    ensures m <= a && m <= b && (m == a || m == b)
  {
    if a <= b then a else b
  }

  class SArray<T(0)> {
    /** The template parameter `size`. */
    const size: nat
    const data: array<T>

    ghost predicate Valid()
      reads this
    {
      data.Length == size
    }

    function Elements(): (s: seq<T>)
      reads this, data
      requires Valid()
      ensures |s| == size
    {
      data[..]
    }

    /**
     * Default constructor: the elements are left as the element type's
     * default construction leaves them; the model gives them Dafny's default
     * value and states nothing about them.
     */
    constructor (size: nat)
      ensures Valid() && fresh(data) && this.size == size
    {
      this.size := size;
      data := new T[size];
    }

    /** Constructor from a C array of N elements, N at most `size`: the first N slots hold them. */
    constructor FromArray(size: nat, elements: seq<T>)
      requires |elements| <= size
      ensures Valid() && fresh(data) && this.size == size
      ensures data[..|elements|] == elements
    {
      this.size := size;
      var a := new T[size];
      SpliceElements(a[..], 0, elements);
      MemCopy(a, 0, elements);
      data := a;
    }

    /**
     * Constructor from a pointer and a count: a count larger than `size` is
     * cut down to `size`, and that many elements are read and kept.
     */
    constructor FromPointer(size: nat, elements: seq<T>, count: nat)
      requires Min(count, size) <= |elements|
      ensures Valid() && fresh(data) && this.size == size
      ensures data[..Min(count, size)] == elements[..Min(count, size)]
    {
      var n := if count <= size then count else size;
      this.size := size;
      var a := new T[size];
      SpliceElements(a[..], 0, elements[..n]);
      MemCopy(a, 0, elements[..n]);
      data := a;
    }

    /** Copy constructor: all `size` slots of the other array. */
    constructor Copy(other: SArray<T>)
      requires other.Valid()
      ensures Valid() && fresh(data) && size == other.size
      ensures data[..] == other.data[..]
    {
      var items := other.data[..];
      size := other.size;
      var a := new T[other.size];
      SpliceWhole(a[..], items);
      MemCopy(a, 0, items);
      data := a;
    }

    /**
     * Initializer-list constructor: the first `min(|il|, size)` elements of the
     * list, the rest discarded.
     */
    constructor FromList(size: nat, il: seq<T>)
      ensures Valid() && fresh(data) && this.size == size
      ensures data[..Min(|il|, size)] == il[..Min(|il|, size)]
    {
      var count := if |il| <= size then |il| else size;
      this.size := size;
      var a := new T[size];
      var i := 0;
      while i < |il|
        invariant 0 <= i <= count && a.Length == size
        invariant a[..i] == il[..i]
        modifies a
      {
        if i == count {
          break;
        }
        a[i] := il[i];
        assert a[..i + 1] == a[..i] + [il[i]];
        assert il[..i + 1] == il[..i] + [il[i]];
        i := i + 1;
      }
      data := a;
    }

    /** Size: always the template parameter. */
    function Size(): (n: nat)
      reads this, data
      requires Valid()
      ensures n == |Elements()|
    {
      size
    }

    /** operator=(sarray&): every slot takes the value of the other array's slot. */
    method Assign(other: SArray<T>)
      requires Valid() && other.Valid() && other.size == size
      modifies data
      ensures data[..] == old(other.data[..])
    {
      var i := 0;
      while i < size
        invariant 0 <= i <= size
        invariant forall k :: 0 <= k < i ==> data[k] == old(other.data[k])
        invariant forall k :: i <= k < size ==> other.data[k] == old(other.data[k])
      {
        data[i] := other.data[i];
        i := i + 1;
      }
    }

    /** operator= from a C array of N elements, N at most `size`: the first N slots are overwritten, the rest kept. */
    method AssignList(list: seq<T>)
      requires Valid() && |list| <= size
      modifies data
      ensures data[..] == list + old(data[|list|..])
    {
      MemCopy(data, 0, list);
    }

    /** At: the element at `index`; an index past the end aborts. */
    function At(index: nat): (v: T)
      reads this, data
      requires Valid() && index < size
      ensures v == Elements()[index]
    {
      data[index]
    }

    /**
     * CopyInto: `count` elements written to the slots from `offset` on; a
     * range that passes the end aborts.  No other slot changes.
     */
    method CopyInto(elements: seq<T>, count: nat, offset: nat)
      requires Valid() && count + offset <= size && count <= |elements|
      modifies data
      ensures data[..] == Splice(old(data[..]), offset, elements[..count])
      ensures forall k :: 0 <= k < size ==> data[k] == if offset <= k < offset + count then elements[k - offset] else old(data[k])
    {
      MemCopy(data, offset, elements[..count]);
      SpliceElements(old(data[..]), offset, elements[..count]);
    }

    /** SetAllElements: every slot holds `value`. */
    method SetAllElements(value: T)
      requires Valid()
      modifies data
      ensures data[..] == seq(size, _ => value)
    {
      var i := 0;
      while i < size
        invariant 0 <= i <= size
        invariant forall k :: 0 <= k < i ==> data[k] == value
      {
        data[i] := value;
        i := i + 1;
      }
    }
  }
}
