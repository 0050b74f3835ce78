/**
  Vec<T> of Vec.h: a growable contiguous array that owns one block of slots.
  The C++ class keeps three pointers into the block: `element` (its start),
  `first_free` (one past the last live element) and `cap` (one past the last
  slot). Here the block is an array whose length is cap - element, and
  `size` is first_free - element; the slots from `size` on are allocated but
  carry no meaning. The state of a default-constructed or moved-from Vec,
  where all three pointers are null, is a block of length zero.
*/
module Vector {
  import opened VecGrowth
  import opened SeqCompare

  /** k copies of x. */
  function Repeat<T>(x: T, k: nat): (r: seq<T>)
    ensures |r| == k
    ensures forall j :: 0 <= j < k ==> r[j] == x
    decreases k
  {
    if k == 0 then [] else Repeat(x, k - 1) + [x]
  }

  class Vec<T(0)> {
    /** The owned block [element, cap). */
    var elems: array<T>
    /** The number of live elements, first_free - element. */
    var size: nat

    /** element <= first_free <= cap. */
    ghost predicate Valid()
      reads this
    {
      size <= elems.Length
    }

    /** The live elements [begin(), end()). */
    function Contents(): (s: seq<T>)
      reads this, elems
      requires Valid()
      ensures |s| == size
    {
      elems[..size]
    }

    // ---------------------------------------------------------------
    // Size and capacity queries
    // ---------------------------------------------------------------

    /** array_size(): the number of live elements. */
    function ArraySize(): (r: nat)
      reads this, elems
      requires Valid()
      ensures r == |Contents()|
      ensures r <= MaxCapacity()
    {
      size
    }

    /** max_capacity(): the number of allocated slots, live or spare. */
    function MaxCapacity(): (r: nat)
      reads this
      requires Valid()
      ensures r >= size
    {
      elems.Length
    }

    /** capacity(): how many more elements fit before a reallocation. */
    function Capacity(): (r: nat)
      reads this, elems
      requires Valid()
      ensures r + ArraySize() == MaxCapacity()
      ensures r == 0 <==> ArraySize() == MaxCapacity()
    {
      elems.Length - size
    }

    // ---------------------------------------------------------------
    // Element access
    // ---------------------------------------------------------------

    /** The const operator[]: the element at index i; unchecked in C++, so
        the caller must keep i below the size. */
    function Get(i: nat): (x: T)
      reads this, elems
      requires Valid() && i < size
      ensures x == Contents()[i]
    {
      elems[i]
    }

    /** Assignment through the reference the non-const operator[] returns. */
    method Set(i: nat, x: T)
      requires Valid() && i < size
      modifies elems
      ensures Valid()
      ensures Contents() == old(Contents())[i := x]
    {
      elems[i] := x;
    }

    // ---------------------------------------------------------------
    // Construction and assignment
    // ---------------------------------------------------------------

    /** Vec(): the empty, unallocated state. */
    constructor ()
      ensures Valid() && fresh(elems)
      ensures Contents() == [] && elems.Length == 0
    {
      elems := new T[0];
      size := 0;
    }

    /** Vec(std::initializer_list<T>): a block holding exactly the listed
        elements, with no headroom. */
    constructor FromList(list: seq<T>)
      ensures Valid() && fresh(elems)
      ensures Contents() == list && elems.Length == |list|
    {
      var data := AllocNCopy(list);
      elems := data;
      size := |list|;
    }

    /** The copy constructor: a new block holding the source's elements in
        order, sized to the source's length rather than its capacity. */
    constructor Copy(arg: Vec<T>)
      requires arg.Valid()
      ensures Valid() && fresh(elems)
      ensures Contents() == arg.Contents() && elems.Length == arg.size
    {
      var data := AllocNCopy(arg.Contents());
      elems := data;
      size := |data[..]|;
    }

    /** The move constructor: takes over the source's block as it is, and
        leaves the source empty and unallocated. */
    constructor Move(arg: Vec<T>)
      requires arg.Valid()
      modifies arg
      ensures Valid() && arg.Valid()
      ensures elems == old(arg.elems) && Contents() == old(arg.Contents())
      ensures arg.Contents() == [] && arg.elems.Length == 0 && fresh(arg.elems)
    {
      elems := arg.elems;
      size := arg.size;
      new;
      arg.elems := new T[0];
      arg.size := 0;
    }

    /** Copy assignment. The replacement block is built before the old one
        is released, so assigning a Vec to itself keeps its elements. */
    method CopyAssign(rhs: Vec<T>)
      requires Valid() && rhs.Valid()
      modifies this
      ensures Valid() && fresh(elems)
      ensures Contents() == old(rhs.Contents()) && elems.Length == size
      ensures rhs == this ==> Contents() == old(Contents())
      ensures rhs != this ==> rhs.Contents() == old(rhs.Contents())
    {
      var data := AllocNCopy(rhs.Contents());
      elems := data;
      size := |data[..]|;
    }

    /** Move assignment: with a distinct source, adopt its block and leave it
        empty and unallocated; moving a Vec into itself does nothing. */
    method MoveAssign(rhs: Vec<T>)
      requires Valid() && rhs.Valid()
      modifies this, rhs
      ensures Valid() && rhs.Valid()
      ensures rhs == this ==> elems == old(elems) && size == old(size)
      ensures rhs != this ==> elems == old(rhs.elems) && Contents() == old(rhs.Contents())
      ensures rhs != this ==> rhs.Contents() == [] && rhs.elems.Length == 0 && fresh(rhs.elems)
    {
      if rhs != this {
        elems := rhs.elems;
        size := rhs.size;
        rhs.elems := new T[0];
        rhs.size := 0;
      }
    }

    /** alloc_n_copy: a fresh block of exactly |s| slots, each holding the
        element of s at the same position. */
    static method AllocNCopy(s: seq<T>) returns (data: array<T>)
      ensures fresh(data) && data[..] == s
    {
      data := new T[|s|];
      var i := 0;
      while i < |s|
        invariant 0 <= i <= |s|
        invariant data[..i] == s[..i]
      {
        data[i] := s[i];
        i := i + 1;
      }
    }

    // ---------------------------------------------------------------
    // Growth
    // ---------------------------------------------------------------

    /** reallocate: move the live elements, in order, into a fresh block of
        NewSize(size) slots and adopt it. */
    method Reallocate()
      requires Valid()
      modifies this
      ensures Valid() && fresh(elems)
      ensures elems.Length == NewSize(old(size))
      ensures size == old(size) && Contents() == old(Contents())
    {
      var newSize := NewSize(size);
      var newData := new T[newSize];
      var i := 0;
      while i != size
        invariant 0 <= i <= size
        invariant newData[..i] == elems[..i]
        modifies newData
        decreases size - i
      {
        newData[i] := elems[i];
        i := i + 1;
      }
      elems := newData;
    }

    /** chk_n_alloc: make room for one more element, reallocating only when
        the block is full. */
    method ChkNAlloc()
      requires Valid()
      modifies this
      ensures Valid() && size < elems.Length
      ensures size == old(size) && Contents() == old(Contents())
      ensures elems.Length == CheckedCapacity(old(elems.Length), old(size))
      ensures old(size) < old(elems.Length) ==> elems == old(elems)
      ensures old(size) == old(elems.Length) ==> fresh(elems)
    {
      if elems.Length == size {
        Reallocate();
      }
    }

    /** reserve(n): when n exceeds max_capacity(), move the elements into a
        fresh block of exactly n slots; otherwise do nothing. */
    method Reserve(n: nat)
      requires Valid()
      modifies this
      ensures Valid()
      ensures size == old(size) && Contents() == old(Contents())
      ensures elems.Length == if n > old(elems.Length) then n else old(elems.Length)
      ensures n > old(elems.Length) ==> fresh(elems)
      ensures n <= old(elems.Length) ==> elems == old(elems)
    {
      if n > elems.Length {
        var newData := new T[n];
        var i := 0;
        while i != size
          invariant 0 <= i <= size
          invariant newData[..i] == elems[..i]
          modifies newData
          decreases size - i
        {
          newData[i] := elems[i];
          i := i + 1;
        }
        elems := newData;
      }
    }

    // ---------------------------------------------------------------
    // Append and resize
    // ---------------------------------------------------------------

    /** push_back(x): x becomes the last element; the block grows by the
        doubling rule when it is full. */
    method PushBack(x: T)
      requires Valid()
      modifies this, elems
      ensures Valid()
      ensures Contents() == old(Contents()) + [x]
      ensures elems.Length == CheckedCapacity(old(elems.Length), old(size))
      ensures old(size) < old(elems.Length) ==> elems == old(elems)
      ensures old(size) == old(elems.Length) ==> fresh(elems)
    {
      ChkNAlloc();
      elems[size] := x;
      size := size + 1;
    }

    /** emplace_back(args...), with the element already built from its
        arguments. */
    method EmplaceBack(x: T)
      requires Valid()
      modifies this, elems
      ensures Valid()
      ensures Contents() == old(Contents()) + [x]
      ensures elems.Length == CheckedCapacity(old(elems.Length), old(size))
      ensures old(size) < old(elems.Length) ==> elems == old(elems)
      ensures old(size) == old(elems.Length) ==> fresh(elems)
    {
      ChkNAlloc();
      elems[size] := x;
      size := size + 1;
    }

    /** push_back(v[i]) in the order Vec.h runs it: the argument is a
        reference to slot i of the current block, chk_n_alloc runs first, and
        only then is the referenced slot read. `readFrom` is the block the
        new element was copied from. When the Vec was full, that block is the
        one reallocate has just emptied and released, so the C++ code reads a
        destroyed object. */
    method PushBackOwnElementAsWritten(i: nat) returns (readFrom: array<T>)
      requires Valid() && i < size
      modifies this, elems
      ensures Valid() && size == old(size) + 1
      ensures Contents()[..old(size)] == old(Contents())
      ensures readFrom == old(elems)
      ensures old(size) == old(elems.Length) ==> readFrom != elems
    {
      readFrom := elems;
      ChkNAlloc();
      elems[size] := readFrom[i];
      size := size + 1;
    }

    /** push_back(v[i]) with the element copied out of the live block before
        any reallocation, so the value appended is element i as it was. */
    method PushBackOwnElement(i: nat) returns (readFrom: array<T>)
      requires Valid() && i < size
      modifies this, elems
      ensures Valid()
      ensures Contents() == old(Contents()) + [old(Contents())[i]]
      ensures readFrom == old(elems)
      ensures elems.Length == CheckedCapacity(old(elems.Length), old(size))
    {
      readFrom := elems;
      var x := elems[i];
      PushBack(x);
    }

    /** resize(n, init): grow by pushing copies of init, or shrink by
        destroying elements from the back. */
    method Resize(n: nat, init: T)
      requires Valid()
      modifies this, elems
      ensures Valid() && size == n
      ensures elems == old(elems) || fresh(elems)
      ensures n <= old(size) ==> Contents() == old(Contents())[..n] && elems == old(elems)
      ensures n > old(size) ==> Contents() == old(Contents()) + Repeat(init, n - old(size))
      ensures n > old(size) ==>
        elems.Length == CapacityAfterAppends(old(elems.Length), old(size), n - old(size))
      ensures n <= old(elems.Length) ==> elems == old(elems)
    {
      var sz := size;
      if n > sz {
        var i := 0;
        while i != n - sz
          invariant 0 <= i <= n - sz
          invariant Valid() && size == sz + i
          invariant Contents() == old(Contents()) + Repeat(init, i)
          invariant elems.Length == CapacityAfterAppends(old(elems.Length), sz, i)
          invariant elems == old(elems) || fresh(elems)
          invariant n <= old(elems.Length) ==> elems == old(elems)
          decreases n - sz - i
        {
          PushBack(init);
          i := i + 1;
        }
      } else if n < sz {
        var i := 0;
        while i != sz - n
          invariant 0 <= i <= sz - n
          invariant size == sz - i && elems == old(elems)
          modifies this
          decreases sz - n - i
        {
          size := size - 1;
          i := i + 1;
        }
      }
    }

    /** resize(n): as resize(n, init), with new elements value-initialised;
        `zero` stands for T(), the element type's value-initialised value. */
    method ResizeDefault(n: nat, zero: T)
      requires Valid()
      modifies this, elems
      ensures Valid() && size == n
      ensures elems == old(elems) || fresh(elems)
      ensures n <= old(size) ==> Contents() == old(Contents())[..n] && elems == old(elems)
      ensures n > old(size) ==> Contents() == old(Contents()) + Repeat(zero, n - old(size))
      ensures n > old(size) ==>
        elems.Length == CapacityAfterAppends(old(elems.Length), old(size), n - old(size))
      ensures n <= old(elems.Length) ==> elems == old(elems)
    {
      var sz := size;
      if n > sz {
        var i := 0;
        while i != n - sz
          invariant 0 <= i <= n - sz
          invariant Valid() && size == sz + i
          invariant Contents() == old(Contents()) + Repeat(zero, i)
          invariant elems.Length == CapacityAfterAppends(old(elems.Length), sz, i)
          invariant elems == old(elems) || fresh(elems)
          invariant n <= old(elems.Length) ==> elems == old(elems)
          decreases n - sz - i
        {
          ChkNAlloc();
          elems[size] := zero;
          size := size + 1;
          i := i + 1;
        }
      } else if n < sz {
        var i := 0;
        while i != sz - n
          invariant 0 <= i <= sz - n
          invariant size == sz - i && elems == old(elems)
          modifies this
          decreases sz - n - i
        {
          size := size - 1;
          i := i + 1;
        }
      }
    }
  }

  // -----------------------------------------------------------------
  // The six friend relational operators, for Vec<int>
  // -----------------------------------------------------------------

  /** operator==: equal sizes, then std::equal over the live elements. */
  function Equal(lhs: Vec<int>, rhs: Vec<int>): (r: bool)
    reads lhs, lhs.elems, rhs, rhs.elems
    requires lhs.Valid() && rhs.Valid()
    ensures r <==> lhs.Contents() == rhs.Contents()
  {
    if lhs.ArraySize() != rhs.ArraySize() then false
    else
      EqualRangeIsPrefix(lhs.Contents(), rhs.Contents());
      EqualRange(lhs.Contents(), rhs.Contents())
  }

  /** operator!=: !(lhs == rhs). */
  function NotEqual(lhs: Vec<int>, rhs: Vec<int>): (r: bool)
    reads lhs, lhs.elems, rhs, rhs.elems
    requires lhs.Valid() && rhs.Valid()
    ensures r <==> lhs.Contents() != rhs.Contents()
  {
    !Equal(lhs, rhs)
  }

  /** operator<: std::lexicographical_compare over the two live ranges. */
  function Less(lhs: Vec<int>, rhs: Vec<int>): (r: bool)
    reads lhs, lhs.elems, rhs, rhs.elems
    requires lhs.Valid() && rhs.Valid()
    ensures r <==> LexicallyBefore(lhs.Contents(), rhs.Contents())
  {
    LexCompareMeansBefore(lhs.Contents(), rhs.Contents());
    LexCompare(lhs.Contents(), rhs.Contents())
  }

  /** operator>: rhs < lhs. */
  function Greater(lhs: Vec<int>, rhs: Vec<int>): (r: bool)
    reads lhs, lhs.elems, rhs, rhs.elems
    requires lhs.Valid() && rhs.Valid()
    ensures r <==> LexicallyBefore(rhs.Contents(), lhs.Contents())
  {
    Less(rhs, lhs)
  }

  /** operator<=: !(rhs < lhs), which is "less or equal". */
  function LessEqual(lhs: Vec<int>, rhs: Vec<int>): (r: bool)
    reads lhs, lhs.elems, rhs, rhs.elems
    requires lhs.Valid() && rhs.Valid()
    ensures r <==> LexicallyBefore(lhs.Contents(), rhs.Contents()) || lhs.Contents() == rhs.Contents()
  {
    LexCompareTrichotomy(lhs.Contents(), rhs.Contents());
    LexCompareIrreflexive(lhs.Contents());
    LexCompareMeansBefore(lhs.Contents(), rhs.Contents());
    !Less(rhs, lhs)
  }

  /** operator>=: !(lhs < rhs), which is "greater or equal". */
  function GreaterEqual(lhs: Vec<int>, rhs: Vec<int>): (r: bool)
    reads lhs, lhs.elems, rhs, rhs.elems
    requires lhs.Valid() && rhs.Valid()
    ensures r <==> LexicallyBefore(rhs.Contents(), lhs.Contents()) || lhs.Contents() == rhs.Contents()
  {
    LexCompareTrichotomy(lhs.Contents(), rhs.Contents());
    LexCompareIrreflexive(lhs.Contents());
    LexCompareMeansBefore(rhs.Contents(), lhs.Contents());
    !Less(lhs, rhs)
  }
}
