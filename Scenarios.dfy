/**
  Client code that uses Vec only through the contracts of its members:
  typical uses of the container, checked against those contracts.
*/
module Scenarios {
  import opened Vector

  /** Four appends to an empty Vec: the elements arrive in order and the
      capacity after each append is 1, 2, 4, 4. */
  method AppendFromEmpty() returns (caps: seq<nat>, contents: seq<int>)
    ensures caps == [1, 2, 4, 4]
    ensures contents == [1, 2, 3, 4]
  {
    var v := new Vec<int>();
    v.PushBack(1);
    caps := [v.MaxCapacity()];
    v.PushBack(2);
    caps := caps + [v.MaxCapacity()];
    v.EmplaceBack(3);
    caps := caps + [v.MaxCapacity()];
    v.PushBack(4);
    caps := caps + [v.MaxCapacity()];
    contents := v.Contents();
  }

  /** [1,2,3] followed by push_back(4) compares less than [1,2,3,5], where
      the fourth element decides, and [1,2,3] is less than [1,2,3,4] because
      it is a strict prefix. */
  method CompareExamples() returns (fourthDecides: bool, prefixIsLess: bool, notGreater: bool)
    ensures fourthDecides && prefixIsLess && notGreater
  {
    var a := new Vec<int>.FromList([1, 2, 3]);
    a.PushBack(4);
    var b := new Vec<int>.FromList([1, 2, 3, 5]);
    assert a.Contents()[..3] == b.Contents()[..3];
    fourthDecides := Less(a, b);
    var c := new Vec<int>.FromList([1, 2, 3]);
    assert c.Contents() == a.Contents()[..3];
    prefixIsLess := Less(c, a);
    notGreater := LessEqual(c, a) && !Greater(c, a);
  }

  /** A copy compares equal to its source and has its own block: changing
      the copy leaves the source alone; assigning a Vec to itself keeps its
      elements; moving out of a Vec leaves it empty and ready for reuse. */
  method CopyAndMove() returns (copyEqual: bool, source: seq<int>, self: seq<int>, movedFrom: nat, moved: seq<int>, reused: seq<int>)
    ensures copyEqual
    ensures source == [1, 2, 3]
    ensures self == [1, 2, 3]
    ensures movedFrom == 0
    ensures moved == [1, 2, 3]
    ensures reused == [5]
  {
    var a := new Vec<int>.FromList([1, 2, 3]);
    var d := new Vec<int>.Copy(a);
    copyEqual := Equal(d, a);
    d.Set(0, 9);
    source := a.Contents();
    a.CopyAssign(a);
    self := a.Contents();
    var m := new Vec<int>.Move(a);
    movedFrom := a.ArraySize();
    moved := m.Contents();
    var b := new Vec<int>();
    b.MoveAssign(m);
    m.PushBack(5);
    a.PushBack(6);
    reused := m.Contents();
  }

  /** reserve never lowers the capacity, and raising it keeps the elements;
      resize grows with copies of the fill value and shrinks to a prefix
      without giving back capacity. */
  method ReserveAndResize() returns (afterReserve: nat, kept: seq<int>, grown: seq<int>, shrunk: seq<int>, capAfterShrink: nat)
    ensures afterReserve == 10 && kept == [1, 2, 3]
    ensures grown == [1, 2, 3, 7, 7]
    ensures shrunk == [1] && capAfterShrink == 10
  {
    var v := new Vec<int>.FromList([1, 2, 3]);
    v.Reserve(10);
    v.Reserve(2);
    afterReserve := v.MaxCapacity();
    kept := v.Contents();
    v.Resize(5, 7);
    grown := v.Contents();
    v.ResizeDefault(1, 0);
    shrunk := v.Contents();
    capAfterShrink := v.MaxCapacity();
  }

  /** A full Vec [1] given push_back(v[0]): as Vec.h orders it, the element
      is read from the block reallocate has released; copying it out first
      appends 1 from the live block. */
  method PushBackOwnElementExample() returns (released: bool, fixed: seq<int>)
    ensures released
    ensures fixed == [1, 1]
  {
    var v := new Vec<int>.FromList([1]);
    var readFrom := v.PushBackOwnElementAsWritten(0);
    released := readFrom != v.elems;
    var w := new Vec<int>.FromList([1]);
    var _ := w.PushBackOwnElement(0);
    fixed := w.Contents();
  }
}
