/**
 Uses of `SingleLinkedList` on concrete values, each proved from the
 contracts of the list's members alone: what a caller of the list can rely on.
 */
module ListClients {
  import opened ForwardList
  import ListOperators
  import Comparison

  /** `{1, 2, 3}` followed by `PopFront()` leaves `{2, 3}`, with size 2. */
  method PopFrontAfterInit() returns (values: seq<int>, size: nat)
    ensures values == [2, 3] && size == 2
  {
    var list := new SingleLinkedList.FromValues([1, 2, 3]);
    list.PopFront();
    values := list.Elements();
    size := list.GetSize();
  }

  /** `PopFront()` on an empty list changes nothing. */
  method PopFrontOnEmpty() returns (empty: bool, size: nat)
    ensures empty && size == 0
  {
    var list := new SingleLinkedList<int>();
    list.PopFront();
    empty := list.IsEmpty();
    size := list.GetSize();
  }

  /** A copy shares no node with its original: growing the copy leaves the original as it was. */
  method CopyIsIndependent() returns (original: seq<int>, copy: seq<int>)
    ensures original == [1, 2] && copy == [0, 1, 2]
  {
    var a := new SingleLinkedList.FromValues([1, 2]);
    var b := new SingleLinkedList.Copy(a);
    b.PushFront(0);
    original := a.Elements();
    copy := b.Elements();
  }

  /** Assignment copies the values; the source list keeps its own. */
  method AssignCopiesValues() returns (target: seq<int>, source: seq<int>)
    ensures target == [7, 8] && source == [7, 8]
  {
    var a := new SingleLinkedList.FromValues([1]);
    var b := new SingleLinkedList.FromValues([7, 8]);
    a.Assign(b);
    target := a.Elements();
    source := b.Elements();
  }

  /** Swapping twice restores both lists. */
  method SwapTwiceRestores() returns (first: seq<int>, second: seq<int>)
    ensures first == [1, 2] && second == [3]
  {
    var a := new SingleLinkedList.FromValues([1, 2]);
    var b := new SingleLinkedList.FromValues([3]);
    Swap(a, b);
    Swap(a, b);
    first := a.Elements();
    second := b.Elements();
  }

  /** Inserting after `before_begin()` puts the value in front, as `PushFront` does. */
  method InsertAfterBeforeBegin() returns (values: seq<int>, inserted: int)
    ensures values == [1, 2, 3] && inserted == 1
  {
    var list := new SingleLinkedList.FromValues([2, 3]);
    var pos := list.BeforeBegin();
    var it := list.InsertAfter(pos, 1);
    inserted := it.Deref();
    values := list.Elements();
  }

  /** Erasing after `begin()` of `{1, 2, 3}` removes the 2 and returns an iterator to the 3. */
  method EraseAfterBegin() returns (values: seq<int>, next: int)
    ensures values == [1, 3] && next == 3
  {
    var list := new SingleLinkedList.FromValues([1, 2, 3]);
    var pos := list.Begin();
    assert pos.node.next == list.chain[1];
    var it := list.EraseAfter(pos);
    next := it.Deref();
    values := list.Elements();
  }

  /** `Clear()` empties the list. */
  method ClearEmpties() returns (empty: bool, size: nat)
    ensures empty && size == 0
  {
    var list := new SingleLinkedList.FromValues([4, 5, 6]);
    list.Clear();
    empty := list.IsEmpty();
    size := list.GetSize();
  }

  /** A strict prefix compares less, and the comparisons agree with each other. */
  method PrefixComparesLess() returns (less: bool, lessOrEqual: bool, greater: bool, unequal: bool)
    ensures less && lessOrEqual && !greater && unequal
  {
    var a := new SingleLinkedList.FromValues([1, 2]);
    var b := new SingleLinkedList.FromValues([1, 2, 3]);
    Comparison.StrictPrefixIsLess([1, 2], [1, 2, 3]);
    less := ListOperators.Less(a, b);
    lessOrEqual := ListOperators.LessOrEqual(a, b);
    greater := ListOperators.Greater(a, b);
    unequal := ListOperators.NotEqual(a, b);
  }
}
