/**
 The free comparison operators of `SingleLinkedList`. `==` compares the sizes
 and then walks both lists with iterators as `std::equal` does; `<` walks them
 as `std::lexicographical_compare` does; `!=`, `<=`, `>` and `>=` negate or
 flip those two. Each is proved against the element sequences of the lists.
 */
module ListOperators {
  import opened ForwardList
  import Comparison

  /** `lhs == rhs`: equal sizes and equal elements, position by position. */
  method Equal<T(0, ==)>(lhs: SingleLinkedList<T>, rhs: SingleLinkedList<T>) returns (r: bool)
    requires lhs.Valid() && rhs.Valid()
    ensures r <==> lhs.contents == rhs.contents
  {
    if lhs.GetSize() != rhs.GetSize() {
      return false;
    }
    var a := lhs.Begin();
    var b := rhs.Begin();
    ghost var k := 0;
    // `a != lhs.end()`: the end iterator holds no node.
    while a.node != null
      invariant k <= |lhs.chain|
      invariant a.node == lhs.At(k + 1) && b.node == rhs.At(k + 1)
      invariant lhs.contents[..k] == rhs.contents[..k]
      modifies a, b
      decreases |lhs.chain| - k
    {
      if a.Deref() != b.Deref() {
        assert lhs.contents[k] != rhs.contents[k];
        return false;
      }
      assert lhs.contents[..k + 1] == lhs.contents[..k] + [lhs.contents[k]];
      assert rhs.contents[..k + 1] == rhs.contents[..k] + [rhs.contents[k]];
      a.Increment();
      b.Increment();
      k := k + 1;
    }
    assert lhs.contents == lhs.contents[..k] && rhs.contents == rhs.contents[..k];
    return true;
  }

  /** `lhs != rhs`, defined as `!(lhs == rhs)`. */
  method NotEqual<T(0, ==)>(lhs: SingleLinkedList<T>, rhs: SingleLinkedList<T>) returns (r: bool)
    requires lhs.Valid() && rhs.Valid()
    ensures r <==> lhs.contents != rhs.contents
  {
    r := Equal(lhs, rhs);
    r := !r;
  }

  /**
   `lhs < rhs`: stop with "less" at the first position where the left
   element is smaller or the left list has ended while the right goes on,
   and with "not less" where the right element is smaller or the right list
   has ended.
   */
  method Less(lhs: SingleLinkedList<int>, rhs: SingleLinkedList<int>) returns (r: bool)
    requires lhs.Valid() && rhs.Valid()
    ensures r == Comparison.Less(lhs.contents, rhs.contents)
  {
    var a := lhs.Begin();
    var b := rhs.Begin();
    ghost var k := 0;
    assert lhs.contents[0..] == lhs.contents && rhs.contents[0..] == rhs.contents;
    // Walk while neither iterator has reached its list's end, where it holds no node.
    while a.node != null && b.node != null
      invariant k <= |lhs.chain| && k <= |rhs.chain|
      invariant a.node == lhs.At(k + 1) && b.node == rhs.At(k + 1)
      invariant Comparison.Less(lhs.contents, rhs.contents) == Comparison.Less(lhs.contents[k..], rhs.contents[k..])
      modifies a, b
      decreases |lhs.chain| - k
    {
      Comparison.LessFrom(lhs.contents, rhs.contents, k);
      if a.Deref() < b.Deref() {
        return true;
      }
      if b.Deref() < a.Deref() {
        return false;
      }
      a.Increment();
      b.Increment();
      k := k + 1;
    }
    Comparison.LessFrom(lhs.contents, rhs.contents, k);
    r := a.node == null && b.node != null;
  }

  /** `lhs <= rhs`, defined as `!(rhs < lhs)`: less or equal. */
  method LessOrEqual(lhs: SingleLinkedList<int>, rhs: SingleLinkedList<int>) returns (r: bool)
    requires lhs.Valid() && rhs.Valid()
    ensures r <==> Comparison.Less(lhs.contents, rhs.contents) || lhs.contents == rhs.contents
  {
    r := Less(rhs, lhs);
    r := !r;
    Comparison.LessTrichotomy(lhs.contents, rhs.contents);
  }

  /** `lhs > rhs`, defined as `rhs < lhs`: neither less nor equal. */
  method Greater(lhs: SingleLinkedList<int>, rhs: SingleLinkedList<int>) returns (r: bool)
    requires lhs.Valid() && rhs.Valid()
    ensures r <==> !Comparison.Less(lhs.contents, rhs.contents) && lhs.contents != rhs.contents
  {
    r := Less(rhs, lhs);
    Comparison.LessTrichotomy(lhs.contents, rhs.contents);
  }

  /** `lhs >= rhs`, defined as `!(lhs < rhs)`: greater or equal. */
  method GreaterOrEqual(lhs: SingleLinkedList<int>, rhs: SingleLinkedList<int>) returns (r: bool)
    requires lhs.Valid() && rhs.Valid()
    ensures r <==> Comparison.Less(rhs.contents, lhs.contents) || lhs.contents == rhs.contents
  {
    r := Less(lhs, rhs);
    r := !r;
    Comparison.LessTrichotomy(lhs.contents, rhs.contents);
  }
}
