/**
 The singly linked list `SingleLinkedList<Type>`: a permanent sentinel node
 `head` whose successor link starts the chain of element nodes, and an element
 counter `size`. Forward iterators hold a node reference; the sentinel is the
 "before-begin" position and `null` is the end.

 The ghost field `chain` lists the element nodes in link order: `chain[k]`
 holds element `k` of `contents`. A cursor position is a number: 0 for the
 sentinel, `k + 1` for `chain[k]`, and `|chain| + 1` for the end.
 */
module ForwardList {
  import opened Sequences

  /** One link of the chain: a value and the link to the next node (`null` at the end). */
  class Node<T(0)> {
    var value: T
    var next: Node?<T>

    /** The sentinel: a value-initialised value that is never read, and no successor. */
    constructor Sentinel()
      ensures next == null
    {
      next := null;
    }

    constructor (value: T, next: Node?<T>)
      ensures this.value == value && this.next == next
    {
      this.value := value;
      this.next := next;
    }
  }

  /**
   The forward iterator. The mutable and the read-only variant share this one
   type; both only hold the node they point at.
   */
  class BasicIterator<T(0)> {
    var node: Node?<T>

    constructor (node: Node?<T>)
      ensures this.node == node
    {
      this.node := node;
    }

    /** `operator==`; `operator!=` is its negation. Two iterators are equal when they reference the same node. */
    predicate Equals(rhs: BasicIterator<T>): (r: bool)
      reads this, rhs
      ensures r <==> node == rhs.node
    {
      node == rhs.node
    }

    /** Prefix `operator++`: move to the successor node. */
    method Increment()
      requires node != null
      modifies this
      ensures node == old(node.next)
    {
      node := node.next;
    }

    /** Postfix `operator++`: move to the successor node and hand back a copy of the old position. */
    method PostIncrement() returns (previous: BasicIterator<T>)
      requires node != null
      modifies this
      ensures fresh(previous) && previous.node == old(node)
      ensures node == old(node.next)
    {
      previous := new BasicIterator(node);
      node := node.next;
    }

    /** `operator*` (and `operator->`), read access to the referenced value. */
    function Deref(): (v: T)
      requires node != null
      reads this, node
      ensures v == node.value
    {
      node.value
    }
  }

  /**
   The nodes of `chain` are distinct, each links to the next, and the last one
   links to `null`.
   */
  ghost predicate Links<T(0)>(chain: seq<Node<T>>)
    reads chain
  {
    && (forall i, j :: 0 <= i < j < |chain| ==> chain[i] != chain[j])
    && (forall i :: 0 <= i < |chain| - 1 ==> chain[i].next == chain[i + 1])
    && (|chain| > 0 ==> chain[|chain| - 1].next == null)
  }

  /**
   The nodes of `chain` are linked, `first` is the first of them (`null` when
   there is none), and they hold `contents` in order.
   */
  ghost predicate Linked<T(0)>(first: Node?<T>, chain: seq<Node<T>>, contents: seq<T>)
    reads chain
  {
    && first == (if |chain| == 0 then null else chain[0])
    && Links(chain)
    && |chain| == |contents|
    && (forall i :: 0 <= i < |chain| ==> chain[i].value == contents[i])
  }

  /**
   Splicing a node `n` in after position `k` (between `chain[k - 1]`, or the
   start, and `chain[k]`) links the chain with `n` inserted at index `k`,
   provided no other link and no value changed.
   */
  twostate lemma LinkedInsert<T(0)>(chain: seq<Node<T>>, new contents: seq<T>, new k: nat, new n: Node<T>)
    requires old(Links(chain)) && k <= |chain| == |contents|
    requires forall i :: 0 <= i < |chain| ==> chain[i].value == old(chain[i].value) == contents[i]
    requires forall i :: 0 <= i < |chain| && i != k - 1 ==> chain[i].next == old(chain[i].next)
    requires n !in chain && n.next == (if k < |chain| then chain[k] else null)
    requires k > 0 ==> chain[k - 1].next == n
    ensures Linked(if k == 0 then n else chain[0], Inserted(chain, k, n), Inserted(contents, k, n.value))
  {
    var c := Inserted(chain, k, n);
    forall i | 0 <= i < |c| - 1
      ensures c[i].next == c[i + 1]
    {
      if i < k - 1 {
      } else if i == k - 1 {
      } else if i == k {
      } else {
      }
    }
  }

  /**
   Bypassing `chain[k]` (linking its predecessor, or the start, to its
   successor) links the chain with index `k` erased, provided no other link
   and no value changed.
   */
  twostate lemma LinkedErase<T(0)>(chain: seq<Node<T>>, new contents: seq<T>, new k: nat)
    requires old(Links(chain)) && k < |chain| == |contents|
    requires forall i :: 0 <= i < |chain| ==> chain[i].value == old(chain[i].value) == contents[i]
    requires forall i :: 0 <= i < |chain| && i != k - 1 ==> chain[i].next == old(chain[i].next)
    requires k > 0 ==> chain[k - 1].next == chain[k].next
    ensures Linked(if k == 0 then chain[0].next else chain[0], Erased(chain, k), Erased(contents, k))
  {
    var c := Erased(chain, k);
    forall i | 0 <= i < |c| - 1
      ensures c[i].next == c[i + 1]
    {
      if i < k - 1 {
      } else if i == k - 1 {
      } else {
      }
    }
  }

  /**
   Overwriting the value of `chain[k]`, and no link and no other value, keeps
   the chain linked with the new value at index `k`.
   */
  twostate lemma LinkedUpdate<T(0)>(chain: seq<Node<T>>, new contents: seq<T>, new k: nat, new value: T)
    requires old(Links(chain)) && k < |chain| == |contents|
    requires forall i :: 0 <= i < |chain| ==> chain[i].next == old(chain[i].next)
    requires forall i :: 0 <= i < |chain| && i != k ==> chain[i].value == old(chain[i].value) == contents[i]
    requires chain[k].value == value
    ensures Linked(chain[0], chain, contents[k := value])
  {
  }

  class SingleLinkedList<T(0)> {
    const head: Node<T>
    var size: nat

    ghost var chain: seq<Node<T>>
    ghost var contents: seq<T>

    /**
     The representation invariant: the links from the sentinel visit the
     distinct element nodes of `chain` in order and end in `null` (so the chain
     is acyclic and never returns to the sentinel), the element nodes hold
     `contents`, and `size` counts them.
     */
    ghost predicate Valid()
      reads this, head, chain
    {
      && |chain| == size
      && (forall i :: 0 <= i < |chain| ==> chain[i] != head)
      && Linked(head.next, chain, contents)
    }

    /**
     The node at cursor position `k`: the sentinel at 0, element `k - 1` for
     `1 <= k <= |chain|`, and `null` (the end) after that.
     */
    ghost function At(k: nat): Node?<T>
      reads this
    {
      if k == 0 then head else if k <= |chain| then chain[k - 1] else null
    }

    /** The cursor position of a node of this list. */
    ghost function PositionOf(n: Node<T>): (k: nat)
      requires n == head || n in chain
      reads this
      ensures k <= |chain| && At(k) == n
    {
      if n == head then 0 else IndexOf(chain, n) + 1
    }

    /** The default constructor: an empty list. */
    constructor ()
      ensures Valid() && fresh(head)
      ensures contents == [] && chain == []
    {
      head := new Node.Sentinel();
      size := 0;
      chain := [];
      contents := [];
    }

    /**
     The initializer-list constructor: push the values to the front of a
     temporary list, last value first, then swap the temporary in.
     */
    constructor FromValues(values: seq<T>)
      ensures Valid() && fresh(head)
      ensures contents == values
      ensures forall i :: 0 <= i < |chain| ==> fresh(chain[i])
    {
      head := new Node.Sentinel();
      size := 0;
      chain := [];
      contents := [];
      var tmp := new SingleLinkedList<T>();
      tmp.PushFrontAll(values);
      new;
      Swap(tmp);
    }

    /**
     The copy constructor: collect the values of `other` front to back into a
     buffer, push them to the front of a temporary list last value first, then
     swap the temporary in. No node of `other` is shared.
     */
    constructor Copy(other: SingleLinkedList<T>)
      requires other.Valid()
      ensures Valid() && fresh(head)
      ensures contents == other.contents
      ensures forall i :: 0 <= i < |chain| ==> fresh(chain[i])
    {
      head := new Node.Sentinel();
      size := 0;
      chain := [];
      contents := [];
      var buffer := other.Elements();
      var tmp := new SingleLinkedList<T>();
      tmp.PushFrontAll(buffer);
      new;
      Swap(tmp);
    }

    /** Walk the list from `begin()` to `end()`, collecting each element in order. */
    method Elements() returns (values: seq<T>)
      requires Valid()
      ensures values == contents
    {
      values := [];
      var it := Begin();
      var last := End();
      ghost var k := 1;
      while !it.Equals(last)
        invariant 1 <= k <= |chain| + 1
        invariant it.node == At(k) && last.node == null
        invariant values == contents[..k - 1]
        modifies it
        decreases |chain| + 1 - k
      {
        values := values + [it.Deref()];
        it.Increment();
        k := k + 1;
      }
    }

    /**
     The loop both constructors run on their freshly made, empty temporary:
     push `values` to the front, last value first, so that the list ends up
     holding `values` in their given order, all in new nodes.
     */
    method PushFrontAll(values: seq<T>)
      requires Valid() && |contents| == 0
      modifies this, head`next
      ensures Valid()
      ensures contents == values
      ensures forall i :: 0 <= i < |chain| ==> fresh(chain[i])
    {
      var i := |values|;
      while i > 0
        invariant 0 <= i <= |values|
        invariant Valid()
        invariant contents == values[i..]
        invariant forall j :: 0 <= j < |chain| ==> fresh(chain[j])
      {
        i := i - 1;
        PushFront(values[i]);
      }
    }

    /**
     Copy assignment: unless assigning to itself, copy `rhs` into a temporary
     and swap it in. `rhs` must not hold this list's sentinel, as two distinct
     lists never share nodes.
     */
    method Assign(rhs: SingleLinkedList<T>)
      requires Valid() && rhs.Valid()
      requires this == rhs || (head != rhs.head && head !in rhs.chain)
      modifies this, head`next
      ensures Valid()
      ensures contents == old(rhs.contents)
      ensures this != rhs ==> rhs.Valid() && forall i :: 0 <= i < |chain| ==> fresh(chain[i])
      ensures this == rhs ==> chain == old(chain) && size == old(size)
    {
      if this != rhs {
        var copy := new SingleLinkedList.Copy(rhs);
        Swap(copy);
      }
    }

    /** The iterator at the sentinel, the anchor for inserting or erasing at the front. */
    method BeforeBegin() returns (it: BasicIterator<T>)
      requires Valid()
      ensures fresh(it) && it.node == At(0)
    {
      it := new BasicIterator(head);
    }

    /** The iterator at the first element, or the end when the list is empty. */
    method Begin() returns (it: BasicIterator<T>)
      requires Valid()
      ensures fresh(it) && it.node == At(1)
    {
      it := new BasicIterator(head.next);
    }

    /** The end iterator. */
    method End() returns (it: BasicIterator<T>)
      requires Valid()
      ensures fresh(it) && it.node == At(|chain| + 1)
    {
      it := new BasicIterator(null);
    }

    /**
     Insert `value` right after the node `pos` references (the sentinel
     included) and return an iterator to the new node.
     */
    method InsertAfter(pos: BasicIterator<T>, value: T) returns (r: BasicIterator<T>)
      requires Valid()
      requires pos.node != null && (pos.node == head || pos.node in chain)
      modifies this, pos.node`next
      ensures Valid()
      ensures var k := old(PositionOf(pos.node));
        && contents == Inserted(old(contents), k, value)
        && chain == Inserted(old(chain), k, r.node)
      ensures size == old(size) + 1
      ensures fresh(r) && r.node != null && fresh(r.node)
    {
      ghost var k := PositionOf(pos.node);
      var n := new Node(value, pos.node.next);
      r := new BasicIterator(n);
      pos.node.next := n;
      size := size + 1;
      chain := Inserted(chain, k, n);
      contents := Inserted(contents, k, value);
      LinkedInsert(old(chain), old(contents), k, n);
    }

    /**
     Erase the node right after `pos` and return an iterator to the node that
     followed it (or the end). Only a non-empty list is changed; there `pos`
     must have a successor.
     */
    method EraseAfter(pos: BasicIterator<T>) returns (r: BasicIterator<T>)
      requires Valid()
      requires pos.node != null && (pos.node == head || pos.node in chain)
      requires pos.node.next != null || |contents| == 0
      modifies this, pos.node`next
      ensures Valid()
      ensures var k := old(PositionOf(pos.node));
        if old(|contents|) == 0 then
          && contents == old(contents) && chain == old(chain) && size == old(size)
          && r.node == null
        else
          && k < old(|contents|)
          && contents == Erased(old(contents), k)
          && chain == Erased(old(chain), k)
          && size == old(size) - 1
          && r.node == At(k + 1)
      ensures fresh(r)
    {
      if !IsEmpty() {
        ghost var k := PositionOf(pos.node);
        pos.node.next := pos.node.next.next;
        size := size - 1;
        chain := Erased(chain, k);
        contents := Erased(contents, k);
        LinkedErase(old(chain), old(contents), k);
      }
      r := new BasicIterator(pos.node.next);
    }

    /** Remove the first element, if there is one. */
    method PopFront()
      requires Valid()
      modifies this, head`next
      ensures Valid()
      ensures old(|contents|) == 0 ==> contents == old(contents) && chain == old(chain) && size == old(size)
      ensures old(|contents|) > 0 ==>
        contents == old(contents[1..]) && chain == old(chain[1..]) && size == old(size) - 1
    {
      if !IsEmpty() {
        head.next := head.next.next;
        size := size - 1;
        chain := chain[1..];
        contents := contents[1..];
        LinkedErase(old(chain), old(contents), 0);
        EraseAtFrontIsTail(old(chain));
        EraseAtFrontIsTail(old(contents));
      }
    }

    /** The element counter. */
    function GetSize(): (n: nat)
      requires Valid()
      reads this, head, chain
      ensures n == |contents| == |chain|
    {
      size
    }

    /** Whether the sentinel has no successor: exactly when the list holds no element. */
    function IsEmpty(): (r: bool)
      reads this, head, chain
      ensures Valid() ==> (r <==> |contents| == 0 && size == 0)
    {
      head.next == null
    }

    /** Insert `value` as the new first element. */
    method PushFront(value: T)
      requires Valid()
      modifies this, head`next
      ensures Valid()
      ensures contents == [value] + old(contents)
      ensures size == old(size) + 1
      ensures |chain| > 0 && fresh(chain[0]) && chain[1..] == old(chain)
    {
      var n := new Node(value, head.next);
      head.next := n;
      size := size + 1;
      chain := [n] + chain;
      contents := [value] + contents;
      LinkedInsert(old(chain), old(contents), 0, n);
      InsertAtFrontIsPrepend(old(chain), n);
      InsertAtFrontIsPrepend(old(contents), value);
    }

    /** Unlink the front node until the sentinel has no successor, then reset the counter. */
    method Clear()
      requires Valid()
      modifies this, head`next
      ensures Valid()
      ensures contents == [] && chain == [] && size == 0
    {
      ghost var k := 0;
      while !IsEmpty()
        invariant 0 <= k <= |chain|
        invariant head.next == (if k < |chain| then chain[k] else null)
        invariant Linked(old(head.next), chain, contents)
        modifies head`next
        decreases |chain| - k
      {
        head.next := head.next.next;
        k := k + 1;
      }
      size := 0;
      chain := [];
      contents := [];
    }

    /**
     Exchange the chains and counters of two lists. The sentinels stay where
     they are; element nodes, and the iterators that reference them, move to
     the other list. Neither list may hold the other's sentinel, as two
     distinct lists never share nodes.
     */
    method Swap(other: SingleLinkedList<T>)
      requires Valid() && other.Valid()
      requires this == other || (head !in other.chain && other.head !in chain)
      modifies this, head`next, other, other.head`next
      ensures Valid() && other.Valid()
      ensures contents == old(other.contents) && other.contents == old(contents)
      ensures chain == old(other.chain) && other.chain == old(chain)
      ensures size == old(other.size) && other.size == old(size)
    {
      SwapLinks(other);
      SwapCounters(other);
    }

    /** `std::swap(head_.next_node, other.head_.next_node)`: exchange the sentinels' links. */
    method SwapLinks(other: SingleLinkedList<T>)
      modifies head`next, other.head`next
      ensures head.next == old(other.head.next) && other.head.next == old(head.next)
    {
      var link := head.next;
      head.next := other.head.next;
      other.head.next := link;
    }

    /**
     `std::swap(size_, other.size_)`: exchange the counters, together with the
     element sequences the exchanged links now carry.
     */
    method SwapCounters(other: SingleLinkedList<T>)
      modifies this, other
      ensures size == old(other.size) && other.size == old(size)
      ensures contents == old(other.contents) && other.contents == old(contents)
      ensures chain == old(other.chain) && other.chain == old(chain)
    {
      var count := size;
      size := other.size;
      other.size := count;
      ghost var ns, cs := chain, contents;
      chain, contents := other.chain, other.contents;
      other.chain, other.contents := ns, cs;
    }

    /** `*pos = value` through a mutable iterator: overwrite the element `pos` references. */
    method SetValue(pos: BasicIterator<T>, value: T)
      requires Valid()
      requires pos.node != null && pos.node in chain
      modifies this, pos.node`value
      ensures Valid() && chain == old(chain)
      ensures var k := old(PositionOf(pos.node));
        1 <= k && contents == old(contents)[k - 1 := value]
    {
      ghost var k := PositionOf(pos.node);
      pos.node.value := value;
      contents := contents[k - 1 := value];
      LinkedUpdate(old(chain), old(contents), k - 1, value);
    }

    /**
     The node reached from the sentinel by following `steps` successor links:
     the node at cursor position `steps`, so the end is reached after exactly
     `|chain| + 1` links.
     */
    ghost function Reach(steps: nat): (n: Node?<T>)
      requires Valid() && steps <= |chain| + 1
      reads this, head, chain
      ensures n == At(steps)
      decreases steps
    {
      if steps == 0 then head else Reach(steps - 1).next
    }

    /**
     `GetSize()` counts the iteration steps from `begin()` to `end()`: the
     links leave the sentinel, visit `size` element nodes and then end.
     */
    lemma SizeIsStepCount()
      requires Valid()
      ensures Reach(size + 1) == null
      ensures forall k :: 0 <= k <= size ==> Reach(k) != null
    {
    }

    /** Iterators into the same list are equal exactly when they stand at the same position. */
    lemma PositionsDistinct(i: nat, j: nat)
      requires Valid() && i <= |chain| + 1 && j <= |chain| + 1
      ensures At(i) == At(j) <==> i == j
    {
    }

    /** Dereferencing the iterator at cursor position `k + 1` yields element `k`. */
    lemma DerefIsElement(it: BasicIterator<T>, k: nat)
      requires Valid() && k < |contents| && it.node == At(k + 1)
      ensures it.Deref() == contents[k]
    {
    }
  }

  /** The free `swap(lhs, rhs)`: the member `swap`. */
  method Swap<T(0)>(lhs: SingleLinkedList<T>, rhs: SingleLinkedList<T>)
    requires lhs.Valid() && rhs.Valid()
    requires lhs == rhs || (lhs.head !in rhs.chain && rhs.head !in lhs.chain)
    modifies lhs, lhs.head`next, rhs, rhs.head`next
    ensures lhs.Valid() && rhs.Valid()
    ensures lhs.contents == old(rhs.contents) && rhs.contents == old(lhs.contents)
    ensures lhs.chain == old(rhs.chain) && rhs.chain == old(lhs.chain)
    ensures lhs.size == old(rhs.size) && rhs.size == old(lhs.size)
  {
    lhs.Swap(rhs);
  }
}
