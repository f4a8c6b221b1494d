# SingleLinkedList in Dafny

A model of the C++ class template `SingleLinkedList<Type>` (defined in
`src/main.cpp`, next to an empty `main`), a
singly linked list with a permanent sentinel node, together with its forward
iterator and free operators, and proofs about them.

The list owns a sentinel node `head_` whose `next_node` starts the chain of
element nodes, and an element counter `size_`. Iterators hold one node
pointer: the sentinel is the "before-begin" position and `nullptr` is the end.
Every positional mutator (`InsertAfter`, `EraseAfter`) acts on the node
*after* an iterator, so the sentinel makes the front of the list an ordinary
position.

The model keeps that shape:

- **`ForwardList`** (`forward_list.dfy`) holds the main model.
  - `Node` and `BasicIterator` are classes whose fields the methods update.
  - `SingleLinkedList` is a class with the sentinel `head` and the counter `size`.
  - Two ghost fields describe a list's state: `chain` holds the element nodes in link order and `contents` holds their values. `Valid()` ties both to the actual links.
  - Every mutator is a method with a `modifies` clause. It is proved to keep `Valid()`, and its `ensures` give the new `contents` and `chain` in terms of the old ones. `InsertAfter` and `EraseAfter` state that effect through `Inserted` and `Erased` from `Sequences`. `PushFront`, `PopFront`, `Clear`, `Swap` and `SetValue` state it with plain sequence expressions (prepend, tail, empty, exchange, update at one index).
- **`Sequences`** (`sequences.dfy`) gives the abstract effect of the positional mutators as `Inserted` and `Erased`. It also proves how they relate to each other and to front insertion and removal.
- **`Comparison`** (`comparison.dfy`) defines lexicographic order on element sequences as the walk `std::lexicographical_compare` makes. It proves that walk equal to a reference definition and proves that it is a strict total order.
- **`ListOperators`** (`list_operators.dfy`) models the free operators `==`, `!=`, `<`, `<=`, `>` and `>=` on two lists. `==` and `<` walk both lists with iterators. The other four negate them or swap their arguments.
- **`ListClients`** (`list_clients.dfy`) holds uses of the list on concrete values. Each is proved from the members' contracts alone.

A cursor position is a number: 0 is the sentinel, `k + 1` is element `k`, and
`|chain| + 1` is the end. "Insert after position `k`" puts the new value at
index `k` of `contents`, and "erase after position `k`" removes index `k`.

## Model

| member | source | states |
|---|---|---|
| ForwardList.Node.Sentinel | src/main.cpp:14 | the default-built node (the sentinel) has no successor |
| ForwardList.Node.constructor | src/main.cpp:15 | a node holds the given value and successor |
| ForwardList.BasicIterator.constructor | src/main.cpp:27 | an iterator is built on the given node |
| ForwardList.BasicIterator.Increment | src/main.cpp:68-72 | prefix `++` requires a node and moves the iterator to that node's successor |
| ForwardList.BasicIterator.PostIncrement | src/main.cpp:74-79 | postfix `++` requires a node, moves to the successor and returns a new iterator at the old node |
| ForwardList.BasicIterator.Equals | src/main.cpp:52-66 | `==` is true exactly when both iterators reference the same node (or both the end); `!=` is its negation |
| ForwardList.SingleLinkedList.PositionsDistinct | src/main.cpp:52-66 | two iterators of one valid list compare equal (`==`, and `!=` as its negation) exactly when they stand at the same cursor position |
| ForwardList.BasicIterator.Deref | src/main.cpp:81-89 | `*it` and `it->` require a node (the source's `assert(node_)`) and give the value stored in that node |
| ForwardList.SingleLinkedList.DerefIsElement | src/main.cpp:81-89 | `*it` (and `it->`) at cursor position `k + 1` yields element `k` of the list |
| ForwardList.SingleLinkedList.SetValue | src/main.cpp:81-84 | writing through the reference `*it` returns replaces exactly element `k - 1` for the node at position `k` and keeps the chain and validity |
| ForwardList.SingleLinkedList.constructor | src/main.cpp:96 | the default list is valid and empty, with a fresh sentinel |
| ForwardList.SingleLinkedList.FromValues | src/main.cpp:98-106 | the initializer-list constructor yields a valid list holding exactly the given values in order, all in new nodes |
| ForwardList.SingleLinkedList.PushFrontAll | src/main.cpp:101-103 | pushing the values to the front of an empty list last-first leaves it holding them in their given order, all in new nodes |
| ForwardList.SingleLinkedList.Elements | src/main.cpp:112-114 | walking from `begin()` to `end()` and collecting each element yields exactly the list's element sequence, and changes nothing |
| ForwardList.SingleLinkedList.Copy | src/main.cpp:108-120 | the copy constructor yields a valid list with the same elements as `other`, made of new nodes only, so it shares no node with `other` |
| ForwardList.SingleLinkedList.Assign | src/main.cpp:122-128 | after `operator=` the list holds the old elements of `rhs`; assigning a list to itself changes nothing, otherwise `rhs` stays valid and every node of the result is new |
| ForwardList.SingleLinkedList.BeforeBegin | src/main.cpp:139-149 | `before_begin()` stands at the sentinel, cursor position 0 |
| ForwardList.SingleLinkedList.Begin | src/main.cpp:151-153 | `begin()` stands at cursor position 1: the first element node, or the end of an empty list |
| ForwardList.SingleLinkedList.End | src/main.cpp:155-157 | `end()` stands at cursor position `size + 1`, which holds no node |
| ForwardList.SingleLinkedList.InsertAfter | src/main.cpp:175-184 | inserting after position `k` puts the value at index `k` of the elements, links one new node there, adds one to the size, keeps validity and returns an iterator to the new node |
| ForwardList.SingleLinkedList.EraseAfter | src/main.cpp:186-194 | on an empty list nothing changes and the end is returned; otherwise element `k` is removed from the elements and the chain, the size drops by one, validity is kept and the returned iterator stands at the node that followed the erased one |
| ForwardList.SingleLinkedList.PopFront | src/main.cpp:196-203 | on an empty list nothing changes; otherwise the first element and node are dropped and the size drops by one |
| ForwardList.SingleLinkedList.GetSize | src/main.cpp:205-207 | the counter equals the number of elements and of element nodes |
| ForwardList.SingleLinkedList.IsEmpty | src/main.cpp:209-211 | testing the sentinel's successor for null is true exactly when the list has no elements and the counter is 0 |
| ForwardList.SingleLinkedList.PushFront | src/main.cpp:213-221 | the value becomes the new first element in one new node, the old chain follows it unchanged, and the size grows by one |
| ForwardList.SingleLinkedList.Clear | src/main.cpp:223-231 | unlinking front nodes until the sentinel has no successor, then zeroing the counter, leaves a valid empty list |
| ForwardList.SingleLinkedList.Swap | src/main.cpp:233-236 | member `swap` exchanges the elements, chains and sizes of two lists, and both stay valid |
| ForwardList.SingleLinkedList.SwapLinks | src/main.cpp:234 | the two sentinels' successor links are exchanged; the frame allows only those two `next` fields to change |
| ForwardList.SingleLinkedList.SwapCounters | src/main.cpp:235 | the two counters are exchanged, together with the ghost views of the elements and chains |
| ForwardList.SingleLinkedList.SizeIsStepCount | src/main.cpp:205-207 | from the sentinel, following `size + 1` successor links reaches the end, and no fewer links do |
| ForwardList.Swap | src/main.cpp:247-250 | the free `swap` exchanges the two lists' elements, chains and sizes (so iterators follow their nodes to the other list), and both stay valid |
| ListOperators.Equal | src/main.cpp:252-258 | comparing the sizes and then walking both lists with iterators gives true exactly when the two element sequences are equal |
| ListOperators.NotEqual | src/main.cpp:260-263 | `!=` is true exactly when the element sequences differ |
| ListOperators.Less | src/main.cpp:265-268 | the iterator walk of `std::lexicographical_compare` over both lists decides the lexicographic order of their element sequences |
| ListOperators.LessOrEqual | src/main.cpp:270-273 | `!(rhs < lhs)` holds exactly when `lhs` is less than or equal to `rhs` |
| ListOperators.Greater | src/main.cpp:275-278 | `rhs < lhs` holds exactly when `lhs` is neither less than nor equal to `rhs` |
| ListOperators.GreaterOrEqual | src/main.cpp:280-283 | `!(lhs < rhs)` holds exactly when `rhs` is less than `lhs` or the two are equal |
| Comparison.LessIff | src/main.cpp:265-268 | the comparison walk holds exactly when the two sequences agree up to some position `k` and then `lhs` ends while `rhs` goes on, or `lhs[k] < rhs[k]` |
| Comparison.LessFrom | src/main.cpp:265-268 | one step of the walk at position `k`: the right end gives false, the left end gives true, a smaller element decides, and equal elements move on |
| Comparison.StrictPrefixIsLess | src/main.cpp:265-268 | a strict prefix compares less |
| Comparison.LessIrreflexive | src/main.cpp:265-268 | no list compares less than itself |
| Comparison.LessAsymmetric | src/main.cpp:265-268 | `a < b` and `b < a` never both hold |
| Comparison.LessTransitive | src/main.cpp:265-268 | `a < b` and `b < c` give `a < c` |
| Comparison.LessTrichotomy | src/main.cpp:270-283 | exactly one of less, equal and greater holds, which is what lets `<=`, `>` and `>=` be written through `<` |
| Comparison.Examples | src/main.cpp:265-268 | `{1, 2} < {1, 2, 3}`, `{} < {1}`, and `{1, 2, 9} < {1, 3}` because the first differing element decides |
| Sequences.Inserted | src/main.cpp:175-184 | inserting after position `k` makes a sequence one longer with the value at index `k`, the elements before `k` kept and the rest shifted up by one |
| Sequences.Erased | src/main.cpp:186-194 | erasing after position `k` makes a sequence one shorter with the elements before `k` kept and the rest shifted down by one |
| Sequences.EraseUndoesInsert | src/main.cpp:175-194 | `EraseAfter(pos)` right after `InsertAfter(pos, v)` restores the elements |
| Sequences.InsertAtFrontIsPrepend | src/main.cpp:175-184 | `InsertAfter(before_begin(), v)` has the effect of `PushFront(v)` |
| Sequences.EraseAtFrontIsTail | src/main.cpp:186-203 | `EraseAfter(before_begin())` has the effect of `PopFront()` |
| ListClients.PopFrontAfterInit | src/main.cpp:196-203 | `{1, 2, 3}` followed by `PopFront()` holds `{2, 3}` with size 2 |
| ListClients.PopFrontOnEmpty | src/main.cpp:196-203 | `PopFront()` on an empty list leaves it empty with size 0 |
| ListClients.CopyIsIndependent | src/main.cpp:108-120 | a copy shares no node with its original: pushing onto the copy leaves the original unchanged |
| ListClients.AssignCopiesValues | src/main.cpp:122-128 | after `a = b`, both `a` and `b` hold `b`'s values |
| ListClients.SwapTwiceRestores | src/main.cpp:247-250 | swapping two lists twice restores both |
| ListClients.InsertAfterBeforeBegin | src/main.cpp:175-184 | inserting 1 after `before_begin()` of `{2, 3}` gives `{1, 2, 3}` and returns an iterator to the 1 |
| ListClients.EraseAfterBegin | src/main.cpp:186-194 | erasing after `begin()` of `{1, 2, 3}` gives `{1, 3}` and returns an iterator to the 3 |
| ListClients.ClearEmpties | src/main.cpp:223-231 | `Clear()` leaves an empty list with size 0 |
| ListClients.PrefixComparesLess | src/main.cpp:252-283 | `{1, 2}` and `{1, 2, 3}` compare as less, less-or-equal, not greater and not equal |

## Left out

- Allocation failure is not modelled. In the source, `InsertAfter` and `PushFront` catch an exception from `new` and rethrow it.
- Deallocation is not modelled: the `delete` calls in `EraseAfter`, `PopFront` and `Clear`, and the destructor, which calls `Clear()`. Unlinked nodes are left to the garbage collector, and the `current` pointer in `Clear` only feeds `delete`.
- `size_t` wrap-around is not modelled: `size` is a `nat`.
- The `const` and mutable iterators are one class, `BasicIterator`, because they differ only in the constness of `*it`. The same goes for `before_begin`/`cbefore_begin`, `begin`/`cbegin` and `end`/`cend`. Writing through `*it` is the method `SetValue`.
- `operator->` is the same access as `operator*`, so `Deref` and `DerefIsElement` cover both. The iterator's copy constructor, its default constructor and `operator=` just copy or clear the node pointer, and are not modelled separately.
- The `IsEmpty() && size_ == 0` guard in both constructors always holds for a freshly constructed list. The model runs the guarded code unconditionally.
- The copy constructor's `std::vector` buffer is a local sequence.
- The initializer list is a sequence.
- The free operators compare element sequences with `==` on the element type. Ordering is stated for `int` lists, since Dafny has no generic `<`.
- `ListOperators.Equal` and `ListOperators.Less` test an iterator for the end position by checking whether it holds a node. That is what comparing it with the `nullptr` iterator from `end()` does, so no `end()` iterator is allocated.
- ForwardList.SingleLinkedList.EraseAfter: erasing after the last node of a non-empty list dereferences a null pointer in the source, which is undefined behaviour. The requires clause excludes it.
- ForwardList.SingleLinkedList.Swap: distinct lists are required to own disjoint nodes, which the C++ ownership of nodes guarantees.
- ForwardList.SingleLinkedList.Assign: distinct lists are required to own disjoint nodes, which the C++ ownership of nodes guarantees.
- ForwardList.SingleLinkedList.PushFrontAll: it requires an empty list, because both constructors run its loop on a freshly made temporary.
- `main` is empty and is not modelled.
