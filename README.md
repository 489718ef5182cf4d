# SingleLinkedList in Dafny

This project models the C++ class template `SingleLinkedList<Type>` and proves properties of the model. The list is a chain of heap nodes behind a valueless sentinel node `head_`. It keeps an element counter `size_` beside the chain. Forward iterators wrap a raw node pointer. Free functions provide `swap` and the six comparison operators.

## Files

- `single_linked_list.dfy`, module `LinkedList`, holds the mutable part.
  - `Node` is a class with a constant `value` and a mutable `next` link.
  - `Iterator` is a value wrapping a possibly-null node.
  - `SingleLinkedList` is a class with the sentinel `head`, the counter `size` and three ghost fields:
    - `nodes`: the real nodes in chain order;
    - `Contents`: the values they hold;
    - `Repr`: the list object, the sentinel and the nodes.
  - `WellLinked()` says the chain from the sentinel is exactly `nodes`, ends in null and holds `Contents`. `Valid()` adds that the counter never under-counts.
  - A position is an integer: -1 is the sentinel (`before_begin()`), `0 .. |nodes| - 1` are the real nodes, and `|nodes|` is `end()`. The predicate `At(it, i)` ties an iterator to a position.
  - Each mutator rewires `next` links in place, with the same branches as the C++ code. Its contract states the new `Contents`, counter and footprint.
  - `PushFront`, `PopFront`, `PopFrontCounted`, `InsertAfter`, `EraseAfter`, `EraseAfterCounted`, `Clear` and `Swap` also state the new `nodes` exactly. `Assign` keeps `nodes` on self-assignment, and otherwise states only that every node of the new chain is fresh.
  - The loops of `Clear` and of the copy constructor are `while` loops with invariants.
  - The free operators are functions over two lists. They read the values by walking the chain (`Values`).
- `sequences.dfy`, module `Sequences`, gives the effect of the positional mutators on a sequence. It also proves those effects inverse to each other, and proves them on multisets and element sets.
- `comparisons.dfy`, module `Comparisons`, holds the two standard algorithms behind the operators:
  - `Equal` is the three-iterator `std::equal`;
  - `LexLess` is `std::lexicographical_compare`, proved equal to a reference definition of lexicographic order (`LessAt`) and proved a strict total order.
  - It also holds the standard relations that the corrected operators are measured against.
- `findings.dfy`, module `Findings`, states each defect on a concrete input. Each is a method whose postcondition Dafny proves, on the member as written and on the corrected member.

`PushFront`, `PopFront`, `InsertAfter`, `EraseAfter` and `Clear` state `nodes` after the call as a function of `nodes` before it. The nodes that stay in the chain stay in their order. So an iterator to any node other than an erased one keeps its node. `Swap` exchanges the two chains whole, and `Copy` and `Assign` build fresh nodes.

## Where the code and its own comments or usual meaning differ

The model follows the code:
- `PopFront` and `EraseAfter` never decrement `size_`. Yet the comment on `GetSize` (single-linked-list.h:307) says it returns the number of elements, so the counter drifts above the element count.
- `operator==` (single-linked-list.h:379) compares `lhs` against a prefix of `rhs`. Container equality usually means the same length and equal elements.
- The comments on the increments (single-linked-list.h:84 and :97) call incrementing an iterator that is not at an element undefined behaviour. The code's prefix `operator++` checks for null (:87) and stays at `end()`.
- The copy constructor copies `other.size_` only when `other` has nodes (:255-278). Otherwise the temporary's zero counter is swapped in, which differs from `other.size_` once that counter has drifted.

## Model

| member | source | states |
|---|---|---|
| LinkedList.Node.Sentinel | single-linked-list/single-linked-list.h:13 | The default-constructed node, used for the sentinel, links to null. |
| LinkedList.Node.constructor | single-linked-list/single-linked-list.h:15 | `Node(val, next)` holds `val` and links to `next`. |
| LinkedList.Iterator.Next | single-linked-list/single-linked-list.h:85-93 | Prefix `++` follows the node's link, and leaves a null iterator null. |
| LinkedList.Iterator.Value | single-linked-list/single-linked-list.h:109-112 | `*it` is the value of the referenced node, which must not be null. |
| LinkedList.SingleLinkedList.constructor | single-linked-list/single-linked-list.h:235-237 | The default constructor gives a valid empty list with a zero counter and a fresh footprint. |
| LinkedList.SingleLinkedList.FromValues | single-linked-list/single-linked-list.h:239-247 | After clearing and pushing the values to the front from last to first, the list holds the values in the given order and the counter equals their number. |
| LinkedList.SingleLinkedList.Copy | single-linked-list/single-linked-list.h:249-279 | The copy holds the same values as `other` with fresh nodes. Its counter is `other`'s counter when `other` has elements, and 0 otherwise. |
| LinkedList.SingleLinkedList.CopyFrom | single-linked-list/single-linked-list.h:251-278 | The body of the copy constructor: it fills a temporary only when `other` has nodes, copies the counter only then, and swaps the temporary in. |
| LinkedList.SingleLinkedList.CopyNodesOf | single-linked-list/single-linked-list.h:253-262 | Starting from an empty list, copying the first node and then the loop gives a well-linked list of fresh nodes holding exactly `other`'s values. The counter and `other` are untouched. |
| LinkedList.SingleLinkedList.CopyRest | single-linked-list/single-linked-list.h:263-270 | The copy loop extends a copy of a prefix of `other` one node at a time until `other`'s chain ends, so the list ends up holding all of `other`'s values. |
| LinkedList.SingleLinkedList.LinkLast | single-linked-list/single-linked-list.h:265-268 | Linking a new node with a null link after the last node appends its value to `Contents` and the node to `nodes`, and returns an iterator to the new last position. |
| LinkedList.SingleLinkedList.Assign | single-linked-list/single-linked-list.h:281-293 | Self-assignment changes nothing: values, nodes, counter and footprint stay, so every iterator keeps its position. Otherwise the list gets `rhs`'s values in freshly allocated nodes it shares with no part of `rhs`, with the copy constructor's counter. |
| LinkedList.SingleLinkedList.Swap | single-linked-list/single-linked-list.h:296-300 | Exchanging the counters and the sentinels' links exchanges the two lists' values, nodes and counters, and both stay valid and disjoint. |
| LinkedList.Swap | single-linked-list/single-linked-list.h:370-374 | The free `swap` exchanges the values, nodes and counters of its two arguments. It touches only the two lists and their sentinels, allocates nothing, and leaves two disjoint lists disjoint, so it can be applied again. |
| LinkedList.SingleLinkedList.GetSize | single-linked-list/single-linked-list.h:308-311 | Returns the counter, which is never below the number of elements. |
| LinkedList.SingleLinkedList.IsEmpty | single-linked-list/single-linked-list.h:314-317 | True exactly when the counter is 0, and then the list has no elements. |
| LinkedList.SingleLinkedList.PushFront | single-linked-list/single-linked-list.h:319-323 | The values become `[value] + old`, the old nodes follow the new one in order, and the counter goes up by one. |
| LinkedList.SingleLinkedList.PopFront | single-linked-list/single-linked-list.h:325-343 | With elements present it drops the first value and node; on an empty chain nothing changes. The counter is left as it was in both cases. |
| LinkedList.SingleLinkedList.PopFrontCounted | single-linked-list/single-linked-list.h:325-343 | Corrected `PopFront`: the same chain effect, with the counter decremented exactly when a node was removed, so a counter that matched the element count still matches. |
| LinkedList.SingleLinkedList.InsertAfter | single-linked-list/single-linked-list.h:213-220 | At position `i` the values become `s[..i+1] + [value] + s[i+1..]` and the nodes change likewise. The counter goes up by one and the result is at position `i + 1` on a fresh node. |
| LinkedList.SingleLinkedList.EraseAfter | single-linked-list/single-linked-list.h:226-233 | At position `i` with a successor, exactly the value and node at `i + 1` go and the footprint loses that node. The result is at position `i + 1` (`end()` when nothing follows), and the counter is unchanged. |
| LinkedList.SingleLinkedList.EraseAfterCounted | single-linked-list/single-linked-list.h:226-233 | Corrected `EraseAfter`: the same chain effect with the counter decremented, so a counter that matched the element count still matches. |
| LinkedList.SingleLinkedList.Clear | single-linked-list/single-linked-list.h:345-362 | The walk over the chain ends; afterwards the list has no values and no nodes, the counter is 0, `begin() == end()`, and the footprint is the list and its sentinel. The result does not depend on the prior state, so a second call changes nothing. |
| LinkedList.SingleLinkedList.Begin | single-linked-list/single-linked-list.h:145-148 | `begin()` is at position 0, which is `end()` on an empty list. |
| LinkedList.SingleLinkedList.End | single-linked-list/single-linked-list.h:152-155 | `end()` is at position `|nodes|`, one past the last element. |
| LinkedList.SingleLinkedList.BeforeBegin | single-linked-list/single-linked-list.h:189-192 | `before_begin()` is at position -1, the sentinel. |
| LinkedList.SingleLinkedList.Values | single-linked-list/single-linked-list.h:391 | Walking the links from `begin()` to `end()` visits exactly the list's values in order. |
| LinkedList.SingleLinkedList.ValuesFrom | single-linked-list/single-linked-list.h:85-93 | Following the links from position `k` to the null link yields the values from index `k` on. |
| LinkedList.SingleLinkedList.NextAdvances | single-linked-list/single-linked-list.h:85-93 | Prefix `++` moves from position `i` to `i + 1`, and stays at `end()` when already there. |
| LinkedList.SingleLinkedList.IteratorEquality | single-linked-list/single-linked-list.h:56-80 | Two iterators of one list are equal exactly when they are at the same position; `!=` is its negation. |
| LinkedList.SingleLinkedList.ValueAt | single-linked-list/single-linked-list.h:109-112 | Dereferencing an iterator at real position `i` yields the `i`-th value. |
| LinkedList.Equal | single-linked-list/single-linked-list.h:376-380 | `operator==` as written, which needs `rhs` at least as long as `lhs`: it holds exactly when `lhs`'s values are the first `|lhs|` values of `rhs`. |
| LinkedList.NotEqual | single-linked-list/single-linked-list.h:382-386 | `operator!=` holds exactly when `lhs`'s values are not that prefix of `rhs`. |
| LinkedList.Less | single-linked-list/single-linked-list.h:388-392 | `operator<` holds exactly when some `k` has the two lists agree on `k` values, after which `lhs` has run out while `rhs` has not, or `lhs`'s next value is smaller. |
| LinkedList.LessEq | single-linked-list/single-linked-list.h:394-398 | `operator<=` as written, `!(lhs < rhs)`, is standard "greater than or equal". |
| LinkedList.Greater | single-linked-list/single-linked-list.h:400-404 | `operator>` as written, `!(lhs < rhs)`, is standard "greater than or equal". |
| LinkedList.GreaterEq | single-linked-list/single-linked-list.h:406-410 | `operator>=`, `!(lhs < rhs)`, is standard "greater than or equal", as intended. |
| LinkedList.EqualCorrected | single-linked-list/single-linked-list.h:376-380 | Corrected `operator==` holds exactly when the two value sequences are equal, for lists of any lengths. |
| LinkedList.LessEqCorrected | single-linked-list/single-linked-list.h:394-398 | Corrected `operator<=`, `!(rhs < lhs)`, holds exactly when `lhs < rhs` or the lists are equal. |
| LinkedList.GreaterCorrected | single-linked-list/single-linked-list.h:400-404 | Corrected `operator>`, `rhs < lhs`, is standard "greater than" and the complement of corrected `<=`. |
| Sequences.InsertedAfter | single-linked-list/single-linked-list.h:213-220 | Inserting after position `i` puts the value at index `i + 1`, keeps the elements up to `i` and shifts the later ones up by one. |
| Sequences.ErasedAfter | single-linked-list/single-linked-list.h:226-233 | Erasing after position `i` keeps the elements up to `i` and shifts those after `i + 1` down by one. |
| Sequences.InsertedAfterBeforeBegin | single-linked-list/single-linked-list.h:189-192 | `InsertAfter(before_begin(), v)` has the effect of `PushFront(v)`. |
| Sequences.ErasedAfterBeforeBegin | single-linked-list/single-linked-list.h:325-343 | `EraseAfter(before_begin())` has the chain effect of `PopFront()` on a non-empty list. |
| Sequences.InsertedAfterMultiset | single-linked-list/single-linked-list.h:213-220 | Inserting adds one occurrence of the new value and loses nothing. |
| Sequences.ErasedAfterMultiset | single-linked-list/single-linked-list.h:226-233 | Erasing removes one occurrence of the erased value and nothing else. |
| Sequences.ErasedAfterInsertedAfter | single-linked-list/single-linked-list.h:213-233 | Erasing after a position undoes inserting after it. |
| Sequences.InsertedAfterErasedAfter | single-linked-list/single-linked-list.h:213-233 | Re-inserting an erased value after the same position restores the sequence. |
| Sequences.ElementsInsertedAfter | single-linked-list/single-linked-list.h:213-220 | The node set after an insertion is the old set plus the new node. |
| Sequences.ElementsErasedAfter | single-linked-list/single-linked-list.h:226-233 | The node set after an erasure is the old set minus the erased node, which occurred once. |
| Comparisons.Equal | single-linked-list/single-linked-list.h:379 | `std::equal(a.begin(), a.end(), b.begin())` with `|a| <= |b|` holds exactly when `a` is the prefix of `b` of its own length. |
| Comparisons.LexLess | single-linked-list/single-linked-list.h:391 | `lexicographical_compare` decides element by element. It is never true against an empty right operand, and an empty left operand is less exactly than a non-empty one. |
| Comparisons.LexLessIsLessAt | single-linked-list/single-linked-list.h:391 | `lexicographical_compare` holds exactly when the reference definition of lexicographic order holds at some index. |
| Comparisons.LexLessIrreflexive | single-linked-list/single-linked-list.h:388-392 | No sequence is less than itself. |
| Comparisons.LexLessAsymmetric | single-linked-list/single-linked-list.h:388-392 | `a < b` excludes `b < a`. |
| Comparisons.LexLessTransitive | single-linked-list/single-linked-list.h:388-392 | `<` is transitive. |
| Comparisons.LexLessTrichotomy | single-linked-list/single-linked-list.h:388-392 | Any two sequences are ordered one way or the other, or are equal. |
| Comparisons.LexLessProperPrefix | single-linked-list/single-linked-list.h:388-392 | A proper prefix is less than the sequence it is a prefix of. |
| Comparisons.EqualStd | single-linked-list/single-linked-list.h:376-380 | Equal length plus `std::equal` is sequence equality. |
| Comparisons.LessEqStdTotalOrder | single-linked-list/single-linked-list.h:394-398 | Standard `<=` is reflexive, antisymmetric, transitive and total. |
| Comparisons.GreaterStdStrict | single-linked-list/single-linked-list.h:400-404 | Standard `>` is irreflexive and asymmetric, and holds exactly when `<=` fails. |
| Comparisons.GreaterEqStdIsNotLess | single-linked-list/single-linked-list.h:406-410 | Standard `>=` holds exactly when `<` fails. |
| Findings.PopFrontDrift | single-linked-list/single-linked-list.h:325-343 | On `{7}`, `PopFront` leaves no values while `GetSize()` is 1 and `IsEmpty()` is false. |
| Findings.PopFrontCountedAgrees | single-linked-list/single-linked-list.h:325-343 | On `{7}`, the corrected `PopFront` leaves `GetSize()` 0 and `IsEmpty()` true. |
| Findings.EraseAfterDrift | single-linked-list/single-linked-list.h:226-233 | On `{1, 2}`, `EraseAfter(begin())` leaves `{1}` while `GetSize()` is 2. |
| Findings.EraseAfterCountedAgrees | single-linked-list/single-linked-list.h:226-233 | On `{1, 2}`, the corrected `EraseAfter(begin())` leaves `{1}` with `GetSize()` 1. |
| Findings.EqualPrefix | single-linked-list/single-linked-list.h:379 | `{1} == {1, 2}` holds as written and fails when corrected. |
| Findings.LessEqReversed | single-linked-list/single-linked-list.h:394-398 | `{1} <= {2}` fails as written, although `{1} < {2}`; the corrected `<=` holds. |
| Findings.GreaterReflexive | single-linked-list/single-linked-list.h:400-404 | `{1} > {1}` holds as written and fails when corrected. |

## Left out

- Memory ownership is not modelled: `new`/`delete`, the destructor (which is `Clear()`), leak freedom and allocation failure. Dafny has no deallocation, and allocation is treated as infallible. Erased nodes simply leave `Repr`.
- `size_` is a `nat`. `size_t` wrap-around is not modelled, and neither is the `size_--` of `Clear`'s loop going below zero. That cannot happen, because `Valid()` keeps the counter at or above the element count.
- The const/non-const iterator split, the iterator typedefs, the converting constructor, `cbegin`/`cend`/`cbefore_begin` and the const overloads of `begin`/`end`/`before_begin` are left out. They are C++ type plumbing and return the same nodes as the overloads modelled.
- `operator->` and post-increment are left out. They are `&node->value` and "copy, then prefix `++`".
- Writing through `*it` is not modelled: a node's value is constant in the model, and no operation of the core writes one.
- The sentinel's default-constructed value needs a default for the element type (`T(0)`), as `Node() = default` does in C++.
- Undefined behaviour is a precondition:
  - dereferencing `end()` or `before_begin()`;
  - `EraseAfter` without a successor;
  - iterators of another list;
  - `==` with a longer left operand.
- `std::initializer_list` is a `seq<T>`, and its reverse iteration is an index loop running downwards.
- The ordering operators are modelled on `int` lists, standing for an element type with a total `<`. Equality is generic over types with `==`.
- In the copy constructor, the first node copied and the rest of the loop are two methods (`CopyNodesOf` and `CopyRest`) rather than one block.
- Self-swap is handled: `Swap` with `other == this` leaves the list as it was.

## Findings

| source | as written | input that shows it | evidently intended | confidence | as-written member | corrected member |
|---|---|---|---|---|---|---|
| single-linked-list/single-linked-list.h:325-343 | `PopFront` unlinks the first node but never decrements `size_` | `{7}` then `PopFront()`: no elements, `GetSize() == 1`, `IsEmpty()` false | `--size_` when a node is removed | high, not executed | Findings.PopFrontDrift | LinkedList.SingleLinkedList.PopFrontCounted |
| single-linked-list/single-linked-list.h:226-233 | `EraseAfter` unlinks the node but never decrements `size_` | `{1, 2}` then `EraseAfter(begin())`: `{1}` with `GetSize() == 2` | `--size_` | high, not executed | Findings.EraseAfterDrift | LinkedList.SingleLinkedList.EraseAfterCounted |
| single-linked-list/single-linked-list.h:379 | `operator==` is `std::equal(lhs.begin(), lhs.end(), rhs.begin())`, a prefix test that reads past `rhs`'s end when `lhs` is longer | `{1} == {1, 2}` is true | equal lengths and equal elements | high, not executed | Findings.EqualPrefix | LinkedList.EqualCorrected |
| single-linked-list/single-linked-list.h:394-398 | `operator<=` is `!(lhs < rhs)`, which is `>=` | `{1} <= {2}` is false | `!(rhs < lhs)` | high, not executed | Findings.LessEqReversed | LinkedList.LessEqCorrected |
| single-linked-list/single-linked-list.h:400-404 | `operator>` is `!(lhs < rhs)`, which is `>=` | `{1} > {1}` is true | `rhs < lhs` | high, not executed | Findings.GreaterReflexive | LinkedList.GreaterCorrected |
