# SimpleLinkedList in Dafny

A model of `SimpleLinkedList<E>`, the hand-written doubly linked list of the
`generics` repository, together with its fail-fast iterator `Itr`. The model
keeps the list's own form. A `Node` class holds `item`, `prev` and `next`. A
`SimpleLinkedList` class holds `head`, `tail`, `size` and `modCount`, and its
methods relink nodes in place exactly as the Java methods do. An `Itr` class
holds the cursor (`next`, `lastReturned`, `nextIndex`) and `expectedModCount`.

Every list method is proved against a value-level meaning of the list:

- the ghost sequence `Elements` of the items from `head` to `tail`;
- the ghost sequence `Nodes` of the nodes themselves;
- the footprint `Repr`.

The object invariant `Valid()` says four things:

- the `next` links run from `head` to `tail` through `Nodes`;
- the `prev` links run back the same way;
- no node occurs twice;
- `size` is the length.

Each operation's contract states its effect on `Elements` through the functions
of module `ListSpec`:

- `Inserted` and `Removed` for `add(i, e)` and `remove(i)`;
- `FirstIndex` and `LastIndex` for `indexOf` and `lastIndexOf`;
- `Select` for `removeAll` and `retainAll`.

The lemmas in `ListSpec` prove what those functions mean:

- inserting then removing at the same position restores the sequence, and so does the reverse;
- `Select` keeps exactly the elements that pass, with their multiplicity;
- `removeAll(c)` and `retainAll(c)` partition the list;
- repeating either operation changes nothing;
- either one reports a change exactly when some element fails its test.

Java exceptions become results:

- `Result<T>` and `Outcome` in module `Outcomes` carry `IndexOutOfBounds`,
  `NullPointer`, `NoSuchElement`, `IllegalState` and `ConcurrentModification`;
- a collection argument that may be `null` is an `Option<seq<T>>`.

Fail-fast behaviour is an invariant of the iterator. While `expectedModCount`
equals the list's `modCount`, the cursor describes a position in the list as it
is now. Once the two differ they stay different: `modCount` only grows, and it
is modelled as an unbounded integer. So every later `Next` reports
`ConcurrentModification`. A later `Remove` reports it too once an element has
been returned since the last removal; otherwise it reports `IllegalState`,
because that test comes first. Calls that change nothing (`addAll` of an empty
collection, a `removeAll` or `retainAll` that removes nothing) leave the chain
and `modCount` as they were, so a live iterator carries on.

The proof of `Itr.Remove` also shows something about the source. The branch
`next == lastReturned` (lines 177-178) can never be taken: the cursor always
lies just past the node it last returned. The model marks that branch
unreachable.

The module `Scenarios` restates each case of the repository's unit tests as a
client method whose postcondition is the asserted outcome. It also contains a
generic traversal, proved to visit every element of any list in order.

Files:

- `outcomes.dfy`: error kinds, `Result`, `Outcome`, `Option`.
- `list_spec.dfy`: the sequence functions and lemmas (module `ListSpec`).
- `simple_linked_list.dfy`: `Node`, `SimpleLinkedList`, `Itr` (module `Collections`).
- `scenarios.dfy`: the unit-test scenarios (module `Scenarios`).

## Model

| member | source | states |
|---|---|---|
| ListSpec.Inserted | src/main/java/edu/eci/arsw/generics/collections/SimpleLinkedList.java:226-231 | inserting at `i` gives a sequence one longer with the new element at `i`, the elements before `i` unchanged and those from `i` on shifted up by one |
| ListSpec.Removed | src/main/java/edu/eci/arsw/generics/collections/SimpleLinkedList.java:244-248 | removing at `i` gives a sequence one shorter, the elements before `i` unchanged and those after `i` shifted down by one |
| ListSpec.RemovedInserted | src/main/java/edu/eci/arsw/generics/collections/SimpleLinkedList.java:226-248 | `remove(i)` undoes `add(i, x)` |
| ListSpec.InsertedRemoved | src/main/java/edu/eci/arsw/generics/collections/SimpleLinkedList.java:226-248 | re-inserting the removed element at its position undoes `remove(i)` |
| ListSpec.InsertedIntoSplice | src/main/java/edu/eci/arsw/generics/collections/SimpleLinkedList.java:319-331 | inserting the next element of `c` at `index + k` extends the splice of `c[..k]` at `index` to `c[..k+1]`, the step of `addAll(index, c)` |
| ListSpec.FirstIndex | src/main/java/edu/eci/arsw/generics/collections/SimpleLinkedList.java:279-287 | the result is -1 exactly when `x` is absent, and otherwise a position holding `x` with no earlier one holding it |
| ListSpec.LastIndex | src/main/java/edu/eci/arsw/generics/collections/SimpleLinkedList.java:289-297 | the result is -1 exactly when `x` is absent, and otherwise a position holding `x` with no later one holding it |
| ListSpec.Select | src/main/java/edu/eci/arsw/generics/collections/SimpleLinkedList.java:333-359 | what `retainAll`/`removeAll` leave: no longer than the input, and every element kept passes the membership test |
| ListSpec.SelectCount | src/main/java/edu/eci/arsw/generics/collections/SimpleLinkedList.java:333-359 | every element that passes is kept as many times as it occurs, every other is dropped entirely |
| ListSpec.SelectPrefix | src/main/java/edu/eci/arsw/generics/collections/SimpleLinkedList.java:338-343 | examining one more element appends it to what is kept exactly when it passes |
| ListSpec.Filtered | src/main/java/edu/eci/arsw/generics/collections/SimpleLinkedList.java:338-343 | the list part-way through the walk (the kept elements, then those not yet examined) has the matching length and is the final result once every element is examined |
| ListSpec.SelectStep | src/main/java/edu/eci/arsw/generics/collections/SimpleLinkedList.java:338-343 | the element under the cursor after `k` steps is `s[k]`; keeping it or removing it at the cursor gives the list after `k + 1` steps |
| ListSpec.SelectShorter | src/main/java/edu/eci/arsw/generics/collections/SimpleLinkedList.java:336-344 | the result is shorter than the input exactly when some element fails the test, which is when `modified` is set |
| ListSpec.SelectIdentity | src/main/java/edu/eci/arsw/generics/collections/SimpleLinkedList.java:333-359 | the walk leaves the list as it was exactly when every element passes |
| ListSpec.SelectIdempotent | src/main/java/edu/eci/arsw/generics/collections/SimpleLinkedList.java:333-359 | a second `removeAll(c)` (or `retainAll(c)`) removes nothing more |
| ListSpec.SelectPartition | src/main/java/edu/eci/arsw/generics/collections/SimpleLinkedList.java:333-359 | what `retainAll(c)` keeps and what `removeAll(c)` keeps together make up the list, with multiplicity |
| Collections.Node.constructor | src/main/java/edu/eci/arsw/generics/collections/SimpleLinkedList.java:24-28 | a new node holds the given item and links |
| Collections.SimpleLinkedList.constructor | src/main/java/edu/eci/arsw/generics/collections/SimpleLinkedList.java:31-35 | a new list is valid and empty, with `modCount` 0 |
| Collections.SimpleLinkedList.LinkFirst | src/main/java/edu/eci/arsw/generics/collections/SimpleLinkedList.java:38-49 | the list stays valid, holds `e` in front of the old elements, and `modCount` grows by one |
| Collections.SimpleLinkedList.LinkLast | src/main/java/edu/eci/arsw/generics/collections/SimpleLinkedList.java:51-62 | the list stays valid, holds the old elements followed by `e`, and `modCount` grows by one |
| Collections.SimpleLinkedList.LinkBefore | src/main/java/edu/eci/arsw/generics/collections/SimpleLinkedList.java:64-75 | with `succ` the node at `k`, the list stays valid, holds `e` inserted at `k`, and `modCount` grows by one |
| Collections.SimpleLinkedList.Unlink | src/main/java/edu/eci/arsw/generics/collections/SimpleLinkedList.java:77-101 | with `x` the node at `k`, the list stays valid without `x`, returns `x`'s element, drops element and node `k`, clears `x`'s links, and `modCount` grows by one |
| Collections.SimpleLinkedList.NodeAt | src/main/java/edu/eci/arsw/generics/collections/SimpleLinkedList.java:103-114 | the walk from the nearer end returns node `index`, which holds element `index` |
| Collections.SimpleLinkedList.CheckPositionIndex | src/main/java/edu/eci/arsw/generics/collections/SimpleLinkedList.java:116-119 | passes exactly for 0..size inclusive, and otherwise fails with `IndexOutOfBounds` |
| Collections.SimpleLinkedList.CheckElementIndex | src/main/java/edu/eci/arsw/generics/collections/SimpleLinkedList.java:121-124 | passes exactly for 0..size-1, and otherwise fails with `IndexOutOfBounds` |
| Collections.SimpleLinkedList.Size | src/main/java/edu/eci/arsw/generics/collections/SimpleLinkedList.java:128-131 | the `size` field is the number of elements |
| Collections.SimpleLinkedList.IsEmpty | src/main/java/edu/eci/arsw/generics/collections/SimpleLinkedList.java:133-136 | true exactly when there are no elements |
| Collections.SimpleLinkedList.Contains | src/main/java/edu/eci/arsw/generics/collections/SimpleLinkedList.java:138-141 | true exactly when `o` is one of the elements |
| Collections.SimpleLinkedList.Iterator | src/main/java/edu/eci/arsw/generics/collections/SimpleLinkedList.java:143-146 | a fresh, valid iterator at position 0 that is in step with the list |
| Collections.SimpleLinkedList.ToArray | src/main/java/edu/eci/arsw/generics/collections/SimpleLinkedList.java:192-200 | a new array whose length is the size and whose slots hold the elements in order |
| Collections.SimpleLinkedList.ToArrayInto | src/main/java/edu/eci/arsw/generics/collections/SimpleLinkedList.java:202-218 | `NullPointer` for a null array; otherwise the elements fill `a` when they fit and otherwise a new array of exactly their number, and a slot to spare after them is set to null with the rest of `a` kept |
| Collections.SimpleLinkedList.Add | src/main/java/edu/eci/arsw/generics/collections/SimpleLinkedList.java:220-224 | returns true, appends `e`, and `modCount` grows by one |
| Collections.SimpleLinkedList.AddAt | src/main/java/edu/eci/arsw/generics/collections/SimpleLinkedList.java:226-231 | for 0..size, inserts `e` at `index` and `modCount` grows by one; otherwise `IndexOutOfBounds` and the list is unchanged |
| Collections.SimpleLinkedList.RemoveValue | src/main/java/edu/eci/arsw/generics/collections/SimpleLinkedList.java:233-242 | true exactly when `o` occurs; then its first occurrence is removed and `modCount` grows by one, otherwise nothing changes |
| Collections.SimpleLinkedList.RemoveAt | src/main/java/edu/eci/arsw/generics/collections/SimpleLinkedList.java:244-248 | for 0..size-1, returns element `index` and removes it, and `modCount` grows by one; otherwise `IndexOutOfBounds` and the list is unchanged |
| Collections.SimpleLinkedList.Clear | src/main/java/edu/eci/arsw/generics/collections/SimpleLinkedList.java:250-262 | the list is valid and empty, every former node is unlinked, and `modCount` grows by one |
| Collections.SimpleLinkedList.Get | src/main/java/edu/eci/arsw/generics/collections/SimpleLinkedList.java:264-268 | element `index` for 0..size-1, and otherwise `IndexOutOfBounds` |
| Collections.SimpleLinkedList.Set | src/main/java/edu/eci/arsw/generics/collections/SimpleLinkedList.java:270-277 | for 0..size-1, returns the old element and replaces it, with the same nodes and `modCount` unchanged; otherwise `IndexOutOfBounds` and the list is unchanged |
| Collections.SimpleLinkedList.IndexOf | src/main/java/edu/eci/arsw/generics/collections/SimpleLinkedList.java:279-287 | the walk from `head` returns the first position of `o`, or -1 |
| Collections.SimpleLinkedList.LastIndexOf | src/main/java/edu/eci/arsw/generics/collections/SimpleLinkedList.java:289-297 | the walk from `tail` returns the last position of `o`, or -1 |
| Collections.SimpleLinkedList.ContainsAll | src/main/java/edu/eci/arsw/generics/collections/SimpleLinkedList.java:301-306 | `NullPointer` for a null collection, and otherwise whether every element of `c` occurs in the list |
| Collections.SimpleLinkedList.AddAll | src/main/java/edu/eci/arsw/generics/collections/SimpleLinkedList.java:308-317 | `NullPointer` for a null collection and nothing changes; otherwise appends `c` in order, returns whether `c` was non-empty, and `modCount` grows by `|c|`; an empty `c` leaves the list untouched |
| Collections.SimpleLinkedList.AddAllAt | src/main/java/edu/eci/arsw/generics/collections/SimpleLinkedList.java:319-331 | `NullPointer`, then `IndexOutOfBounds`, each leaving the list unchanged; otherwise splices `c` in at `index`, returns whether `c` was non-empty, and `modCount` grows by `|c|`; an empty `c` leaves the list untouched |
| Collections.SimpleLinkedList.FilterStep | src/main/java/edu/eci/arsw/generics/collections/SimpleLinkedList.java:338-343 | one round of the iterator loop takes the next element and removes it through the iterator exactly when it fails the test, keeping the walk's invariant; when it keeps the element the node chain is unchanged |
| Collections.SimpleLinkedList.RemoveUnless | src/main/java/edu/eci/arsw/generics/collections/SimpleLinkedList.java:333-359 | the iterator loop leaves exactly `Select` of the old elements, reports whether anything was removed, and adds one to `modCount` per removal; when nothing was removed the node chain is unchanged |
| Collections.SimpleLinkedList.RemoveAll | src/main/java/edu/eci/arsw/generics/collections/SimpleLinkedList.java:333-345 | `NullPointer` for a null collection; otherwise keeps the elements not in `c`, in order, and returns whether some element was in `c`; on false the node chain is unchanged |
| Collections.SimpleLinkedList.RetainAll | src/main/java/edu/eci/arsw/generics/collections/SimpleLinkedList.java:347-359 | `NullPointer` for a null collection; otherwise keeps the elements in `c`, in order, and returns whether some element was not in `c`; on false the node chain is unchanged |
| Collections.Itr.constructor | src/main/java/edu/eci/arsw/generics/collections/SimpleLinkedList.java:149-153 | a new iterator is valid, at position 0, with nothing returned yet and `expectedModCount` equal to the list's `modCount` |
| Collections.Itr.HasNext | src/main/java/edu/eci/arsw/generics/collections/SimpleLinkedList.java:155-158 | true exactly when `nextIndex` is below the current size, which while in step means elements remain |
| Collections.Itr.CheckForComodification | src/main/java/edu/eci/arsw/generics/collections/SimpleLinkedList.java:186-189 | passes exactly when the list's `modCount` equals `expectedModCount`, and otherwise fails with `ConcurrentModification` |
| Collections.Itr.Next | src/main/java/edu/eci/arsw/generics/collections/SimpleLinkedList.java:160-168 | `ConcurrentModification` when out of step, `NoSuchElement` at the end, and otherwise returns the element at `nextIndex` and moves past it |
| Collections.Itr.Remove | src/main/java/edu/eci/arsw/generics/collections/SimpleLinkedList.java:170-184 | `IllegalState` when nothing was returned since the last removal, `ConcurrentModification` when out of step, and otherwise removes the last returned element, moves the cursor back and stays in step |
| Scenarios.AddAndGet | src/test/java/edu/eci/arsw/generics/SimpleLinkedListTest.java:13-24 | a new list is empty; after adding 1, 2, 3 the size is 3 and positions 0-2 hold 1, 2, 3 |
| Scenarios.AddAtIndex | src/test/java/edu/eci/arsw/generics/SimpleLinkedListTest.java:26-36 | inserting "b" at 1 into ["a", "c"] gives ["a", "b", "c"] |
| Scenarios.SetReplaces | src/test/java/edu/eci/arsw/generics/SimpleLinkedListTest.java:38-46 | `set(1, 99)` on [10, 20] returns 20 and leaves 99 at 1 |
| Scenarios.RemoveByIndex | src/test/java/edu/eci/arsw/generics/SimpleLinkedListTest.java:48-58 | `remove(1)` on [10, 20, 30] returns 20 and leaves size 2 with 30 at 1 |
| Scenarios.RemoveByObject | src/test/java/edu/eci/arsw/generics/SimpleLinkedListTest.java:60-70 | `remove("x")` on ["x", "y", "x"] removes only the first "x" |
| Scenarios.ContainsAndIndexOf | src/test/java/edu/eci/arsw/generics/SimpleLinkedListTest.java:72-81 | 7 is contained at index 1 and 100 has index -1 |
| Scenarios.Traverse | src/test/java/edu/eci/arsw/generics/SimpleLinkedListTest.java:83-93 | for any list, the `hasNext`/`next` loop sees exactly its elements in order |
| Scenarios.TraverseAll | src/test/java/edu/eci/arsw/generics/SimpleLinkedListTest.java:83-93 | iterating over [1, 2, 3] sees 1, 2, 3 and sums to 6 |
| Scenarios.FailFast | src/test/java/edu/eci/arsw/generics/SimpleLinkedListTest.java:95-104 | after an `add` behind a live iterator, `hasNext` is true and `next` fails with `ConcurrentModification` |
| Scenarios.NoOpKeepsIterator | src/main/java/edu/eci/arsw/generics/collections/SimpleLinkedList.java:308-345 | on [1], an iterator survives `removeAll([7])`: `next` gives 1; it survives `addAll([])`: `next` then reports `NoSuchElement`, not `ConcurrentModification` |
| Scenarios.ClearEmpties | src/test/java/edu/eci/arsw/generics/SimpleLinkedListTest.java:106-114 | after `clear` the size is 0 and the list is empty |
| Scenarios.InvalidIndexes | src/test/java/edu/eci/arsw/generics/SimpleLinkedListTest.java:116-127 | on a list of two, `get(-1)`, `get(2)`, `add(3, _)`, `remove(2)` and `set(2, _)` all fail with `IndexOutOfBounds` |
| Scenarios.ToArrayCopies | src/test/java/edu/eci/arsw/generics/SimpleLinkedListTest.java:129-139 | both `toArray` forms copy ["a", "b"] in order, and `toArray(null)` is refused with `NullPointer` |

## Left out

- `Stats`, `DoubleFileReader` and `App`: they are clients of the list, not part of it.
- `listIterator()`, `listIterator(int)` and `subList`: the source only throws `UnsupportedOperationException` there, so there is nothing to model.
- Java `int` arithmetic: `size` and `modCount` are unbounded integers. A list of 2^31 elements, or a `modCount` that wraps around and meets `expectedModCount` again, is not modelled.
- Null elements: the element type has no `null`, and `Objects.equals` is Dafny's `==`. `Node.item` is not set to `null` by `unlink` and `clear`, because the model has no null item. Only the links are cleared.
- Collection arguments are value snapshots (`seq<T>`). Aliasing such as `addAll(this)`, where the argument changes while it is read, is not modelled. `c.contains` is sequence membership.
- Collections.SimpleLinkedList.ToArrayInto: requires that a non-null array passed in is not one of the list's own objects. Java's types guarantee this. A null array is modelled and gives `NullPointer`.
- Array slots typed `Object[]`/`T[]` are modelled as `Option<T>`, with `None` for `null`. Reflective creation of an array of the argument's component type is a plain new array.
- Collections.Itr.Next: `checkForComodification()` is inlined as the same test rather than called. Collections.Itr.Remove: the same, with `IllegalState` checked first as in the source.
- Collections.Itr.Remove: the assignment `next = lastNext` on the unreachable branch is not modelled. The branch is proved unreachable instead.
- Threads: the model is sequential. Fail-fast detection is modelled for changes made through the list between iterator calls.
