# List<T, Allocator> — a verified model of the ring

`List<T, Allocator>` in `list.cpp` is a doubly-linked list laid out as a
circular ring. The ring is anchored by an inline sentinel link `last_` that
holds no value, and the list caches four things beside it: a pointer
`first_` to the first node, a counter `size_`, and two iterators,
`begin_iter_` and `end_iter_`. This project models that ring in Dafny:

- the links as objects with mutable `prev` and `next` fields;
- the list as a class with the source's own fields;
- every operation as a method that rewrites those fields as the source does.

Each list carries a ghost view: the sequence of its nodes in ring order
(`nodes`) and their values (`elems`). The object invariant `Valid()` ties
that view to the links. Following `next` from the sentinel passes the nodes
in order and comes back after exactly `size_ + 1` steps, and `prev` undoes
`next`. `first_` is the sentinel's `next`, `end_iter_` names the sentinel,
`begin_iter_` names `first_`, and every node is live in the allocator.
Each operation is then specified against the ghost sequences.

Thrown exceptions are modelled as results:

- Allocation and construction faults come from a script of `Fault` values, one per allocate-then-construct step. `FaultAt` reads the script, and steps past its end succeed.
- A constructor that throws returns `null`.
- `insert` and `operator=` return `false` when they throw.

The allocator is reduced to the set of nodes it has handed out and not yet
taken back (`live`). Every rollback path is proved to return that set to
what it was, so no node leaks and none is released twice.

Modules:

- `Nodes` (node.dfy): links (`BaseNode` and `Node` as one class), the ring predicates, the two pointer surgeries of insert and erase, `BaseNode::swap` as written and as intended, and the allocator.
- `Iterators` (iterator.dfy): `List::Iterator`.
- `Lists` (list.dfy): `List` itself.

## Model

| member | source | states |
|---|---|---|
| Nodes.Node.Sentinel | list.cpp:14-15 | a default-constructed link closes on itself: prev and next are the link itself |
| Nodes.Node.Construct | list.cpp:16-40 | placement construction writes prev and next (the BaseNode(p, n) part) in every case, then copies the value; it reports success exactly when the copy does not throw, and a throw leaves the value as it was |
| Nodes.Node.SwapAsWritten | list.cpp:20-32 | two non-empty rings are exchanged; when either ring is empty, this sentinel ends up with next looping to itself and prev at the other sentinel, so it anchors no ring at all |
| Nodes.SwapIntoEmptyCounterexample | list.cpp:20-32 | a concrete empty ring exchanged with a one-node ring, run through the source's statements, leaves the first sentinel a broken self-loop that anchors neither the node nor an empty ring |
| Nodes.Node.Swap | list.cpp:20-32 | afterwards this sentinel anchors exactly the other's former nodes and the other sentinel this one's, empty rings included; only links are written, so every value is kept |
| Nodes.DisjointOf | list.cpp:241 | two rings whose links lie in disjoint sets of objects satisfy swap's disjointness precondition |
| Nodes.RingPositions | list.cpp:477-482 | the positions of a ring, sentinel included once, hold pairwise distinct links |
| Nodes.RingSplice | list.cpp:466-467 | rewiring the two links around a new node in a ring yields the ring with that node inserted at that index |
| Nodes.RingUnsplice | list.cpp:478-479 | joining the two neighbours of the node at index k yields the ring without that node |
| Nodes.AtPosition | list.cpp:460 | in a ring, the link at position k has the link at k - 1 as prev and the link at k + 1 as next, and it is the sentinel's next exactly when k is 0 |
| Nodes.LinkBefore | list.cpp:466-467 | the two stores of insert turn the ring holding ns and es into the ring holding n at index k and n's value at index k |
| Nodes.Unlink | list.cpp:478-479 | the two stores of erase turn the ring holding ns and es into the ring without index k, and the erased node's own links are kept |
| Nodes.HoldsInsert | list.cpp:459-461 | putting a node holding v at index k of the nodes puts v at index k of the values |
| Nodes.HoldsRemove | list.cpp:483-484 | removing index k from the nodes removes index k from the values |
| Nodes.ObjectsInsert | list.cpp:455 | the node set of the ring grows by exactly the inserted node |
| Nodes.ObjectsAppend | list.cpp:90-91 | appending a node to the built prefix grows its node set by exactly that node |
| Nodes.ObjectsSuffix | list.cpp:382-386 | the nodes from index k on are the node at k and the nodes after it |
| Nodes.ObjectsRemove | list.cpp:484 | removing index k of a ring with distinct nodes shrinks its node set by exactly that node |
| Nodes.LoopedIsNoRing | list.cpp:21-24 | a sentinel whose next is itself but whose prev is another link anchors no ring |
| Nodes.EndsOf | list.cpp:83-84 | in a ring, the sentinel's next is the first node, its prev the last node, each of those points back at the sentinel, and all inner pairs are joined; an empty ring is a self-loop |
| Nodes.FirstOf | list.cpp:242 | the sentinel's next is the first node, or the sentinel itself when the ring is empty |
| Nodes.LinkedAfterSwap | list.cpp:27-31 | two rewired outer link pairs and untouched inner links make each sentinel anchor the other's nodes |
| Nodes.LinkedOne | list.cpp:27-31 | one rewired outer link pair and untouched inner links close a non-empty ring |
| Nodes.LinkedFrom | list.cpp:83-84 | the inner links of the nodes and the four links at the sentinel make a closed ring |
| Nodes.Allocator.Allocate | list.cpp:77 | allocate(1) either throws and changes nothing, or returns fresh memory that becomes live |
| Nodes.Allocator.Deallocate | list.cpp:95 | deallocate takes back exactly one live node |
| Iterators.Iterator.Null | list.cpp:284-285 | a default iterator names no link |
| Iterators.Iterator.At | list.cpp:287-288 | an iterator built from a link names that link |
| Iterators.Iterator.Increment | list.cpp:314-317 | prefix ++ moves to the named link's next |
| Iterators.Iterator.Decrement | list.cpp:319-322 | prefix -- moves to the named link's prev |
| Iterators.Iterator.PostIncrement | list.cpp:330-334 | postfix ++ moves to next and returns a fresh iterator at the former link |
| Iterators.Iterator.PostDecrement | list.cpp:324-328 | postfix -- moves to prev and returns a fresh iterator at the former link |
| Lists.List.Empty | list.cpp:56-68 | a fresh empty list: the sentinel is a self-loop, first_ is the sentinel, size_ is 0, begin_iter_ names the sentinel like end_iter_, and Valid() holds |
| Lists.List.Raw | list.cpp:70-71 | before a constructor body runs: size_ set, a self-looped sentinel, first_ at the sentinel, iterators null |
| Lists.List.ReleaseWalkingFirst | list.cpp:107-115 | the rollback that walks first_ releases exactly the nodes built so far and leaves first_ at the sentinel |
| Lists.List.ReleaseWithDeleter | list.cpp:94-103 | the rollback with a deleter cursor releases exactly the nodes built so far |
| Lists.List.BuildStep | list.cpp:75-116 | one constructor step succeeds exactly when its fault is Succeeds; on success the ring grows by one fresh live node holding v at its end; on a throw every node built so far, and the failing node's memory, are released |
| Lists.List.Seal | list.cpp:119-120 | the closing lines set end_iter_ to the sentinel and begin_iter_ to the first node, after which Valid() holds over the ring built |
| Lists.List.Sized | list.cpp:123-174 | construction fails exactly when some step below sz faults, and then no node stays live; otherwise the list is Valid() with sz nodes, each holding val, begin at the first node, and exactly its nodes newly live |
| Lists.List.SizedDefault | list.cpp:70-121 | as Sized, with every element the same default value |
| Lists.List.Copy | list.cpp:178-233 | the copy fails exactly when some step below other's size faults, and then no node stays live; otherwise it holds other's values in order with other's size, its nodes are newly live, and other is still Valid() and unchanged |
| Lists.List.CopyNodes | list.cpp:183-228 | the copy loop walks copy_from along the source ring and builds a ring holding the source's values in order, or releases everything it built |
| Lists.List.Assign | list.cpp:235-260 | assigning a list to itself changes nothing; otherwise the list's values become other's and other stays unchanged; a failed copy leaves the list as it was; on success the old nodes are released and the new ones are fresh and live |
| Lists.List.ReplaceBy | list.cpp:241-259 | the list takes the copy's nodes and values, and its former nodes are released |
| Lists.List.ExchangeWith | list.cpp:241-251 | the two lists exchange nodes, values and sizes while each keeps its own sentinel and iterators, and both stay Valid() |
| Lists.List.Adopt | list.cpp:242-251 | with first_, end_iter_, begin_iter_ and size_ refreshed from the sentinel, a list holding the ring at its sentinel is Valid() again |
| Lists.List.Begin | list.cpp:388-395 | begin() names position 0: the first node, or the sentinel when the list is empty |
| Lists.List.End | list.cpp:419-426 | end() names the sentinel, position size() |
| Lists.List.Size | list.cpp:376-379 | size() is the number of elements |
| Lists.List.BeginEqualsEnd | list.cpp:305-308 | begin() == end() exactly when the list is empty |
| Lists.List.Insert | list.cpp:452-474 | v goes in just before position k and every other element keeps its place; size grows by one; first_ moves to the new node exactly when k is 0; a throw leaves the list and the live set as they were |
| Lists.List.NewNode | list.cpp:453-465 | a throw from allocate or construct leaves the live set as it was; otherwise a fresh live node sits between p's prev and p, holding v |
| Lists.List.AfterInsert | list.cpp:468-473 | first_ moves to the new node exactly when it went in before the old first; size grows by one; Valid() holds over the new ring |
| Lists.List.AfterErase | list.cpp:480-487 | first_ moves to the successor exactly when the first node was erased, the node's memory is released, size shrinks by one, and Valid() holds over the new ring |
| Lists.List.Erase | list.cpp:477-488 | exactly the element at index k goes and the others keep their order; size shrinks by one; first_ moves to the next position exactly when k is 0; only that node is released |
| Lists.List.PushBack | list.cpp:491-493 | a successful push_back appends v in a fresh node at the end of the node sequence, and that node, only it, becomes live in the allocator; a throw leaves the list and the allocator as they were; the sentinel is kept |
| Lists.List.PushFront | list.cpp:495-498 | a successful push_front prepends v in a fresh node at the front of the node sequence, which becomes first_ and, only it, becomes live in the allocator; a throw leaves the list and the allocator as they were; the sentinel is kept |
| Lists.List.PopBack | list.cpp:500-503 | pop_back drops the last element and releases its node |
| Lists.List.PopFront | list.cpp:505-508 | pop_front drops the first element, releases its node, and moves first_ to the former second position; the sentinel is kept |
| Lists.List.Destroy | list.cpp:382-386 | the destructor leaves the list empty with every node it held released exactly once |
| Lists.List.NextOfPosition | list.cpp:314-317 | ++ from position k reaches position k + 1, and ++ from end() wraps round to begin() |
| Lists.List.PrevOfPosition | list.cpp:319-322 | -- from position k reaches position k - 1, and -- from begin() reaches end() |
| Lists.List.PositionInjective | list.cpp:305-312 | distinct positions name distinct links, so iterators compare equal exactly when they stand at the same position |
| Lists.List.IteratorsCompare | list.cpp:305-312 | operator== on iterators at positions i and j holds exactly when i == j, and operator!= exactly when i != j |
| Lists.List.ValueAtPosition | list.cpp:336-338 | operator* on an iterator at position k < size() reads the k-th element |
| Lists.List.AdvanceFromBegin | list.cpp:314-317 | k steps of ++ from begin() reach position k, and they reach end() exactly when k is size() |
| Lists.List.RetreatFromEnd | list.cpp:319-322 | k steps of -- from end() reach position size() - k, and they reach begin() exactly when k is size() |

## Left out

- Allocator traits: `rebind_alloc`, `select_on_container_copy_construction`, `propagate_on_container_copy_assignment` and `get_allocator`. A copy shares its source's allocator object (`Copy` ensures `l.allocator == other.allocator`), and assignment works on lists that share one allocator object.
- Lists.List.Assign: requires both lists to share one allocator. Assigning between lists with distinct stateful allocators, which the propagation trait governs, is not modelled.
- Reverse iterators (`rbegin`, `rend`, `crbegin`, `crend`) and the `c`-prefixed accessors. They wrap the same cached iterators.
- The const and non-const iterator distinction and its conversions. These are compile-time constraints only, so one `Iterator` class serves both.
- `Iterator::operator->`, and writing through `*it`. The model reads values only.
- C++ exceptions: a throw is a `null` or `false` result, and the trigger booleans of the sized constructors are replaced by that branch structure.
- `alloc_traits::destroy`: the destructor of `T` has no effect in the model, so destroy-then-deallocate is one `Deallocate`.
- The `size_t` width: `size_` is an unbounded natural number, and overflow is not modelled.
- The throw from an allocator whose own `allocate` throws something other than a bad allocation: every fault is one of the two `Fault` kinds.
- Objects whose constructor throws: the partially built list is returned as `null`. Its sentinel and cached members are not inspected afterwards.
- `Lists.List.Raw` leaves the cached iterators null until the closing lines of the constructor set them (`Seal`). In C++ they are default-constructed to `nullptr` the same way.
- `insert` and `erase` take the position as an iterator together with a ghost index. An iterator into another list, or erasing `end()`, is undefined behaviour in the source and is excluded by their preconditions (`pos.node == Position(k)`, and `k < |nodes|` for `erase`). `pop_back` and `pop_front` take no arguments; popping an empty list, which the source does not guard, is excluded by `|elems| > 0`.
- Nodes.Node.Swap: corrects, rather than reproduces, the source's `BaseNode::swap`, as explained under Findings. `Assign` uses the corrected version.

## Findings

| source | as written | input that shows it | evidently intended | confidence | as-written member | corrected member |
|---|---|---|---|---|---|---|
| list.cpp:20-32 | `swap` first overwrites `prev->next` and `next->prev`, then reads `other.prev` and `other.next` again; when a ring is empty its links are self-loops, so the later reads pick up the links just written | an empty sentinel `a` swapped with a sentinel `b` whose ring holds one node `n`, or two empty lists in `a = b` (list.cpp:241): afterwards `a.next == a` and `a.prev == b`, and `n` is lost | each sentinel anchors the other's former ring, empty rings included | not executed | Nodes.SwapIntoEmptyCounterexample | Nodes.Node.Swap |
