# NetFabric.DoublyLinkedList — a verified model

This project models `NetFabric.DoublyLinkedList<T>`, a generic mutable doubly
linked list. The list owns a chain of heap nodes. Each node holds a value, a
`next` link, a `prev` link and an `owner` back-reference to the list it is
linked into. The list keeps `head` and `tail` cursors, a `count`, and a
`Version` counter that changes on every structural mutation.

The implementation file of the list is not part of this model. Its behaviour is
taken from the two test classes that pin it down, `AddLastTests` and
`AddBeforeTests`. The model covers:

- appending one item (`AddLast(T)`) or a sequence (`AddLast(IEnumerable<T>)`,
  `AddLast(IReadOnlyList<T>)`);
- copying another list's values, optionally reversed (`AddLast(list, reverse)`);
- moving another list's nodes over, optionally reversed, which empties the
  other list (`AddLastFrom(list, reverse)`);
- inserting before an anchor node with the owner check (`AddBefore`);
- `Find`, and the `Forward` and `Backward` traversals.

Layout:

- `Sequences.dfy` holds the value-level specification. `Reverse` is what a
  tail-to-head walk yields. `InOrder` is the order of a bulk append from
  another list. `Insert` is the effect of inserting before a position.
  `FirstIndex` is where a head-to-tail search stops.
- `DoublyLinkedList.dfy` holds the heap model: the classes `Node` and
  `DoublyLinkedList`. The list has ghost fields `Nodes` (its chain, head
  first) and `Contents` (the values along the chain). `Valid()` ties the
  links to them:
  - consecutive nodes are linked both ways;
  - `head.prev` and `tail.next` are null;
  - `count` is the chain's length;
  - every chain node's owner is this list.

  From `Valid()` the model proves:
  - the chain has no repeated node (`ChainDistinct`);
  - two lists share no node (`Disjoint`).
- `Fixtures.dfy` builds the starting lists the way the tests do.
- `AddLastScenarios.dfy` and `AddBeforeScenarios.dfy` state each test as a
  method over the columns of its theory data. Each method returns what the
  test observes and proves it for every input, not just for the listed rows.

Errors are values. `Outcome` is `Pass` or `Fail(Error)`. `Error` is
`NullArgument(paramName)` or `InvalidOperation`. A null sequence argument is
`Option.None`. A null list or node argument is a `null` reference.

## Model

| member | source | states |
|---|---|---|
| `DoublyLinkedLists.DoublyLinkedList.constructor` | NetFabric.DoublyLinkedList.Tests/AddLastTests.cs:15 | a new list is valid and empty, with nothing in its chain |
| `DoublyLinkedLists.DoublyLinkedList.AddLast` | NetFabric.DoublyLinkedList.Tests/AddLastTests.cs:59-87 | the item is appended (`Contents == old(Contents) + [value]`), the list stays valid, and the version always moves, also on an empty list |
| `DoublyLinkedLists.DoublyLinkedList.AddLastCollection` | NetFabric.DoublyLinkedList.Tests/AddLastTests.cs:89-149 | a null collection fails with `NullArgument("collection")` and changes nothing; otherwise the items are appended in order, and the version moves iff the collection is not empty |
| `DoublyLinkedLists.DoublyLinkedList.AddLastList` | NetFabric.DoublyLinkedList.Tests/AddLastTests.cs:151-197 | a null list fails with `NullArgument("list")` and changes nothing; otherwise copies of the other list's values are appended, head to tail or tail to head as `reverse` says; the version moves iff the other list is not empty; the other list keeps its values |
| `DoublyLinkedLists.DoublyLinkedList.AddLastFrom` | NetFabric.DoublyLinkedList.Tests/AddLastTests.cs:199-225 | the destination's values and version change as with `AddLastList`; the destination's chain gains exactly the other list's nodes, in the chosen order, with no node created; the other list ends valid and empty, also when it was empty already; a null list fails with `NullArgument("list")` |
| `DoublyLinkedLists.DoublyLinkedList.ClaimReversed` | NetFabric.DoublyLinkedList.Tests/AddLastTests.cs:163-171 | walking the other list tail to head and swapping each node's `next` and `prev` leaves its nodes linked backwards and owned by the destination |
| `DoublyLinkedLists.BacklinkedReversed` | NetFabric.DoublyLinkedList.Tests/AddLastTests.cs:163-171 | nodes linked backwards, read from the last one, form a chain holding the values reversed |
| `DoublyLinkedLists.DoublyLinkedList.Forward` | NetFabric.DoublyLinkedList.Tests/AddLastTests.cs:81-83 | walking `next` from the head yields exactly `Contents` |
| `DoublyLinkedLists.DoublyLinkedList.Backward` | NetFabric.DoublyLinkedList.Tests/AddLastTests.cs:84-86 | walking `prev` from the tail yields exactly `Reverse(Contents)` |
| `DoublyLinkedLists.DoublyLinkedList.Find` | NetFabric.DoublyLinkedList.Tests/AddBeforeTests.cs:57 | the result is null iff the value is absent; otherwise it is the chain node at the first position holding the value, and it is owned by this list |
| `DoublyLinkedLists.DoublyLinkedList.AddBefore` | NetFabric.DoublyLinkedList.Tests/AddBeforeTests.cs:12-71 | a null node fails with `NullArgument("node")`; a node owned by another list fails with `InvalidOperation`; both failures change nothing; otherwise a new node holding the value is placed right before the anchor's position (its `next` is the anchor and the anchor's `prev` is it), the new node is returned, and the version moves |
| `DoublyLinkedLists.DoublyLinkedList.LinkBefore` | NetFabric.DoublyLinkedList.Tests/AddBeforeTests.cs:65-70 | linking a new node before a chain node keeps the list valid, with the head moving to the new node when the anchor was the head; the chain and values gain the new node at the anchor's position |
| `DoublyLinkedLists.ChainDistinct` | NetFabric.DoublyLinkedList.Tests/AddLastTests.cs:84-86 | a chain whose last node has a null `next` repeats no node, so it is acyclic |
| `DoublyLinkedLists.Disjoint` | NetFabric.DoublyLinkedList.Tests/AddBeforeTests.cs:27-41 | two distinct valid lists share no node, because every node has one owner |
| `Sequences.ReverseReverse` | NetFabric.DoublyLinkedList.Tests/AddLastTests.cs:84-86 | reversing twice gives the original back, so the backward traversal reversed is the forward one |
| `Sequences.BackwardAfterAppend` | NetFabric.DoublyLinkedList.Tests/AddLastTests.cs:194-196 | after a bulk append, the backward traversal is the appended values in the opposite order followed by the old backward traversal |
| `Sequences.ReverseInsert` | NetFabric.DoublyLinkedList.Tests/AddBeforeTests.cs:68-70 | after inserting before position `i`, the backward traversal has the new value inserted at the mirrored position `n - i` |
| `Sequences.FirstIndex` | NetFabric.DoublyLinkedList.Tests/AddBeforeTests.cs:33 | the position holds the value and no earlier position does |
| `AddLastScenarios.AddNullCollection` | NetFabric.DoublyLinkedList.Tests/AddLastTests.cs:12-41 | appending a null `IEnumerable` or `IReadOnlyList` fails with `NullArgument("collection")` |
| `AddLastScenarios.AddNullList` | NetFabric.DoublyLinkedList.Tests/AddLastTests.cs:44-57 | appending a null list fails with `NullArgument("list")` |
| `AddLastScenarios.AddItem` | NetFabric.DoublyLinkedList.Tests/AddLastTests.cs:67-87 | for every starting list and item: the forward traversal is `collection + [item]`, the backward traversal is its reverse, and the version moved |
| `AddLastScenarios.AddCollection` | NetFabric.DoublyLinkedList.Tests/AddLastTests.cs:103-149 | for every starting list and items: the forward traversal is `collection + items`, the backward traversal is its reverse, and the version moved iff `items` is not empty |
| `AddLastScenarios.AddList` | NetFabric.DoublyLinkedList.Tests/AddLastTests.cs:174-197 | for every starting list, other list and direction: the forward traversal is `collection + InOrder(items, reverse)`, the backward traversal is its reverse, and the version moved iff `items` is not empty |
| `AddLastScenarios.AddListFrom` | NetFabric.DoublyLinkedList.Tests/AddLastTests.cs:199-225 | as `AddList` for the destination, and the source's forward traversal is empty afterwards |
| `AddLastScenarios.ListDataReversedRows` | NetFabric.DoublyLinkedList.Tests/AddLastTests.cs:165-171 | the expected rows with `reverse` set: `[] + rev [1..5] = [5,4,3,2,1]`, `[1] + rev [2,3,4,5] = [1,5,4,3,2]`, `[1,2,3] + rev [4,5] = [1,2,3,5,4]` |
| `AddBeforeScenarios.NullNode` | NetFabric.DoublyLinkedList.Tests/AddBeforeTests.cs:12-25 | inserting before a null node fails with `NullArgument("node")` |
| `AddBeforeScenarios.InvalidNode` | NetFabric.DoublyLinkedList.Tests/AddBeforeTests.cs:27-41 | inserting before a node found in another list fails with `InvalidOperation`, and the list stays empty with its version unchanged |
| `AddBeforeScenarios.AddItem` | NetFabric.DoublyLinkedList.Tests/AddBeforeTests.cs:50-71 | for every list containing `after`: the item lands right before the first node holding `after` in the forward traversal, the backward traversal is its reverse, and the version moved |
| `AddBeforeScenarios.ItemDataRows` | NetFabric.DoublyLinkedList.Tests/AddBeforeTests.cs:43-48 | the expected rows: before the head `[2]` becomes `[1,2]`, in the middle `[1,3]` becomes `[1,2,3]` |

## Left out

- The implementation file of the list is not part of this model. Operations are modelled from the behaviour the two test classes pin down. Where a detail is not pinned down, the model takes the simplest linear-time implementation.
- DoublyLinkedLists.DoublyLinkedList.AddLastList: requires the other list to be a different list, and so does `AddLastFrom`. Appending a list to itself is not exercised, and its behaviour cannot be read off the tests.
- DoublyLinkedLists.DoublyLinkedList.AddBefore: requires that a node whose owner is this list is in this list's chain. The source keeps this by encapsulation: only the list's own operations set a node's owner, and only while linking the node in.
- DoublyLinkedLists.DoublyLinkedList.AddLastFrom: states only that the source list's version does not decrease. The model bumps it when the source had nodes, but whether the source's version must change is unsettled.
- `AddLast(IEnumerable<T>)` and `AddLast(IReadOnlyList<T>)` are one method, `AddLastCollection`, over a finite `seq`. Both overloads behave identically in every test. Lazy or infinite enumerables are not modelled.
- `Forward` and `Backward` are methods that walk the chain and return the values as a `seq`. They are not lazy enumerator objects, and mutation during an enumeration is not modelled.
- `Version` is an unbounded `nat` that moves by exactly one per changing call. The tests only compare it for equality, so 32-bit wrap-around is not modelled.
- The constructor from a sequence is not modelled as its own member. `Fixtures.Build` builds the same list as an empty list followed by a bulk append.
- `AddAfter`, `AddFirst`, the `Remove` operations and indexed access are not modelled, because no test exercises them.
- Thread safety and generic equality beyond Dafny's `==` on `T` are not modelled.
