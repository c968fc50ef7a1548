/** The append scenarios the list's AddLast test class pins down, each stated
    over the columns of its theory data rather than over one row: the list
    holding `collection` is built, the append runs, and what the test observes
    (the forward and backward traversals, whether the version moved, and for a
    move the source's forward traversal) is returned. */
module AddLastScenarios {
  import opened Sequences
  import opened DoublyLinkedLists
  import opened Fixtures

  /** Appending a null `IEnumerable<int>` or a null `IReadOnlyList<int>`
      throws `ArgumentNullException` naming `collection`. */
  method AddNullCollection() returns (r: Outcome)
    ensures r == Fail(NullArgument("collection"))
  {
    var list := new DoublyLinkedList<int>();
    r := list.AddLastCollection(None);
  }

  /** Appending a null list throws `ArgumentNullException` naming `list`,
      whichever way `reverse` is set. */
  method AddNullList(reverse: bool) returns (r: Outcome)
    ensures r == Fail(NullArgument("list"))
  {
    var list := new DoublyLinkedList<int>();
    r := list.AddLastList(null, reverse);
  }

  /** Appending one item: the item ends the forward traversal and starts the
      backward one, and the version moves, even on an empty list. */
  method AddItem(collection: seq<int>, item: int) returns (forward: seq<int>, backward: seq<int>, changed: bool)
    ensures forward == collection + [item]
    ensures backward == [item] + Reverse(collection) && backward == Reverse(forward)
    ensures changed
  {
    var list := Build(collection);
    var version := list.version;
    list.AddLast(item);
    changed := list.version != version;
    forward := list.Forward();
    backward := list.Backward();
    BackwardAfterAppend(collection, [item], false);
  }

  /** Appending a sequence: its items follow the old ones in order, the
      backward traversal starts with them reversed, and the version moves iff
      the sequence is not empty. */
  method AddCollection(collection: seq<int>, items: seq<int>) returns (forward: seq<int>, backward: seq<int>, changed: bool)
    ensures forward == collection + items
    ensures backward == Reverse(items) + Reverse(collection) && backward == Reverse(forward)
    ensures changed <==> items != []
  {
    var list := Build(collection);
    var version := list.version;
    var r := list.AddLastCollection(Some(items));
    changed := list.version != version;
    forward := list.Forward();
    backward := list.Backward();
    BackwardAfterAppend(collection, items, false);
  }

  /** Appending copies of another list's values, reversed when `reverse` is
      set; the version moves iff the other list is not empty, and the other
      list still holds its values. */
  method AddList(collection: seq<int>, items: seq<int>, reverse: bool)
    returns (forward: seq<int>, backward: seq<int>, changed: bool, rightForward: seq<int>)
    ensures forward == collection + InOrder(items, reverse)
    ensures backward == InOrder(items, !reverse) + Reverse(collection) && backward == Reverse(forward)
    ensures changed <==> items != []
    ensures rightForward == items
  {
    var left := Build(collection);
    var version := left.version;
    var right := Build(items);
    var r := left.AddLastList(right, reverse);
    changed := left.version != version;
    forward := left.Forward();
    backward := left.Backward();
    rightForward := right.Forward();
    BackwardAfterAppend(collection, items, reverse);
  }

  /** Moving another list's nodes over, reversed when `reverse` is set: the
      destination ends as with `AddList`, and the other list ends empty, even
      when it was empty already. */
  method AddListFrom(collection: seq<int>, items: seq<int>, reverse: bool)
    returns (forward: seq<int>, backward: seq<int>, changed: bool, rightForward: seq<int>)
    ensures forward == collection + InOrder(items, reverse)
    ensures backward == InOrder(items, !reverse) + Reverse(collection) && backward == Reverse(forward)
    ensures changed <==> items != []
    ensures rightForward == []
  {
    var left := Build(collection);
    var version := left.version;
    var right := Build(items);
    var r := left.AddLastFrom(right, reverse);
    changed := left.version != version;
    forward := left.Forward();
    backward := left.Backward();
    rightForward := right.Forward();
    BackwardAfterAppend(collection, items, reverse);
  }

  /** The rows of the list theory data whose expected forward traversal
      depends on `reverse`. */
  lemma ListDataReversedRows()
    ensures [] + InOrder([1, 2, 3, 4, 5], true) == [5, 4, 3, 2, 1]
    ensures [1] + InOrder([2, 3, 4, 5], true) == [1, 5, 4, 3, 2]
    ensures [1, 2, 3] + InOrder([4, 5], true) == [1, 2, 3, 5, 4]
  {
  }
}
