/** The anchored-insertion scenarios the list's AddBefore test class pins
    down: the anchor comes from `Find`, and what the test observes (the
    traversals and whether the version moved) is returned. */
module AddBeforeScenarios {
  import opened Sequences
  import opened DoublyLinkedLists
  import opened Fixtures

  /** Inserting before a null node throws `ArgumentNullException` naming `node`. */
  method NullNode(item: int) returns (r: Outcome)
    ensures r == Fail(NullArgument("node"))
  {
    var list := new DoublyLinkedList<int>();
    var added;
    r, added := list.AddBefore(null, item);
  }

  /** Inserting before a node found in another list throws
      `InvalidOperationException` and leaves the list empty with its version. */
  method InvalidNode(value: int, item: int) returns (r: Outcome, forward: seq<int>, changed: bool)
    ensures r == Fail(InvalidOperation)
    ensures forward == [] && !changed
  {
    var list := new DoublyLinkedList<int>();
    var version := list.version;
    var anotherList := Build([value]);
    var node := anotherList.Find(value);
    var added;
    r, added := list.AddBefore(node, item);
    forward := list.Forward();
    changed := list.version != version;
  }

  /** Inserting `item` before the first node holding `after`: it lands right
      before that node in the forward traversal and right after it in the
      backward one, and the version moves. */
  method AddItem(collection: seq<int>, after: int, item: int) returns (forward: seq<int>, backward: seq<int>, changed: bool)
    requires after in collection
    ensures forward == Insert(collection, FirstIndex(collection, after), item)
    ensures backward == Insert(Reverse(collection), |collection| - FirstIndex(collection, after), item)
    ensures backward == Reverse(forward)
    ensures changed
  {
    var list := Build(collection);
    var version := list.version;
    var node := list.Find(after);
    var r, added := list.AddBefore(node, item);
    changed := list.version != version;
    forward := list.Forward();
    backward := list.Backward();
    ReverseInsert(collection, FirstIndex(collection, after), item);
  }

  /** The rows of the theory data: before the head, and in the middle. */
  lemma ItemDataRows()
    ensures Insert([2], FirstIndex([2], 2), 1) == [1, 2]
    ensures Insert([1, 3], FirstIndex([1, 3], 3), 2) == [1, 2, 3]
  {
  }
}
