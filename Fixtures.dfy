/** How the tests build the lists they start from: an empty list followed by
    a bulk append, which is all the list's constructor from a sequence does. */
module Fixtures {
  import opened DoublyLinkedLists

  /** A fresh list holding `items`, every node of it new. */
  method Build(items: seq<int>) returns (list: DoublyLinkedList<int>)
    ensures fresh(list) && fresh(list.Nodes) && list.Valid() && list.Contents == items
  {
    list := new DoublyLinkedList();
    var r := list.AddLastCollection(Some(items));
    assert list.Nodes[0..] == list.Nodes;
  }
}
