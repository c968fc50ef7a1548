/** The mutable doubly linked list `NetFabric.DoublyLinkedList<T>`: a chain of
    heap nodes with head and tail cursors, a count, and a version counter that
    changes on every structural mutation. Each list's ghost `Nodes` is its chain
    from head to tail and its ghost `Contents` is the values along it, so the
    forward traversal is `Contents` and the backward one is its reverse. */
module DoublyLinkedLists {
  import opened Sequences

  /** The two exceptions the list raises: `ArgumentNullException` with the
      name of the absent parameter, and `InvalidOperationException`. */
  datatype Error = NullArgument(paramName: string) | InvalidOperation

  /** Outcome of an operation that either returns normally or throws. */
  datatype Outcome = Pass | Fail(error: Error)

  /** A reference argument of sequence type that may be `null`. */
  datatype Option<T> = None | Some(value: T)

  /** A node of some list's chain. `owner` is the list the node is linked into. */
  class Node<T(==)> {
    var value: T
    var next: Node?<T>
    var prev: Node?<T>
    var owner: DoublyLinkedList?<T>

    /** A fresh, unlinked node holding `value`, claimed by `owner`. */
    constructor (owner: DoublyLinkedList<T>, value: T)
      ensures this.owner == owner && this.value == value
      ensures next == null && prev == null
    {
      this.owner := owner;
      this.value := value;
      next := null;
      prev := null;
    }

    /** Turns the node around, swapping `next` and `prev`, and hands it to `owner`. */
    method Flip(owner: DoublyLinkedList<T>)
      modifies this`next, this`prev, this`owner
      ensures next == old(prev) && prev == old(next) && this.owner == owner
    {
      next, prev, this.owner := prev, next, owner;
    }
  }

  /** `nodes` is a stretch of a chain owned by `owner` and holding `values`:
      neighbours are linked both ways. The links out of the two ends are not
      constrained; that no node occurs twice follows once the last node's
      `next` is null (`ChainDistinct`). */
  ghost predicate Chain<T>(nodes: seq<Node<T>>, owner: DoublyLinkedList<T>, values: seq<T>)
    reads nodes
  {
    && |nodes| == |values|
    && (forall i {:trigger nodes[i].owner} :: 0 <= i < |nodes| ==> nodes[i].owner == owner)
    && (forall i {:trigger nodes[i].value} :: 0 <= i < |nodes| ==> nodes[i].value == values[i])
    && (forall i {:trigger nodes[i].prev} :: 0 < i < |nodes| ==> nodes[i].prev == nodes[i - 1])
    && (forall i {:trigger nodes[i].next} :: 0 <= i < |nodes| - 1 ==> nodes[i].next == nodes[i + 1])
  }

  /** Two stretches, the first's last node linked both ways to the second's
      first node, form one stretch. */
  lemma ChainConcat<T>(a: seq<Node<T>>, b: seq<Node<T>>, owner: DoublyLinkedList<T>, u: seq<T>, v: seq<T>)
    requires Chain(a, owner, u) && Chain(b, owner, v)
    requires a != [] && b != [] ==> a[|a| - 1].next == b[0] && b[0].prev == a[|a| - 1]
    ensures Chain(a + b, owner, u + v)
  {
  }

  /** Two positions holding the same node keep holding equal nodes further on:
      following `next` from one node always leads the same way. */
  lemma {:induction false} SameAhead<T>(nodes: seq<Node<T>>, owner: DoublyLinkedList<T>, values: seq<T>, i: nat, j: nat, d: nat)
    requires Chain(nodes, owner, values) && i <= j && j + d < |nodes|
    ensures nodes[i] == nodes[j] ==> nodes[i + d] == nodes[j + d]
  {
    if d > 0 {
      SameAhead(nodes, owner, values, i, j, d - 1);
      assert nodes[i + d - 1].next == nodes[i + d] && nodes[j + d - 1].next == nodes[j + d];
    }
  }

  /** In a stretch whose last node ends the chain, every node occurs first
      where it stands, so no node occurs twice: a repeated node would make the
      chain run on past its last node. */
  lemma {:induction false} ChainDistinct<T>(nodes: seq<Node<T>>, owner: DoublyLinkedList<T>, values: seq<T>)
    requires Chain(nodes, owner, values) && (nodes != [] ==> nodes[|nodes| - 1].next == null)
    ensures forall i :: 0 <= i < |nodes| ==> IndexOf(nodes, nodes[i]) == i
  {
    forall i | 0 <= i < |nodes|
      ensures IndexOf(nodes, nodes[i]) == i
    {
      var j := IndexOf(nodes, nodes[i]);
      var lo, hi := if i < j then i else j, if i < j then j else i;
      var d := |nodes| - 1 - hi;
      SameAhead(nodes, owner, values, lo, hi, d);
      assert nodes[lo + d].next == null;
    }
  }

  /** A chain that ends at a null `next`, cut before position `i`, gives two
      stretches of chain; the node at `i` is not in the first, and the node
      before it is not in the second. */
  lemma ChainSplit<T>(nodes: seq<Node<T>>, owner: DoublyLinkedList<T>, values: seq<T>, i: nat)
    requires Chain(nodes, owner, values) && i < |nodes| && nodes[|nodes| - 1].next == null
    ensures Chain(nodes[..i], owner, values[..i]) && Chain(nodes[i..], owner, values[i..])
    ensures forall k :: 0 <= k < i ==> nodes[k] != nodes[i]
    ensures i > 0 ==> forall k :: 0 <= k < |nodes| && k != i - 1 ==> nodes[k] != nodes[i - 1]
  {
    ChainDistinct(nodes, owner, values);
    forall k | 0 <= k < |nodes| && k != i
      ensures nodes[k] != nodes[i]
    {
      assert IndexOf(nodes, nodes[k]) == k;
    }
    forall k | 0 <= k < |nodes| && k != i - 1 && i > 0
      ensures nodes[k] != nodes[i - 1]
    {
      assert IndexOf(nodes, nodes[k]) == k;
    }
  }

  /** Two valid lists that are not the same list share no node: a node has one owner. */
  lemma Disjoint<T>(a: DoublyLinkedList<T>, b: DoublyLinkedList<T>)
    requires a != b && a.Valid() && b.Valid()
    ensures forall i, j :: 0 <= i < |a.Nodes| && 0 <= j < |b.Nodes| ==> a.Nodes[i] != b.Nodes[j]
  {
    forall i, j | 0 <= i < |a.Nodes| && 0 <= j < |b.Nodes|
      ensures a.Nodes[i] != b.Nodes[j]
    {
      assert a.Nodes[i].owner == a && b.Nodes[j].owner == b;
    }
  }

  /** `nodes` is a stretch of a chain read backwards: owned by `owner`, holding
      `values`, and with every node's `next` pointing at the node before it
      and its `prev` at the node after it. */
  ghost predicate Backlinked<T>(nodes: seq<Node<T>>, owner: DoublyLinkedList<T>, values: seq<T>)
    reads nodes
  {
    && |nodes| == |values|
    && (forall i {:trigger nodes[i].owner} :: 0 <= i < |nodes| ==> nodes[i].owner == owner)
    && (forall i {:trigger nodes[i].value} :: 0 <= i < |nodes| ==> nodes[i].value == values[i])
    && (forall i {:trigger nodes[i].next} :: 0 < i < |nodes| ==> nodes[i].next == nodes[i - 1])
    && (forall i {:trigger nodes[i].prev} :: 0 <= i < |nodes| - 1 ==> nodes[i].prev == nodes[i + 1])
  }

  /** A stretch linked backwards is, read from its last node, a stretch of a
      chain holding the values in reverse. */
  lemma BacklinkedReversed<T>(nodes: seq<Node<T>>, owner: DoublyLinkedList<T>, values: seq<T>)
    requires Backlinked(nodes, owner, values)
    ensures Chain(Reverse(nodes), owner, Reverse(values))
  {
  }

  class DoublyLinkedList<T(==)> {
    var head: Node?<T>
    var tail: Node?<T>
    var count: nat
    var version: nat

    /** The chain, head first. */
    ghost var Nodes: seq<Node<T>>
    /** The values along the chain, head first. */
    ghost var Contents: seq<T>

    /** The list invariant: `Nodes` is a chain owned by this list and holding
        `Contents`, head and tail are its ends, `head.prev` and `tail.next` are
        null and `count` is its length. The version is not part of it. */
    ghost predicate Valid()
      reads this`head, this`tail, this`count, this`Nodes, this`Contents, Nodes
    {
      && |Nodes| == count
      && Chain(Nodes, this, Contents)
      && (Nodes == [] ==> head == null && tail == null)
      && (Nodes != [] ==> head == Nodes[0] && tail == Nodes[|Nodes| - 1] && head.prev == null && tail.next == null)
    }

    /** An empty list. */
    constructor ()
      ensures Valid() && Nodes == [] && Contents == [] && version == 0
    {
      head, tail, count, version := null, null, 0, 0;
      Nodes, Contents := [], [];
    }

    /** Links the stretch `nodes` of `length` nodes, from `first` to `last`,
        after the tail: the step every append form ends with. The version is
        left alone. */
    method LinkAfterTail(first: Node<T>, last: Node<T>, length: nat, ghost nodes: seq<Node<T>>, ghost values: seq<T>)
      requires Valid()
      requires nodes != [] && |nodes| == length && Chain(nodes, this, values)
      requires first == nodes[0] && last == nodes[|nodes| - 1] && first.prev == null && last.next == null
      requires first !in Nodes && tail !in nodes
      modifies this, (if tail == null then {} else {tail})`next, first`prev
      ensures Valid()
      ensures Nodes == old(Nodes) + nodes && Contents == old(Contents) + values
      ensures version == old(version)
    {
      ghost var M, U := Nodes, Contents;
      if tail == null {
        head := first;
      } else {
        tail.next := first;
        first.prev := tail;
      }
      tail := last;
      count := count + length;
      assert Chain(M, this, U);
      assert Chain(nodes, this, values);
      ChainConcat(M, nodes, this, U, values);
      Nodes := Nodes + nodes;
      Contents := Contents + values;
    }

    /** Links a new node holding `value` after the tail, without touching the version. */
    method AppendNode(value: T)
      requires Valid()
      modifies this, tail
      ensures Valid()
      ensures Contents == old(Contents) + [value]
      ensures |Nodes| == |old(Nodes)| + 1 && old(Nodes) <= Nodes && fresh(Nodes[|old(Nodes)|])
      ensures version == old(version)
    {
      var node := new Node(this, value);
      LinkAfterTail(node, node, 1, [node], [value]);
    }

    /** Links new nodes holding `items`, in order, after the tail, without
        touching the version. */
    method AppendAll(items: seq<T>)
      requires Valid()
      modifies this, tail
      ensures Valid()
      ensures Contents == old(Contents) + items
      ensures old(Nodes) <= Nodes && fresh(Nodes[|old(Nodes)|..])
      ensures version == old(version)
    {
      for i := 0 to |items|
        invariant Valid()
        invariant Contents == old(Contents) + items[..i]
        invariant old(Nodes) <= Nodes && fresh(Nodes[|old(Nodes)|..])
        invariant tail == old(tail) || fresh(tail)
        invariant version == old(version)
      {
        ghost var before := Nodes;
        AppendNode(items[i]);
        assert Nodes[|old(Nodes)|..] == before[|old(Nodes)|..] + [Nodes[|before|]];
        assert items[..i + 1] == items[..i] + [items[i]];
      }
      assert items[..|items|] == items;
    }

    /** `AddLast(T)`: appends one value; the version always changes. */
    method AddLast(value: T)
      requires Valid()
      modifies this, tail
      ensures Valid()
      ensures Contents == old(Contents) + [value]
      ensures old(Nodes) <= Nodes && fresh(Nodes[|old(Nodes)|..])
      ensures version == old(version) + 1
    {
      AppendNode(value);
      version := version + 1;
    }

    /** `AddLast(IEnumerable<T>)` and `AddLast(IReadOnlyList<T>)`: appends the
        items in order. A null collection throws naming `collection` and changes
        nothing; an empty one changes nothing, the version included. */
    method AddLastCollection(collection: Option<seq<T>>) returns (r: Outcome)
      requires Valid()
      modifies this, tail
      ensures Valid()
      ensures collection.None? ==> r == Fail(NullArgument("collection")) && Contents == old(Contents) && version == old(version)
      ensures collection.Some? ==> r == Pass && Contents == old(Contents) + collection.value
      ensures collection.Some? ==> version == old(version) + (if collection.value == [] then 0 else 1)
      ensures old(Nodes) <= Nodes && fresh(Nodes[|old(Nodes)|..])
    {
      if collection.None? {
        return Fail(NullArgument("collection"));
      }
      if |collection.value| == 0 {
        return Pass;
      }
      AppendAll(collection.value);
      version := version + 1;
      return Pass;
    }

    /** `Forward`: the values met walking `next` from the head. */
    method Forward() returns (s: seq<T>)
      requires Valid()
      ensures s == Contents
    {
      s := [];
      var node := head;
      ghost var i := 0;
      while node != null
        invariant 0 <= i <= |Nodes| && s == Contents[..i]
        invariant node == (if i == |Nodes| then null else Nodes[i])
        decreases |Nodes| - i
      {
        s := s + [node.value];
        node := node.next;
        i := i + 1;
      }
      assert Contents[..|Nodes|] == Contents;
    }

    /** `Backward`: the values met walking `prev` from the tail. */
    method Backward() returns (s: seq<T>)
      requires Valid()
      ensures s == Reverse(Contents)
    {
      s := [];
      var node := tail;
      ghost var i := |Nodes|;
      while node != null
        invariant 0 <= i <= |Nodes| && s == Reverse(Contents[i..])
        invariant node == (if i == 0 then null else Nodes[i - 1])
        decreases i
      {
        ReverseSuffixStep(Contents, i);
        s := s + [node.value];
        node := node.prev;
        i := i - 1;
      }
      assert Contents[0..] == Contents;
    }

    /** `Find(T)`: walks `next` from the head and returns the first node
        holding `value`, or null when no node does. Nothing changes. */
    method Find(value: T) returns (node: Node?<T>)
      requires Valid()
      ensures node == null <==> value !in Contents
      ensures node != null ==> node == Nodes[FirstIndex(Contents, value)] && IndexOf<Node?<T>>(Nodes, node) == FirstIndex(Contents, value)
      ensures node != null ==> node.owner == this && node.value == value
    {
      ChainDistinct(Nodes, this, Contents);
      node := head;
      ghost var i := 0;
      while node != null && node.value != value
        invariant 0 <= i <= |Nodes|
        invariant node == (if i == |Nodes| then null else Nodes[i])
        invariant value !in Contents[..i]
        decreases |Nodes| - i
      {
        assert Contents[..i + 1] == Contents[..i] + [Contents[i]];
        node := node.next;
        i := i + 1;
      }
      if node == null {
        assert Contents[..|Nodes|] == Contents;
      } else {
        assert Contents[i] == value;
        assert forall k :: 0 <= k < i ==> Contents[k] == Contents[..i][k];
      }
    }

    /** Creates a node holding `value` and links it between the stretches
        `prefix` and `suffix` of the chain, which `node` starts; the head moves
        to the new node when `prefix` is empty. Only links change. */
    method Splice(node: Node<T>, value: T, ghost prefix: seq<Node<T>>, ghost suffix: seq<Node<T>>, ghost u: seq<T>, ghost v: seq<T>)
      returns (n: Node<T>)
      requires Chain(prefix, this, u) && Chain(suffix, this, v) && suffix != [] && node == suffix[0]
      requires prefix == [] ==> head == node && node.prev == null
      requires prefix != [] ==> head == prefix[0] && head.prev == null
      requires prefix != [] ==> node.prev == prefix[|prefix| - 1] && prefix[|prefix| - 1] !in suffix
      requires prefix != [] ==> forall k :: 0 <= k < |prefix| - 1 ==> prefix[k] != prefix[|prefix| - 1]
      requires node !in prefix
      modifies this`head, node`prev, (if prefix == [] then {} else {prefix[|prefix| - 1]})`next
      ensures fresh(n) && Chain(prefix + [n] + suffix, this, u + [value] + v)
      ensures head == (prefix + [n] + suffix)[0] && head.prev == null
    {
      n := new Node(this, value);
      var before := node.prev;
      n.next := node;
      n.prev := before;
      if before == null {
        head := n;
      } else {
        before.next := n;
      }
      node.prev := n;
      assert Chain(prefix, this, u);
      assert Chain(suffix, this, v);
      ChainConcat(prefix, [n], this, u, [value]);
      ChainConcat(prefix + [n], suffix, this, u + [value], v);
    }

    /** Links a new node holding `value` right before `node`, which must be
        in the chain, updating the head when `node` was the head, and returns
        the new node. The version is left alone. The anchor's position is
        taken with `IndexOf` at the nullable node type, the type at which
        `AddBefore` states it. */
    method LinkBefore(node: Node<T>, value: T) returns (n: Node<T>)
      requires Valid() && node in Nodes
      modifies this, Nodes
      ensures Valid()
      ensures |Nodes| == |old(Nodes)| + 1
      ensures var i := IndexOf<Node?<T>>(old(Nodes), node);
        && Contents == Insert(old(Contents), i, value)
        && Nodes == Insert(old(Nodes), i, n) && fresh(n)
      ensures version == old(version)
    {
      ghost var N, U := Nodes, Contents;
      ghost var i := IndexOf<Node?<T>>(N, node);
      ChainSplit(N, this, U, i);
      ghost var P, S := N[..i], N[i..];
      ghost var last := S[|S| - 1];
      assert tail == last && last.next == null;
      assert i > 0 ==> N[i - 1] == P[|P| - 1] && N[i - 1] !in S && N[i - 1] != last;
      n := Splice(node, value, P, S, U[..i], U[i..]);
      count := count + 1;
      Nodes := P + [n] + S;
      Contents := U[..i] + [value] + U[i..];
      assert tail == Nodes[|Nodes| - 1] && tail.next == null;
    }

    /** `AddBefore(DoublyLinkedListNode<T>, T)`: links a new node holding
        `value` right before `node`, which the new node replaces as head when
        `node` was the head, bumps the version and returns the new node. A
        null node throws naming `node`; a node this list does not own throws
        `InvalidOperation`; in both cases nothing changes and no node is
        returned. */
    method AddBefore(node: Node?<T>, value: T) returns (r: Outcome, added: Node?<T>)
      requires Valid()
      requires node != null && node.owner == this ==> node in Nodes
      modifies this, Nodes
      ensures Valid()
      ensures node == null ==> r == Fail(NullArgument("node"))
      ensures node != null && old(node.owner) != this ==> r == Fail(InvalidOperation)
      ensures r.Fail? ==> added == null && Nodes == old(Nodes) && Contents == old(Contents) && version == old(version)
      ensures r.Pass? <==> node != null && old(node.owner) == this
      ensures r.Pass? ==> |Nodes| == |old(Nodes)| + 1
      ensures r.Pass? ==>
        var i := IndexOf<Node?<T>>(old(Nodes), node);
        && Contents == Insert(old(Contents), i, value)
        && Nodes == Insert(old(Nodes), i, added) && fresh(added)
        && version == old(version) + 1
      ensures r.Pass? ==> added != null && added.value == value && added.owner == this
      ensures r.Pass? ==> added.next == node && node.prev == added
    {
      if node == null {
        return Fail(NullArgument("node")), null;
      }
      if node.owner != this {
        return Fail(InvalidOperation), null;
      }
      ghost var i := IndexOf<Node?<T>>(Nodes, node);
      var n := LinkBefore(node, value);
      assert Nodes[i] == n && Nodes[i + 1] == node;
      version := version + 1;
      return Pass, n;
    }

    /** `AddLast(DoublyLinkedList<T>, bool reverse)`: appends copies of the
        values of `list` in new nodes, head-to-tail, or tail-to-head when
        `reverse` is set. A null list throws naming `list` and changes nothing;
        the version changes iff `list` is not empty. `list` is only read. */
    method AddLastList(list: DoublyLinkedList?<T>, reverse: bool) returns (r: Outcome)
      requires Valid()
      requires list != null ==> list != this && list.Valid()
      modifies this, tail
      ensures Valid()
      ensures list == null ==> r == Fail(NullArgument("list")) && Contents == old(Contents) && version == old(version)
      ensures list != null ==> r == Pass && Contents == old(Contents) + InOrder(old(list.Contents), reverse)
      ensures list != null ==> version == old(version) + (if old(list.Contents) == [] then 0 else 1)
      ensures list != null ==> list.Valid() && list.Contents == old(list.Contents)
      ensures old(Nodes) <= Nodes && fresh(Nodes[|old(Nodes)|..])
    {
      if list == null {
        return Fail(NullArgument("list"));
      }
      if list.count == 0 {
        return Pass;
      }
      var items;
      if reverse {
        items := list.Backward();
      } else {
        items := list.Forward();
      }
      Disjoint(this, list);
      AppendAll(items);
      version := version + 1;
      return Pass;
    }

    /** Makes this list the owner of every node of `list`, walking it head to
        tail; the links are left as they are. */
    method ClaimInOrder(list: DoublyLinkedList<T>)
      requires list.Valid()
      modifies list.Nodes`owner
      ensures Chain(list.Nodes, this, list.Contents)
      ensures list.Nodes != [] ==> list.Nodes[0].prev == null && list.Nodes[|list.Nodes| - 1].next == null
    {
      ghost var src, N := list.Contents, list.Nodes;
      var node := list.head;
      ghost var i := 0;
      while node != null
        invariant 0 <= i <= |N|
        invariant node == (if i == |N| then null else N[i])
        invariant forall k :: 0 <= k < i ==> N[k].owner == this
        decreases |N| - i
      {
        node.owner := this;
        node := node.next;
        i := i + 1;
      }
    }

    /** Makes this list the owner of every node of `list`, walking it tail to
        head and swapping each node's `next` and `prev`, so that the nodes form
        the reversed chain (`BacklinkedReversed`). */
    method ClaimReversed(list: DoublyLinkedList<T>)
      requires list.Valid()
      modifies list.Nodes`owner, list.Nodes`next, list.Nodes`prev
      ensures Backlinked(list.Nodes, this, list.Contents)
      ensures list.Nodes != [] ==> list.Nodes[0].next == null && list.Nodes[|list.Nodes| - 1].prev == null
    {
      ghost var src, N := list.Contents, list.Nodes;
      ChainDistinct(N, list, src);
      var node := list.tail;
      ghost var i := |N|;
      while node != null
        invariant 0 <= i <= |N|
        invariant node == (if i == 0 then null else N[i - 1])
        invariant forall k {:trigger N[k].next} :: 0 <= k < i ==> N[k].next == old(N[k].next)
        invariant forall k {:trigger N[k].prev} :: 0 <= k < i ==> N[k].prev == old(N[k].prev)
        invariant forall k {:trigger N[k].next} :: i <= k < |N| ==> N[k].next == old(N[k].prev)
        invariant forall k {:trigger N[k].prev} :: i <= k < |N| ==> N[k].prev == old(N[k].next)
        invariant forall k {:trigger N[k].owner} :: i <= k < |N| ==> N[k].owner == this
        decreases i
      {
        assert forall k :: 0 <= k < |N| && k != i - 1 ==> N[k] != node;
        var p := node.prev;
        node.Flip(this);
        node := p;
        i := i - 1;
      }
    }

    /** Makes this list the owner of every node of `list`, relinked in reverse
        when `reverse` is set, and returns the two ends of the resulting
        stretch, ready to be linked after the tail. `list` itself is left as it
        was, so its chain no longer agrees with the links. */
    method TakeNodes(list: DoublyLinkedList<T>, reverse: bool) returns (first: Node<T>, last: Node<T>)
      requires Valid() && list.Valid() && list != this && list.Nodes != []
      modifies list.Nodes`owner, list.Nodes`next, list.Nodes`prev
      ensures Valid()
      ensures Chain(InOrder(list.Nodes, reverse), this, InOrder(list.Contents, reverse))
      ensures first == InOrder(list.Nodes, reverse)[0] && first in list.Nodes && first.prev == null
      ensures last == InOrder(list.Nodes, reverse)[|list.Nodes| - 1] && last.next == null
      ensures first !in Nodes && tail !in InOrder(list.Nodes, reverse)
    {
      ghost var N := list.Nodes;
      Disjoint(this, list);
      first, last := list.head, list.tail;
      if reverse {
        ClaimReversed(list);
        BacklinkedReversed(N, this, list.Contents);
        first, last := last, first;
        ReverseAt(N, 0);
        ReverseAt(N, |N| - 1);
        ReverseMultiset(N);
      } else {
        ClaimInOrder(list);
      }
    }

    /** Moves the nodes of the non-empty `list` after the tail, in the order
        `reverse` selects, and bumps the version. The fields of `list` itself
        are left alone, so `list` no longer agrees with its nodes. */
    method MoveNodes(list: DoublyLinkedList<T>, reverse: bool)
      requires Valid() && list.Valid() && list != this && list.Nodes != []
      modifies this, tail, list.Nodes`owner, list.Nodes`next, list.Nodes`prev
      ensures Valid()
      ensures Contents == old(Contents) + InOrder(list.Contents, reverse)
      ensures Nodes == old(Nodes) + InOrder(list.Nodes, reverse)
      ensures version == old(version) + 1
    {
      var first, last := TakeNodes(list, reverse);
      LinkAfterTail(first, last, list.count, InOrder(list.Nodes, reverse), InOrder(list.Contents, reverse));
      version := version + 1;
    }

    /** Empties this list without looking at its nodes, bumping the version:
        what a list that gave its nodes away is left as. */
    method Reset()
      modifies this`head, this`tail, this`count, this`version, this`Nodes, this`Contents
      ensures Valid() && Nodes == [] && Contents == [] && version == old(version) + 1
    {
      head, tail, count := null, null, 0;
      version := version + 1;
      Nodes, Contents := [], [];
    }

    /** `AddLastFrom(DoublyLinkedList<T>, bool reverse)`: moves the nodes of
        `list` after the tail, with their `next` and `prev` swapped when
        `reverse` is set, and makes this list their owner. No node is created:
        the chain gains exactly the nodes `list` had. A null list throws naming
        `list`; otherwise `list` ends empty and this list's version changes iff
        `list` was not empty. */
    method AddLastFrom(list: DoublyLinkedList?<T>, reverse: bool) returns (r: Outcome)
      requires Valid()
      requires list != null ==> list != this && list.Valid()
      modifies this, tail, list, if list == null then [] else list.Nodes
      ensures Valid()
      ensures list == null ==> r == Fail(NullArgument("list")) && Contents == old(Contents) && Nodes == old(Nodes) && version == old(version)
      ensures list != null ==> r == Pass && list.Valid() && list.Contents == [] && list.Nodes == []
      ensures list != null ==> Contents == old(Contents) + InOrder(old(list.Contents), reverse)
      ensures list != null ==> Nodes == old(Nodes) + InOrder(old(list.Nodes), reverse)
      ensures list != null ==> version == old(version) + (if old(list.Contents) == [] then 0 else 1)
      ensures list != null ==> list.version >= old(list.version)
    {
      if list == null {
        return Fail(NullArgument("list"));
      }
      if list.count == 0 {
        return Pass;
      }
      MoveNodes(list, reverse);
      list.Reset();
      return Pass;
    }
  }
}
