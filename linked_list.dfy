/**
 * The doubly-linked list: nodes joined by `next` and `prev`, with `first`,
 * `last` and a separate `size` count. The ghost sequence `nodes` lists the
 * nodes in chain order and `Contents` their values.
 */
module LinkedLists {
  import opened Java
  import Seqs

  /**
   * The scan lastIndexOf performs: the largest index from 1 upward holding
   * `v`, or -1. Index 0 is never examined.
   */
  function LastIndexAfterHead<T(==)>(s: seq<T>, v: T): (r: int)
    ensures -1 <= r < |s| && r != 0
    ensures r == -1 <==> forall j | 1 <= j < |s| :: s[j] != v
    ensures r > 0 ==> s[r] == v && forall j | r < j < |s| :: s[j] != v
  {
    if |s| <= 1 then -1
    else
      var j := Seqs.LastIndex(s[1..], v);
      assert forall k | 1 <= k < |s| :: s[k] == s[1..][k - 1];
      if j == -1 then -1 else j + 1
  }

  /**
   * The scan agrees with the last occurrence except when `v` occurs only at
   * index 0, where it reports -1.
   */
  lemma {:induction false} LastIndexAfterHeadMissesOnlyHead<T>(s: seq<T>, v: T)
    ensures LastIndexAfterHead(s, v) == (if Seqs.LastIndex(s, v) == 0 then -1 else Seqs.LastIndex(s, v))
  {
    var r := LastIndexAfterHead(s, v);
    if r > 0 {
      Seqs.LastIndexUnique(s, v, r);
    } else {
      assert forall j | 1 <= j < |s| :: s[j] != v;
      var k := Seqs.LastIndex(s, v);
      assert k <= 0;
    }
  }

  /** On the one-element list [x], lastIndexOf(x) is -1 although x is at index 0. */
  lemma {:induction false} LastIndexOfSingletonMisses<T>(x: T)
    ensures LastIndexAfterHead([x], x) == -1
    ensures Seqs.LastIndex([x], x) == 0
  {
  }

  /** validateIndex: an index must address an existing element. */
  function ValidateIndex(index: int, size: int): (r: Result<()>)
    ensures r.Ok? <==> 0 <= index < size
    ensures r.Throw? ==> r.exception == IndexOutOfBounds
  {
    if index < 0 || index > size - 1 then Throw(IndexOutOfBounds) else Ok(())
  }

  /** validateIndexForAdd: an insertion index may also be one past the last element. */
  function ValidateIndexForAdd(index: int, size: int): (r: Result<()>)
    ensures r.Ok? <==> 0 <= index <= size
    ensures r.Throw? ==> r.exception == IndexOutOfBounds
  {
    if index < 0 || index > size then Throw(IndexOutOfBounds) else Ok(())
  }

  class Node<T> {
    var value: Nullable<T>
    var next: Node?<T>
    var prev: Node?<T>

    constructor (value: Nullable<T>)
      ensures this.value == value && next == null && prev == null
    {
      this.value := value;
      next := null;
      prev := null;
    }
  }

  class LinkedList<T(==)> {
    var first: Node?<T>
    var last: Node?<T>
    var size: int
    /** The nodes reachable from `first`, in chain order. */
    ghost var nodes: seq<Node<T>>
    /** The values of those nodes: the list as a sequence. */
    ghost var Contents: seq<Nullable<T>>
    ghost var Repr: set<object>

    /**
     * The list invariant: `size` counts the chain, `first` and `last` are its
     * ends, every `next` is matched by a `prev`, and no node occurs twice.
     */
    ghost predicate Valid()
      reads this, Repr
    {
      && this in Repr
      && (forall i | 0 <= i < |nodes| :: nodes[i] in Repr)
      && size == |nodes| == |Contents|
      && (forall i | 0 <= i < |nodes| :: nodes[i].value == Contents[i])
      && (nodes == [] ==> first == null && last == null)
      && (nodes != [] ==>
            && first == nodes[0] && last == nodes[|nodes| - 1]
            && nodes[0].prev == null && nodes[|nodes| - 1].next == null)
      && (forall i | 0 <= i < |nodes| - 1 :: nodes[i].next == nodes[i + 1] && nodes[i + 1].prev == nodes[i])
      && (forall i, j | 0 <= i < j < |nodes| :: nodes[i] != nodes[j])
    }

    constructor ()
      ensures Valid() && fresh(Repr) && Contents == []
    {
      first, last, size := null, null, 0;
      nodes, Contents := [], [];
      Repr := {this};
    }

    /** findByIndex: walks `index` links from `first`. */
    method FindByIndex(index: int) returns (node: Node<T>)
      requires Valid() && 0 <= index < size
      ensures node == nodes[index]
    {
      var current := first;
      for i := 0 to index
        invariant current == nodes[i]
      {
        current := current.next;
      }
      node := current;
    }

    /** add(value): appends, by inserting at position size. */
    method Add(value: Nullable<T>)
      requires Valid()
      modifies this, Repr
      ensures Valid() && fresh(Repr - old(Repr))
      ensures Contents == old(Contents) + [value]
    {
      var r := AddAt(value, size);
      assert Seqs.InsertAt(old(Contents), old(size), value) == old(Contents) + [value];
    }

    /**
     * add(value, index): validates the index, then links a new node as the
     * only node, in front of `first` or behind `last`. For an index strictly
     * inside the list the new node is never linked in: the chain stays as it
     * was while `size` still grows, which breaks the invariant.
     */
    method AddAt(value: Nullable<T>, index: int) returns (r: Result<()>)
      requires Valid()
      modifies this, Repr
      ensures r == (if 0 <= index <= old(size) then Ok(()) else Throw(IndexOutOfBounds))
      ensures r.Throw? ==> Valid() && nodes == old(nodes) && Contents == old(Contents) && Repr == old(Repr)
      ensures r.Ok? && (index == 0 || index == old(size)) ==>
                && Valid() && fresh(Repr - old(Repr))
                && Contents == Seqs.InsertAt(old(Contents), index, value)
      ensures r.Ok? && 0 < index < old(size) ==>
                && !Valid() && size == old(size) + 1
                && first == old(first) && last == old(last)
                && nodes == old(nodes) && Contents == old(Contents)
                && forall i | 0 <= i < |nodes| ::
                     && nodes[i].next == old(nodes[i].next)
                     && nodes[i].prev == old(nodes[i].prev)
                     && nodes[i].value == old(nodes[i].value)
    {
      var valid := ValidateIndexForAdd(index, size);
      if valid.Throw? {
        return Throw(valid.exception);
      }
      var newNode := new Node(value);
      if size == 0 {
        LinkOnly(newNode);
      } else if index == 0 {
        LinkFirst(newNode);
      } else if index == size {
        LinkLast(newNode);
        assert Seqs.InsertAt(old(Contents), index, value) == old(Contents) + [value];
      } else {
        var node := FindByIndex(index);
        assert node.prev == nodes[index - 1] && nodes[index - 1].next == node;
        newNode.prev := node.prev;
        node.prev.next := node;
        node := newNode;
        newNode.next := node.next;
        size := size + 1;
      }
      r := Ok(());
    }

    /** The `size == 0` branch of add: the new node becomes both `first` and `last`. */
    method LinkOnly(newNode: Node<T>)
      requires Valid() && size == 0 && newNode !in Repr && newNode.next == null && newNode.prev == null
      modifies this
      ensures Valid() && Repr == old(Repr) + {newNode}
      ensures nodes == [newNode] && Contents == [newNode.value]
    {
      first, last := newNode, newNode;
      size := size + 1;
      nodes, Contents := [newNode], [newNode.value];
      Repr := Repr + {newNode};
    }

    /** The `index == 0` branch of add: the new node is linked in front of `first`. */
    method LinkFirst(newNode: Node<T>)
      requires Valid() && size > 0 && newNode !in Repr && newNode.next == null && newNode.prev == null
      modifies this, first, newNode
      ensures Valid() && Repr == old(Repr) + {newNode}
      ensures nodes == [newNode] + old(nodes) && Contents == [newNode.value] + old(Contents)
      ensures newNode.value == old(newNode.value)
    {
      first.prev := newNode;
      newNode.next := first;
      first := newNode;
      size := size + 1;
      nodes, Contents := [newNode] + nodes, [newNode.value] + Contents;
      Repr := Repr + {newNode};
    }

    /** The `index == size` branch of add: the new node is linked behind `last`. */
    method LinkLast(newNode: Node<T>)
      requires Valid() && size > 0 && newNode !in Repr && newNode.next == null && newNode.prev == null
      modifies this, last, newNode
      ensures Valid() && Repr == old(Repr) + {newNode}
      ensures nodes == old(nodes) + [newNode] && Contents == old(Contents) + [newNode.value]
      ensures newNode.value == old(newNode.value)
    {
      last.next := newNode;
      newNode.prev := last;
      last := newNode;
      size := size + 1;
      nodes, Contents := nodes + [newNode], Contents + [newNode.value];
      Repr := Repr + {newNode};
    }

    /**
     * remove(index): unlinks the node at `index` (the only node, the first,
     * the last or an inner one) and returns its value.
     */
    method Remove(index: int) returns (r: Result<Nullable<T>>)
      requires Valid()
      modifies this, Repr
      ensures Valid() && Repr == old(Repr)
      ensures !(0 <= index < old(size)) ==> r == Throw(IndexOutOfBounds) && Contents == old(Contents)
      ensures 0 <= index < old(size) ==>
                r == Ok(old(Contents)[index]) && Contents == Seqs.RemoveAt(old(Contents), index)
    {
      var valid := ValidateIndex(index, size);
      if valid.Throw? {
        return Throw(valid.exception);
      }
      var current := FindByIndex(index);
      var value := current.value;
      if size == 1 {
        first, last := null, null;
        size := size - 1;
        nodes, Contents := [], [];
      } else if index == 0 {
        UnlinkFirst();
      } else if index == size - 1 {
        UnlinkLast();
      } else {
        UnlinkInner(current, index);
      }
      r := Ok(value);
    }

    /** The `index == 0` branch of remove in a list of two or more. */
    method UnlinkFirst()
      requires Valid() && size > 1
      modifies this, nodes[1]
      ensures Valid() && Repr == old(Repr)
      ensures nodes == old(nodes)[1..] && Contents == old(Contents)[1..]
    {
      assert first.next == nodes[1];
      first.next.prev := null;
      first := first.next;
      size := size - 1;
      nodes, Contents := nodes[1..], Contents[1..];
    }

    /** The `index == size - 1` branch of remove in a list of two or more. */
    method UnlinkLast()
      requires Valid() && size > 1
      modifies this, nodes[|nodes| - 2]
      ensures Valid() && Repr == old(Repr)
      ensures nodes == old(nodes)[..|old(nodes)| - 1] && Contents == old(Contents)[..|old(Contents)| - 1]
    {
      assert last.prev == nodes[|nodes| - 2];
      last.prev.next := null;
      last := last.prev;
      size := size - 1;
      nodes, Contents := nodes[..|nodes| - 1], Contents[..|Contents| - 1];
    }

    /** The inner branch of remove: the neighbours of `current` are linked to each other. */
    method UnlinkInner(current: Node<T>, ghost index: int)
      requires Valid() && 0 < index < size - 1 && current == nodes[index]
      modifies this, nodes[index - 1], nodes[index + 1]
      ensures Valid() && Repr == old(Repr)
      ensures nodes == Seqs.RemoveAt(old(nodes), index) && Contents == Seqs.RemoveAt(old(Contents), index)
    {
      assert current.prev == nodes[index - 1] && current.next == nodes[index + 1];
      current.prev.next := current.next;
      current.next.prev := current.prev;
      size := size - 1;
      nodes, Contents := Seqs.RemoveAt(nodes, index), Seqs.RemoveAt(Contents, index);
    }

    /** get(index): the value at `index`. */
    method Get(index: int) returns (r: Result<Nullable<T>>)
      requires Valid()
      ensures r == if 0 <= index < |Contents| then Ok(Contents[index]) else Throw(IndexOutOfBounds)
    {
      var valid := ValidateIndex(index, size);
      if valid.Throw? {
        return Throw(valid.exception);
      }
      var node := FindByIndex(index);
      r := Ok(node.value);
    }

    /** set(value, index): replaces the value at `index` and returns the one it held. */
    method Set(value: Nullable<T>, index: int) returns (r: Result<Nullable<T>>)
      requires Valid()
      modifies this, Repr
      ensures Valid() && Repr == old(Repr) && nodes == old(nodes)
      ensures !(0 <= index < old(size)) ==> r == Throw(IndexOutOfBounds) && Contents == old(Contents)
      ensures 0 <= index < old(size) ==>
                r == Ok(old(Contents)[index]) && Contents == old(Contents)[index := value]
    {
      var valid := ValidateIndex(index, size);
      if valid.Throw? {
        return Throw(valid.exception);
      }
      var current := FindByIndex(index);
      var oldValue := current.value;
      current.value := value;
      Contents := Contents[index := value];
      r := Ok(oldValue);
    }

    /** indexOf(value): walks from `first`, the first position holding `value`, or -1. */
    method IndexOf(value: Nullable<T>) returns (r: int)
      requires Valid()
      ensures r == Seqs.FirstIndex(Contents, value)
    {
      var node := first;
      for index := 0 to size
        invariant index < size ==> node == nodes[index]
        invariant value !in Contents[..index]
      {
        if node.value == value {
          Seqs.FirstIndexUnique(Contents, value, index);
          return index;
        }
        node := node.next;
      }
      assert Contents[..size] == Contents;
      r := -1;
    }

    /**
     * lastIndexOf(value): walks back from `last` while the index is positive,
     * so the value at index 0 is never compared.
     */
    method LastIndexOf(value: Nullable<T>) returns (r: int)
      requires Valid()
      ensures r == LastIndexAfterHead(Contents, value)
    {
      var current := last;
      var index := size - 1;
      while index > 0
        invariant -1 <= index < size
        invariant index >= 0 ==> current == nodes[index]
        invariant forall j | index < j < size :: Contents[j] != value
      {
        if current.value == value {
          return index;
        }
        current := current.prev;
        index := index - 1;
      }
      r := -1;
    }

    /** contains(value): indexOf(value) != -1. */
    method Contains(value: Nullable<T>) returns (r: bool)
      requires Valid()
      ensures r <==> value in Contents
    {
      var i := IndexOf(value);
      r := i != -1;
    }

    /** clear(): drops every node at once. */
    method Clear()
      requires Valid()
      modifies this
      ensures Valid() && Contents == [] && Repr == old(Repr)
    {
      first, last := null, null;
      size := 0;
      nodes, Contents := [], [];
    }

    /** isEmpty(). */
    function IsEmpty(): (r: bool)
      reads this, Repr
      requires Valid()
      ensures r <==> Contents == []
    {
      size == 0
    }

    /** size(). */
    function Size(): (n: int)
      reads this, Repr
      requires Valid()
      ensures n == |Contents|
    {
      size
    }

    /** iterator(): a fresh iterator standing at `first`. */
    method Iterator() returns (it: LinkedListIterator<T>)
      requires Valid()
      ensures fresh(it) && it.list == this && it.Valid() && it.position == 0
    {
      it := new LinkedListIterator(this);
    }
  }

  /**
   * add(3, 1) on the list [1, 2]: size becomes 3, but the chain from `first`
   * still reads 1 then 2 and ends there, so the value 3 is lost.
   */
  method MiddleInsertIsLost() returns (list: LinkedList<int>)
    ensures list.size == 3 && !list.Valid()
    ensures list.first != null && list.first.value == NonNull(1)
    ensures list.first.next == list.last && list.last != null
    ensures list.last.value == NonNull(2) && list.last.next == null
  {
    list := new LinkedList();
    list.Add(NonNull(1));
    list.Add(NonNull(2));
    var r := list.AddAt(NonNull(3), 1);
  }

  /**
   * next() then remove() on an iterator over [1, 2, 3]: the call succeeds,
   * size drops to 2, but the chain from `first` now holds 1 alone, so 2 and
   * 3 are both lost while 1, the value just returned, stays.
   */
  method IteratorRemoveTruncates() returns (list: LinkedList<int>, r: Result<()>)
    ensures r == Ok(()) && list.size == 2
    ensures list.first != null && list.first == list.last
    ensures list.first.value == NonNull(1) && list.first.next == null
  {
    list := new LinkedList();
    list.Add(NonNull(1));
    list.Add(NonNull(2));
    list.Add(NonNull(3));
    var it := list.Iterator();
    var _ := it.Next();
    r := it.Remove();
  }

  /** The list's iterator: a cursor on the next node to return. */
  class LinkedListIterator<T(==)> {
    const list: LinkedList<T>
    var current: Node?<T>
    /** How many values the cursor has passed. */
    ghost var position: nat

    ghost predicate Valid()
      reads this, list, list.Repr
    {
      && list.Valid()
      && position <= |list.nodes|
      && current == (if position < |list.nodes| then list.nodes[position] else null)
    }

    constructor (list: LinkedList<T>)
      requires list.Valid()
      ensures Valid() && this.list == list && position == 0
    {
      this.list := list;
      current := list.first;
      position := 0;
    }

    /** hasNext(): the cursor is on a node. */
    method HasNext() returns (r: bool)
      requires Valid()
      ensures r <==> position < |list.Contents|
    {
      r := current != null;
    }

    /** next(): the value under the cursor, which moves to the following node; at the end it throws. */
    method Next() returns (r: Result<Nullable<T>>)
      requires Valid()
      modifies this
      ensures Valid()
      ensures old(position) < |list.Contents| ==>
                r == Ok(list.Contents[old(position)]) && position == old(position) + 1
      ensures old(position) >= |list.Contents| ==>
                r == Throw(NoSuchElement) && position == old(position)
    {
      if current == null {
        return Throw(NoSuchElement);
      }
      var value := current.value;
      current := current.next;
      position := position + 1;
      r := Ok(value);
    }

    /**
     * remove(): when a node follows the cursor's, `last` is set to the node
     * before the cursor, that node's `next` to null, and size drops by one, so
     * the chain ends before the cursor while size still counts all but one
     * value. On the last node it throws IllegalStateException; past the end,
     * or on the first node (after `last` has been set to null), it throws
     * NullPointerException.
     */
    method Remove() returns (r: Result<()>)
      requires Valid()
      modifies list, list.Repr
      ensures list.nodes == old(list.nodes) && list.Contents == old(list.Contents) && list.first == old(list.first)
      ensures forall i | 0 <= i < |list.nodes| :: list.nodes[i].prev == old(list.nodes[i].prev) && list.nodes[i].value == old(list.nodes[i].value)
      ensures position == |list.nodes| ==> r == Throw(NullPointer) && unchanged(list) && unchanged(list.nodes)
      ensures position == |list.nodes| - 1 ==> r == Throw(IllegalState) && unchanged(list) && unchanged(list.nodes)
      ensures position == 0 < |list.nodes| - 1 ==>
                && r == Throw(NullPointer) && list.last == null && list.size == old(list.size)
                && unchanged(list.nodes)
      ensures 0 < position < |list.nodes| - 1 ==>
                && r == Ok(()) && list.size == old(list.size) - 1
                && list.last == list.nodes[position - 1] && list.nodes[position - 1].next == null
                && forall i | 0 <= i < |list.nodes| && i != position - 1 :: list.nodes[i].next == old(list.nodes[i].next)
    {
      if current == null {
        return Throw(NullPointer);
      }
      ghost var n := |list.nodes|;
      assert current.next == (if position < n - 1 then list.nodes[position + 1] else null);
      assert current.prev == (if 0 < position then list.nodes[position - 1] else null);
      if current.next != null {
        list.last := current.prev;
        if current.prev == null {
          return Throw(NullPointer);
        }
        current.prev.next := null;
      } else {
        return Throw(IllegalState);
      }
      list.size := list.size - 1;
      r := Ok(());
    }
  }
}
