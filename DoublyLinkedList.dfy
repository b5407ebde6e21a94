/** The non-generic doubly linked list: a `head` pointer, `next` and `prev` links and a `counter`. */
module DoublyLinkedLists {
  import opened Outcomes
  import opened SeqSpec

  /** One element of the list. */
  class Node<T> {
    var value: T
    var next: Node?<T>
    var prev: Node?<T>

    constructor (value: T, prev: Node?<T>, next: Node?<T>)
      ensures this.value == value && this.prev == prev && this.next == next
    {
      this.value := value;
      this.prev := prev;
      this.next := next;
    }
  }

  class DoublyLinkedList<T(==)> {
    // The list as the C# class holds it.
    var head: Node?<T>
    var counter: int

    // The public view: the values along the `next` chain, the nodes holding them, and the footprint.
    ghost var Contents: seq<T>
    ghost var nodes: seq<Node<T>>
    ghost var Repr: set<object>

    /** The object invariant: the list owns its nodes and they are linked as `Linked` says. */
    ghost predicate Valid()
      reads this, Repr
    {
      this in Repr && Linked()
    }

    /**
     * `head` starts a null-terminated `next` chain through exactly the nodes of `nodes`, which hold
     * `Contents`. The `prev` links are not part of it: several operations leave them stale.
     */
    ghost predicate Linked()
      reads this, Repr
    {
      && (forall i :: 0 <= i < |nodes| ==> nodes[i] in Repr)
      && |nodes| == |Contents| == counter
      && head == (if nodes == [] then null else nodes[0])
      && (forall i :: 0 <= i < |nodes| ==> nodes[i].value == Contents[i])
      && (forall i :: 0 <= i < |nodes| - 1 ==> nodes[i].next == nodes[i + 1])
      && (nodes != [] ==> nodes[|nodes| - 1].next == null)
    }

    /** A null-terminated chain never visits a node twice. */
    lemma {:induction false} NodesDistinct()
      requires Valid()
      ensures forall i, j :: 0 <= i < j < |nodes| ==> nodes[i] != nodes[j]
    {
      forall i, j | 0 <= i < j < |nodes|
        ensures nodes[i] != nodes[j]
      {
        // Equal nodes would have equal successors all the way to the end of the chain.
        var k := 0;
        while j + k < |nodes| - 1
          invariant 0 <= k <= |nodes| - 1 - j
          invariant nodes[i] == nodes[j] ==> nodes[i + k] == nodes[j + k]
        {
          assert nodes[i + k].next == nodes[i + k + 1] && nodes[j + k].next == nodes[j + k + 1];
          k := k + 1;
        }
        assert nodes[i + k].next == nodes[i + k + 1] && nodes[j + k].next == null;
      }
    }

    constructor ()
      ensures Valid() && fresh(Repr) && Contents == []
    {
      head := null;
      counter := 0;
      Contents, nodes, Repr := [], [], {this};
    }

    /** Prepends `value`; the old first node gets the new one as its `prev`. */
    method Push(value: T)
      requires Valid()
      modifies this, Repr
      ensures Valid() && fresh(Repr - old(Repr))
      ensures Contents == [value] + old(Contents)
      ensures nodes[0].prev == null
      ensures old(nodes) != [] ==> old(nodes)[0].prev == nodes[0]
    {
      var newNode := new Node(value, null, head);
      if head != null {
        head.prev := newNode;
      }
      head := newNode;
      counter := counter + 1;
      ghost var was := nodes;
      nodes, Contents, Repr := [newNode] + nodes, [value] + Contents, Repr + {newNode};
      assert forall i :: 1 <= i < |nodes| ==> nodes[i] == was[i - 1];
    }

    /** Empties the list; false when it was already empty. */
    method Clear() returns (r: bool)
      requires Valid()
      modifies this
      ensures Valid() && Repr == old(Repr)
      ensures r == (old(Contents) != [])
      ensures Contents == []
    {
      if counter == 0 {
        return false;
      }
      head := null;
      counter := 0;
      nodes, Contents := [], [];
      return true;
    }

    /** Whether some element equals `value`. */
    method Contains(value: T) returns (r: bool)
      requires Valid()
      ensures r <==> value in Contents
    {
      var temp := head;
      ghost var i := 0;
      while temp != null
        invariant 0 <= i <= |nodes|
        invariant temp == if i < |nodes| then nodes[i] else null
        invariant value !in Contents[..i]
        decreases |nodes| - i
      {
        if temp.value == value {
          return true;
        }
        temp := temp.next;
        i := i + 1;
      }
      assert Contents[..i] == Contents;
      return false;
    }

    /** The first index of `value`, or -1. */
    method GetIndex(value: T) returns (r: int)
      requires Valid()
      ensures r == FirstIndex(Contents, value)
    {
      var temp := head;
      var i := 0;
      while i < counter
        invariant 0 <= i <= counter
        invariant temp == if i < |nodes| then nodes[i] else null
        invariant value !in Contents[..i]
      {
        if temp.value == value {
          return i;
        }
        i, temp := i + 1, temp.next;
      }
      assert Contents[..i] == Contents;
      return -1;
    }

    /** The `length` getter. */
    function Length(): (n: int)
      requires Valid()
      reads this, Repr
      ensures n == |Contents|
    {
      counter
    }

    /** The indexer `this[index]`: walks `index` links from the head. */
    method Get(index: int) returns (r: Result<T>)
      requires Valid()
      ensures 0 <= index < |Contents| ==> r == Ok(Contents[index])
      ensures !(0 <= index < |Contents|) ==> r == Err(IndexOutOfRange)
    {
      if index >= counter || index < 0 {
        return Err(IndexOutOfRange);
      }
      var i := 0;
      var temp := head;
      while i != index
        invariant 0 <= i <= index
        invariant temp == nodes[i]
      {
        temp := temp.next;
        i := i + 1;
      }
      return Ok(temp.value);
    }

    /**
     * Removes the first element equal to `value`: `None` when there is none, an error on an empty list.
     * When the removed element is not the first, its predecessor is left with `prev` pointing to itself.
     */
    method DeleteByValue(value: T) returns (r: Result<Option<T>>)
      requires Valid()
      modifies this, Repr
      ensures Valid() && Repr == old(Repr)
      ensures old(Contents) == [] ==> r == Err(InvalidOperation) && Contents == old(Contents)
      ensures old(Contents) != [] && value !in old(Contents) ==> r == Ok(None) && Contents == old(Contents)
      ensures value in old(Contents) ==>
                r == Ok(Some(value)) && Contents == RemoveAt(old(Contents), FirstIndex(old(Contents), value))
      ensures value in old(Contents) && FirstIndex(old(Contents), value) > 0 ==>
                var k := FirstIndex(old(Contents), value); old(nodes)[k - 1].prev == old(nodes)[k - 1]
    {
      if head == null {
        return Err(InvalidOperation);
      }
      if head.value == value {
        var toBeDeleted := head.value;
        head := head.next;
        counter := counter - 1;
        nodes, Contents := nodes[1..], Contents[1..];
        return Ok(Some(toBeDeleted));
      }
      var temp := head;
      ghost var i := 0;
      while temp.next != null
        invariant Valid()
        invariant 0 <= i < |nodes| && temp == nodes[i]
        invariant temp.next == if i + 1 < |nodes| then nodes[i + 1] else null
        invariant value !in Contents[..i + 1]
        decreases |nodes| - i
      {
        if temp.next.value == value {
          assert FirstIndex(Contents, value) == i + 1;
          var toBeDeleted := temp.next.value;
          UnlinkAfter(temp, i);
          return Ok(Some(toBeDeleted));
        }
        temp := temp.next;
        i := i + 1;
      }
      assert Contents[..i + 1] == Contents;
      return Ok(None);
    }

    /** The unlinking step of `DeleteByValue`: bypasses the node after `temp`, then sets `temp.prev` to `temp` itself. */
    method UnlinkAfter(temp: Node<T>, ghost i: nat)
      requires Valid() && i + 1 < |nodes| && temp == nodes[i]
      modifies this, Repr
      ensures Valid() && Repr == old(Repr)
      ensures nodes == old(nodes[..i + 1] + nodes[i + 2..])
      ensures Contents == RemoveAt(old(Contents), i + 1)
      ensures temp.prev == temp
    {
      NodesDistinct();
      assert temp.next == nodes[i + 1];
      assert nodes[i + 1].next == if i + 2 < |nodes| then nodes[i + 2] else null;
      temp.next := temp.next.next;
      temp.prev := temp;
      counter := counter - 1;
      ghost var was := nodes;
      nodes, Contents := nodes[..i + 1] + nodes[i + 2..], RemoveAt(Contents, i + 1);
      assert forall j :: 0 <= j <= i ==> nodes[j] == was[j];
      assert forall j :: i < j < |nodes| ==> nodes[j] == was[j + 1];
    }

    /** Removes and returns the element at `index`; `prev` links are not updated. */
    method DeleteByIndex(index: int) returns (r: Result<T>)
      requires Valid()
      modifies this, Repr
      ensures Valid() && Repr == old(Repr)
      ensures !(0 <= index < |old(Contents)|) ==> r == Err(IndexOutOfRange) && Contents == old(Contents)
      ensures 0 <= index < |old(Contents)| ==>
                r == Ok(old(Contents)[index]) && Contents == RemoveAt(old(Contents), index)
    {
      if index >= counter || index < 0 {
        return Err(IndexOutOfRange);
      }
      if index == 0 {
        r := Pop();
        return;
      }
      var temp := head;
      var i := 0;
      while temp.next != null && i < index - 1
        invariant Valid()
        invariant 0 <= i <= index - 1
        invariant temp == nodes[i] && temp.next == nodes[i + 1]
      {
        temp := temp.next;
        i := i + 1;
      }
      NodesDistinct();
      var toBeDeleted := temp.next.value;
      temp.next := temp.next.next;
      counter := counter - 1;
      nodes, Contents := nodes[..index] + nodes[index + 1..], RemoveAt(Contents, index);
      return Ok(toBeDeleted);
    }

    /** Appends `value` after the last node, which becomes its `prev`. */
    method Append(value: T)
      requires Valid()
      modifies this, Repr
      ensures Valid() && fresh(Repr - old(Repr))
      ensures Contents == old(Contents) + [value]
      ensures old(nodes) != [] ==> nodes[|nodes| - 1].prev == old(nodes)[|old(nodes)| - 1]
    {
      if head == null {
        Push(value);
        return;
      }
      var temp := head;
      var newNode := new Node(value, null, null);
      ghost var i := 0;
      while temp.next != null
        invariant Valid()
        invariant 0 <= i < |nodes| && temp == nodes[i]
        invariant temp.next == if i + 1 < |nodes| then nodes[i + 1] else null
        decreases |nodes| - i
      {
        temp := temp.next;
        i := i + 1;
      }
      temp.next := newNode;
      newNode.prev := temp;
      counter := counter + 1;
      ghost var was := nodes;
      nodes, Contents, Repr := nodes + [newNode], Contents + [value], Repr + {newNode};
      assert forall j :: 0 <= j < |was| ==> nodes[j] == was[j];
    }

    /** Removes and returns the first element; the new first node keeps its stale `prev`. */
    method Pop() returns (r: Result<T>)
      requires Valid()
      modifies this
      ensures Valid() && Repr == old(Repr)
      ensures old(Contents) == [] ==> r == Err(InvalidOperation) && Contents == old(Contents)
      ensures old(Contents) != [] ==> r == Ok(old(Contents)[0]) && Contents == old(Contents)[1..]
    {
      if counter == 0 {
        return Err(InvalidOperation);
      }
      var toBeDeleted := head.value;
      if counter == 1 {
        head := null;
      } else {
        head := head.next;
      }
      counter := counter - 1;
      nodes, Contents := nodes[1..], Contents[1..];
      return Ok(toBeDeleted);
    }

    /** Reverses the list: drains it from the end into a temporary list, then drains that one back from its head. */
    method Reverse() returns (r: bool)
      requires Valid()
      modifies this, Repr
      ensures Valid() && fresh(Repr - old(Repr))
      ensures r == (|old(Contents)| > 1)
      ensures Contents == if r then Reversed(old(Contents)) else old(Contents)
    {
      if counter == 0 || counter == 1 {
        return false;
      }
      var tempList := new DoublyLinkedList<T>();
      DrainInto(tempList);
      assert Contents == [] && tempList.Contents == old(Contents) + [] == old(Contents);
      tempList.DrainReversedInto(this);
      assert Contents == Reversed(old(Contents)) + [];
      return true;
    }

    /** The first loop of `Reverse`: deletes the last element and pushes it onto `other`, until this list is empty. */
    method DrainInto(other: DoublyLinkedList<T>)
      requires Valid() && other.Valid() && Repr !! other.Repr
      modifies this, Repr, other, other.Repr
      ensures Valid() && other.Valid() && Repr == old(Repr) && Repr !! other.Repr
      ensures fresh(other.Repr - old(other.Repr))
      ensures Contents == [] && other.Contents == old(Contents) + old(other.Contents)
    {
      while counter != 0
        invariant Valid() && other.Valid() && Repr == old(Repr) && Repr !! other.Repr
        invariant fresh(other.Repr - old(other.Repr))
        invariant Contents + other.Contents == old(Contents) + old(other.Contents)
        decreases counter
      {
        ghost var rest, moved := Contents, other.Contents;
        var last := DeleteByIndex(counter - 1);
        other.Push(last.value);
        assert Contents == rest[..|rest| - 1] && other.Contents == rest[|rest| - 1..] + moved;
      }
    }

    /** The second loop of `Reverse`: pops the head of this list and pushes it onto `other`, until this list is empty. */
    method DrainReversedInto(other: DoublyLinkedList<T>)
      requires Valid() && other.Valid() && Repr !! other.Repr
      modifies this, other, other.Repr
      ensures Valid() && other.Valid() && Repr == old(Repr) && Repr !! other.Repr
      ensures fresh(other.Repr - old(other.Repr))
      ensures Contents == [] && other.Contents == Reversed(old(Contents)) + old(other.Contents)
    {
      while counter != 0
        invariant Valid() && other.Valid() && Repr == old(Repr) && Repr !! other.Repr
        invariant fresh(other.Repr - old(other.Repr))
        invariant Reversed(Contents) + other.Contents == Reversed(old(Contents)) + old(other.Contents)
        decreases counter
      {
        var first := Pop();
        other.Push(first.value);
      }
    }

    /** Exchanges the values at indices `first` and `second`. */
    method Swap(first: int, second: int) returns (r: Result<bool>)
      requires Valid()
      modifies Repr
      ensures Valid() && Repr == old(Repr)
      ensures !(0 <= first < |old(Contents)| && 0 <= second < |old(Contents)|) ==>
                r == Err(IndexOutOfRange) && Contents == old(Contents)
      ensures 0 <= first < |old(Contents)| && 0 <= second < |old(Contents)| ==>
                r == Ok(true) && Contents == Swapped(old(Contents), first, second)
    {
      if first >= counter || second >= counter || first < 0 || second < 0 {
        return Err(IndexOutOfRange);
      }
      var firstElem, secondElem := head, head;
      var f, s := first, second;
      while f != 0
        invariant Valid()
        invariant 0 <= f <= first && firstElem == nodes[first - f]
      {
        firstElem := firstElem.next;
        f := f - 1;
      }
      while s != 0
        invariant Valid()
        invariant 0 <= s <= second && secondElem == nodes[second - s]
      {
        secondElem := secondElem.next;
        s := s - 1;
      }
      NodesDistinct();
      var temp := firstElem.value;
      firstElem.value := secondElem.value;
      secondElem.value := temp;
      Contents := Swapped(Contents, first, second);
      return Ok(true);
    }
  }
}
