/** The non-generic circular linked list: `head`, `tail`, a `next` ring and a `counter`. */
module CircularLinkedLists {
  import opened Outcomes
  import opened SeqSpec

  /** One element of the list. */
  class Node<T> {
    var value: T
    var next: Node?<T>

    constructor (value: T, next: Node?<T>)
      ensures this.value == value && this.next == next
    {
      this.value := value;
      this.next := next;
    }
  }

  class CircularLinkedList<T(==)> {
    // The list as the C# class holds it.
    var head: Node?<T>
    var tail: Node?<T>
    var counter: int

    // The public view: the values along the ring starting at `head`, the nodes holding them, and the footprint.
    ghost var Contents: seq<T>
    ghost var nodes: seq<Node<T>>
    ghost var Repr: set<object>

    /** The object invariant: a well-formed ring whose `tail` is its last node. */
    ghost predicate Valid()
      reads this, Repr
    {
      this in Repr && Ring() && TailIsLast()
    }

    /**
     * `head` starts a ring through the distinct nodes of `nodes`, which hold `Contents`: each node links to the
     * next one and the last links back to `head`.
     */
    ghost predicate Ring()
      reads this, Repr
    {
      && (forall i :: 0 <= i < |nodes| ==> nodes[i] in Repr)
      && |nodes| == |Contents| == counter
      && head == (if nodes == [] then null else nodes[0])
      && (forall i :: 0 <= i < |nodes| ==> nodes[i].value == Contents[i])
      && (forall i :: 0 <= i < |nodes| - 1 ==> nodes[i].next == nodes[i + 1])
      && (nodes != [] ==> nodes[|nodes| - 1].next == nodes[0])
      && (forall i, j :: 0 <= i < j < |nodes| ==> nodes[i] != nodes[j])
    }

    /** `tail` is the last node of the ring, or null when the list is empty. */
    ghost predicate TailIsLast()
      reads this
    {
      tail == if nodes == [] then null else nodes[|nodes| - 1]
    }

    constructor ()
      ensures Valid() && fresh(Repr) && Contents == []
    {
      head, tail := null, null;
      counter := 0;
      Contents, nodes, Repr := [], [], {this};
    }

    /** Prepends `value` and closes the ring through `tail`. */
    method Push(value: T)
      requires Valid()
      modifies this, Repr
      ensures Valid() && fresh(Repr - old(Repr))
      ensures Contents == [value] + old(Contents)
    {
      var newNode := new Node(value, head);
      if head == null {
        head := newNode;
        tail := newNode;
        tail.next := head;
      } else {
        var temp := head;
        newNode.next := temp;
        head := newNode;
        tail.next := head;
      }
      counter := counter + 1;
      ghost var was := nodes;
      nodes, Contents, Repr := [newNode] + nodes, [value] + Contents, Repr + {newNode};
      assert forall i :: 1 <= i < |nodes| ==> nodes[i] == was[i - 1];
    }

    /** Appends `value`: walks the ring to the node before `head` and links the new node after it. */
    method Append(value: T)
      requires Valid()
      modifies this, Repr
      ensures Valid() && fresh(Repr - old(Repr))
      ensures Contents == old(Contents) + [value]
    {
      if head == null {
        Push(value);
        return;
      }
      var newNode := new Node(value, head);
      var current := head;
      // The body of the C# do-while loop, once.
      current := current.next;
      ghost var i := if |nodes| == 1 then 0 else 1;
      while current.next != head
        invariant Valid()
        invariant 0 <= i < |nodes| && current == nodes[i]
        invariant current.next == if i + 1 < |nodes| then nodes[i + 1] else nodes[0]
        invariant i == 0 ==> |nodes| == 1
        decreases |nodes| - i
      {
        current := current.next;
        i := i + 1;
      }
      assert i == |nodes| - 1;
      current.next := newNode;
      tail := newNode;
      counter := counter + 1;
      ghost var was := nodes;
      nodes, Contents, Repr := nodes + [newNode], Contents + [value], Repr + {newNode};
      assert forall j :: 0 <= j < |was| ==> nodes[j] == was[j];
    }

    /**
     * `Contains` as the C# code has it: the walk stops at the node whose successor is `head` without
     * comparing its value, so the last element is never found; on an empty list the first access to
     * `temp.next` dereferences null.
     */
    method ContainsAsWritten(value: T) returns (r: Result<bool>)
      requires Valid()
      ensures Contents == [] ==> r == Err(NullReference)
      ensures Contents != [] ==> r == Ok(value in Contents[..|Contents| - 1])
    {
      if head == null {
        return Err(NullReference);
      }
      var temp := head;
      ghost var i := 0;
      while temp.next != head
        invariant 0 <= i < |nodes| && temp == nodes[i]
        invariant temp.next == if i + 1 < |nodes| then nodes[i + 1] else nodes[0]
        invariant value !in Contents[..i]
        decreases |nodes| - i
      {
        if temp.value == value {
          return Ok(true);
        }
        temp := temp.next;
        i := i + 1;
      }
      assert i == |nodes| - 1;
      return Ok(false);
    }

    /** Whether some element equals `value`: the same walk, followed by the comparison with the last node. */
    method Contains(value: T) returns (r: bool)
      requires Valid()
      ensures r <==> value in Contents
    {
      if head == null {
        return false;
      }
      var temp := head;
      ghost var i := 0;
      while temp.next != head
        invariant 0 <= i < |nodes| && temp == nodes[i]
        invariant temp.next == if i + 1 < |nodes| then nodes[i + 1] else nodes[0]
        invariant value !in Contents[..i]
        decreases |nodes| - i
      {
        if temp.value == value {
          return true;
        }
        temp := temp.next;
        i := i + 1;
      }
      assert i == |nodes| - 1 && Contents == Contents[..i] + [Contents[i]];
      return temp.value == value;
    }

    /** Removes and returns the first element, re-closing the ring. */
    method Pop() returns (r: Result<T>)
      requires Valid()
      modifies this, Repr
      ensures Valid() && Repr == old(Repr)
      ensures old(Contents) == [] ==> r == Err(InvalidOperation) && Contents == old(Contents)
      ensures old(Contents) != [] ==> r == Ok(old(Contents)[0]) && Contents == old(Contents)[1..]
    {
      if counter == 0 {
        return Err(InvalidOperation);
      }
      var toBeDeleted := head.value;
      if counter == 1 {
        head, tail := null, null;
      } else {
        head := head.next;
        tail.next := head;
      }
      counter := counter - 1;
      nodes, Contents := nodes[1..], Contents[1..];
      return Ok(toBeDeleted);
    }

    /** The unlinking step of `Delete`: bypasses the node after `temp`, leaving `tail` alone. */
    method UnlinkAfter(temp: Node<T>, ghost i: nat)
      requires this in Repr && Ring() && i + 1 < |nodes| && temp == nodes[i]
      modifies this, Repr
      ensures this in Repr && Ring() && Repr == old(Repr) && tail == old(tail)
      ensures nodes == old(nodes[..i + 1] + nodes[i + 2..])
      ensures Contents == RemoveAt(old(Contents), i + 1)
    {
      assert temp.next == nodes[i + 1];
      assert nodes[i + 1].next == if i + 2 < |nodes| then nodes[i + 2] else nodes[0];
      temp.next := temp.next.next;
      counter := counter - 1;
      ghost var was := nodes;
      nodes, Contents := nodes[..i + 1] + nodes[i + 2..], RemoveAt(Contents, i + 1);
      assert forall j :: 0 <= j <= i ==> nodes[j] == was[j];
      assert forall j :: i < j < |nodes| ==> nodes[j] == was[j + 1];
    }

    /**
     * `Delete` as the C# code has it: removing the last node of a list of two or more leaves `tail`
     * pointing at the removed node, which is no longer part of the ring.
     */
    method DeleteAsWritten(value: T) returns (r: Result<bool>)
      requires Valid()
      modifies this, Repr
      ensures this in Repr && Ring() && Repr == old(Repr)
      ensures old(Contents) == [] ==> r == Err(InvalidOperation) && Contents == old(Contents)
      ensures old(Contents) != [] ==> r == Ok(value in old(Contents))
      ensures value !in old(Contents) ==> Contents == old(Contents)
      ensures value in old(Contents) ==> Contents == RemoveAt(old(Contents), FirstIndex(old(Contents), value))
      ensures TailIsLast() <==> !(|old(Contents)| > 1 && FirstIndex(old(Contents), value) == |old(Contents)| - 1)
      ensures !TailIsLast() ==> tail == old(tail) && tail !in nodes
    {
      if counter == 0 {
        return Err(InvalidOperation);
      }
      if head.value == value {
        var _ := Pop();
        return Ok(true);
      }
      var temp := head;
      ghost var i := 0;
      while temp.next != head
        invariant Valid() && Repr == old(Repr) && nodes == old(nodes) && Contents == old(Contents)
        invariant 0 <= i < |nodes| && temp == nodes[i]
        invariant temp.next == if i + 1 < |nodes| then nodes[i + 1] else nodes[0]
        invariant value !in Contents[..i + 1]
        decreases |nodes| - i
      {
        if temp.next.value == value {
          assert temp.next == nodes[i + 1] && FirstIndex(Contents, value) == i + 1;
          UnlinkAfter(temp, i);
          return Ok(true);
        }
        temp := temp.next;
        i := i + 1;
      }
      assert i == |nodes| - 1 && Contents == Contents[..i + 1];
      return Ok(false);
    }

    /** Removes the first element equal to `value`; true when one was removed, an error on an empty list. */
    method Delete(value: T) returns (r: Result<bool>)
      requires Valid()
      modifies this, Repr
      ensures Valid() && Repr == old(Repr)
      ensures old(Contents) == [] ==> r == Err(InvalidOperation) && Contents == old(Contents)
      ensures old(Contents) != [] ==> r == Ok(value in old(Contents))
      ensures value !in old(Contents) ==> Contents == old(Contents)
      ensures value in old(Contents) ==> Contents == RemoveAt(old(Contents), FirstIndex(old(Contents), value))
    {
      if counter == 0 {
        return Err(InvalidOperation);
      }
      if head.value == value {
        var _ := Pop();
        return Ok(true);
      }
      var temp := head;
      ghost var i := 0;
      while temp.next != head
        invariant Valid() && Repr == old(Repr) && nodes == old(nodes) && Contents == old(Contents)
        invariant 0 <= i < |nodes| && temp == nodes[i]
        invariant temp.next == if i + 1 < |nodes| then nodes[i + 1] else nodes[0]
        invariant value !in Contents[..i + 1]
        decreases |nodes| - i
      {
        if temp.next.value == value {
          assert temp.next == nodes[i + 1] && FirstIndex(Contents, value) == i + 1;
          var removesTail := temp.next == tail;
          UnlinkAfter(temp, i);
          if removesTail {
            tail := temp;
          }
          return Ok(true);
        }
        temp := temp.next;
        i := i + 1;
      }
      assert i == |nodes| - 1 && Contents == Contents[..i + 1];
      return Ok(false);
    }

    /** Empties the list; false when it was already empty. */
    method Clear() returns (r: bool)
      requires Valid()
      modifies this
      ensures Valid() && Repr == old(Repr)
      ensures r == (old(Contents) != [])
      ensures Contents == []
    {
      if counter == 0 {
        return false;
      }
      head, tail := null, null;
      counter := 0;
      nodes, Contents := [], [];
      return true;
    }

    /** The `Length` getter. */
    function Length(): (n: int)
      requires Valid()
      reads this, Repr
      ensures n == |Contents|
    {
      counter
    }
  }
}
