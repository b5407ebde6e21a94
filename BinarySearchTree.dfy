/**
 * The C# `BinarySearchTree<T>` over `int` values. Its heap nodes are the records of the arena `nodes`, a
 * child link is an arena index and `Null` (-1) is the C# null; `root` is the link to the root node. The
 * ghost `tree` is the tree the arena stores from `root` (see BinaryTreeShape), in which the operations are
 * specified.
 */
module BinarySearchTrees {
  import opened Outcomes
  import opened BinaryTreeShape

  /** The descent of `Delete` found a node with two children. */
  ghost predicate TwoChildren(s: Tree)
  {
    s.Branch? && s.left.Branch? && s.right.Branch?
  }

  class BinarySearchTree {
    var nodes: seq<Node>
    var root: int
    ghost var tree: Tree

    /** The arena stores `tree`, without sharing, from `root`. */
    ghost predicate Valid()
      reads this
    {
      Holds(nodes, tree) && Unshared(tree) && RootOf(tree) == root
    }

    constructor ()
      ensures Valid() && tree == Leaf
    {
      nodes := [];
      root := Null;
      tree := Leaf;
    }

    /** The tree built from an array, whose contents `arr` are. */
    constructor FromArray(arr: seq<int>)
      ensures Valid() && InOrder(tree) == arr && Balanced(tree)
      ensures arr != [] ==> tree.Branch? && tree.value == arr[(|arr| - 1) / 2]
      ensures Sorted(arr) ==> Ordered(tree)
    {
      nodes := [];
      root := Null;
      tree := Leaf;
      new;
      ghost var t;
      root, t := CreateBinaryTree(arr, 0, |arr| - 1);
      tree := t;
      OrderedIsSorted(tree);
    }

    /**
     * Stores `arr[start..end]` (both ends included) as a new subtree: its root holds the middle element, its
     * left subtree the elements before it and its right subtree those after it.
     */
    method CreateBinaryTree(arr: seq<int>, start: int, end: int) returns (current: int, ghost t: Tree)
      requires 0 <= start <= end + 1 <= |arr|
      modifies this
      ensures root == old(root) && tree == old(tree)
      ensures |old(nodes)| <= |nodes| && nodes[..|old(nodes)|] == old(nodes)
      ensures Holds(nodes, t) && Unshared(t) && RootOf(t) == current && CellsIn(t, |old(nodes)|, |nodes|)
      ensures InOrder(t) == arr[start..end + 1] && Balanced(t)
      ensures start <= end ==> t.Branch? && t.value == arr[(start + end) / 2]
      decreases end + 1 - start
    {
      if start > end {
        return Null, Leaf;
      }
      var mid := (start + end) / 2;
      current := |nodes|;
      nodes := nodes + [Node(arr[mid], Null, Null)];
      var l;
      ghost var tl;
      l, tl := CreateBinaryTree(arr, start, mid - 1);
      ghost var a := nodes;
      nodes := nodes[current := nodes[current].(lChild := l)];
      var r;
      ghost var tr;
      r, tr := CreateBinaryTree(arr, mid + 1, end);
      ghost var b := nodes;
      nodes := nodes[current := nodes[current].(rChild := r)];
      t := Branch(tl, current, arr[mid], tr);
      BuildBranch(old(nodes), arr[mid], a, tl, b, tr, nodes);
      MiddleJoin(arr, start, end, tl, current, tr);
    }

    /** The root's value; an empty tree has no root to dereference. */
    function FindRoot(): (r: Result<int>)
      reads this
      requires Valid()
      ensures tree.Leaf? ==> r == Err(NullReference)
      ensures tree.Branch? ==> r == Ok(tree.value)
    {
      if root == Null then Err(NullReference) else Ok(nodes[root].value)
    }

    /** Whether the descent for `value` meets a node holding it. */
    method Contains(value: int) returns (r: bool)
      requires Valid()
      ensures r == Search(tree, value).Branch?
      ensures Ordered(tree) ==> (r <==> value in Elements(tree))
    {
      if Ordered(tree) {
        SearchFinds(tree, value);
      }
      var current := root;
      ghost var s := tree;
      while current != Null
        invariant Holds(nodes, s) && RootOf(s) == current && Search(s, value) == Search(tree, value)
        decreases s
      {
        if nodes[current].value == value {
          return true;
        }
        if nodes[current].value > value {
          current := nodes[current].lChild;
          s := s.left;
        } else {
          current := nodes[current].rChild;
          s := s.right;
        }
      }
      return false;
    }

    /** Adds `value` to the tree. */
    method Insert(value: int)
      requires Valid()
      modifies this
      ensures Valid() && tree == Add(old(tree), value, |old(nodes)|)
      ensures Elements(tree) == Elements(old(tree)) + multiset{value}
      ensures Ordered(old(tree)) ==> Ordered(tree)
    {
      ghost var t;
      root, t := InsertNode(root, value, tree);
      tree := t;
      AddElements(old(tree), value, |old(nodes)|);
      if Ordered(old(tree)) {
        AddOrdered(old(tree), value, |old(nodes)|);
      }
    }

    /**
     * Adds `value` below the node `newNode` (the subtree `t`) and returns the link to the subtree: a new node
     * for an empty subtree, otherwise `newNode` itself with the value added on its left when its own value is
     * greater and on its right otherwise.
     */
    method InsertNode(newNode: int, value: int, ghost t: Tree) returns (r: int, ghost t': Tree)
      requires Holds(nodes, t) && Unshared(t) && RootOf(t) == newNode
      modifies this
      ensures root == old(root) && tree == old(tree) && |nodes| == |old(nodes)| + 1
      ensures t' == Add(t, value, |old(nodes)|) && Holds(nodes, t') && Unshared(t') && RootOf(t') == r
      ensures forall j :: 0 <= j < |old(nodes)| && j !in Cells(t) ==> nodes[j] == old(nodes)[j]
      decreases t
    {
      HoldsInArena(nodes, t);
      AddCells(t, value, |nodes|);
      if newNode == Null {
        r := |nodes|;
        nodes := nodes + [Node(value, Null, Null)];
        t' := Branch(Leaf, r, value, Leaf);
      } else {
        ghost var n := |nodes|;
        if nodes[newNode].value > value {
          var l;
          ghost var tl;
          l, tl := InsertNode(nodes[newNode].lChild, value, t.left);
          ghost var nodes1 := nodes;
          nodes := nodes[newNode := nodes[newNode].(lChild := l)];
          HoldsFrame(nodes1, nodes, tl);
          HoldsFrame(old(nodes), nodes, t.right);
          t' := Branch(tl, newNode, t.value, t.right);
        } else {
          var rc;
          ghost var tr;
          rc, tr := InsertNode(nodes[newNode].rChild, value, t.right);
          ghost var nodes1 := nodes;
          nodes := nodes[newNode := nodes[newNode].(rChild := rc)];
          HoldsFrame(nodes1, nodes, tr);
          HoldsFrame(old(nodes), nodes, t.left);
          t' := Branch(t.left, newNode, t.value, tr);
        }
        r := newNode;
      }
    }

    /** The smallest value, or `default(int)`, 0, for an empty tree. */
    method FindMin() returns (r: int)
      requires Valid()
      ensures tree.Leaf? ==> r == 0
      ensures tree.Branch? ==> r == Leftmost(tree).value
      ensures tree.Branch? && Ordered(tree) ==> r in Elements(tree) && forall x :: x in Elements(tree) ==> r <= x
    {
      var min := FindMinNode();
      if min == Null {
        return 0;
      }
      r := nodes[min].value;
      if Ordered(tree) {
        LeftmostIsMin(tree);
      }
    }

    /** The node reached from the root by following left links to the end; `Null` for an empty tree. */
    method FindMinNode() returns (min: int)
      requires Valid()
      ensures tree.Leaf? ==> min == Null
      ensures tree.Branch? ==> min == Leftmost(tree).at && 0 <= min < |nodes| && nodes[min].value == Leftmost(tree).value
    {
      if root == Null {
        return Null;
      }
      min := root;
      ghost var s := tree;
      while nodes[min].lChild != Null
        invariant s.Branch? && Holds(nodes, s) && min == s.at && Leftmost(s) == Leftmost(tree)
        decreases s
      {
        min := nodes[min].lChild;
        s := s.left;
      }
    }

    /** The greatest value, or `default(int)`, 0, for an empty tree. */
    method FindMax() returns (r: int)
      requires Valid()
      ensures tree.Leaf? ==> r == 0
      ensures tree.Branch? ==> r == Rightmost(tree).value
      ensures tree.Branch? && Ordered(tree) ==> r in Elements(tree) && forall x :: x in Elements(tree) ==> x <= r
    {
      var max := FindMaxNode();
      if max == Null {
        return 0;
      }
      r := nodes[max].value;
      if Ordered(tree) {
        RightmostIsMax(tree);
      }
    }

    /** The node reached from the root by following right links to the end; `Null` for an empty tree. */
    method FindMaxNode() returns (max: int)
      requires Valid()
      ensures tree.Leaf? ==> max == Null
      ensures tree.Branch? ==> max == Rightmost(tree).at && 0 <= max < |nodes| && nodes[max].value == Rightmost(tree).value
    {
      if root == Null {
        return Null;
      }
      max := root;
      ghost var s := tree;
      while nodes[max].rChild != Null
        invariant s.Branch? && Holds(nodes, s) && max == s.at && Rightmost(s) == Rightmost(tree)
        decreases s
      {
        max := nodes[max].rChild;
        s := s.right;
      }
    }

    /**
     * The descent of `Delete`: from the root, left of a node whose value is greater than `value` and right
     * otherwise, until a node holding `value` or a null link. `parent` is the last node passed (the root if
     * none) and `isLeftChild` says on which of its sides the descent left it.
     */
    method Locate(value: int) returns (parent: int, current: int, isLeftChild: bool, ghost path: seq<Frame>, ghost s: Tree)
      requires Valid()
      ensures Plug(path, s) == tree && OnPath(path, value) && Holds(nodes, s) && RootOf(s) == current
      ensures s == Search(tree, value)
      ensures path == [] ==> parent == root && !isLeftChild
      ensures path != [] ==> parent == path[0].at && isLeftChild == path[0].goesLeft
    {
      parent, current, isLeftChild := root, root, false;
      path, s := [], tree;
      while current != Null && nodes[current].value != value
        invariant Holds(nodes, s) && Plug(path, s) == tree && OnPath(path, value) && RootOf(s) == current
        invariant path == [] ==> parent == root && !isLeftChild
        invariant path != [] ==> parent == path[0].at && isLeftChild == path[0].goesLeft
        decreases s
      {
        parent := current;
        var f := Frame(nodes[current].value > value, current, s.value, if nodes[current].value > value then s.right else s.left);
        assert OnPath([f] + path, value) by {
          forall i | 0 < i < |[f] + path|
            ensures ([f] + path)[i] == path[i - 1]
          {
          }
        }
        if nodes[current].value > value {
          current := nodes[current].lChild;
          isLeftChild := true;
          s := s.left;
        } else {
          current := nodes[current].rChild;
          isLeftChild := false;
          s := s.right;
        }
        path := [f] + path;
      }
      DeleteOnPath(path, s, value);
    }

    /**
     * Sets the link that led to `current` to `replacement`: the root when `current` is the root, otherwise
     * `parent`'s left or right child as `isLeftChild` says.
     */
    method Link(parent: int, current: int, isLeftChild: bool, replacement: int)
      requires current != root ==> 0 <= parent < |nodes|
      modifies this
      ensures tree == old(tree)
      ensures current == old(root) ==> root == replacement && nodes == old(nodes)
      ensures current != old(root) ==>
        root == old(root) && nodes == old(nodes)[parent := SetChild(old(nodes)[parent], isLeftChild, replacement)]
    {
      if current == root {
        root := replacement;
      } else if isLeftChild {
        nodes := nodes[parent := nodes[parent].(lChild := replacement)];
      } else {
        nodes := nodes[parent := nodes[parent].(rChild := replacement)];
      }
    }

    /** Removes the node `current`, the end `s` of `path`, which has at most one child: its only subtree, or null, takes its place. */
    method Bypass(parent: int, current: int, isLeftChild: bool, ghost path: seq<Frame>, ghost s: Tree)
      requires Valid() && Plug(path, s) == tree && s.Branch? && (s.left.Leaf? || s.right.Leaf?) && RootOf(s) == current
      requires path == [] ==> parent == root
      requires path != [] ==> parent == path[0].at && isLeftChild == path[0].goesLeft
      modifies this
      ensures Valid() && tree == Plug(path, if s.right.Leaf? then s.left else s.right)
    {
      PlugUnshared(path, s);
      PlugHolds(nodes, path, s);
      if path != [] {
        PlugRoot(path, s, s);
      }
      var replacement: int;
      ghost var s': Tree;
      if nodes[current].rChild == Null && nodes[current].lChild == Null {
        replacement, s' := Null, Leaf;
      } else if nodes[current].rChild == Null {
        replacement, s' := nodes[current].lChild, s.left;
      } else {
        replacement, s' := nodes[current].rChild, s.right;
      }
      ghost var nodes0 := nodes;
      Link(parent, current, isLeftChild, replacement);
      LinkKeepsTree(nodes0, nodes0, path, s, s', nodes);
      tree := Plug(path, s');
    }

    /**
     * Removes the first node the descent for `value` meets that holds it: a leaf is unlinked, a node with one
     * child is replaced by that child, and a node with two children by its in-order successor. An empty tree
     * throws; a value the descent does not meet changes nothing.
     */
    method Delete(value: int) returns (r: Result<()>)
      requires Valid()
      modifies this
      ensures old(tree).Leaf? ==> r == Err(InvalidOperation) && unchanged(this)
      ensures old(tree).Branch? ==> r == Ok(()) && Valid() && tree == DeleteFirst(old(tree), value)
      ensures Search(old(tree), value).Leaf? ==> unchanged(this)
      ensures Ordered(old(tree)) ==> Ordered(tree) && Elements(tree) == Elements(old(tree)) - multiset{value}
    {
      if Ordered(tree) {
        DeleteOrdered(tree, value);
        DeleteElements(tree, value);
      }
      if root == Null {
        return Err(InvalidOperation);
      }
      var parent, current, isLeftChild, path, s := Locate(value);
      r := Ok(());
      if current == Null {
        DeleteMissing(tree, value);
        return;
      }
      SearchEnds(tree, value);
      DeleteOnPath(path, s, value);
      if nodes[current].lChild != Null && nodes[current].rChild != Null {
        PlugUnshared(path, s);
        PlugHolds(nodes, path, s);
        if path != [] {
          PlugRoot(path, s, s);
        }
        ghost var nodes0 := nodes;
        var successor;
        ghost var s';
        successor, s' := GetSuccessor(current, s);
        ghost var nodes1 := nodes;
        Link(parent, current, isLeftChild, successor);
        LinkKeepsTree(nodes0, nodes1, path, s, s', nodes);
        tree := Plug(path, s');
      } else {
        Bypass(parent, current, isLeftChild, path, s);
      }
    }

    /**
     * The in-order successor of `pred` (the subtree `s`, with two children): the leftmost node of `pred`'s right
     * subtree, unlinked from there and given `pred`'s two subtrees.
     */
    method GetSuccessor(pred: int, ghost s: Tree) returns (successor: int, ghost s': Tree)
      requires TwoChildren(s) && Holds(nodes, s) && Unshared(s) && pred == s.at
      modifies this
      ensures root == old(root) && tree == old(tree)
      ensures s' == Replacement(s.left, s.right) && RootOf(s') == successor
      ensures |nodes| == |old(nodes)| && Holds(nodes, s') && Unshared(s') && Cells(s') <= Cells(s)
      ensures forall j :: 0 <= j < |nodes| && j !in Cells(s) ==> nodes[j] == old(nodes)[j]
    {
      var current := nodes[pred].rChild;
      var parentOfSuccessor := pred;
      successor := pred;
      ghost var path: seq<Frame> := [];
      ghost var below := s.right;
      while current != Null
        invariant Holds(nodes, below) && RootOf(below) == current && Plug(path, below) == s.right && AllLeft(path)
        invariant path == [] ==> successor == pred && parentOfSuccessor == pred
        invariant path != [] ==> successor == path[0].at
        invariant |path| == 1 ==> parentOfSuccessor == pred
        invariant |path| > 1 ==> parentOfSuccessor == path[1].at
        decreases below
      {
        var f := Frame(true, current, below.value, below.right);
        assert AllLeft([f] + path) by {
          forall i | 0 < i < |[f] + path|
            ensures ([f] + path)[i] == path[i - 1]
          {
          }
        }
        parentOfSuccessor := successor;
        successor := current;
        current := nodes[current].lChild;
        path := [f] + path;
        below := below.left;
      }
      SuccessorMoved(nodes, s, path, below, successor, parentOfSuccessor);
      if successor != nodes[pred].rChild {
        nodes := nodes[parentOfSuccessor := nodes[parentOfSuccessor].(lChild := nodes[successor].rChild)];
        nodes := nodes[successor := nodes[successor].(rChild := nodes[pred].rChild)];
      }
      nodes := nodes[successor := nodes[successor].(lChild := nodes[pred].lChild)];
      assert nodes == MoveSuccessor(old(nodes), pred, parentOfSuccessor, successor);
      s' := Replacement(s.left, s.right);
    }

    /**
     * `GetSuccessor` as written: the walk follows right links from `pred`'s right child, so it ends at the
     * rightmost node of that subtree, and that node's left link is then set to `pred`'s right child. The walked
     * nodes and the successor form a cycle: each of them links to another of them.
     */
    method GetSuccessorAsWritten(pred: int, ghost s: Tree) returns (successor: int, ghost spine: set<int>)
      requires TwoChildren(s) && Holds(nodes, s) && Unshared(s) && pred == s.at
      modifies this
      ensures root == old(root) && tree == old(tree)
      ensures successor == Rightmost(s.right).at && successor in spine && spine <= Cells(s.right)
      ensures |nodes| == |old(nodes)| && forall j :: 0 <= j < |nodes| && j !in Cells(s.right) ==> nodes[j] == old(nodes)[j]
      ensures 0 <= successor < |nodes| && nodes[successor].lChild == RootOf(s.right) && Closed(nodes, spine)
    {
      var current := nodes[pred].rChild;
      var parentOfSuccessor := pred;
      successor := pred;
      ghost var path: seq<Frame> := [];
      ghost var below := s.right;
      while current != Null
        invariant Holds(nodes, below) && RootOf(below) == current && Plug(path, below) == s.right && AllRight(path)
        invariant path == [] ==> successor == pred && parentOfSuccessor == pred
        invariant path != [] ==> successor == path[0].at
        invariant |path| == 1 ==> parentOfSuccessor == pred
        invariant |path| > 1 ==> parentOfSuccessor == path[1].at
        decreases below
      {
        var f := Frame(false, current, below.value, below.left);
        assert AllRight([f] + path) by {
          forall i | 0 < i < |[f] + path|
            ensures ([f] + path)[i] == path[i - 1]
          {
          }
        }
        parentOfSuccessor := successor;
        successor := current;
        current := nodes[current].rChild;
        path := [f] + path;
        below := below.right;
      }
      SuccessorCycle(nodes, s, path, below, successor, parentOfSuccessor);
      spine := PathCells(path);
      if successor != nodes[pred].rChild {
        nodes := nodes[parentOfSuccessor := nodes[parentOfSuccessor].(lChild := nodes[successor].rChild)];
        nodes := nodes[successor := nodes[successor].(rChild := nodes[pred].rChild)];
      }
      nodes := nodes[successor := nodes[successor].(lChild := nodes[pred].rChild)];
      assert nodes == MoveSuccessorAsWritten(old(nodes), pred, parentOfSuccessor, successor);
    }

    /**
     * `Delete` as written: as `Delete` for a node with at most one child, but a node with two children is
     * replaced by what `GetSuccessorAsWritten` returns. From then on the root leads into a cycle, so the arena
     * stores no finite tree from the root.
     */
    method DeleteAsWritten(value: int) returns (r: Result<()>)
      requires Valid()
      modifies this
      ensures old(tree).Leaf? ==> r == Err(InvalidOperation) && unchanged(this)
      ensures old(tree).Branch? ==> r == Ok(())
      ensures old(tree).Branch? && !TwoChildren(Search(old(tree), value)) ==> Valid() && tree == DeleteFirst(old(tree), value)
      ensures old(tree).Branch? && TwoChildren(Search(old(tree), value)) ==> forall t :: Holds(nodes, t) ==> RootOf(t) != root
    {
      if root == Null {
        return Err(InvalidOperation);
      }
      var parent, current, isLeftChild, path, s := Locate(value);
      r := Ok(());
      if current == Null {
        DeleteMissing(tree, value);
        return;
      }
      SearchEnds(tree, value);
      DeleteOnPath(path, s, value);
      if nodes[current].lChild != Null && nodes[current].rChild != Null {
        PlugUnshared(path, s);
        PlugHolds(nodes, path, s);
        if path != [] {
          PlugRoot(path, s, s);
        }
        ghost var nodes0 := nodes;
        var successor;
        ghost var spine;
        successor, spine := GetSuccessorAsWritten(current, s);
        ghost var nodes1 := nodes;
        Link(parent, current, isLeftChild, successor);
        CycleKept(nodes0, nodes1, path, s, spine, successor, nodes);
        forall t | Holds(nodes, t)
          ensures RootOf(t) != root
        {
          NoTreeThrough(nodes, spine + PathCells(path), t);
        }
      } else {
        Bypass(parent, current, isLeftChild, path, s);
      }
    }
  }
}
