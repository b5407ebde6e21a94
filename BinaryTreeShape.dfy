/**
 * The binary search tree on values. The C# nodes live in an arena, `nodes`; a child link is an index into
 * it, and `Null` (-1) is the C# null. A `Tree` is the shape the arena holds below some node: each branch
 * names the arena cell that stores it, so the functions and lemmas here can follow the C# pointer
 * rewiring one cell at a time.
 */
module BinaryTreeShape {

  const Null := -1

  /** A node of the C# tree: its value and its children `lChild` and `rChild`, as arena indices. */
  datatype Node = Node(value: int, lChild: int, rChild: int)

  /** A tree: empty, or a branch stored in arena cell `at` holding `value`. */
  datatype Tree = Leaf | Branch(left: Tree, at: int, value: int, right: Tree)

  /** The link to a tree's root: its cell, or `Null` for the empty tree. */
  function RootOf(t: Tree): int
  {
    if t.Leaf? then Null else t.at
  }

  /** The arena record that stores a branch. */
  function CellOf(t: Tree): Node
    requires t.Branch?
  {
    Node(t.value, RootOf(t.left), RootOf(t.right))
  }

  /** The child link of `n` on one side. */
  function Child(n: Node, left: bool): int
  {
    if left then n.lChild else n.rChild
  }

  /** `n` with its child link on one side set to `c`. */
  function SetChild(n: Node, left: bool, c: int): Node
  {
    if left then n.(lChild := c) else n.(rChild := c)
  }

  function Cells(t: Tree): set<int>
  {
    match t
    case Leaf => {}
    case Branch(l, at, _, r) => Cells(l) + {at} + Cells(r)
  }

  /** The values a tree holds, with their multiplicities. */
  function Elements(t: Tree): multiset<int>
  {
    match t
    case Leaf => multiset{}
    case Branch(l, _, v, r) => Elements(l) + multiset{v} + Elements(r)
  }

  /** The values in in-order: left subtree, node, right subtree. */
  function InOrder(t: Tree): seq<int>
  {
    match t
    case Leaf => []
    case Branch(l, _, v, r) => InOrder(l) + [v] + InOrder(r)
  }

  function Size(t: Tree): nat
  {
    match t
    case Leaf => 0
    case Branch(l, _, _, r) => Size(l) + 1 + Size(r)
  }

  /** At every node the right subtree has as many nodes as the left one, or one more. */
  ghost predicate Balanced(t: Tree)
  {
    match t
    case Leaf => true
    case Branch(l, _, _, r) => Balanced(l) && Balanced(r) && Size(l) <= Size(r) <= Size(l) + 1
  }

  /**
   * The order the C# tree keeps: every value left of a node is at most the node's value and every value right
   * of it at least (`InsertNode` sends a value equal to the node's to the right).
   */
  ghost predicate Ordered(t: Tree)
  {
    match t
    case Leaf => true
    case Branch(l, _, v, r) =>
      Ordered(l) && Ordered(r) && AtMost(Elements(l), v) && AtLeast(Elements(r), v)
  }

  /** Every value in `e` is at most `x`. */
  ghost predicate AtMost(e: multiset<int>, x: int)
  {
    forall y :: y in e ==> y <= x
  }

  /** Every value in `e` is at least `x`. */
  ghost predicate AtLeast(e: multiset<int>, x: int)
  {
    forall y :: y in e ==> x <= y
  }

  /** A bound on a multiset holds on every part of it, and on it with one more value within the bound. */
  lemma Bounds(e: multiset<int>, e': multiset<int>, x: int, v: int)
    ensures e' <= e && AtMost(e, x) ==> AtMost(e', x)
    ensures e' <= e && AtLeast(e, x) ==> AtLeast(e', x)
    ensures AtMost(e, x) && v <= x ==> AtMost(e + multiset{v}, x)
    ensures AtLeast(e, x) && x <= v ==> AtLeast(e + multiset{v}, x)
  {
  }

  /** No arena cell is used twice. */
  ghost predicate Unshared(t: Tree)
  {
    match t
    case Leaf => true
    case Branch(l, at, _, r) => Unshared(l) && Unshared(r) && at !in Cells(l) && at !in Cells(r) && Cells(l) !! Cells(r)
  }

  /** The arena stores `t`: every branch's cell holds its value and links to the roots of its subtrees. */
  ghost predicate Holds(nodes: seq<Node>, t: Tree)
  {
    match t
    case Leaf => true
    case Branch(l, at, _, r) => 0 <= at < |nodes| && nodes[at] == CellOf(t) && Holds(nodes, l) && Holds(nodes, r)
  }

  ghost predicate Sorted(s: seq<int>)
  {
    forall i, j :: 0 <= i < j < |s| ==> s[i] <= s[j]
  }

  lemma {:induction false} ElementsInOrder(t: Tree)
    ensures multiset(InOrder(t)) == Elements(t)
  {
    if t.Branch? {
      ElementsInOrder(t.left);
      ElementsInOrder(t.right);
    }
  }

  lemma {:induction false} InOrderSize(t: Tree)
    ensures |InOrder(t)| == Size(t)
  {
    if t.Branch? {
      InOrderSize(t.left);
      InOrderSize(t.right);
    }
  }

  /**
   * A tree whose root holds the middle element of `arr[start..end]` (both ends included), whose left subtree
   * holds the elements before it and whose right subtree those after it, holds the slice in order and is
   * balanced when its subtrees are.
   */
  lemma MiddleJoin(arr: seq<int>, start: int, end: int, l: Tree, c: int, r: Tree)
    requires 0 <= start <= end < |arr|
    requires InOrder(l) == arr[start..(start + end) / 2] && InOrder(r) == arr[(start + end) / 2 + 1..end + 1]
    requires Balanced(l) && Balanced(r)
    ensures InOrder(Branch(l, c, arr[(start + end) / 2], r)) == arr[start..end + 1]
    ensures Balanced(Branch(l, c, arr[(start + end) / 2], r))
  {
    var mid := (start + end) / 2;
    assert 2 * mid <= start + end <= 2 * mid + 1;
    InOrderSize(l);
    InOrderSize(r);
    SliceAround(arr, start, mid, end + 1);
  }

  lemma SliceAround(a: seq<int>, i: int, m: int, j: int)
    requires 0 <= i <= m < j <= |a|
    ensures a[i..j] == a[i..m] + [a[m]] + a[m + 1..j]
  {
    assert a[i..j] == a[i..m] + a[m..j];
    assert a[m..j] == [a[m]] + a[m + 1..j];
  }

  /** A sequence around a middle value is sorted exactly when both sides are and the middle value separates them. */
  lemma SortedAround(a: seq<int>, v: int, b: seq<int>)
    ensures Sorted(a + [v] + b) <==> Sorted(a) && Sorted(b) && (forall x :: x in a ==> x <= v) && (forall x :: x in b ==> v <= x)
  {
    if Sorted(a) && Sorted(b) && (forall x :: x in a ==> x <= v) && (forall x :: x in b ==> v <= x) {
      SortedJoin(a, v, b);
    }
    if Sorted(a + [v] + b) {
      SortedSplit(a, v, b);
    }
  }

  lemma SortedJoin(a: seq<int>, v: int, b: seq<int>)
    requires Sorted(a) && Sorted(b) && (forall x :: x in a ==> x <= v) && (forall x :: x in b ==> v <= x)
    ensures Sorted(a + [v] + b)
  {
    var s := a + [v] + b;
    forall i, j | 0 <= i < j < |s|
      ensures s[i] <= s[j]
    {
      if j < |a| {
        assert s[i] == a[i] && s[j] == a[j];
      } else if j == |a| {
        assert s[i] == a[i] && a[i] in a && s[j] == v;
      } else if i < |a| {
        assert s[i] == a[i] && a[i] in a && s[j] == b[j - |a| - 1] && b[j - |a| - 1] in b;
      } else if i == |a| {
        assert s[i] == v && s[j] == b[j - |a| - 1] && b[j - |a| - 1] in b;
      } else {
        assert s[i] == b[i - |a| - 1] && s[j] == b[j - |a| - 1];
      }
    }
  }

  lemma SortedSplit(a: seq<int>, v: int, b: seq<int>)
    requires Sorted(a + [v] + b)
    ensures Sorted(a) && Sorted(b) && (forall x :: x in a ==> x <= v) && (forall x :: x in b ==> v <= x)
  {
    var s := a + [v] + b;
    forall i, j | 0 <= i < j < |a|
      ensures a[i] <= a[j]
    {
      assert s[i] == a[i] && s[j] == a[j];
    }
    forall i, j | 0 <= i < j < |b|
      ensures b[i] <= b[j]
    {
      assert s[|a| + 1 + i] == b[i] && s[|a| + 1 + j] == b[j];
    }
    forall x | x in a
      ensures x <= v
    {
      var i :| 0 <= i < |a| && a[i] == x;
      assert s[i] == x && s[|a|] == v;
    }
    forall x | x in b
      ensures v <= x
    {
      var i :| 0 <= i < |b| && b[i] == x;
      assert s[|a| + 1 + i] == x && s[|a|] == v;
    }
  }

  lemma InOrderMembers(t: Tree)
    ensures forall x :: x in Elements(t) <==> x in InOrder(t)
  {
    ElementsInOrder(t);
    forall x
      ensures x in Elements(t) <==> x in InOrder(t)
    {
      assert x in multiset(InOrder(t)) <==> x in InOrder(t);
    }
  }

  /** A tree is ordered exactly when its in-order sequence is sorted. */
  lemma {:induction false} OrderedIsSorted(t: Tree)
    ensures Ordered(t) <==> Sorted(InOrder(t))
  {
    if t.Branch? {
      OrderedIsSorted(t.left);
      OrderedIsSorted(t.right);
      ElementsInOrder(t.left);
      ElementsInOrder(t.right);
      var a, v, b := InOrder(t.left), t.value, InOrder(t.right);
      SortedAround(a, v, b);
      InOrderMembers(t.left);
      InOrderMembers(t.right);
      assert InOrder(t) == a + [v] + b;
      assert AtMost(Elements(t.left), v) <==> forall x :: x in a ==> x <= v;
      assert AtLeast(Elements(t.right), v) <==> forall x :: x in b ==> v <= x;
    }
  }

  /** Every cell of a stored tree is in the arena. */
  lemma {:induction false} HoldsInArena(nodes: seq<Node>, t: Tree)
    requires Holds(nodes, t)
    ensures forall j :: j in Cells(t) ==> 0 <= j < |nodes|
  {
    if t.Branch? {
      HoldsInArena(nodes, t.left);
      HoldsInArena(nodes, t.right);
    }
  }

  /** A stored tree stays stored in an arena that keeps its cells. */
  lemma {:induction false} HoldsFrame(nodes: seq<Node>, nodes': seq<Node>, t: Tree)
    requires Holds(nodes, t) && |nodes| <= |nodes'|
    requires forall j :: j in Cells(t) && 0 <= j < |nodes| ==> nodes'[j] == nodes[j]
    ensures Holds(nodes', t)
  {
    if t.Branch? {
      HoldsFrame(nodes, nodes', t.left);
      HoldsFrame(nodes, nodes', t.right);
    }
  }

  /** Every cell of `t` is in `[lo, hi)`. */
  ghost predicate CellsIn(t: Tree, lo: int, hi: int)
  {
    forall j :: j in Cells(t) ==> lo <= j < hi
  }

  /** A node stored at `c` over two stored subtrees in later, disjoint ranges of cells makes an unshared tree. */
  lemma StoreBranch(nodes: seq<Node>, c: int, m: int, l: Tree, v: int, r: Tree)
    requires 0 <= c < m <= |nodes| && nodes[c] == Node(v, RootOf(l), RootOf(r))
    requires Holds(nodes, l) && Unshared(l) && CellsIn(l, c + 1, m)
    requires Holds(nodes, r) && Unshared(r) && CellsIn(r, m, |nodes|)
    ensures Holds(nodes, Branch(l, c, v, r)) && Unshared(Branch(l, c, v, r)) && CellsIn(Branch(l, c, v, r), c, |nodes|)
  {
    var t := Branch(l, c, v, r);
    assert Cells(t) == Cells(l) + {c} + Cells(r);
    assert c !in Cells(l) && c !in Cells(r);
    forall j | j in Cells(l)
      ensures j !in Cells(r)
    {
    }
  }

  /**
   * The arena steps of building a branch: append its node at `c`, store the left subtree in new cells, link
   * it, store the right subtree in newer cells, link it. The arena then stores the branch in cells from `c` on
   * and keeps everything before `c`.
   */
  lemma BuildBranch(nodes: seq<Node>, v: int, a: seq<Node>, l: Tree, b: seq<Node>, r: Tree, nodes': seq<Node>)
    requires |nodes + [Node(v, Null, Null)]| <= |a| && a[..|nodes| + 1] == nodes + [Node(v, Null, Null)]
    requires Holds(a, l) && Unshared(l) && CellsIn(l, |nodes| + 1, |a|)
    requires |a| <= |b| && b[..|a|] == a[|nodes| := a[|nodes|].(lChild := RootOf(l))]
    requires Holds(b, r) && Unshared(r) && CellsIn(r, |a|, |b|)
    requires nodes' == b[|nodes| := b[|nodes|].(rChild := RootOf(r))]
    ensures |nodes| < |nodes'| && nodes'[..|nodes|] == nodes
    ensures Holds(nodes', Branch(l, |nodes|, v, r)) && Unshared(Branch(l, |nodes|, v, r))
    ensures CellsIn(Branch(l, |nodes|, v, r), |nodes|, |nodes'|)
  {
    var c := |nodes|;
    var a' := a[c := a[c].(lChild := RootOf(l))];
    HoldsFrame(a, a', l);
    HoldsFrame(a', nodes', l);
    HoldsFrame(b, nodes', r);
    assert nodes'[c] == Node(v, RootOf(l), RootOf(r));
    StoreBranch(nodes', c, |a|, l, v, r);
    assert nodes'[..c] == nodes by {
      forall j | 0 <= j < c
        ensures nodes'[j] == nodes[j]
      {
        assert b[j] == a'[j] == a[j] == (nodes + [Node(v, Null, Null)])[j];
      }
    }
  }

  // ---------------------------------------------------------------------------------------------------
  // The descent of `Contains` and `Delete`

  /**
   * Where the descent for `v` ends: at the first node holding `v`, going left from a node whose value is
   * greater than `v` and right otherwise, or at an empty subtree.
   */
  function Search(t: Tree, v: int): Tree
  {
    match t
    case Leaf => Leaf
    case Branch(l, _, x, r) => if x == v then t else if x > v then Search(l, v) else Search(r, v)
  }

  /** The descent ends at a node holding `v`, or at an empty subtree. */
  lemma {:induction false} SearchEnds(t: Tree, v: int)
    ensures Search(t, v).Branch? ==> Search(t, v).value == v
  {
    if t.Branch? && t.value != v {
      SearchEnds(if t.value > v then t.left else t.right, v);
    }
  }

  /** In an ordered tree the descent finds `v` exactly when the tree holds `v`. */
  lemma {:induction false} SearchFinds(t: Tree, v: int)
    requires Ordered(t)
    ensures Search(t, v).Branch? <==> v in Elements(t)
  {
    if t.Branch? {
      SearchFinds(t.left, v);
      SearchFinds(t.right, v);
    }
  }

  // ---------------------------------------------------------------------------------------------------
  // Insertion

  /** The tree after `InsertNode` puts `v` into the new cell `n`: left of a greater value, right otherwise. */
  function Add(t: Tree, v: int, n: int): Tree
  {
    match t
    case Leaf => Branch(Leaf, n, v, Leaf)
    case Branch(l, at, x, r) => if x > v then Branch(Add(l, v, n), at, x, r) else Branch(l, at, x, Add(r, v, n))
  }

  /** `Add` adds exactly one occurrence of `v`. */
  lemma {:induction false} AddElements(t: Tree, v: int, n: int)
    ensures Elements(Add(t, v, n)) == Elements(t) + multiset{v}
  {
    if t.Branch? {
      AddElements(t.left, v, n);
      AddElements(t.right, v, n);
    }
  }

  /** `Add` keeps the tree ordered. */
  lemma {:induction false} AddOrdered(t: Tree, v: int, n: int)
    requires Ordered(t)
    ensures Ordered(Add(t, v, n))
  {
    if t.Branch? {
      var l, at, x, r := t.left, t.at, t.value, t.right;
      if x > v {
        AddOrdered(l, v, n);
        AddElements(l, v, n);
        Bounds(Elements(l), Elements(l), x, v);
        assert Add(t, v, n) == Branch(Add(l, v, n), at, x, r);
      } else {
        AddOrdered(r, v, n);
        AddElements(r, v, n);
        Bounds(Elements(r), Elements(r), x, v);
        assert Add(t, v, n) == Branch(l, at, x, Add(r, v, n));
      }
    }
  }

  /** `Add` uses one more cell, `n`, and keeps cells unshared when `n` is new. */
  lemma {:induction false} AddCells(t: Tree, v: int, n: int)
    ensures Cells(Add(t, v, n)) == Cells(t) + {n} && RootOf(Add(t, v, n)) == if t.Leaf? then n else t.at
    ensures Unshared(t) && n !in Cells(t) ==> Unshared(Add(t, v, n))
  {
    if t.Branch? {
      AddCells(t.left, v, n);
      AddCells(t.right, v, n);
    }
  }

  // ---------------------------------------------------------------------------------------------------
  // Minimum and maximum

  /** The node `FindMinNode` reaches: from the root, left while there is a left child. */
  function Leftmost(t: Tree): (m: Tree)
    requires t.Branch?
    ensures m.Branch? && m.left.Leaf?
  {
    if t.left.Leaf? then t else Leftmost(t.left)
  }

  /** The node `FindMaxNode` reaches: from the root, right while there is a right child. */
  function Rightmost(t: Tree): (m: Tree)
    requires t.Branch?
    ensures m.Branch? && m.right.Leaf?
  {
    if t.right.Leaf? then t else Rightmost(t.right)
  }

  /** In an ordered tree the leftmost node holds the minimum, and it is a node of the tree. */
  lemma {:induction false} LeftmostIsMin(t: Tree)
    requires t.Branch? && Ordered(t)
    ensures Leftmost(t).value in Elements(t) && AtLeast(Elements(t), Leftmost(t).value)
  {
    if t.left.Branch? {
      LeftmostIsMin(t.left);
    }
  }

  /** In an ordered tree the rightmost node holds the maximum, and it is a node of the tree. */
  lemma {:induction false} RightmostIsMax(t: Tree)
    requires t.Branch? && Ordered(t)
    ensures Rightmost(t).value in Elements(t) && AtMost(Elements(t), Rightmost(t).value)
  {
    if t.right.Branch? {
      RightmostIsMax(t.right);
    }
  }

  // ---------------------------------------------------------------------------------------------------
  // Deletion

  /** A tree without its leftmost node, whose right subtree takes its place. */
  function RemoveMin(t: Tree): Tree
    requires t.Branch?
  {
    if t.left.Leaf? then t.right else Branch(RemoveMin(t.left), t.at, t.value, t.right)
  }

  /** What takes the place of a deleted node with subtrees `l` and `r`: the in-order successor, the leftmost node of `r`. */
  function Replacement(l: Tree, r: Tree): Tree
    requires r.Branch?
  {
    var m := Leftmost(r);
    Branch(l, m.at, m.value, RemoveMin(r))
  }

  /**
   * The tree after `Delete(v)`: the node where the descent for `v` ends is replaced by its only subtree, by
   * nothing when it is a leaf, or by its in-order successor when it has two children.
   */
  function DeleteFirst(t: Tree, v: int): Tree
  {
    match t
    case Leaf => Leaf
    case Branch(l, at, x, r) =>
      if x == v then
        if l.Leaf? && r.Leaf? then Leaf
        else if r.Leaf? then l
        else if l.Leaf? then r
        else Replacement(l, r)
      else if x > v then Branch(DeleteFirst(l, v), at, x, r)
      else Branch(l, at, x, DeleteFirst(r, v))
  }

  lemma {:induction false} RemoveMinElements(t: Tree)
    requires t.Branch?
    ensures Elements(RemoveMin(t)) + multiset{Leftmost(t).value} == Elements(t)
  {
    if t.left.Branch? {
      RemoveMinElements(t.left);
    }
  }

  lemma {:induction false} RemoveMinOrdered(t: Tree)
    requires t.Branch? && Ordered(t)
    ensures Ordered(RemoveMin(t))
  {
    if t.left.Branch? {
      RemoveMinOrdered(t.left);
      RemoveMinElements(t.left);
      Bounds(Elements(t.left), Elements(RemoveMin(t.left)), t.value, t.value);
    }
  }

  lemma {:induction false} RemoveMinCells(t: Tree)
    requires t.Branch? && Unshared(t)
    ensures Leftmost(t).at in Cells(t) && Cells(RemoveMin(t)) == Cells(t) - {Leftmost(t).at} && Unshared(RemoveMin(t))
  {
    if t.left.Branch? {
      RemoveMinCells(t.left);
    }
  }

  /** In an ordered tree, `DeleteFirst` removes one occurrence of `v`, if there is one, and nothing else. */
  lemma {:induction false} DeleteElements(t: Tree, v: int)
    requires Ordered(t)
    ensures Elements(DeleteFirst(t, v)) == Elements(t) - multiset{v}
  {
    if t.Branch? {
      var l, x, r := t.left, t.value, t.right;
      if x == v {
        DeleteHere(t);
      } else if x > v {
        DeleteElements(l, v);
        assert v !in Elements(r);
        TakeOutside(Elements(l), multiset{x} + Elements(r), v);
      } else {
        DeleteElements(r, v);
        assert v !in Elements(l);
        TakeOutside(Elements(r), Elements(l) + multiset{x}, v);
      }
    }
  }

  /** Deleting at a node holding `v` drops that one occurrence. */
  lemma DeleteHere(t: Tree)
    requires t.Branch?
    ensures Elements(DeleteFirst(t, t.value)) == Elements(t) - multiset{t.value}
  {
    var l, v, r := t.left, t.value, t.right;
    assert Elements(t) - multiset{v} == Elements(l) + Elements(r);
    if l.Branch? && r.Branch? {
      RemoveMinElements(r);
      assert Elements(Replacement(l, r)) == Elements(l) + Elements(r);
    }
  }

  /** Taking `v` out of a union takes it out of the part that holds it. */
  lemma TakeOutside(a: multiset<int>, b: multiset<int>, v: int)
    requires v !in b
    ensures (a + b) - multiset{v} == (a - multiset{v}) + b && (b + a) - multiset{v} == b + (a - multiset{v})
  {
  }

  /** The in-order successor can take the place of a node with two children. */
  lemma ReplacementOrdered(l: Tree, x: int, r: Tree)
    requires Ordered(l) && Ordered(r) && r.Branch? && AtMost(Elements(l), x) && AtLeast(Elements(r), x)
    ensures Ordered(Replacement(l, r)) && AtLeast(Elements(RemoveMin(r)), Leftmost(r).value)
  {
    var m := Leftmost(r);
    LeftmostIsMin(r);
    RemoveMinOrdered(r);
    RemoveMinElements(r);
    Bounds(Elements(r), Elements(RemoveMin(r)), m.value, m.value);
    assert x <= m.value;
  }

  /** `DeleteFirst` keeps an ordered tree ordered. */
  lemma {:induction false} DeleteOrdered(t: Tree, v: int)
    requires Ordered(t)
    ensures Ordered(DeleteFirst(t, v))
  {
    if t.Branch? {
      var l, at, x, r := t.left, t.at, t.value, t.right;
      if x == v {
        if l.Branch? && r.Branch? {
          ReplacementOrdered(l, x, r);
        }
      } else if x > v {
        DeleteOrdered(l, v);
        DeleteElements(l, v);
        Bounds(Elements(l), Elements(DeleteFirst(l, v)), x, x);
        assert DeleteFirst(t, v) == Branch(DeleteFirst(l, v), at, x, r);
      } else {
        DeleteOrdered(r, v);
        DeleteElements(r, v);
        Bounds(Elements(r), Elements(DeleteFirst(r, v)), x, x);
        assert DeleteFirst(t, v) == Branch(l, at, x, DeleteFirst(r, v));
      }
    }
  }

  /** `DeleteFirst` uses no new cells and keeps cells unshared. */
  lemma {:induction false} DeleteCells(t: Tree, v: int)
    requires Unshared(t)
    ensures Cells(DeleteFirst(t, v)) <= Cells(t) && Unshared(DeleteFirst(t, v))
  {
    if t.Branch? {
      var l, x, r := t.left, t.value, t.right;
      if x == v {
        if l.Branch? && r.Branch? {
          RemoveMinCells(r);
        }
      } else if x > v {
        DeleteCells(l, v);
      } else {
        DeleteCells(r, v);
      }
    }
  }

  /** When the descent finds no node holding `v`, `DeleteFirst` changes nothing. */
  lemma {:induction false} DeleteMissing(t: Tree, v: int)
    requires Search(t, v).Leaf?
    ensures DeleteFirst(t, v) == t
  {
    if t.Branch? && t.value != v {
      DeleteMissing(if t.value > v then t.left else t.right, v);
    }
  }

  // ---------------------------------------------------------------------------------------------------
  // Paths from the root, for the in-place rewiring of `Delete`

  /** One step down from a node: its cell and value, the side taken, and the subtree on the other side. */
  datatype Frame = Frame(goesLeft: bool, at: int, value: int, sibling: Tree)

  /** The branch a frame stands for, with `child` on the side it takes. */
  function Wrap(f: Frame, child: Tree): Tree
  {
    if f.goesLeft then Branch(child, f.at, f.value, f.sibling) else Branch(f.sibling, f.at, f.value, child)
  }

  /** The whole tree, from the subtree `s` at the end of a path whose innermost frame comes first. */
  function Plug(path: seq<Frame>, s: Tree): (t: Tree)
    ensures t.Branch? <==> path != [] || s.Branch?
    decreases |path|
  {
    if path == [] then s else Plug(path[1..], Wrap(path[0], s))
  }

  /** The cells of the nodes a path passes. */
  ghost function PathCells(path: seq<Frame>): set<int>
  {
    set i | 0 <= i < |path| :: path[i].at
  }

  /** Every step of the path is the step the descent for `v` takes. */
  ghost predicate OnPath(path: seq<Frame>, v: int)
  {
    forall i :: 0 <= i < |path| ==> path[i].value != v && path[i].goesLeft == (path[i].value > v)
  }

  ghost predicate AllLeft(path: seq<Frame>)
  {
    forall i :: 0 <= i < |path| ==> path[i].goesLeft
  }

  ghost predicate AllRight(path: seq<Frame>)
  {
    forall i :: 0 <= i < |path| ==> !path[i].goesLeft
  }

  /** The end of a path in an unshared tree is unshared, and so is its innermost frame's branch. */
  lemma {:induction false} PlugUnshared(path: seq<Frame>, s: Tree)
    requires Unshared(Plug(path, s))
    ensures Unshared(s) && Cells(s) <= Cells(Plug(path, s))
    ensures path != [] ==> Unshared(Wrap(path[0], s)) && Cells(Wrap(path[0], s)) <= Cells(Plug(path, s))
    ensures PathCells(path) <= Cells(Plug(path, s)) && PathCells(path) !! Cells(s)
    decreases |path|
  {
    if path != [] {
      var w := Wrap(path[0], s);
      PlugUnshared(path[1..], w);
      assert PathCells(path) == PathCells(path[1..]) + {path[0].at} by {
        forall c | c in PathCells(path)
          ensures c in PathCells(path[1..]) + {path[0].at}
        {
          var i :| 0 <= i < |path| && path[i].at == c;
          if i > 0 {
            assert path[1..][i - 1].at == c;
          }
        }
        forall c | c in PathCells(path[1..])
          ensures c in PathCells(path)
        {
          var i :| 0 <= i < |path[1..]| && path[1..][i].at == c;
          assert path[i + 1].at == c;
        }
      }
    }
  }

  /** The end of a path in a stored tree is stored, and so is its innermost frame's branch. */
  lemma {:induction false} PlugHolds(nodes: seq<Node>, path: seq<Frame>, s: Tree)
    requires Holds(nodes, Plug(path, s))
    ensures Holds(nodes, s) && (path != [] ==> Holds(nodes, Wrap(path[0], s)))
    decreases |path|
  {
    if path != [] {
      PlugHolds(nodes, path[1..], Wrap(path[0], s));
    }
  }

  /** The root of a tree reached by a non-empty path is the cell of its outermost frame, outside the path's end. */
  lemma {:induction false} PlugRoot(path: seq<Frame>, s: Tree, s': Tree)
    requires path != []
    ensures RootOf(Plug(path, s)) == path[|path| - 1].at == RootOf(Plug(path, s'))
    ensures Unshared(Plug(path, s)) ==> RootOf(Plug(path, s)) !in Cells(s)
    decreases |path|
  {
    if |path| > 1 {
      PlugRoot(path[1..], Wrap(path[0], s), Wrap(path[0], s'));
    }
  }

  /** Each cell of a stored path links, on the side the path takes, to the next node down: the innermost to the root of the path's end. */
  lemma {:induction false} PathLinks(nodes: seq<Node>, path: seq<Frame>, s: Tree)
    requires Holds(nodes, Plug(path, s))
    ensures path != [] ==> 0 <= path[0].at < |nodes| && Child(nodes[path[0].at], path[0].goesLeft) == RootOf(s)
    ensures forall i :: 0 < i < |path| ==> 0 <= path[i].at < |nodes| && Child(nodes[path[i].at], path[i].goesLeft) == path[i - 1].at
    decreases |path|
  {
    if path != [] {
      var w := Wrap(path[0], s);
      PlugHolds(nodes, path, s);
      PathLinks(nodes, path[1..], w);
      forall i | 0 < i < |path|
        ensures 0 <= path[i].at < |nodes| && Child(nodes[path[i].at], path[i].goesLeft) == path[i - 1].at
      {
        assert path[1..][i - 1] == path[i];
        if i > 1 {
          assert path[1..][i - 2] == path[i - 1];
        }
      }
    }
  }

  /** Putting `s'` in place of `s`, using none but `s`'s cells, keeps the tree unshared. */
  lemma {:induction false} ReplaceUnshared(path: seq<Frame>, s: Tree, s': Tree)
    requires Unshared(Plug(path, s)) && Unshared(s') && Cells(s') <= Cells(s)
    ensures Unshared(Plug(path, s')) && Cells(Plug(path, s')) <= Cells(Plug(path, s))
    decreases |path|
  {
    if path != [] {
      PlugUnshared(path, s);
      ReplaceUnshared(path[1..], Wrap(path[0], s), Wrap(path[0], s'));
    }
  }

  /**
   * Putting `s'` in place of `s` in the arena: once the arena stores `s'`, the cell of the innermost frame
   * links to it, and every other cell outside `s` is as before, the arena stores the new tree.
   */
  lemma {:induction false} ReplaceHolds(nodes: seq<Node>, nodes': seq<Node>, path: seq<Frame>, s: Tree, s': Tree)
    requires Holds(nodes, Plug(path, s)) && Unshared(Plug(path, s)) && |nodes'| == |nodes|
    requires Holds(nodes', s') && Cells(s') <= Cells(s)
    requires path != [] ==> 0 <= path[0].at < |nodes'| && nodes'[path[0].at] == CellOf(Wrap(path[0], s'))
    requires forall j :: 0 <= j < |nodes| && j in Cells(Plug(path, s)) && j !in Cells(s) && (path == [] || j != path[0].at) ==>
      nodes'[j] == nodes[j]
    ensures Holds(nodes', Plug(path, s'))
    decreases |path|
  {
    if path != [] {
      var f := path[0];
      var w, w' := Wrap(f, s), Wrap(f, s');
      PlugUnshared(path, s);
      PlugHolds(nodes, path, s);
      HoldsFrame(nodes, nodes', f.sibling);
      assert Holds(nodes', w');
      if |path| > 1 {
        PlugUnshared(path[1..], w);
        PlugHolds(nodes, path[1..], w);
        assert path[1..][0] == path[1];
      }
      ReplaceHolds(nodes, nodes', path[1..], w, w');
    }
  }

  /** Deleting below a path the descent for `v` takes is deleting at the path's end. */
  lemma {:induction false} DeleteOnPath(path: seq<Frame>, s: Tree, v: int)
    requires OnPath(path, v)
    ensures DeleteFirst(Plug(path, s), v) == Plug(path, DeleteFirst(s, v))
    ensures Search(Plug(path, s), v) == Search(s, v)
    decreases |path|
  {
    if path != [] {
      assert OnPath(path[1..], v) by {
        forall i | 0 <= i < |path[1..]|
          ensures path[1..][i].value != v && path[1..][i].goesLeft == (path[1..][i].value > v)
        {
          assert path[1..][i] == path[i + 1];
        }
      }
      DeleteOnPath(path[1..], Wrap(path[0], s), v);
    }
  }

  /** Below a path that only goes left, the leftmost node and its removal are those of the path's end. */
  lemma {:induction false} LeftSpine(path: seq<Frame>, s: Tree)
    requires AllLeft(path) && s.Branch?
    ensures Leftmost(Plug(path, s)) == Leftmost(s) && RemoveMin(Plug(path, s)) == Plug(path, RemoveMin(s))
    decreases |path|
  {
    if path != [] {
      assert AllLeft(path[1..]) by {
        forall i | 0 <= i < |path[1..]|
          ensures path[1..][i].goesLeft
        {
          assert path[1..][i] == path[i + 1];
        }
      }
      LeftSpine(path[1..], Wrap(path[0], s));
    }
  }

  /** Below a path that only goes right, the rightmost node is that of the path's end. */
  lemma {:induction false} RightSpine(path: seq<Frame>, s: Tree)
    requires AllRight(path) && s.Branch?
    ensures Rightmost(Plug(path, s)) == Rightmost(s)
    decreases |path|
  {
    if path != [] {
      assert AllRight(path[1..]) by {
        forall i | 0 <= i < |path[1..]|
          ensures !path[1..][i].goesLeft
        {
          assert path[1..][i] == path[i + 1];
        }
      }
      RightSpine(path[1..], Wrap(path[0], s));
    }
  }

  /** Every cell of `S` is in the arena and links to a cell of `S`. */
  ghost predicate Closed(nodes: seq<Node>, S: set<int>)
  {
    forall c :: c in S ==> 0 <= c < |nodes| && (nodes[c].lChild in S || nodes[c].rChild in S)
  }

  /**
   * Linking `s'` where `s` was: when the arena already stores `s'` in cells of `s` and is as before outside
   * `s`, setting the link of the innermost frame's cell (or, for an empty path, nothing: the caller moves
   * the root) makes the arena store the tree with `s'` in place of `s`.
   */
  lemma {:induction false} LinkKeepsTree(nodes: seq<Node>, nodes': seq<Node>, path: seq<Frame>, s: Tree, s': Tree, nodes'': seq<Node>)
    requires Holds(nodes, Plug(path, s)) && Unshared(Plug(path, s))
    requires |nodes'| == |nodes| && Holds(nodes', s') && Unshared(s') && Cells(s') <= Cells(s)
    requires forall j :: 0 <= j < |nodes| && j !in Cells(s) ==> nodes'[j] == nodes[j]
    requires path == [] ==> nodes'' == nodes'
    requires path != [] ==>
      0 <= path[0].at < |nodes'| && nodes'' == nodes'[path[0].at := SetChild(nodes'[path[0].at], path[0].goesLeft, RootOf(s'))]
    ensures Holds(nodes'', Plug(path, s')) && Unshared(Plug(path, s'))
    ensures RootOf(Plug(path, s')) == if path == [] then RootOf(s') else RootOf(Plug(path, s))
  {
    PlugUnshared(path, s);
    ReplaceUnshared(path, s, s');
    if path != [] {
      var p := path[0].at;
      PlugHolds(nodes, path, s);
      assert p in PathCells(path);
      HoldsFrame(nodes', nodes'', s');
      assert nodes''[p] == CellOf(Wrap(path[0], s'));
      ReplaceHolds(nodes, nodes'', path, s, s');
      PlugRoot(path, s, s');
    }
  }

  /**
   * A closed set of cells inside `s` stays closed, together with the cells of the path, once the innermost
   * frame's cell links to one of its cells in place of `s` (or the root does, for an empty path): the root
   * is then in that closed set.
   */
  lemma {:induction false} CycleKept(nodes: seq<Node>, nodes': seq<Node>, path: seq<Frame>, s: Tree, S: set<int>, c: int, nodes'': seq<Node>)
    requires Holds(nodes, Plug(path, s)) && Unshared(Plug(path, s))
    requires c in S && S <= Cells(s) && Closed(nodes', S)
    requires |nodes'| == |nodes| && forall j :: 0 <= j < |nodes| && j !in Cells(s) ==> nodes'[j] == nodes[j]
    requires path == [] ==> nodes'' == nodes'
    requires path != [] ==> 0 <= path[0].at < |nodes'| && nodes'' == nodes'[path[0].at := SetChild(nodes'[path[0].at], path[0].goesLeft, c)]
    ensures Closed(nodes'', S + PathCells(path))
    ensures (if path == [] then c else RootOf(Plug(path, s))) in S + PathCells(path)
  {
    PlugUnshared(path, s);
    PathLinks(nodes, path, s);
    var S' := S + PathCells(path);
    forall d | d in S'
      ensures 0 <= d < |nodes''| && (nodes''[d].lChild in S' || nodes''[d].rChild in S')
    {
      if path != [] && d == path[0].at {
        assert Child(nodes''[d], path[0].goesLeft) == c;
      } else if d in S {
        assert nodes''[d] == nodes'[d];
      } else {
        var i :| 0 <= i < |path| && path[i].at == d;
        assert i > 0;
        assert path[i - 1].at in PathCells(path);
        assert nodes''[d] == nodes[d];
        assert Child(nodes''[d], path[i].goesLeft) == path[i - 1].at;
      }
    }
    if path != [] {
      PlugRoot(path, s, s);
      assert path[|path| - 1].at in PathCells(path);
    }
  }

  // ---------------------------------------------------------------------------------------------------
  // The rewiring of `GetSuccessor`

  /**
   * The arena after the corrected `GetSuccessor` rewires the successor found below `pred`: unless it is
   * `pred`'s right child, its parent adopts its right subtree and it adopts `pred`'s right subtree; then it
   * adopts `pred`'s left subtree.
   */
  function MoveSuccessor(nodes: seq<Node>, pred: int, parentOfSuccessor: int, successor: int): seq<Node>
    requires 0 <= pred < |nodes| && 0 <= parentOfSuccessor < |nodes| && 0 <= successor < |nodes|
  {
    var a :=
      if successor != nodes[pred].rChild then
        var b := nodes[parentOfSuccessor := nodes[parentOfSuccessor].(lChild := nodes[successor].rChild)];
        b[successor := b[successor].(rChild := b[pred].rChild)]
      else nodes;
    a[successor := a[successor].(lChild := a[pred].lChild)]
  }

  /** The arena after `GetSuccessor` as written: the same moves, but the successor adopts `pred`'s right subtree on its left. */
  function MoveSuccessorAsWritten(nodes: seq<Node>, pred: int, parentOfSuccessor: int, successor: int): seq<Node>
    requires 0 <= pred < |nodes| && 0 <= parentOfSuccessor < |nodes| && 0 <= successor < |nodes|
  {
    var a :=
      if successor != nodes[pred].rChild then
        var b := nodes[parentOfSuccessor := nodes[parentOfSuccessor].(lChild := nodes[successor].rChild)];
        b[successor := b[successor].(rChild := b[pred].rChild)]
      else nodes;
    a[successor := a[successor].(lChild := a[pred].rChild)]
  }

  /**
   * The walk of the corrected `GetSuccessor` ends at the leftmost node of `pred`'s right subtree, and its
   * rewiring makes the arena store `Replacement`: the successor with `pred`'s left subtree and the right
   * subtree without the successor, in cells of `pred`'s subtree; no cell outside that subtree changes.
   */
  lemma {:induction false} SuccessorMoved(nodes: seq<Node>, s: Tree, path: seq<Frame>, below: Tree, successor: int, parentOfSuccessor: int)
    requires s.Branch? && s.left.Branch? && s.right.Branch? && Holds(nodes, s) && Unshared(s)
    requires Holds(nodes, below) && RootOf(below) == Null && Plug(path, below) == s.right && AllLeft(path)
    requires path != [] ==> successor == path[0].at
    requires |path| == 1 ==> parentOfSuccessor == s.at
    requires |path| > 1 ==> parentOfSuccessor == path[1].at
    ensures path != [] && 0 <= successor < |nodes| && 0 <= parentOfSuccessor < |nodes|
    ensures var nodes' := MoveSuccessor(nodes, s.at, parentOfSuccessor, successor);
      && |nodes'| == |nodes| && (forall j :: 0 <= j < |nodes| && j !in Cells(s) ==> nodes'[j] == nodes[j])
      && RootOf(Replacement(s.left, s.right)) == successor && Cells(Replacement(s.left, s.right)) <= Cells(s)
      && Holds(nodes', Replacement(s.left, s.right)) && Unshared(Replacement(s.left, s.right))
  {
    var l, r, pred := s.left, s.right, s.at;
    assert below == Leaf && path != [];
    var m := Wrap(path[0], Leaf);
    var inner := path[1..];
    assert r == Plug(inner, m);
    assert AllLeft(inner) by {
      forall i | 0 <= i < |inner|
        ensures inner[i].goesLeft
      {
        assert inner[i] == path[i + 1];
      }
    }
    LeftSpine(inner, m);
    if inner == [] {
      SuccessorIsRightChild(nodes, s);
    } else {
      SuccessorBelowRightChild(nodes, s, inner, m);
    }
  }

  /** `SuccessorMoved` when the right child has no left child: it is the successor and keeps its right subtree. */
  lemma SuccessorIsRightChild(nodes: seq<Node>, s: Tree)
    requires s.Branch? && s.left.Branch? && s.right.Branch? && s.right.left.Leaf? && Holds(nodes, s) && Unshared(s)
    ensures 0 <= s.right.at < |nodes|
    ensures var nodes' := MoveSuccessor(nodes, s.at, s.at, s.right.at);
      && |nodes'| == |nodes| && (forall j :: 0 <= j < |nodes| && j !in Cells(s) ==> nodes'[j] == nodes[j])
      && RootOf(Replacement(s.left, s.right)) == s.right.at && Cells(Replacement(s.left, s.right)) <= Cells(s)
      && Holds(nodes', Replacement(s.left, s.right)) && Unshared(Replacement(s.left, s.right))
  {
    var l, r, pred, successor := s.left, s.right, s.at, s.right.at;
    RemoveMinCells(r);
    HoldsInArena(nodes, s);
    assert Leftmost(r) == r && RemoveMin(r) == r.right;
    var nodes' := MoveSuccessor(nodes, pred, pred, successor);
    assert nodes[pred].rChild == successor;
    assert nodes'[successor] == CellOf(Replacement(l, r));
    HoldsFrame(nodes, nodes', l);
    HoldsFrame(nodes, nodes', r.right);
  }

  /**
   * `SuccessorMoved` when the successor `m` is deeper, below the left links `inner`: its parent adopts its
   * right subtree and it takes over both of `pred`'s subtrees.
   */
  lemma SuccessorBelowRightChild(nodes: seq<Node>, s: Tree, inner: seq<Frame>, m: Tree)
    requires s.Branch? && s.left.Branch? && Holds(nodes, s) && Unshared(s)
    requires inner != [] && AllLeft(inner) && m.Branch? && m.left.Leaf? && Plug(inner, m) == s.right
    requires Leftmost(s.right) == m && RemoveMin(s.right) == Plug(inner, m.right)
    ensures 0 <= inner[0].at < |nodes| && 0 <= m.at < |nodes|
    ensures var nodes' := MoveSuccessor(nodes, s.at, inner[0].at, m.at);
      && |nodes'| == |nodes| && (forall j :: 0 <= j < |nodes| && j !in Cells(s) ==> nodes'[j] == nodes[j])
      && RootOf(Replacement(s.left, s.right)) == m.at && Cells(Replacement(s.left, s.right)) <= Cells(s)
      && Holds(nodes', Replacement(s.left, s.right)) && Unshared(Replacement(s.left, s.right))
  {
    var l, r, pred, successor, parentOfSuccessor := s.left, s.right, s.at, m.at, inner[0].at;
    PlugUnshared(inner, m);
    PlugHolds(nodes, inner, m);
    RemoveMinCells(r);
    HoldsInArena(nodes, s);
    var rest := Plug(inner, m.right);
    var nodes' := MoveSuccessor(nodes, pred, parentOfSuccessor, successor);
    PlugRoot(inner, m, m.right);
    assert nodes[pred].rChild == r.at != successor;
    var b := nodes[parentOfSuccessor := nodes[parentOfSuccessor].(lChild := nodes[successor].rChild)];
    assert b == nodes[inner[0].at := SetChild(nodes[inner[0].at], inner[0].goesLeft, RootOf(m.right))];
    LinkKeepsTree(nodes, nodes, inner, m, m.right, b);
    assert nodes'[successor] == CellOf(Replacement(l, r));
    HoldsFrame(nodes, nodes', l);
    HoldsFrame(b, nodes', rest);
  }

  /**
   * The walk of `GetSuccessor` as written follows right links, so it ends at the rightmost node of `pred`'s
   * right subtree; its rewiring then links that node's left child back to the top of the right subtree,
   * closing a cycle through the right links walked.
   */
  lemma {:induction false} SuccessorCycle(nodes: seq<Node>, s: Tree, path: seq<Frame>, below: Tree, successor: int, parentOfSuccessor: int)
    requires s.Branch? && s.left.Branch? && s.right.Branch? && Holds(nodes, s) && Unshared(s)
    requires Holds(nodes, below) && RootOf(below) == Null && Plug(path, below) == s.right && AllRight(path)
    requires path != [] ==> successor == path[0].at
    requires |path| == 1 ==> parentOfSuccessor == s.at
    requires |path| > 1 ==> parentOfSuccessor == path[1].at
    ensures path != [] && 0 <= successor < |nodes| && 0 <= parentOfSuccessor < |nodes|
    ensures successor == Rightmost(s.right).at && successor in PathCells(path) && PathCells(path) <= Cells(s.right)
    ensures var nodes' := MoveSuccessorAsWritten(nodes, s.at, parentOfSuccessor, successor);
      && |nodes'| == |nodes| && (forall j :: 0 <= j < |nodes| && j !in Cells(s.right) ==> nodes'[j] == nodes[j])
      && nodes'[successor].lChild == RootOf(s.right) && Closed(nodes', PathCells(path))
  {
    var r, pred := s.right, s.at;
    assert below == Leaf && path != [];
    var m := Wrap(path[0], Leaf);
    var inner := path[1..];
    assert r == Plug(inner, m);
    assert AllRight(inner) by {
      forall i | 0 <= i < |inner|
        ensures !inner[i].goesLeft
      {
        assert inner[i] == path[i + 1];
      }
    }
    RightSpine(inner, m);
    PlugUnshared(path, Leaf);
    PathLinks(nodes, path, Leaf);
    HoldsInArena(nodes, s);
    PlugRoot(path, Leaf, Leaf);
    assert successor in PathCells(path);
    if inner != [] {
      PlugUnshared(inner, m);
      PlugRoot(inner, m, m);
      assert nodes[pred].rChild == r.at != successor;
      assert path[1].at in PathCells(path);
    } else {
      assert nodes[pred].rChild == successor;
    }
    var nodes' := MoveSuccessorAsWritten(nodes, pred, parentOfSuccessor, successor);
    var spine := PathCells(path);
    assert path[|path| - 1].at in spine;
    forall d | d in spine
      ensures 0 <= d < |nodes'| && (nodes'[d].lChild in spine || nodes'[d].rChild in spine)
    {
      if d != successor {
        var i :| 0 <= i < |path| && path[i].at == d;
        assert i > 0 && path[i - 1].at in spine;
        assert nodes'[d].rChild == nodes[d].rChild;
      }
    }
  }

  /**
   * A set of cells each of which links to a cell of the set stores no finite tree: following those links
   * never reaches an empty subtree, so no tree is stored from any cell of the set.
   */
  lemma {:induction false} NoTreeThrough(nodes: seq<Node>, S: set<int>, t: Tree)
    requires Closed(nodes, S) && Holds(nodes, t)
    ensures RootOf(t) !in S
  {
    if t.Branch? && t.at in S {
      if nodes[t.at].lChild in S {
        NoTreeThrough(nodes, S, t.left);
      } else {
        NoTreeThrough(nodes, S, t.right);
      }
    }
  }
}
