# Data-Structures-Library in Dafny

A model of the containers of the C# `Data-Structures-Library` that have behaviour: the skip list, the binary
search tree, and the singly, doubly and circular linked lists. Each one is a Dafny class with the fields the C#
class mutates. Each operation is a method that does what the C# method does, step by step, and is proved
against a ghost abstract view of the container.

- **Skip list** (`SkipList.dfy`, `SkipListShape.dfy`). The C# maps string keys to values through a stack of
  levels.
  - The nodes are records in an arena (`nodes: seq<Node<V>>`). A link is an index into the arena, and `Null`
    (-1) stands for the C# null.
  - The ghost fields `levels`, `keys` and `Contents` describe the stack.
    - `levels` holds the node indices of each level, from `-oo` to `+oo`.
    - `keys` holds the key of each of those nodes.
    - `Contents` is the map from keys to values.
  - The invariant `Stack` states the shape:
    - every level is strictly increasing and starts and ends with its sentinels;
    - `next`/`prev` links are mutual along each level;
    - every key of a level is on the level below, and `above`/`below` links are mutual between the copies of
      a key;
    - level 0 represents `Contents`;
    - the top level's sentinels are `head` and `tail`.
- **Binary search tree** (`BinarySearchTree.dfy`, `BinaryTreeShape.dfy`).
  - The C# nodes are records in an arena (`nodes: seq<Node>`) with `lChild`/`rChild` indices.
  - The ghost field `tree` is the tree the arena stores from `root`, with no cell shared.
  - Every operation is specified on `tree`: membership, `Add`, `Leftmost`/`Rightmost` and `DeleteFirst`.
  - Ordering is the non-strict order the C# keeps: left ≤ node ≤ right.
  - Paths (`Frame` sequences) describe where a descent stands, so the in-place rewiring of `Delete` can be
    stated.
- **Linked lists** (`SinglyLinkedList.dfy`, `DoublyLinkedList.dfy`, `CircularLinkedList.dfy`).
  - These are heap objects with `next` (and `prev`) fields.
  - The ghost `nodes` sequence and `Repr` set say which nodes the list owns. The ghost `Contents` is the
    sequence of values along the `next` chain, and `counter` is its length.
  - Exceptions become `Result` values (`Outcomes.dfy`), and a failed operation changes nothing.
  - `SeqSpec.dfy` holds the reference functions on sequences used to state results: `FirstIndex`,
    `RemoveAt`, `Inserted`, `Without`, `Reversed` and `Swapped`.
- **Key order** (`StringOrder.dfy`). Keys are compared character by character (ordinal order). The skip list's
  sentinels are the values `NegInf` and `PosInf` of `Bound`, not the strings `"-oo"` and `"+oo"`.

Where the C# code does not do what its comments and documentation say, the model has both versions: a member
named `…AsWritten` that models the code as written and states what it really does, and the corrected member
that the rest of the model uses (see "## Findings").

## Model

| member | source | states |
|---|---|---|
| StringOrder.StrLessIrreflexive | Data-Structures-Library/SkipList.cs:126 | no key orders before itself |
| StringOrder.StrLessTransitive | Data-Structures-Library/SkipList.cs:126 | the ordinal key order is transitive |
| StringOrder.StrLessTotal | Data-Structures-Library/SkipList.cs:126 | any two different keys are ordered one way or the other |
| StringOrder.BoundLessAsymmetric | Data-Structures-Library/SkipList.cs:126 | with the sentinels added, the order is strict: never both ways |
| StringOrder.BoundLessTotal | Data-Structures-Library/SkipList.cs:126 | with the sentinels added, the order is total |
| SkipListShape.IncreasingUnique | Data-Structures-Library/SkipList.cs:155-173 | a strictly increasing level holds each key at most once |
| SkipListShape.FloorHit | Data-Structures-Library/SkipList.cs:107-109 | on an increasing level, the floor of a key holds the key exactly when the key is on the level |
| SkipListShape.InsertIncreasing | Data-Structures-Library/SkipList.cs:167-173 | splicing a key between its two neighbours keeps the level strictly increasing |
| SkipListShape.RemoveIncreasing | Data-Structures-Library/SkipList.cs:296-297 | unlinking a node keeps the level strictly increasing |
| SkipListShape.GoneFromLevel | Data-Structures-Library/SkipList.cs:296-297 | unlinking a position of an increasing level removes the only copy of its key |
| SkipListShape.RowDistinct | Data-Structures-Library/SkipList.cs:117-147 | a well-formed level visits each of its nodes once |
| SkipListShape.AbsentAbove | Data-Structures-Library/SkipList.cs:189-216 | in a nested stack, a key missing from one level is missing from every level above |
| SkipListShape.AddLayerKeepsLayered | Data-Structures-Library/SkipList.cs:243-270 | adding a linked sentinel pair on top keeps every level, and every join between levels, well formed |
| SkipListShape.AddLayerKeepsStack | Data-Structures-Library/SkipList.cs:243-270 | `AddLayer` keeps the whole invariant, with a new empty top level whose sentinels are the new head and tail |
| SkipListShape.SpliceKeepsLayered | Data-Structures-Library/SkipList.cs:167-173 | a splice between floor and successor keeps the stack well formed, with the new node in place on its level |
| SkipListShape.SpliceKeepsMaps | Data-Structures-Library/SkipList.cs:167-173 | a splice on level 0 adds the key with its value to the map; one higher up leaves the map alone |
| SkipListShape.SpliceKeepsStack | Data-Structures-Library/SkipList.cs:167-210 | a splice keeps the whole invariant, `above`/`below` links mutual included |
| SkipListShape.UnlinkKeepsLayered | Data-Structures-Library/SkipList.cs:293-303 | unlinking a tower node keeps the stack well formed, with the key now missing up to the next level |
| SkipListShape.UnlinkKeepsMaps | Data-Structures-Library/SkipList.cs:293-303 | unlinking on level 0 drops the key from the map; higher up the map is unchanged |
| SkipListShape.UnlinkKeepsStack | Data-Structures-Library/SkipList.cs:293-303 | an unlink keeps the whole invariant, apart from a gap for the key one level up |
| SkipListShape.UnlinkNext | Data-Structures-Library/SkipList.cs:298-302 | the node above an unlinked node is the key's node on the next level; with none above, the key is on no higher level |
| SkipListShape.CloseStackGap | Data-Structures-Library/SkipList.cs:293 | once the key is gone from the gap's level, or the gap is above the top, the invariant is whole again |
| SkipListShape.HeadAbove | Data-Structures-Library/SkipList.cs:189-192 | the `-oo` node of every level below the top has an `above` link, so the leftward walk of `Insert` stops |
| SkipListShape.ClimbFloor | Data-Structures-Library/SkipList.cs:189-195 | the walk left to the first node with an `above` link and then up lands on the floor of the key on the level above |
| SkipListShape.ClimbStack | Data-Structures-Library/SkipList.cs:189-195 | `ClimbFloor` on two adjacent levels of a well-formed stack |
| SkipListShape.FloorInMap | Data-Structures-Library/SkipList.cs:107-109 | the level-0 floor of a key holds the key exactly when the key is in the map, and then holds its value |
| SkipListShape.TopEnds | Data-Structures-Library/SkipList.cs:88-89 | head and tail are two different nodes of the arena |
| SkipListShape.SpliceSites | Data-Structures-Library/SkipList.cs:169-173 | the splice's entry, its successor and the node below are distinct arena nodes |
| SkipListShape.UnlinkSites | Data-Structures-Library/SkipList.cs:296-300 | the unlinked node, its neighbours and the node above it are distinct arena nodes |
| SkipLists.TowerStart | Data-Structures-Library/SkipList.cs:167-176 | a spliced key that was absent before is a tower of height one over the old levels |
| SkipLists.TowerGrow | Data-Structures-Library/SkipList.cs:179-216 | each promotion round raises the key's tower by exactly one level, the other keys staying on their levels |
| SkipLists.StripGrow | Data-Structures-Library/SkipList.cs:293-303 | each round of the `Remove` loop strips the key from one more level |
| SkipLists.StripDone | Data-Structures-Library/SkipList.cs:293-303 | when the loop ends, the key is gone from every level and the levels are otherwise as before |
| SkipLists.SkipList.constructor | Data-Structures-Library/SkipList.cs:77-95 | one level whose `-oo` links directly to `+oo`; `lvl` is 0, and the map and `counter` are empty |
| SkipLists.SkipList.Length | Data-Structures-Library/SkipList.cs:312-318 | `counter`, the number of keys in the map (under the invariant of the corrected model) |
| SkipLists.SkipList.Height | Data-Structures-Library/SkipList.cs:323-329 | `lvl`, the number of levels above level 0 |
| SkipLists.SkipList.Below | Data-Structures-Library/SkipList.cs:133-137 | the `below` link of a node on level L > 0 is the node with the same key on level L - 1 |
| SkipLists.SkipList.ScanLevel | Data-Structures-Library/SkipList.cs:125-130 | the inner loop as documented stops at the last node of the level whose key is at most the target |
| SkipLists.SkipList.Get | Data-Structures-Library/SkipList.cs:117-147 | the corrected descent ends on level 0 at the floor of the key: key ≤ target < next key |
| SkipLists.SkipList.ScanLevelAsWritten | Data-Structures-Library/SkipList.cs:126-130 | the loop as written moves only onto a `+oo` node; it then dereferences a null `next` when `"+oo"` ≤ key on a level without user keys |
| SkipLists.SkipList.HeadBelow | Data-Structures-Library/SkipList.cs:133-137 | the `-oo` node of a level sits above the `-oo` node of the level below, and a level with user keys has them below too |
| SkipLists.SkipList.GetAsWritten | Data-Structures-Library/SkipList.cs:117-147 | the descent as written always ends at the `-oo` node of level 0, or fails with a null dereference |
| SkipLists.SkipList.SearchAsWritten | Data-Structures-Library/SkipList.cs:102-110 | from any well-formed stack, `Search` as written never finds a key: it returns null, or throws where the descent does |
| SkipLists.SkipList.Search | Data-Structures-Library/SkipList.cs:102-110 | the value stored under the key, or `None` (the C# null) when the key is absent |
| SkipLists.SkipList.AddLayer | Data-Structures-Library/SkipList.cs:243-270 | a new sentinel pair on top, linked to each other and to the old sentinels; they become head and tail, `lvl` grows by one, and the map is unchanged |
| SkipLists.SkipList.Splice | Data-Structures-Library/SkipList.cs:167-210 | the new node sits between entry and its successor on its level, above the given node; the map gains the key only on level 0 |
| SkipLists.SkipList.Climb | Data-Structures-Library/SkipList.cs:189-195 | the walk reaches the node of the level above after which the key belongs |
| SkipLists.SkipList.Promote | Data-Structures-Library/SkipList.cs:181-216 | one round: adds a level when at the top, then puts a copy of the key on the next level, in order |
| SkipLists.SkipList.RaiseTower | Data-Structures-Library/SkipList.cs:176-217 | after `promotions` rounds the key is on exactly levels 0 to `promotions`, and `lvl` is the larger of its old value and `promotions` |
| SkipLists.SkipList.AddTower | Data-Structures-Library/SkipList.cs:166-217 | the new key's value is in the map and its tower rises `promotions` levels |
| SkipLists.SkipList.Insert | Data-Structures-Library/SkipList.cs:155-221 | a present key is an `ArgumentException` and nothing changes; otherwise the key maps to the value, its tower is exactly levels 0 to `promotions`, `counter` grows by one and `lvl` never decreases |
| SkipLists.SkipList.Unlink | Data-Structures-Library/SkipList.cs:296-302 | one round: the node leaves its level, the node above loses its `below` link and is returned, and on level 0 the key leaves the map |
| SkipLists.SkipList.UnlinkTower | Data-Structures-Library/SkipList.cs:293-303 | the loop removes the key from every level and leaves the other keys, `counter` and `lvl` alone |
| SkipLists.SkipList.RemoveAsWritten | Data-Structures-Library/SkipList.cs:278-307 | from any well-formed stack, whatever `counter` holds: an absent key is an `InvalidOperationException`; otherwise it returns the key's value and unlinks its whole tower, but `counter` is unchanged, so it ends one further above the number of keys |
| SkipLists.SkipList.RemoveOverGetAsWritten | Data-Structures-Library/SkipList.cs:278-287 | with the as-written `Get`, `Remove` always throws: a `NullReferenceException` where the descent does, otherwise an `InvalidOperationException` at the found-check |
| SkipLists.SkipList.Remove | Data-Structures-Library/SkipList.cs:278-307 | as `RemoveAsWritten`, with `counter` decremented, so the invariant, `counter` included, holds afterwards |
| BinaryTreeShape.ElementsInOrder | Data-Structures-Library/BinarySearchTree.cs:51-68 | the in-order sequence holds exactly the tree's values |
| BinaryTreeShape.InOrderSize | Data-Structures-Library/BinarySearchTree.cs:51-68 | the in-order sequence has one entry per node |
| BinaryTreeShape.OrderedIsSorted | Data-Structures-Library/BinarySearchTree.cs:138-157 | a tree is ordered exactly when its in-order sequence is sorted |
| BinaryTreeShape.SortedAround | Data-Structures-Library/BinarySearchTree.cs:148-154 | a sequence around a middle value is sorted exactly when both sides are sorted and the middle separates them |
| BinaryTreeShape.MiddleJoin | Data-Structures-Library/BinarySearchTree.cs:148-154 | a root holding the middle element, over subtrees of the two halves, holds the slice in order and stays balanced |
| BinaryTreeShape.BuildBranch | Data-Structures-Library/BinarySearchTree.cs:150-154 | allocating the node, building and linking the left subtree, then the right, makes the arena store the branch in new cells only |
| BinaryTreeShape.HoldsFrame | Data-Structures-Library/BinarySearchTree.cs:152-154 | a stored tree stays stored when none of its cells change |
| BinaryTreeShape.SearchEnds | Data-Structures-Library/BinarySearchTree.cs:178-195 | the descent ends at an empty subtree or at a node holding the value |
| BinaryTreeShape.SearchFinds | Data-Structures-Library/BinarySearchTree.cs:173-198 | in an ordered tree the descent finds a node exactly when the value is in the tree |
| BinaryTreeShape.AddElements | Data-Structures-Library/BinarySearchTree.cs:266-290 | an insert adds exactly one occurrence of the value |
| BinaryTreeShape.AddOrdered | Data-Structures-Library/BinarySearchTree.cs:277-285 | an insert that goes left of larger values and right otherwise keeps the tree ordered |
| BinaryTreeShape.AddCells | Data-Structures-Library/BinarySearchTree.cs:269-273 | an insert uses exactly one new cell, keeps the root of a non-empty tree, and shares no cell |
| BinaryTreeShape.Leftmost | Data-Structures-Library/BinarySearchTree.cs:326-329 | following left links ends at a node with no left child |
| BinaryTreeShape.Rightmost | Data-Structures-Library/BinarySearchTree.cs:368-371 | following right links ends at a node with no right child |
| BinaryTreeShape.LeftmostIsMin | Data-Structures-Library/BinarySearchTree.cs:314-333 | in an ordered tree the leftmost value is in the tree and is its minimum |
| BinaryTreeShape.RightmostIsMax | Data-Structures-Library/BinarySearchTree.cs:358-374 | in an ordered tree the rightmost value is in the tree and is its maximum |
| BinaryTreeShape.RemoveMinElements | Data-Structures-Library/BinarySearchTree.cs:399-404 | taking out the leftmost node removes exactly its value |
| BinaryTreeShape.RemoveMinOrdered | Data-Structures-Library/BinarySearchTree.cs:399-404 | taking out the leftmost node keeps the tree ordered |
| BinaryTreeShape.RemoveMinCells | Data-Structures-Library/BinarySearchTree.cs:399-404 | taking out the leftmost node frees its cell and adds none |
| BinaryTreeShape.ReplacementOrdered | Data-Structures-Library/BinarySearchTree.cs:516-536 | replacing a two-child node by the in-order successor over both subtrees keeps the order |
| BinaryTreeShape.DeleteElements | Data-Structures-Library/BinarySearchTree.cs:416-537 | in an ordered tree, deleting removes exactly one occurrence of the value (and nothing when it is absent) |
| BinaryTreeShape.DeleteOrdered | Data-Structures-Library/BinarySearchTree.cs:449-536 | deleting from an ordered tree (leaf, one child, or two children with the in-order successor) keeps it ordered |
| BinaryTreeShape.DeleteCells | Data-Structures-Library/BinarySearchTree.cs:449-536 | deleting uses only cells the tree had and shares none |
| BinaryTreeShape.DeleteMissing | Data-Structures-Library/BinarySearchTree.cs:443-447 | a value the descent does not meet leaves the tree as it is |
| BinaryTreeShape.Plug | Data-Structures-Library/BinarySearchTree.cs:428-442 | the tree around a path's end is empty only when the path and the end are |
| BinaryTreeShape.PlugUnshared | Data-Structures-Library/BinarySearchTree.cs:428-442 | the end of a path in an unshared tree is unshared, and the path's cells lie outside it |
| BinaryTreeShape.PlugHolds | Data-Structures-Library/BinarySearchTree.cs:428-442 | the end of a path in a stored tree is stored too |
| BinaryTreeShape.PlugRoot | Data-Structures-Library/BinarySearchTree.cs:419-420 | the root of a tree reached by a non-empty path is the outermost frame's cell, outside the path's end |
| BinaryTreeShape.PathLinks | Data-Structures-Library/BinarySearchTree.cs:430-441 | each cell of a stored path links, on the side the path takes, to the next node down |
| BinaryTreeShape.ReplaceUnshared | Data-Structures-Library/BinarySearchTree.cs:452-535 | putting a subtree of the old end's cells in place of the end keeps the tree unshared |
| BinaryTreeShape.ReplaceHolds | Data-Structures-Library/BinarySearchTree.cs:452-535 | after relinking the innermost frame, the arena stores the tree with the new end |
| BinaryTreeShape.DeleteOnPath | Data-Structures-Library/BinarySearchTree.cs:428-442 | along the descent for a value, deleting and searching act on the path's end only |
| BinaryTreeShape.LeftSpine | Data-Structures-Library/BinarySearchTree.cs:384-397 | below left links only, the leftmost node and its removal are those at the path's end |
| BinaryTreeShape.RightSpine | Data-Structures-Library/BinarySearchTree.cs:384-397 | below right links only, the rightmost node is the one at the path's end |
| BinaryTreeShape.LinkKeepsTree | Data-Structures-Library/BinarySearchTree.cs:452-535 | setting the parent's link (or, for the root, nothing) to a replacement stored in the old node's cells makes the arena store the tree with that replacement |
| BinaryTreeShape.SuccessorMoved | Data-Structures-Library/BinarySearchTree.cs:381-409 | the corrected walk ends at the leftmost node of the right subtree, and its rewiring stores the successor over both subtrees in the old subtree's cells, outside which nothing changes |
| BinaryTreeShape.SuccessorIsRightChild | Data-Structures-Library/BinarySearchTree.cs:399-406 | when the right child has no left child, the right child becomes the successor, keeps its right subtree and adopts the left one |
| BinaryTreeShape.SuccessorBelowRightChild | Data-Structures-Library/BinarySearchTree.cs:399-406 | a deeper successor's parent adopts the successor's right subtree, and the successor takes both subtrees |
| BinaryTreeShape.SuccessorCycle | Data-Structures-Library/BinarySearchTree.cs:381-409 | the walk as written ends at the rightmost node of the right subtree, whose left link then points back to the top of that subtree: the walked nodes form a cycle |
| BinaryTreeShape.CycleKept | Data-Structures-Library/BinarySearchTree.cs:520-535 | linking the as-written successor into the parent leaves a cycle that the root reaches |
| BinaryTreeShape.NoTreeThrough | Data-Structures-Library/BinarySearchTree.cs:520-535 | no finite tree is stored from a cell of a cycle |
| BinarySearchTrees.BinarySearchTree.constructor | Data-Structures-Library/BinarySearchTree.cs:117-120 | an empty tree |
| BinarySearchTrees.BinarySearchTree.FromArray | Data-Structures-Library/BinarySearchTree.cs:126-129 | the tree holds the array in order, is balanced, its root is the middle element, and a sorted array gives an ordered tree |
| BinarySearchTrees.BinarySearchTree.CreateBinaryTree | Data-Structures-Library/BinarySearchTree.cs:138-157 | an empty slice gives null; otherwise a new subtree in fresh cells with the middle element at its root, holding the slice in order, balanced, the rest of the arena unchanged |
| BinarySearchTrees.BinarySearchTree.FindRoot | Data-Structures-Library/BinarySearchTree.cs:163-166 | the root's value, or a null dereference on an empty tree |
| BinarySearchTrees.BinarySearchTree.Contains | Data-Structures-Library/BinarySearchTree.cs:173-198 | whether the descent meets the value; in an ordered tree exactly when the value is in the tree |
| BinarySearchTrees.BinarySearchTree.Insert | Data-Structures-Library/BinarySearchTree.cs:255-258 | the tree becomes `Add` of the value in one new cell, gains exactly that occurrence, and stays ordered |
| BinarySearchTrees.BinarySearchTree.InsertNode | Data-Structures-Library/BinarySearchTree.cs:266-290 | the subtree becomes `Add` of the value, with one new cell and no other cell outside the subtree changed |
| BinarySearchTrees.BinarySearchTree.FindMinNode | Data-Structures-Library/BinarySearchTree.cs:314-333 | null on an empty tree, else the leftmost node |
| BinarySearchTrees.BinarySearchTree.FindMin | Data-Structures-Library/BinarySearchTree.cs:296-308 | 0 (`default`) on an empty tree, else the leftmost value, which in an ordered tree is its minimum |
| BinarySearchTrees.BinarySearchTree.FindMaxNode | Data-Structures-Library/BinarySearchTree.cs:358-374 | null on an empty tree, else the rightmost node |
| BinarySearchTrees.BinarySearchTree.FindMax | Data-Structures-Library/BinarySearchTree.cs:340-352 | 0 (`default`) on an empty tree, else the rightmost value, which in an ordered tree is its maximum |
| BinarySearchTrees.BinarySearchTree.Locate | Data-Structures-Library/BinarySearchTree.cs:419-442 | the descent stops at the subtree `Search` gives, with `parent` and `isLeftChild` naming the link that leads to it |
| BinarySearchTrees.BinarySearchTree.Link | Data-Structures-Library/BinarySearchTree.cs:452-467 | the root, or the parent's left or right link, is set to the replacement and nothing else changes |
| BinarySearchTrees.BinarySearchTree.Bypass | Data-Structures-Library/BinarySearchTree.cs:449-515 | a node with at most one child is replaced by that child, or null, and the arena stores the result |
| BinarySearchTrees.BinarySearchTree.GetSuccessor | Data-Structures-Library/BinarySearchTree.cs:381-409 | corrected: the successor becomes the root of the in-order replacement, built only from cells of the old subtree |
| BinarySearchTrees.BinarySearchTree.Delete | Data-Structures-Library/BinarySearchTree.cs:416-537 | an empty tree is an `InvalidOperationException`; a value not met changes nothing; otherwise the tree becomes `DeleteFirst`, ordered trees stay ordered and lose exactly one occurrence |
| BinarySearchTrees.BinarySearchTree.GetSuccessorAsWritten | Data-Structures-Library/BinarySearchTree.cs:381-409 | the rightmost node of the right subtree is returned, its left link points back to that subtree's top, and the walked nodes form a cycle |
| BinarySearchTrees.BinarySearchTree.DeleteAsWritten | Data-Structures-Library/BinarySearchTree.cs:416-537 | as `Delete` for at most one child; for a two-child node the root then leads into a cycle, so no tree is stored from it |
| SeqSpec.FirstIndex | Data-Structures-Library/SinglyLinkedList.cs:161-178 | -1 exactly when the value is absent; otherwise the index of its first occurrence |
| SeqSpec.RemoveAtMultiset | Data-Structures-Library/SinglyLinkedList.cs:214-251 | removing an index takes exactly that one element out |
| SeqSpec.ReversedReversed | Data-Structures-Library/SinglyLinkedList.cs:257-277 | reversing twice gives back the original sequence |
| SeqSpec.ReversedAt | Data-Structures-Library/SinglyLinkedList.cs:257-277 | position k of the reversal holds the element k places from the end |
| SeqSpec.Swapped | Data-Structures-Library/SinglyLinkedList.cs:286-318 | the two positions exchange their values, and every other position and the multiset of values stay the same |
| SinglyLinkedLists.Node.constructor | Data-Structures-Library/SinglyLinkedList.cs:23-27 | a node holding the value and the given `next` link |
| SinglyLinkedLists.SinglyLinkedList.NodesDistinct | Data-Structures-Library/SinglyLinkedList.cs:30-33 | a null-terminated chain never visits a node twice |
| SinglyLinkedLists.SinglyLinkedList.constructor | Data-Structures-Library/SinglyLinkedList.cs:30-33 | an empty list |
| SinglyLinkedLists.SinglyLinkedList.Get | Data-Structures-Library/SinglyLinkedList.cs:41-65 | the element at the index, or `IndexOutOfRangeException` outside `[0, length)` |
| SinglyLinkedLists.SinglyLinkedList.Push | Data-Structures-Library/SinglyLinkedList.cs:72-78 | the value is prepended |
| SinglyLinkedLists.SinglyLinkedList.Append | Data-Structures-Library/SinglyLinkedList.cs:85-108 | the value is appended |
| SinglyLinkedLists.SinglyLinkedList.Clear | Data-Structures-Library/SinglyLinkedList.cs:114-127 | false exactly when the list was already empty; afterwards it is empty |
| SinglyLinkedLists.SinglyLinkedList.Contains | Data-Structures-Library/SinglyLinkedList.cs:134-153 | true exactly when the value occurs |
| SinglyLinkedLists.SinglyLinkedList.GetIndex | Data-Structures-Library/SinglyLinkedList.cs:161-178 | the first index of the value, or -1 |
| SinglyLinkedLists.SinglyLinkedList.Pop | Data-Structures-Library/SinglyLinkedList.cs:185-205 | `InvalidOperationException` on an empty list; otherwise removes and returns the first element |
| SinglyLinkedLists.SinglyLinkedList.Delete | Data-Structures-Library/SinglyLinkedList.cs:214-251 | `IndexOutOfRangeException` outside the list; otherwise removes and returns that element, the rest in order |
| SinglyLinkedLists.SinglyLinkedList.Reverse | Data-Structures-Library/SinglyLinkedList.cs:257-277 | false and unchanged for length ≤ 1; otherwise true and the list is reversed |
| SinglyLinkedLists.SinglyLinkedList.DrainInto | Data-Structures-Library/SinglyLinkedList.cs:266-269 | deleting from the end and pushing onto the other list moves the whole list, in order, in front of the other list's contents |
| SinglyLinkedLists.SinglyLinkedList.DrainReversedInto | Data-Structures-Library/SinglyLinkedList.cs:271-274 | popping and pushing onto the other list puts this list, reversed, in front of the other list's contents |
| SinglyLinkedLists.SinglyLinkedList.Swap | Data-Structures-Library/SinglyLinkedList.cs:286-318 | `IndexOutOfRangeException` unless both indices are in range; otherwise the two values are exchanged |
| SinglyLinkedLists.SinglyLinkedList.Length | Data-Structures-Library/SinglyLinkedList.cs:341-347 | the number of elements |
| DoublyLinkedLists.Node.constructor | Data-Structures-Library/DoublyLinkedList.cs:23-28 | a node holding the value and the given `prev` and `next` links |
| DoublyLinkedLists.DoublyLinkedList.NodesDistinct | Data-Structures-Library/DoublyLinkedList.cs:30-34 | a null-terminated chain never visits a node twice |
| DoublyLinkedLists.DoublyLinkedList.constructor | Data-Structures-Library/DoublyLinkedList.cs:30-34 | an empty list |
| DoublyLinkedLists.DoublyLinkedList.Push | Data-Structures-Library/DoublyLinkedList.cs:41-55 | the value is prepended, and the old first node's `prev` is the new node |
| DoublyLinkedLists.DoublyLinkedList.Clear | Data-Structures-Library/DoublyLinkedList.cs:61-74 | false exactly when the list was already empty; afterwards it is empty |
| DoublyLinkedLists.DoublyLinkedList.Contains | Data-Structures-Library/DoublyLinkedList.cs:81-100 | true exactly when the value occurs |
| DoublyLinkedLists.DoublyLinkedList.GetIndex | Data-Structures-Library/DoublyLinkedList.cs:108-125 | the first index of the value, or -1 |
| DoublyLinkedLists.DoublyLinkedList.Length | Data-Structures-Library/DoublyLinkedList.cs:148-154 | the number of elements |
| DoublyLinkedLists.DoublyLinkedList.Get | Data-Structures-Library/DoublyLinkedList.cs:162-186 | the element at the index, or `IndexOutOfRangeException` outside `[0, length)` |
| DoublyLinkedLists.DoublyLinkedList.DeleteByValue | Data-Structures-Library/DoublyLinkedList.cs:195-239 | `InvalidOperationException` on an empty list; null and unchanged when absent; otherwise removes and returns the first occurrence, leaving its predecessor's `prev` pointing at itself |
| DoublyLinkedLists.DoublyLinkedList.UnlinkAfter | Data-Structures-Library/DoublyLinkedList.cs:222-227 | the node after `temp` leaves the chain, and `temp.prev` becomes `temp` |
| DoublyLinkedLists.DoublyLinkedList.DeleteByIndex | Data-Structures-Library/DoublyLinkedList.cs:248-285 | `IndexOutOfRangeException` outside the list; otherwise removes and returns that element, the rest in order |
| DoublyLinkedLists.DoublyLinkedList.Append | Data-Structures-Library/DoublyLinkedList.cs:292-316 | the value is appended, with the old last node as its `prev` |
| DoublyLinkedLists.DoublyLinkedList.Pop | Data-Structures-Library/DoublyLinkedList.cs:322-342 | `InvalidOperationException` on an empty list; otherwise removes and returns the first element |
| DoublyLinkedLists.DoublyLinkedList.Reverse | Data-Structures-Library/DoublyLinkedList.cs:348-370 | false and unchanged for length ≤ 1; otherwise true and the list is reversed |
| DoublyLinkedLists.DoublyLinkedList.DrainInto | Data-Structures-Library/DoublyLinkedList.cs:357-360 | deleting from the end and pushing onto the other list moves the whole list, in order, in front of the other list's contents |
| DoublyLinkedLists.DoublyLinkedList.DrainReversedInto | Data-Structures-Library/DoublyLinkedList.cs:363-366 | popping and pushing onto the other list puts this list, reversed, in front of the other list's contents |
| DoublyLinkedLists.DoublyLinkedList.Swap | Data-Structures-Library/DoublyLinkedList.cs:379-411 | `IndexOutOfRangeException` unless both indices are in range; otherwise the two values are exchanged |
| CircularLinkedLists.Node.constructor | Data-Structures-Library/CircularLinkedList.cs:20-24 | a node holding the value and the given `next` link |
| CircularLinkedLists.CircularLinkedList.constructor | Data-Structures-Library/CircularLinkedList.cs:28-32 | an empty ring |
| CircularLinkedLists.CircularLinkedList.Push | Data-Structures-Library/CircularLinkedList.cs:38-61 | the value is prepended and the ring is closed through `tail` (a single node points to itself) |
| CircularLinkedLists.CircularLinkedList.Append | Data-Structures-Library/CircularLinkedList.cs:67-87 | the value is appended after the last node, which links back to `head` |
| CircularLinkedLists.CircularLinkedList.ContainsAsWritten | Data-Structures-Library/CircularLinkedList.cs:94-111 | a null dereference on an empty list; otherwise true exactly when the value occurs before the last element |
| CircularLinkedLists.CircularLinkedList.Contains | Data-Structures-Library/CircularLinkedList.cs:94-111 | corrected: true exactly when the value occurs |
| CircularLinkedLists.CircularLinkedList.Pop | Data-Structures-Library/CircularLinkedList.cs:118-145 | `InvalidOperationException` on an empty list; otherwise removes and returns the first element and closes the ring again |
| CircularLinkedLists.CircularLinkedList.UnlinkAfter | Data-Structures-Library/CircularLinkedList.cs:178-180 | the node after `temp` leaves the ring; `tail` is not touched |
| CircularLinkedLists.CircularLinkedList.DeleteAsWritten | Data-Structures-Library/CircularLinkedList.cs:153-189 | as `Delete` for the values, but after removing the last of two or more nodes, `tail` still names the removed node, now outside the ring |
| CircularLinkedLists.CircularLinkedList.Delete | Data-Structures-Library/CircularLinkedList.cs:153-189 | `InvalidOperationException` on an empty list; otherwise true exactly when the value occurred, and its first occurrence is removed; corrected to keep `tail` on the last node |
| CircularLinkedLists.CircularLinkedList.Clear | Data-Structures-Library/CircularLinkedList.cs:195-208 | false exactly when the list was already empty; afterwards it is empty |
| CircularLinkedLists.CircularLinkedList.Length | Data-Structures-Library/CircularLinkedList.cs:238-244 | the number of elements |

## Left out

- The random number generator (`RandomNumberGenerator.cs`), seeded from the clock, is not modelled. `Insert`
  takes the number of promotions as a parameter; it stands for the run of even draws at `SkipList.cs:179`.
- String comparison is ordinal (character by character). The C# `string.CompareTo` is culture-sensitive, and
  no culture is modelled.
- User keys equal to `"-oo"` or `"+oo"` are not modelled. The sentinels are the values `NegInf` and `PosInf`,
  distinct from every user key. `PosInfName` keeps the `"+oo"` string only where the as-written search compares
  it with a key.
- SkipLists.SkipList.Insert, SkipLists.SkipList.Remove and SkipLists.SkipList.RemoveAsWritten find their entry
  node with the corrected `Get`. With the as-written `Get` (`GetAsWritten`), both C# methods throw a
  `NullReferenceException` at `SkipList.cs:126` when the top level holds no user key and `"+oo"` ≤ key. This
  covers every new list and every key that starts with a letter or a digit. Otherwise they start from the `-oo`
  node of level 0. So the as-written `Remove` never succeeds (`RemoveOverGetAsWritten`). The as-written
  `Insert`, which splices every key right after the level-0 `-oo` node, is not modelled.
- SkipLists.SkipList.Length: the corrected model is the one whose invariant ties `counter` to the number of keys.
  `RemoveAsWritten` states how the as-written counter drifts instead.
- Null is not modelled. Keys, values and arrays are never null in the model. The C# behaviour left out:
  - `SkipList.Search(null)` throws at `SkipList.cs:109`.
  - A stored null value makes `SkipList.Search` (`SkipList.cs:109`) and `DoublyLinkedList.DeleteByValue`
    (`DoublyLinkedList.cs:238`) return null exactly as for a missing key. The model's `Option` keeps the two
    cases apart.
  - `new BinarySearchTree(null)` throws at `BinarySearchTree.cs:128`.
- `InsertNextAbove` (`SkipList.cs:230-238`) is a private helper that nothing calls.
- All console output is left out: `PrintHorizontal`, `PrintVertical`, `GetOneRow`, `GetOneColumn`, the tree's
  `Print*` methods and `*OrderTraversal` methods, and the lists' `Print` methods. So are their own faults:
  `PostOrderTraversal` calls `InOrderTraversal`, and the circular list's `Print` waits for a null link in a
  ring.
- The tree is over `int` values with `<`, standing for the generic `T` with `Comparer<T>.Default`.
  `default(T)` is 0.
- The tree's array parameter is a `seq<int>`. Arrays are not mutated by the C# code, so no aliasing is lost.
- The pointer structures of the tree and of the skip list are arenas of records with index links. An object's
  identity is its arena index. Unlinked records stay in the arena, with nothing pointing at them (the garbage
  collector is not modelled).
- Integers are unbounded. `counter` and `lvl` do not wrap at 2³¹.
- DoublyLinkedLists.DoublyLinkedList: the `prev` links are modelled as the C# writes them, but no invariant
  is stated about them. `DeleteByValue` sets `temp.prev = temp`, and `DeleteByIndex` and `Pop` leave stale
  `prev` links, so the list is described through its `next` chain only.
- `Stack.cs`, `Queue.cs` and `Heap.cs` contain only constructors and commented-out operations.
- For a node with two children, BinarySearchTrees.BinarySearchTree.DeleteAsWritten promises no ordering. It
  proves that the arena no longer stores a tree from the root.

## Findings

| source | as written | input that shows it | evidently intended | confidence | as-written member | corrected member |
|---|---|---|---|---|---|---|
| Data-Structures-Library/SkipList.cs:126 | the inner loop of `Get` advances while the next key IS `"+oo"` and `"+oo"` ≤ key | `Search("a")` on a new list throws `NullReferenceException`; `Insert("!")` then `Search("!")` returns null, because the descent stays on `-oo` | advance while the next key is NOT `+oo` and is ≤ key (the comments at lines 113-116 and 125) | not executed | SkipLists.SkipList.GetAsWritten | SkipLists.SkipList.Get |
| Data-Structures-Library/SkipList.cs:278-307 | `Remove` never decrements `counter` | with line 126 corrected (as written, `Remove` never gets past line 284): insert `"a"`, remove `"a"`: `Length` is 1 for an empty list | `counter--` once the tower is unlinked, as `Insert` does `counter++` at line 220 | not executed | SkipLists.SkipList.RemoveAsWritten | SkipLists.SkipList.Remove |
| Data-Structures-Library/CircularLinkedList.cs:94-111 | the loop stops at the node before `head` without comparing it, and reads `head.next` on an empty list | push 2, then push 1 (list 1, 2): `Contains(2)` is false; on an empty list `Contains` throws | compare every node, including the last one, and return false on an empty list | not executed | CircularLinkedLists.CircularLinkedList.ContainsAsWritten | CircularLinkedLists.CircularLinkedList.Contains |
| Data-Structures-Library/CircularLinkedList.cs:172-181 | unlinking the last node leaves `tail` on it | list 1, 2; `Delete(2)`: `tail` is the removed node. A later `Push(0)` (line 57), or a `Pop` with two or more elements left (line 139), writes through it. After `Push(0)` the chain from `head` is 0, 1, 1, …, and `Contains(5)` (any absent value) never ends. `Append` does not read `tail` and repairs it (line 84) | move `tail` to the predecessor when the last node is removed | not executed | CircularLinkedLists.CircularLinkedList.DeleteAsWritten | CircularLinkedLists.CircularLinkedList.Delete |
| Data-Structures-Library/BinarySearchTree.cs:381-409 | `GetSuccessor` walks `rChild` (line 396), reaching the maximum of the right subtree, and sets `successor.lChild = pred.rChild` (line 406) | the tree built from `[1, 2, 3]` (root 2); `Delete(2)`: the successor is 3, whose left link points at itself, and 1 is lost | walk `lChild` to the in-order successor, and give it `pred.lChild` | not executed | BinarySearchTrees.BinarySearchTree.GetSuccessorAsWritten | BinarySearchTrees.BinarySearchTree.GetSuccessor |
| Data-Structures-Library/BinarySearchTree.cs:516-536 | deleting a two-child node links in the as-written successor | as in the row above | the tree without the value, still ordered | not executed | BinarySearchTrees.BinarySearchTree.DeleteAsWritten | BinarySearchTrees.BinarySearchTree.Delete |
