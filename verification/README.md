# Red-black search tree (Tree.java) in Dafny

This project models `Tree.java`, an ordered map from `int` keys to items
kept as a red-black binary search tree. It covers the whole of the
algorithmic part:

- the navigation queries `find`, `min`, `max`, `next` and `prev` with
  their recursive helpers;
- upsert insertion (`insert`, `insertRestore`, Cases 3–10);
- deletion (`delete`, `deleteGeneral`, `deleteBasis`, `deleteRestore`,
  Cases 0–8) with its black-height `defect` flag;
- the local primitives `flip`, `flipLeft`, `flipRight`, `flipBoth`,
  `rotateLeft` and `rotateRight`;
- the utilities `empty`, `size`, `copy`, `clear` and the validity checker
  `valid`.

The modules are:

- `Nodes` (nodes.dfy): the node record as a datatype. The shared
  sentinel `nil` is the leaf `Nil`. The module also holds the views the
  contracts are written in: the key set `Keys`, the key-to-item map
  `Contents`, the in-order entry sequence `Inorder`, and the search-tree
  ordering `BST`.
- `Primitives` (primitives.dfy): the colour flips and the rotations.
- `RedBlack` (redblack.dfy): the colour rules.
  - `RB(v, h)`: no red node has a red child, and every path meets h black
    nodes.
  - `IsRedBlack`: a valid tree, with a black root.
  - `ValidFrom`: the recursive `valid(Node, int, int)`.
  - The balance bound that the colour rules give.
- `Navigation` (navigation.dfy): the search helpers.
- `Insertion` (insertion.dfy) and `Deletion` (deletion.dfy): the
  balancing engine.
- `RedBlackTree` (tree.dfy): the public class `Tree`. Its field `root`
  is reassigned by each mutating method. Its invariant `Valid()` says the
  tree is ordered and a valid red-black tree.

Each Java helper that mutates nodes and returns "the new subtree root"
becomes a function that returns the new subtree as a value. The static
`defect` flag (Tree.java:359) is returned next to the subtree, in the
`Repaired` record. `deleteGeneral` copies the least entry of the right
subtree into the node being deleted. Here it returns that entry in the
`Spliced` record, and `Delete` builds the node from it.

The colour proofs for deletion use two predicates:

- `DeleteOutcome` describes a subtree as a deletion helper returns it:
  - without a defect, it is balanced at the original black height, and a
    black root stays black;
  - with a defect, it is one black node short and its root keeps its
    colour.
- `AwaitingRepair` is the state `deleteRestore` expects at the parent.

### Two points of deleteRestore worth noting

- **Case 0.** When the shrunk child `w` is itself red, the repair
  recolours `w` black and the defect ends (Tree.java:431-435). A red
  sibling is handled by Case 1/5, which rotates.
- **Cases 1 and 5.** After the rotation, the repair is repeated one
  level down, and it may end there in Case 2/6 with the defect still
  set. The code then flips that child black and clears the defect
  (Tree.java:444-449 and 474-479). `PushDownLeft` and `PushDownRight`
  prove that both outcomes leave the subtree balanced.

## Model

| member | source | states |
|---|---|---|
| Nodes.Copy | Tree.java:543-548 | copying rebuilds a subtree equal to the original: same shape, keys, items and colours |
| Nodes.SizeCountsKeys | Tree.java:513-516 | in an ordered subtree, the node count is the number of distinct keys |
| Nodes.SizeIsInorderLength | Tree.java:513-516 | the node count is the length of the in-order entry sequence |
| Primitives.Flip | Tree.java:552-555 | flip turns a black node red and a red node black; links, keys and items are unchanged |
| Primitives.FlipLeft | Tree.java:556-561 | v and its left child exchange colours; only colour bits change |
| Primitives.FlipRight | Tree.java:562-567 | v and its right child exchange colours; only colour bits change |
| Primitives.FlipBoth | Tree.java:568-574 | v takes its left child's colour and both children take v's old colour; only colour bits change |
| Primitives.RotateRight | Tree.java:575-581 | a right rotation keeps the in-order sequence, the keys and the size; the result is ordered exactly when the input is, and an ordered input keeps its map |
| Primitives.RotateLeft | Tree.java:582-588 | a left rotation keeps the in-order sequence, the keys and the size; the result is ordered exactly when the input is, and an ordered input keeps its map |
| Primitives.RotationsInverse | Tree.java:575-588 | a left rotation undoes a right rotation and vice versa |
| Primitives.Blacken | Tree.java:276-280 | forcing the root black changes only its colour and leaves a black root |
| RedBlack.ValidFrom | Tree.java:599-608 | valid(v, i, b) holds exactly when the subtree obeys the colour rules with black height b - i |
| RedBlack.BlackHeightIsLeftSpine | Tree.java:589-597 | in a subtree that obeys the colour rules, the black count on the left chain is the black height |
| RedBlack.RedBlackAtSomeHeight | Tree.java:589-597 | a black-rooted tree obeying the colour rules at some black height is what valid() accepts |
| RedBlack.Balanced | Tree.java:133-137 | with black height h, the height is at most 2h (2h + 1 under a red root) and there are at least 2^h - 1 nodes, which is the logarithmic height behind the O(log n) claims |
| RedBlack.BlackenKeepsRules | Tree.java:276-280 | forcing the root of a balanced subtree black gives a valid red-black tree |
| RedBlack.BlackenRed | Tree.java:276-280 | a red root forced black adds one black node to every path, so the colour rules hold one level higher |
| RedBlack.BlackenBlack | Tree.java:276-280 | forcing a root that is not red black leaves the tree as it is |
| Navigation.FindHelper | Tree.java:140-150 | an item is found only when the key occurs in the subtree |
| Navigation.FindHelperLooksUp | Tree.java:140-150 | in an ordered subtree, findHelper returns the item the map holds for k, or None when k is absent |
| Navigation.MinHelper | Tree.java:167-175 | the result is None exactly for the sentinel; otherwise it is a key of the subtree |
| Navigation.MinHelperIsLeast | Tree.java:167-175 | in an ordered subtree, minHelper returns a key no greater than any key |
| Navigation.MaxHelper | Tree.java:192-200 | the result is None exactly for the sentinel; otherwise it is a key of the subtree |
| Navigation.MaxHelperIsGreatest | Tree.java:192-200 | in an ordered subtree, maxHelper returns a key no smaller than any key |
| Navigation.NextHelper | Tree.java:218-233 | the result is a key of the subtree or the tracked ancestor's key |
| Navigation.NextHelperIsSuccessor | Tree.java:218-233 | nextHelper returns the least key above k among the subtree and the tracked ancestor, or None when there is none, whether or not k is present |
| Navigation.SuccessorUnion | Tree.java:218-233 | the successor within one part of the searched keys stays the successor when the other part adds no key between k and it |
| Navigation.PrevHelper | Tree.java:253-269 | the result is a key of the subtree or the tracked ancestor's key |
| Navigation.PrevHelperIsPredecessor | Tree.java:253-269 | prevHelper returns the greatest key below k among the subtree and the tracked ancestor, or None when there is none |
| Navigation.PredecessorUnion | Tree.java:253-269 | the predecessor within one part of the searched keys stays the predecessor when the other part adds no key between it and k |
| Insertion.InsertRestore | Tree.java:308-357 | insertRestore uses only flips and rotations: the in-order sequence and the keys stay, ordering is kept both ways, and an ordered map is unchanged |
| Insertion.RedRedLeft | Tree.java:312-333 | Cases 3-6 (the key went left) use only flips and rotations, so the in-order sequence is kept |
| Insertion.RedRedRight | Tree.java:334-355 | Cases 7-10 (the key went right) use only flips and rotations, so the in-order sequence is kept |
| Insertion.Insert | Tree.java:289-304 | the key set gains k; an ordered subtree stays ordered and its map becomes the old map with k bound to x |
| Insertion.InsertedLeft | Tree.java:292-293 | hanging the grown left subtree back under v adds k to v's keys, keeps v ordered and binds k to x in v's map |
| Insertion.InsertedRight | Tree.java:294-295 | the same for the right subtree |
| Insertion.AddedBelow | Tree.java:292-295 | a child whose map gained (k, x) gives a node whose map gained (k, x), since k differs from the node's key |
| Insertion.InsertRestoreLeft | Tree.java:312-333 | Cases 3-6: at a black node whose left subtree is balanced or red with a red child only on the key's path, the repair leaves the subtree balanced at the node's black height (its root may turn red) |
| Insertion.InsertRestoreRight | Tree.java:334-355 | Cases 7-10, the mirror image of InsertRestoreLeft |
| Insertion.RecoloredUp | Tree.java:318-320 | Cases 3, 4, 7 and 8: flipBoth at a black node with two red children gives a red root over two black children, balanced at the same black height |
| Insertion.OuterRotatedLeft | Tree.java:322-326 | Case 5: flipLeft and a right rotation leave a black root over two red children, balanced at the same black height |
| Insertion.InnerRotatedLeft | Tree.java:327-332 | Case 6: the inner red grandchild rises to a black root over two red children, balanced at the same black height |
| Insertion.OuterRotatedRight | Tree.java:344-348 | Case 9, the mirror image of Case 5 |
| Insertion.InnerRotatedRight | Tree.java:349-354 | Case 10, the mirror image of Case 6 |
| Insertion.InsertBalance | Tree.java:289-304 | under a black root, insertion keeps the colour rules at the same black height; under a red root, the only violation left is a red child on the key's path |
| Insertion.InsertKeepsRedBlack | Tree.java:276-280 | the public insert turns a valid red-black tree into a valid red-black tree |
| Insertion.FindAfterInsert | Tree.java:276-304 | after insert(k, x), find(k) returns x and every other key finds what it found before |
| Insertion.RestoreIdle | Tree.java:308-357 | insertRestore changes nothing at a subtree that already obeys the colour rules |
| Insertion.InsertExistingKey | Tree.java:296-299 | inserting a key already in a valid tree only replaces that node's item; no node is created, recoloured or moved |
| Deletion.DeleteBasis | Tree.java:411-425 | defect is set exactly when a black node is spliced out and replaced by a black child; a red replacement is recoloured black and nothing else of it changes (key, item and both links stay); splicing out a red node returns the child unchanged |
| Deletion.DeleteRestore | Tree.java:426-498 | without a defect nothing changes; otherwise only flips and rotations are used, so the in-order sequence, the keys, the ordering and the map stay |
| Deletion.RestoreLeft | Tree.java:431-464 | Cases 0-4 keep the in-order sequence |
| Deletion.RedSiblingLeft | Tree.java:439-450 | Case 1, with the repeated repair below and the absorbed Case 2, keeps the in-order sequence |
| Deletion.RedNephewLeft | Tree.java:453-464 | Cases 3 and 4 keep the in-order sequence |
| Deletion.RestoreRight | Tree.java:466-495 | Cases 5-8 (and Case 0 on the right side) keep the in-order sequence |
| Deletion.RedSiblingRight | Tree.java:469-480 | Case 5, with the repeated repair below and the absorbed Case 6, keeps the in-order sequence |
| Deletion.RedNephewRight | Tree.java:483-494 | Cases 7 and 8 keep the in-order sequence |
| Deletion.DeleteGeneral | Tree.java:396-410 | the returned entry is the least entry of an ordered subtree; the rebuilt subtree is ordered, holds the old map without that key, and all its keys are above it |
| Deletion.LeftSpliced | Tree.java:399-403 | after the least entry is cut from the left subtree, it is also the least entry of w, and w without it stays ordered with that key removed from its map |
| Deletion.SuccessorMoved | Tree.java:390-394 | copying the right subtree's least entry into the deleted node keeps the tree ordered, and its map is the old map without the deleted key |
| Deletion.SuccessorContents | Tree.java:390-394 | the node that receives the successor's entry maps exactly the old keys except the deleted one |
| Deletion.Delete | Tree.java:372-395 | deleting an absent key changes nothing; an ordered subtree stays ordered and its map loses k |
| Deletion.DeleteBasisBalance | Tree.java:411-425 | the defect deleteBasis reports is the black-height change it makes |
| Deletion.DeleteRestoreBalance | Tree.java:426-498 | deleteRestore turns the state after a child's deletion into a subtree that is balanced, or one black short with the defect still set |
| Deletion.RepairLeft | Tree.java:436-464 | Cases 1-4 with a black shrunk child: each case delivers the outcome promised to the parent |
| Deletion.PushDownLeft | Tree.java:439-450 | Case 1: the repair one level down succeeds, or leaves Case 2 there, which the now red parent absorbs; either way the subtree is balanced at its old black height |
| Deletion.SiblingRotatedLeft | Tree.java:439-450 | Case 1 leaves the sibling on top, black, with the repaired old parent (flipped black if a defect came back) as its left child |
| Deletion.RecolorSiblingLeft | Tree.java:451-452 | Case 2: the sibling turns red and the subtree is one black short, keeping its root colour, with the defect still set |
| Deletion.NearNephewLeft | Tree.java:453-464 | Case 3 followed by Case 4 produces the rotated shape with the near nephew on top |
| Deletion.FarNephewLeft | Tree.java:453-464 | Case 4 produces the rotated shape with the sibling on top and its red child recoloured |
| Deletion.NearNephewBalanced | Tree.java:453-464 | the shape Case 3 produces is balanced at the parent's black height, keeping the parent's colour |
| Deletion.FarNephewBalanced | Tree.java:453-464 | the shape Case 4 produces is balanced at the parent's black height, keeping the parent's colour |
| Deletion.RotateAwayLeft | Tree.java:453-464 | Cases 3 and 4 end the defect with the subtree balanced at its old black height |
| Deletion.RepairRight | Tree.java:466-495 | Cases 5-8, the mirror image of RepairLeft |
| Deletion.PushDownRight | Tree.java:469-480 | Case 5, the mirror image of Case 1 |
| Deletion.SiblingRotatedRight | Tree.java:469-480 | the shape Case 5 leaves, the mirror image of Case 1 |
| Deletion.RecolorSiblingRight | Tree.java:481-482 | Case 6, the mirror image of Case 2 |
| Deletion.NearNephewRight | Tree.java:483-494 | Case 7 followed by Case 8 produces the rotated shape with the near nephew on top |
| Deletion.FarNephewRight | Tree.java:483-494 | Case 8 produces the rotated shape with the sibling on top and its red child recoloured |
| Deletion.NearNephewBalancedMirror | Tree.java:483-494 | the shape Case 7 produces is balanced at the parent's black height |
| Deletion.FarNephewBalancedMirror | Tree.java:483-494 | the shape Case 8 produces is balanced at the parent's black height |
| Deletion.RotateAwayRight | Tree.java:483-494 | Cases 7 and 8 end the defect with the subtree balanced at its old black height |
| Deletion.DeleteGeneralBalance | Tree.java:396-410 | removing the leftmost node reports the black-height change it makes |
| Deletion.DeleteBalance | Tree.java:372-395 | deletion from a balanced subtree delivers what its parent's repair step expects: balanced, or one black short with the defect set |
| Deletion.DeleteKeepsRedBlack | Tree.java:366-371 | the public delete turns a valid red-black tree into a valid red-black tree |
| Deletion.FindAfterDelete | Tree.java:364-395 | after delete(k), find(k) finds nothing and every other key finds what it found before |
| RedBlackTree.Tree.constructor | Tree.java:121 | a new tree is empty and valid |
| RedBlackTree.Tree.Find | Tree.java:129-131 | find returns the item stored under k, or None when k is absent |
| RedBlackTree.Tree.Min | Tree.java:157-159 | min returns the least key, or None exactly when the tree is empty |
| RedBlackTree.Tree.Max | Tree.java:182-184 | max returns the greatest key, or None exactly when the tree is empty |
| RedBlackTree.Tree.Next | Tree.java:208-210 | next returns the least key above k, or None when there is none |
| RedBlackTree.Tree.Prev | Tree.java:243-245 | prev returns the greatest key below k, or None when there is none |
| RedBlackTree.Tree.Insert | Tree.java:276-280 | the tree stays ordered and valid, and its map becomes the old map with k bound to x |
| RedBlackTree.Tree.Delete | Tree.java:366-371 | the tree stays ordered and valid, its map loses k, and an absent key leaves the root unchanged |
| RedBlackTree.Tree.IsEmpty | Tree.java:502-505 | empty is true exactly when the tree holds no key |
| RedBlackTree.Tree.Size | Tree.java:509-512 | size returns the number of keys in the tree |
| RedBlackTree.Tree.Clear | Tree.java:520-524 | after clear the tree is empty and valid |
| RedBlackTree.Tree.Copy | Tree.java:537-542 | copy returns a new tree object whose root has the same shape, keys, items and colours |
| RedBlackTree.Tree.IsValid | Tree.java:589-597 | valid() returns true exactly when the root is black, no red node has a red child, and every path has the same black height |

## Left out

- The node pool (Tree.java:17, 50-103) is left out: `allocate`, the block refill and `free`. Building a datatype value stands in for allocation, and a node that is no longer referenced simply disappears. For the same reason, `clear` does not free nodes one by one (Tree.java:525-533).
- The `dump` routines (Tree.java:609-624) only print, so they are left out.
- The helpers update nodes in place in Java, and the model does not capture that. The model builds new values instead, so it says nothing about aliasing between nodes, and nothing about the shared sentinel `nil` (Tree.java:113) as one object. The same applies to `Tree.Copy`, whose Java version allocates new nodes that share the items with the original (a shallow copy). The model states only that the copy has an equal value.
- The flips, rotations, `Left` and `Right` are total in the model: on the sentinel they return their argument unchanged. In Java, some of these calls would dereference a null link, or recolour the shared sentinel. No call does either on a valid tree.
- `deleteRestore` decides which side shrank by the reference test `w == v.left` (Tree.java:436). The model passes the side as the parameter `fromLeft`, which every call site knows. The two differ only when both children are the sentinel and the right side shrank. On a valid tree that cannot happen, because a defect means the sibling's black height is at least one.
- The recursive `clear(Node)` is left out. `Clear` only resets the root.
- Items are a type parameter `T`; the tree never inspects them. `find` returns `Option<T>` rather than `null`. The model therefore also tells apart a stored `null` item from a missing key, which Java cannot.
- RedBlackTree.Tree.Size: returns an unbounded `nat`. Java's `int` count would wrap past 2^31 - 1 nodes, and the model does not model that wrap-around.
- RedBlackTree.Tree.Find, Min, Max, Next, Prev, Size, Insert and Delete require the class invariant `Valid()`. Java does not check it, but every public mutator keeps it, starting from the empty tree.
- `valid()` does not check key ordering, and neither does `IsValid`.
- The O(log n) running-time claims in the comments are not modelled as costs. `RedBlack.Balanced` proves the height bound they rest on.
