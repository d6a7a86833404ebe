# AVL and Red-Black insertion, modelled in Dafny

This project models the two insert-only search trees of the repository
souperb/AVL-vs-Red-Black-Trees: the `AVL` class (AVL.java) and the `RedBlack`
class (RedBlack.java). Both are written as classes of mutable nodes whose
`insert` calls a recursive `addNode`. That recursion passes decisions from
one level to the next through instance fields. In AVL these are the two-node
trail `trail1`/`trail2`. In RedBlack they are `trail`, which becomes a new
node's `parent`, plus the `violation` flag and the four pending-rotation
flags `abc`, `cba`, `acb` and `cab`.

Each tree is modelled twice and the two are connected:

- `avl_spec.dfy` (module `AvlSpec`) and `redblack_spec.dfy` (module
  `RedBlackSpec`) are functional models. A tree is a datatype that records
  every node's key and its cached `height` field, which may be stale. The
  red-black tree also records each node's `colour`. `AvlSpec.Add` and
  `RedBlackSpec.AddNode` follow `addNode` branch by branch, with the trail or
  the flags threaded through the recursion as values. The lemmas prove what
  the code guarantees on these values, and, for the red-black tree, what it
  gets wrong.
- `avl.dfy` (module `Avl`) and `redblack.dfy` (module `RedBlack`) are heap
  models. `Avl.AvlTree` and `RedBlack.RedBlackTree` keep the Java fields.
  Their `Node` classes have mutable `left`, `right` and `height` (and in
  RedBlack also `colour` and `parent`); the ghost fields `Repr` and `Model`
  hold each node's footprint and the subtree it stands for. Every method
  updates nodes in place as the Java code does and is proved to produce the
  functional model's result.
- `sequences.dfy` (module `Sequences`) holds the facts about strictly
  increasing sequences that both functional models use. A search tree's
  in-order sequence is one.
- Red-black parent links are part of `RedBlack.Node.Valid`: every child
  points back at the node holding it, and `RedBlackTree.Valid` requires the
  root's `parent` to be null. One level of `addNode` reads and writes the
  parent and the uncle through `node.parent`. The heap methods take the
  parent, the sibling, the parent's colour and the sibling's model as ghost
  parameters. Their contracts say exactly which colours the level below may
  change there.

What the red-black code does as written, proved as lemmas:

- The double rotations (`acb`, `cab`) paint the wrong node black. Inserting
  a < b < c in the order a, c, b or c, a, b leaves a black root b with one
  red leaf and one black leaf. Black heights are then unequal
  (`RedBlackSpec.ThreeKeysAnyOrder`, `RedBlackSpec.ThreeKeyColours`).
- Inserting d, a, e, c, b (for instance 50, 10, 80, 30, 20) leaves the red b
  with a red child a (`RedBlackSpec.FiveKeysLeaveRedPair`).
- The comments on `insert` and `addNode` (RedBlack.java:66, 80 and 110-111)
  say that a value already in the tree "is not added". It is indeed not
  added, but the tree can still be rebuilt: in that last tree, inserting a
  again rotates at the root (`RedBlackSpec.DuplicateRestructures`). It is a no-op on trees
  without a red node over a red child (`RedBlackSpec.DuplicateInsertKeepsTree`).

The colouring the double rotations evidently intend is modelled beside the
code as written. The comment above the flag block (RedBlack.java:113-114)
says its colour changes restore the red-black properties.
`RedBlackSpec.RedOverInner` paints the node red and b, the grandchild the
rotation lifts to the top, black. RedBlack.java paints c or a black instead.
`RedBlackSpec.ExecuteIntended` is the flag block with that repaint. It ends
ACB and CAB as ABC and CBA end: a black root over two red children
(`RedBlackSpec.IntendedDoubleRotationRecolours`). On the states the flag
block receives when a, c, b or c, a, b are inserted, the lemmas
`RedBlackSpec.IntendedRightLeftThree` and `RedBlackSpec.IntendedLeftRightThree`
compare both versions. As written, the result has a black leaf under the red
b. Intended, it is a red-black tree. The rest of the model keeps the code as
written, so the global colour invariants stay out of scope (see
"## Left out").

So no lemma here claims the red-black colour invariants. What is proved is
search-tree order, the key set, the height cache, parent links, a black
root, clear flags between calls, and the local colour facts of each branch.

## Model

Rows are grouped by tree, functional model first. Some heap methods exist
only to keep each proof small: a rotation's last writes, a single field
write. Each of them cites the Java lines it performs and names the Java
method it belongs to. `AvlSpec.AcbShape`, `AvlSpec.CabShape` and the members
of `Sequences` are proof helpers without rows. The two shape lemmas spell
out RotAcb and RotCab once, so that the heap proofs of ACBRotation and
CABRotation can use that form.

| member | source | states |
|---|---|---|
| `AvlSpec.WithHeight` | AVL.java:121-124 | updateHeight keeps the node's key and children, and sets its height to one more than the larger cached height of the children, an absent child counting 0; a node whose cache was right is unchanged |
| `AvlSpec.RotAbc` | AVL.java:154-168 | ABCRotation keeps the in-order sequence and returns b over a and c, with the inner subtree of b moved under a and every height recomputed |
| `AvlSpec.RotCba` | AVL.java:171-185 | CBARotation, the mirror image: same in-order sequence, b over a and c, b's right subtree moved under c |
| `AvlSpec.RotAcb` | AVL.java:188-204 | ACBRotation keeps the in-order sequence and lifts b, the left child of a's right child c, over a and c; b's two subtrees go to a and c |
| `AvlSpec.RotCab` | AVL.java:207-223 | CABRotation keeps the in-order sequence and lifts b, the right child of c's left child a, over a and c |
| `AvlSpec.Rotate` | AVL.java:139-147 | each rotation checkBalance may call keeps the in-order sequence |
| `AvlSpec.Rebalance` | AVL.java:134-150 | checkBalance returns its node unchanged when the cached child heights differ by at most 1, and keeps the in-order sequence otherwise |
| `AvlSpec.UnbalancedOnTrueHeights` | AVL.java:136 | the imbalance test of checkBalance (`Unbalanced`, on cached heights) holds exactly when the true heights of the children differ by more than one, provided the children's caches are right |
| `AvlSpec.Choose` | AVL.java:139-146 | for three distinct values, the rotation checkBalance picks leaves the node to the right (ABC, ACB) exactly when the node's key is below trail1's, and is a single rotation (ABC, CBA) exactly when both comparisons go the same way |
| `AvlSpec.ChooseFollowsPath` | AVL.java:139-146 | in a search tree, given the keys of the child and grandchild a rotation dereferences, the value tests choose that rotation, for each of the four paths |
| `AvlSpec.Add` | AVL.java:78-113 | addNode keeps the tree an AVL tree (heights cached, balanced, ordered); the keys become old keys plus value; a present key leaves the tree unchanged; the height grows by at most one, and when it grows the trail names the root and its taller child |
| `AvlSpec.CachedHeight` | AVL.java:291-294 | when every cached height is right, getNodeHeight of the root is the true height of the tree |
| `AvlSpec.AvlIsHeightBalanced` | AVL.java:136 | with a consistent cache, the balance test of checkBalance at every node is the AVL property on true heights |
| `AvlSpec.OrderedIffIncreasing` | AVL.java:88-110 | strict search-tree order holds exactly when the in-order sequence is strictly increasing |
| `AvlSpec.SameInOrder` | AVL.java:153-223 | trees with the same in-order sequence have the same keys and the same order status, so a rotation keeps both |
| `AvlSpec.TrailPicksRotationLeft` | AVL.java:83-96 | when a left insertion unbalances the node, trail1 and trail2 hold the values of its new left child and of that child's taller child, both real nodes, and the value tests of checkBalance choose CBA for left-left and CAB for left-right |
| `AvlSpec.TrailPicksRotationRight` | AVL.java:98-106 | the mirror image: ABC for right-right and ACB for right-left |
| `AvlSpec.BalancedAfterCba` | AVL.java:171-185 | a left-left imbalance of two becomes, after CBARotation, a balanced subtree with the height it had before the insertion |
| `AvlSpec.BalancedAfterCab` | AVL.java:207-223 | the same for left-right after CABRotation |
| `AvlSpec.BalancedAfterAbc` | AVL.java:154-168 | the same for right-right after ABCRotation |
| `AvlSpec.BalancedAfterAcb` | AVL.java:188-204 | the same for right-left after ACBRotation |
| `AvlSpec.AddedLeft` | AVL.java:88-96 | the left branch of addNode: the rotation checkBalance selects has the nodes it dereferences, and the result meets every guarantee of Add |
| `AvlSpec.AddedRight` | AVL.java:98-106 | the same for the right branch |
| `AvlSpec.LeftStep` | AVL.java:89-96 | the way back up a left branch (attach, updateHeight, checkBalance, move the trail) meets the guarantees of Add |
| `AvlSpec.RightStep` | AVL.java:99-106 | the same for the right branch |
| `AvlSpec.InsertIntoEmpty` | AVL.java:79-86 | an absent node becomes a leaf of height 1; trail1 names it and trail2 is null |
| `AvlSpec.AddToLeafRight` | AVL.java:98-106 | a larger key below a leaf becomes its right child, the height becomes 2, and the trail names the leaf and the new child |
| `AvlSpec.AddToLeafLeft` | AVL.java:88-96 | the same on the left |
| `AvlSpec.RightRightRotation` | AVL.java:139-140 | a < b < c with c added below a's right child b: ABCRotation gives b over a and c |
| `AvlSpec.LeftLeftRotation` | AVL.java:141-142 | the mirror image through CBARotation |
| `AvlSpec.RightLeftRotation` | AVL.java:143-144 | b added between a and its right child c: ACBRotation gives b over a and c |
| `AvlSpec.LeftRightRotation` | AVL.java:145-146 | the mirror image through CABRotation |
| `AvlSpec.InsertThree` | AVL.java:63-65 | three keys inserted one after another into a fresh AVL object give an AVL tree holding exactly those keys |
| `AvlSpec.ThreeKeysAnyOrder` | AVL.java:134-223 | in all six orders of a < b < c (10, 20, 30 among them) the tree is b over the leaves a and c, of height 2 |
| `Avl.Node.constructor` | AVL.java:49-54 | a new node has height 1, no children and stands for a leaf |
| `Avl.NodeHeight` | AVL.java:294 | getNodeHeight is the cached height, 0 for null |
| `Avl.NodeValueOfModel` | AVL.java:297 | getNodeValue (`Avl.NodeValue`) of a valid node is the key of the subtree it stands for, and the sentinel -1 for null |
| `Avl.AvlTree.constructor` | AVL.java:24-28 | an empty tree with both trail fields null |
| `Avl.AvlTree.Insert` | AVL.java:63-65 | the root and the trail become Add's result, the tree stays an AVL tree, and the keys gain exactly value |
| `Avl.AvlTree.GetTreeHeight` | AVL.java:291 | getTreeHeight returns the true height of the tree |
| `Avl.AvlTree.AddNode` | AVL.java:78-113 | the subtree returned and the trail fields left behind are those of Add, with new nodes only where the tree grew |
| `Avl.AvlTree.AddLeft` | AVL.java:88-96 | the left branch in place: subtree and trail as Add says |
| `Avl.AvlTree.AddRight` | AVL.java:98-106 | the right branch in place |
| `Avl.AvlTree.AttachLeft` | AVL.java:89-96 | `node.left := sub`, updateHeight, checkBalance and the new trail give LeftStep's subtree and trail |
| `Avl.AvlTree.AttachRight` | AVL.java:99-106 | the same for the right branch and RightStep |
| `Avl.AvlTree.FinishLeft` | AVL.java:92-96 | checkBalance with the trail fields, then trail1 is the returned node and trail2 its left child |
| `Avl.AvlTree.FinishRight` | AVL.java:102-106 | the same with the right child |
| `Avl.AvlTree.CheckBalance` | AVL.java:134-150 | the subtree becomes Rebalance's result for the trail values passed in; a balanced node is returned itself |
| `Avl.AvlTree.AbcRotation` | AVL.java:154-168 | in place, the rotated nodes form RotAbc of the old subtree, over the same node set |
| `Avl.AvlTree.CbaRotation` | AVL.java:171-185 | in place, RotCba of the old subtree |
| `Avl.AvlTree.AcbRotation` | AVL.java:188-204 | in place, RotAcb of the old subtree |
| `Avl.AvlTree.CabRotation` | AVL.java:207-223 | in place, RotCab of the old subtree |
| `Avl.AvlTree.AbcTail` | AVL.java:161-165 | the end of ABCRotation (`b.left := a`, updateHeight(c), updateHeight(b)) leaves b valid over a and c with the model RotAbc describes |
| `Avl.AvlTree.CbaTail` | AVL.java:178-182 | the end of CBARotation (`b.right := c`, updateHeight(a), updateHeight(b)) leaves b valid over a and c with the model RotCba describes |
| `Avl.AvlTree.DoubleRotate` | AVL.java:194-201 | the four link writes and three height updates shared by ACB and CAB leave b over a and c with the expected models |
| `Avl.AvlTree.DoubleTail` | AVL.java:195-201 | part of ACBRotation and CABRotation: `c.left := b.right` with updateHeight(c), then Hoist, leaves b over a and c with the expected model |
| `Avl.AvlTree.Hoist` | AVL.java:196-201 | the end of ACBRotation and CABRotation: `b.left := a`, `b.right := c` and updateHeight(b) |
| `Avl.AvlTree.UpdateHeight` | AVL.java:121-124 | node's height field becomes WithHeight of its model; nothing else changes |
| `Avl.AvlTree.LinkLeft` | AVL.java:89-91 | a left-link write followed by updateHeight (as in addNode and in the rotations) gives the node the expected footprint and model |
| `Avl.AvlTree.LinkRight` | AVL.java:99-101 | the same for a right-link write |
| `RedBlackSpec.WithHeight` | RedBlack.java:275-278 | updateHeight keeps key, colour and children and sets the height to one more than the larger cached child height, an absent child counting 0 |
| `RedBlackSpec.Fresh` | RedBlack.java:54-61 | a node as the Node constructor makes it is a red leaf holding only its key: ordered, cached, height 1, and itself a red-black tree |
| `RedBlackSpec.Paint` | RedBlack.java:116-117 | a colour write changes nothing but the colour: same keys, in-order sequence, order and cache |
| `RedBlackSpec.RotAbc` | RedBlack.java:182-200 | ABCRotation keeps the in-order sequence and every node's colour, and returns b over a and c |
| `RedBlackSpec.RotCba` | RedBlack.java:203-221 | CBARotation, the mirror image |
| `RedBlackSpec.RotAcb` | RedBlack.java:224-246 | ACBRotation keeps the in-order sequence and colours and lifts b over a and c |
| `RedBlackSpec.RotCab` | RedBlack.java:249-271 | CABRotation, the mirror image |
| `RedBlackSpec.RedOverBlack` | RedBlack.java:115-134 | before a rotation the node turns red and its child on the named side black; order and cache are kept |
| `RedBlackSpec.Execute` | RedBlack.java:115-135 | the flag block runs the raised rotation (at most one is raised) and keeps the in-order sequence and the cache; afterwards no rotation flag is raised and violation is unchanged; with no flag raised the subtree is unchanged |
| `RedBlackSpec.Handle` | RedBlack.java:139-175 | the violation block only acts when violation is raised below a parent; then it clears violation, and it recolours exactly when the sibling is red |
| `RedBlackSpec.Resolve` | RedBlack.java:141-170 | a red sibling paints this node black and reports the recolouring; a black sibling leaves the subtree alone |
| `RedBlackSpec.BlackUncleFlags` | RedBlack.java:148-169 | with no rotation pending, a black sibling leaves the subtree alone and flags cba (left side, red left child), cab (left side, only the right child red), acb or abc likewise on the right; some flag is raised exactly when a child is red, and at most one |
| `RedBlackSpec.BlackUncleFlagsRotation` | RedBlack.java:139-174 | a double red under a parent with a black sibling, at a node with a red child, always ends with violation cleared, the subtree unchanged and exactly one rotation flagged, on the parent's side the node hangs on and for the side of its red child |
| `RedBlackSpec.Level` | RedBlack.java:113-175 | after the descent, the flag block then the violation block keep the in-order sequence and the cache; they recolour exactly when violation is raised below a parent with a red sibling; below a parent violation ends false, at the root it is left as it was; a recolouring leaves no rotation pending |
| `RedBlackSpec.LeftStep` | RedBlack.java:89-97 | the way back up a left branch keeps keys, order and cache, leaves no ABC or ACB pending, and raises violation only below a red node |
| `RedBlackSpec.RightStep` | RedBlack.java:100-107 | the mirror image for the right branch |
| `RedBlackSpec.AddNode` | RedBlack.java:85-178 | one call of addNode leaves an ordered subtree with the old keys plus the new one and a correct cache; it resolves any double red below a parent, flags at most one rotation and only for the side it hangs on, and recolours only under a red sibling |
| `RedBlackSpec.LeftCall` | RedBlack.java:89-91 | the descent to the left child is a well-defined call that meets AddNode's guarantees |
| `RedBlackSpec.RightCall` | RedBlack.java:100-102 | the descent to the right child, likewise |
| `RedBlackSpec.AddedAtLevel` | RedBlack.java:115-175 | the flag block and the violation block keep keys and order and leave the flags in the state the level above relies on |
| `RedBlackSpec.Insert` | RedBlack.java:70-73 | insert gives a black root, adds exactly value to the keys, keeps order and cache, and on a black root leaves every flag false |
| `RedBlackSpec.CachedHeight` | RedBlack.java:330-333 | with a consistent cache, getNodeHeight of the root is the true height |
| `RedBlackSpec.OrderedIffIncreasing` | RedBlack.java:89-108 | strict search-tree order holds exactly when the in-order sequence is strictly increasing |
| `RedBlackSpec.SameInOrder` | RedBlack.java:182-271 | trees with the same in-order sequence have the same keys and order status, so rotations keep both |
| `RedBlackSpec.FreshNodeIsRed` | RedBlack.java:54-61 | a new node is red, has height 1 and no children, and raises no flag |
| `RedBlackSpec.InsertIntoEmpty` | RedBlack.java:70-73 | the first key becomes a black root of height 1 |
| `RedBlackSpec.SingleRotationRecolours` | RedBlack.java:115-124 | after ABC or CBA the subtree has a black root over two red children |
| `RedBlackSpec.DoubleRotationLeavesRedRoot` | RedBlack.java:125-134 | after ACB or CAB the new root b is still red and has a red child, because the node painted black is c or a, not b |
| `RedBlackSpec.RedOverInner` | RedBlack.java:125-134 | the intended repaint before ACB/CAB: the node red, the inner grandchild b black, the middle node's colour and every moved subtree kept; in-order sequence and cache kept |
| `RedBlackSpec.ExecuteIntended` | RedBlack.java:115-135 | the flag block with the intended repaint: keeps the in-order sequence and cache, clears the same flags as the code, and agrees with it when no double rotation is pending |
| `RedBlackSpec.IntendedDoubleRotationRecolours` | RedBlack.java:125-134 | with the intended repaint ACB and CAB give a black root over two red children, given the red middle node the flag was raised under |
| `RedBlackSpec.IntendedRightLeftThree` | RedBlack.java:125-129 | inserting b below a and its red right child c reaches the flag block with acb raised; as written the result is red b over red a and black c, intended it is black b over red a and c, with no red pair and equal black heights |
| `RedBlackSpec.IntendedLeftRightThree` | RedBlack.java:130-134 | the mirror image with cab: as written black a under red b, intended a red-black tree |
| `RedBlackSpec.RedUncleRecoloursLeft` | RedBlack.java:141-146 | a red uncle: the node and the uncle end black and the parent red, with keys, heights and shape unchanged |
| `RedBlackSpec.RedUncleRecoloursRight` | RedBlack.java:156-161 | the mirror image |
| `RedBlackSpec.DuplicateKeepsTree` | RedBlack.java:85-178 | a present key, in a tree with no red node over a red child, changes nothing and raises no flag |
| `RedBlackSpec.DuplicateInsertKeepsTree` | RedBlack.java:65-73 | under the same condition, insert of a present key keeps the tree |
| `RedBlackSpec.Quiet` | RedBlack.java:115-175 | with no flag raised the flag block and the violation block change nothing |
| `RedBlackSpec.FirstToLeft` | RedBlack.java:89-97 | a smaller key below a black leaf becomes its red left child |
| `RedBlackSpec.SecondToRight` | RedBlack.java:100-107 | a larger key beside a red left child becomes the red right child |
| `RedBlackSpec.RedUncleAtDepthTwo` | RedBlack.java:139-146 | a key under a red child with a red uncle: both children turn black and the root stays black |
| `RedBlackSpec.RightLeftUnderLeft` | RedBlack.java:224-246 | ACB below the root's left child leaves b red over the red a |
| `RedBlackSpec.DuplicateUnderRedPair` | RedBlack.java:120-124 | inserting the present a again under the red pair b, a runs CBA at the root |
| `RedBlackSpec.AscendingThree` | RedBlack.java:115-119 | three ascending keys: ABC makes the middle key a black root over two red leaves |
| `RedBlackSpec.DescendingThree` | RedBlack.java:120-124 | three descending keys: CBA gives the same shape |
| `RedBlackSpec.RightLeftThree` | RedBlack.java:125-129 | a, c, b: ACB makes b the root but paints c black |
| `RedBlackSpec.LeftRightThree` | RedBlack.java:130-134 | c, a, b: CAB makes b the root but paints a black |
| `RedBlackSpec.SecondToRightOfLeaf` | RedBlack.java:100-107 | a larger key below a black leaf becomes its red right child |
| `RedBlackSpec.InsertThree` | RedBlack.java:70-73 | three keys inserted one after another give an ordered tree with those keys, a correct cache and a black root |
| `RedBlackSpec.MiddleFirst` | RedBlack.java:85-108 | with the middle key first, the other two become its red children in either order |
| `RedBlackSpec.ThreeKeysAnyOrder` | RedBlack.java:115-134 | all six orders of a < b < c put b at the black root; 10, 30, 20 gives a red a and a black c |
| `RedBlackSpec.ThreeKeyColours` | RedBlack.java:125-134 | the double-rotation results have no red pair but unequal black heights; the others are red-black trees |
| `RedBlackSpec.FiveKeysLeaveRedPair` | RedBlack.java:224-246 | 50, 10, 80, 30, 20 (any d, a, e, c, b) leaves the red 20 with the red child 10 |
| `RedBlackSpec.DuplicateRestructures` | RedBlack.java:65-73 | inserting a present key can rebuild the tree, so the promise on insert does not hold in general |
| `RedBlack.Node.constructor` | RedBlack.java:54-61 | a new node is red, has height 1, no children, and the given parent |
| `RedBlack.NodeHeight` | RedBlack.java:333 | getNodeHeight is the cached height, 0 for null |
| `RedBlack.NodeColour` | RedBlack.java:336 | getNodeColour is the colour, black for null |
| `RedBlack.NodeValueOfModel` | RedBlack.java:339 | getNodeValue (`RedBlack.NodeValue`) of a valid node is the key of the subtree it stands for, and the sentinel -1 for null |
| `RedBlack.RedBlackTree.constructor` | RedBlack.java:23-31 | an empty tree, no trail and all five flags false |
| `RedBlack.RedBlackTree.Insert` | RedBlack.java:70-73 | the tree becomes RedBlackSpec.Insert of the old one and stays valid: ordered, cached, black root without parent, consistent parent links, all flags false; the keys gain exactly value |
| `RedBlack.RedBlackTree.Plant` | RedBlack.java:71-72 | `root := r` and the root painted black |
| `RedBlack.RedBlackTree.GetTreeHeight` | RedBlack.java:330 | getTreeHeight returns the true height |
| `RedBlack.RedBlackTree.AddNode` | RedBlack.java:85-178 | in place, the subtree, the flags and the colours of parent and sibling become RedBlackSpec.AddNode's result; the returned node's parent is the old parent |
| `RedBlack.RedBlackTree.AddHere` | RedBlack.java:86-87 | a new red node whose parent is trail, then the flag and violation blocks |
| `RedBlack.RedBlackTree.DownLeft` | RedBlack.java:89-178 | the left branch to the end of addNode, as RedBlackSpec.AddNode says |
| `RedBlack.RedBlackTree.DownRight` | RedBlack.java:100-178 | the right branch, likewise |
| `RedBlack.RedBlackTree.AddLeft` | RedBlack.java:89-97 | `trail := node`, the insertion below the left child, the double-red check and updateHeight: the node becomes LeftStep's result |
| `RedBlack.RedBlackTree.AddRight` | RedBlack.java:100-107 | the mirror image with RightStep |
| `RedBlack.RedBlackTree.DescendLeft` | RedBlack.java:91-97 | with trail at node, the insertion below and the attach give LeftStep's result |
| `RedBlack.RedBlackTree.DescendRight` | RedBlack.java:102-107 | the mirror image |
| `RedBlack.RedBlackTree.HookLeft` | RedBlack.java:91 | the recursive call on the left child, with node as parent: result and flags as the functional model says, node and its right child recoloured only as reported |
| `RedBlack.RedBlackTree.HookRight` | RedBlack.java:102 | the mirror image |
| `RedBlack.RedBlackTree.AttachLeft` | RedBlack.java:91-97 | `node.left := sub`, the double-red check and updateHeight give LeftStep's node and flags |
| `RedBlack.RedBlackTree.AttachRight` | RedBlack.java:102-107 | the mirror image |
| `RedBlack.RedBlackTree.CheckAndUpdate` | RedBlack.java:93-97 | violation is raised exactly when node and that child are both red, and the height is recomputed |
| `RedBlack.RedBlackTree.DoubleRed` | RedBlack.java:93-95 | violation becomes true when both colours are red and is otherwise unchanged |
| `RedBlack.RedBlackTree.Level` | RedBlack.java:115-175 | the flag block then the violation block, in place, as RedBlackSpec.Level says |
| `RedBlack.RedBlackTree.ExecuteFlags` | RedBlack.java:115-135 | the flag block in place gives RedBlackSpec.Execute's subtree and flags |
| `RedBlack.RedBlackTree.RunAbc` | RedBlack.java:115-119 | the abc case: RotAbc of the repainted subtree, abc cleared |
| `RedBlack.RedBlackTree.RunCba` | RedBlack.java:120-124 | the cba case: RotCba of the repainted subtree, cba cleared |
| `RedBlack.RedBlackTree.RunAcb` | RedBlack.java:125-129 | the acb case: RotAcb of the repainted subtree, acb cleared |
| `RedBlack.RedBlackTree.RunCab` | RedBlack.java:130-134 | the cab case: RotCab of the repainted subtree, cab cleared |
| `RedBlack.RedBlackTree.RepaintAbc` | RedBlack.java:116-118 | the colour writes and the rotation of the abc case (part of RunAbc): the subtree becomes RotAbc of the repainted one, over the same nodes, under the same parent |
| `RedBlack.RedBlackTree.RepaintCba` | RedBlack.java:121-123 | the same for the cba case (part of RunCba) and RotCba |
| `RedBlack.RedBlackTree.RepaintAcb` | RedBlack.java:126-128 | the same for the acb case (part of RunAcb) and RotAcb |
| `RedBlack.RedBlackTree.RepaintCab` | RedBlack.java:131-133 | the same for the cab case (part of RunCab) and RotCab |
| `RedBlack.RedBlackTree.RedOverBlack` | RedBlack.java:116-117 | the node red, its child on the named side black, links unchanged |
| `RedBlack.RedBlackTree.HandleViolation` | RedBlack.java:139-175 | the violation block in place gives RedBlackSpec.Handle's subtree, flags and recolouring of parent and sibling |
| `RedBlack.RedBlackTree.Violated` | RedBlack.java:140-174 | the inside of the block: the side of the parent picks the sibling to look at, and violation ends false |
| `RedBlack.RedBlackTree.Resolve` | RedBlack.java:141-170 | red uncle: recolour; black uncle: flag a rotation, as RedBlackSpec.Resolve says |
| `RedBlack.RedBlackTree.MarkRotation` | RedBlack.java:149-170 | the flag raised for a black uncle is RedBlackSpec.Resolve's |
| `RedBlack.RedBlackTree.Recolour` | RedBlack.java:143-161 | node and sibling painted black, parent red, nothing else changed |
| `RedBlack.RedBlackTree.AbcRotation` | RedBlack.java:182-200 | in place, RotAbc of the old subtree over the same nodes; the new root gets the old root's parent and the moved subtree points at a |
| `RedBlack.RedBlackTree.CbaRotation` | RedBlack.java:203-221 | in place, RotCba, with the same parent fix-up |
| `RedBlack.RedBlackTree.AcbRotation` | RedBlack.java:224-246 | in place, RotAcb; b gets a's old parent, a and c point at b |
| `RedBlack.RedBlackTree.CabRotation` | RedBlack.java:249-271 | in place, RotCab; b gets c's old parent |
| `RedBlack.RedBlackTree.AbcTail` | RedBlack.java:190-197 | the end of ABCRotation: AbcLink, then `b.parent := p`; b is valid over a and c with the expected model and parent p |
| `RedBlack.RedBlackTree.AbcLink` | RedBlack.java:190-197 | part of ABCRotation: updateHeight(c), `b.left := a`, `a.parent := b` and updateHeight(b) leave b valid over a and c |
| `RedBlack.RedBlackTree.CbaTail` | RedBlack.java:211-218 | the end of CBARotation: CbaLink, then `b.parent := p`; b is valid over a and c with the expected model and parent p |
| `RedBlack.RedBlackTree.CbaLink` | RedBlack.java:211-218 | part of CBARotation: updateHeight(a), `b.right := c`, `c.parent := b` and updateHeight(b) leave b valid over a and c |
| `RedBlack.RedBlackTree.DoubleRotate` | RedBlack.java:230-245 | the link, parent and height writes shared by ACB and CAB leave b over a and c, with parent p |
| `RedBlack.RedBlackTree.DoubleLink` | RedBlack.java:230-243 | part of ACBRotation and CABRotation before `b.parent := p`: the link, parent-link and height writes leave b valid over a and c, b's parent untouched |
| `RedBlack.RedBlackTree.DoubleTail` | RedBlack.java:231-243 | part of the same: `c.left := b.right` with its parent link and updateHeight(c), then Hoist |
| `RedBlack.RedBlackTree.Hoist` | RedBlack.java:234-243 | the end of the same: `b.left := a`, `b.right := c`, `a.parent := b`, `c.parent := b` and updateHeight(b) |
| `RedBlack.RedBlackTree.UpdateHeight` | RedBlack.java:275-278 | the height field becomes WithHeight of the node's model |
| `RedBlack.RedBlackTree.LinkLeft` | RedBlack.java:209-217 | a left-link write with its parent fix-up, then updateHeight |
| `RedBlack.RedBlackTree.LinkRight` | RedBlack.java:188-195 | a right-link write with its parent fix-up, then updateHeight |
| `RedBlack.RedBlackTree.Reparent` | RedBlack.java:189 | a parent-link write (as `a.right.parent = a` in the rotations) keeps the node valid and sets its parent |
| `RedBlack.RedBlackTree.SetColour` | RedBlack.java:116-117 | a colour write on a node whose children may just have been repainted: the node is valid again over its children, with the new colour |
| `RedBlack.RedBlackTree.Paint` | RedBlack.java:144-146 | a colour write on a valid node: its model becomes RedBlackSpec.Paint of the old one |

## Left out

- Main.java: random input generation, the floating-point height ratio, the trial loop and console output. This is a benchmark driver, not part of the trees.
- `printTree`, `printNode` and `printParent` in both classes. They only write to the console.
- Bounds on the height in terms of the number of keys (logarithmic bounds). The code never states them, and they need real numbers.
- Java `int` overflow. Keys and heights are unbounded integers. The `-1` that `getNodeValue` returns for null is kept literally (`AvlSpec.Null`, `RedBlackSpec.Null`), as the trail comparisons in `checkBalance` use it.
- The `char` colour `'r'`/`'b'` is the datatype `Colour`. The code only ever stores and compares those two values.
- The red-black colour and black-height invariants are not claimed, because the code does not keep them. The lemmas under the model above show the inputs that break them.
- The rotations call updateHeight on each node as soon as its links are final, not after all links. updateHeight reads only the node's children and their heights, so the resulting heights are the same as in the Java order.
- In RedBlack's rotations, the write `b.parent = ...parent` is made last rather than before `a.parent = b`. Nothing in between reads b's parent.
- In RedBlack's violation block, `violation` is cleared first rather than last. In the flag block, each flag is cleared before its rotation rather than after. Nothing in between reads these flags.
- In RedBlack's flag block, the child is painted black before the node is painted red. The two writes go to different nodes.
- RedBlack.RedBlackTree.Insert: does not state which node `trail` points at afterwards. Only the next call's `node == null` branch reads it, and every call sets it before that read.
- RedBlack.RedBlackTree.AddNode: does not state the final `trail` either, for the same reason.
- Avl.AvlTree.Insert: states the trail fields only as the values `getNodeValue` reports for them. Those values are all that `checkBalance` reads.
