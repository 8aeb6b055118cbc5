# Self-balancing trees: AVL and Red-Black, in Dafny

This project models the two ordered containers of the Self-Balance-trees
repository and proves their invariants. Both hold `String` keys and offer
`insert`, `delete`, `search`, `getSize`, `getHeight` and three traversals.

- `AVLTree.java` is an AVL tree. Each node caches its height. After every
  structural change, `balanceTree` applies a single or double rotation.
  Insert and delete are recursive and return the new subtree root. A node
  with two children is replaced by its in-order predecessor.
- `RedBlackTree.java` is a red-black tree with parent pointers. Insert is an
  iterative descent followed by the red-red repair loop `fixViolation`.
  Delete copies the in-order successor, unlinks one node and runs the
  double-black repair loop `fixAfterDeletion`.

Files:

- `keys.dfy` (module `Keys`): `String.compareTo` on `seq<char>`, proved to
  be a strict total order. It also holds the order of a search tree, stated
  as a strictly increasing in-order key sequence.
- `avl.dfy` (module `AVL`): the AVL nodes as a datatype with the cached
  height, and every AVL operation as a function. The predecessor walk is a
  loop. The class `AVLTree` holds `root` and `size`.
- `rb.dfy` (module `RedBlack`): the red-black nodes, colours, rotations and
  invariants (no red node with a red child, equal black height on every
  path). Parent pointers are replaced by a zipper: a focused subtree plus
  the path of frames up to the root. `Plug` rebuilds the tree around a
  focus. A `Nil` focus with a non-empty path is an absent child at a known
  position, the black "nil" leaf of the textbook algorithm.
- `rb_insert.dfy` (module `RedBlackInsert`): the descent loop of `insert`
  and the `fixViolation` loop, each a method with loop invariants. Each
  case of the repair is a lemma.
- `rb_delete.dfy` (module `RedBlackDelete`): `getMinimum`, `deleteNode` and
  the `fixAfterDeletion` loop, and the as-written behaviour of deletion on
  a null child (see Findings).
- `rb_tree.dfy` (module `RedBlackTrees`): the class `RedBlackTree` with
  `root` and `size`, plus scenarios taken from the JUnit tests.

The class invariants (`Valid`) hold after every public operation:

- AVL: search-tree order, correct cached heights, and `|balance| <= 1` at
  every node.
- Red-Black: search-tree order, a black root, no red-red edge, and uniform
  black height.
- Both: `size` equals the number of keys.

Insert and delete state their result flag, the new key set (old keys plus
or minus exactly one key) and the new size. Duplicates are refused, and so
are deletions of absent keys.

## Model

| member | source | states |
|---|---|---|
| Keys.CompareTo | AVLTree.java:86-89 | `compareTo` is 0 exactly when the two strings are equal |
| Keys.CompareToAntisymmetric | RedBlackTree.java:41-45 | swapping the operands of `compareTo` negates the result, so "neither < 0 nor > 0" means equal |
| Keys.LessTransitive | RedBlackTree.java:41-45 | `a < b` and `b < c` imply `a < c` for the key order |
| Keys.LessTrichotomy | AVLTree.java:86-90 | any two keys are ordered one way, the other way, or equal, and never both ways |
| Keys.SortedNoDuplicates | AVLTree.java:77 | a tree in search order holds each key at most once |
| AVL.CachedHeightIsTrue | AVLTree.java:17-22 | when every node's cache was set by `updateHeight`, `height(node)` is the true height (0 for null) |
| AVL.PositiveHeightIsNode | AVLTree.java:17-22 | a subtree's cached height is positive exactly when it is a node |
| AVL.Height | AVLTree.java:17-22 | `height(node)`: 0 for null, otherwise the node's cached field; AVL.CachedHeightIsTrue shows it is the true height |
| AVL.Balance | AVLTree.java:23-28 | `balance(node)`: 0 for null, otherwise the right child's height minus the left child's |
| AVL.InOrder | AVLTree.java:149-155 | the keys `traverseInOrder` prints: left subtree, node, right subtree; empty exactly for an absent node |
| AVL.PreOrder | AVLTree.java:160-166 | the keys `traversePreOrder` prints: node, left subtree, right subtree |
| AVL.PostOrder | AVLTree.java:171-177 | the keys `traversePostOrder` prints: left subtree, right subtree, node |
| AVL.UpdateHeight | AVLTree.java:29-33 | keys unchanged; when both children's heights are correct, so is the node's |
| AVL.RightRotate | AVLTree.java:34-42 | the left child becomes the root, the in-order keys are unchanged, and both moved nodes have correct heights |
| AVL.LeftRotate | AVLTree.java:43-51 | the mirror image: the right child becomes the root, same keys, correct heights |
| AVL.BalanceTree | AVLTree.java:53-74 | the result is a node with correct heights and the same in-order keys |
| AVL.LeftRotateRebalances | AVLTree.java:56-62 | right-right case (balance > 1, right child balance >= 0): one left rotation gives an AVL-shaped subtree, height grows by 2 or 3 over the left child's |
| AVL.RightLeftRotateRebalances | AVLTree.java:57-59 | right-left case: rotating the right child right, then the node left, gives an AVL-shaped subtree of height left + 2 |
| AVL.RightRotateRebalances | AVLTree.java:64-71 | left-left case: one right rotation gives an AVL-shaped subtree |
| AVL.LeftRightRotateRebalances | AVLTree.java:66-68 | left-right case: rotating the left child left, then the node right, gives an AVL-shaped subtree of height right + 2 |
| AVL.BalanceTreeRestores | AVLTree.java:53-74 | with AVL-shaped children whose heights differ by at most 2, `balanceTree` returns an AVL-shaped subtree whose height is the children's maximum or one more; with heights differing by at most 1 it only updates the height |
| AVL.BalanceTreeIdle | AVLTree.java:73 | an already balanced node comes back unchanged |
| AVL.RebuildLeft | AVLTree.java:86-91 | replacing the left child by an AVL subtree whose height moved by at most one, then rebalancing, yields an AVL tree; its height is the old children's maximum plus 1 or 2 when the child grew, plus 0 or 1 when it shrank |
| AVL.RebuildRight | AVLTree.java:88-91 | the same for the right child |
| AVL.InsertAt | AVLTree.java:82-92 | the recursive insert returns a node with correct cached heights |
| AVL.InsertAtCorrect | AVLTree.java:82-92 | insert keeps the AVL invariant; a present key leaves the tree unchanged; an absent key is added exactly once in order; the height grows by 0 or 1 |
| AVL.InsertLeft | AVLTree.java:86-87 | the same, for a key that descends to the left |
| AVL.InsertRight | AVLTree.java:88-89 | the same, for a key that descends to the right |
| AVL.Rightmost | AVLTree.java:107-111 | the node the predecessor walk stops at has no right child |
| AVL.RightmostIsMaximum | AVLTree.java:131-133 | that node holds the largest key of the subtree, and the key is present |
| AVL.GetPredecessor | AVLTree.java:107-111 | the `while` loop returns exactly the rightmost node |
| AVL.DeleteAt | AVLTree.java:113-138 | the recursive delete returns a subtree with correct cached heights |
| AVL.DeleteAtCorrect | AVLTree.java:113-138 | delete keeps the AVL invariant; an absent key changes nothing; the keys lose exactly the deleted one; the height drops by 0 or 1 |
| AVL.DeleteLeft | AVLTree.java:118-119 | the same, when the key lies in the left subtree |
| AVL.DeleteRight | AVLTree.java:120-121 | the same, when the key lies in the right subtree |
| AVL.DeleteSplice | AVLTree.java:123-129 | a node with at most one child is replaced by that child; the result is AVL and lacks exactly the key |
| AVL.DeleteWithPredecessor | AVLTree.java:131-137 | a node with two children takes its predecessor's key and the predecessor is deleted from the left subtree; the result is AVL and lacks exactly the key |
| AVL.SearchAt | AVLTree.java:97-106 | the recursive search returns null or the node holding the key |
| AVL.SearchAtCorrect | AVLTree.java:97-106 | in a search tree, it finds a node exactly when the key is present |
| AVL.TraversalsArePermutations | AVLTree.java:145-177 | pre-order and post-order visit the same keys as in-order |
| AVL.KeysAtMost | AVLTree.java:178-180 | a subtree of height h holds fewer than 2^h keys |
| AVL.KeysAtLeast | AVLTree.java:53-74 | an AVL-shaped subtree of height h holds at least the Fibonacci-like minimum for h |
| AVL.HeightBounds | AVLTree.java:178-183 | in an AVL tree, `getHeight()` is the true height, bounded on both sides by the size |
| AVL.ThreeKeysHeightTwo | AVLTreeJUnitTest.java:83-121 | any AVL tree with three keys has height 2 |
| AVL.AVLTree.constructor | AVLTree.java:15-16 | a new tree is empty with size 0 and satisfies the invariant |
| AVL.AVLTree.Search | AVLTree.java:94-96 | `search` is true exactly when the key is held |
| AVL.AVLTree.Insert | AVLTree.java:75-81 | a duplicate returns false and changes nothing; otherwise the key set gains exactly the key and size grows by 1; the invariant is kept; the height grows by 0 or 1 |
| AVL.AVLTree.Delete | AVLTree.java:139-144 | an absent key returns false and changes nothing; otherwise the key set loses exactly the key and size drops by 1; the invariant is kept; the height drops by 0 or 1 |
| AVL.AVLTree.GetHeight | AVLTree.java:178-180 | the cached root height is the true height |
| AVL.AVLTree.GetSize | AVLTree.java:181-183 | `size` is the number of keys held |
| AVL.AVLTree.TraverseInOrder | AVLTree.java:145-155 | the printed sequence is strictly increasing, has `size` keys, and holds exactly the searchable keys |
| AVL.AVLTree.TraversePreOrder | AVLTree.java:156-166 | every key once, the root first |
| AVL.AVLTree.TraversePostOrder | AVLTree.java:167-177 | every key once, the root last |
| AVL.ThreeInsertions | AVLTreeJUnitTest.java:83-121 | three distinct keys inserted in any order give size 3 and height 2 (the four rotation tests) |
| AVL.EmptyTree | AVLTreeJUnitTest.java:215-221 | an empty tree has size 0 and height 0, and deletion returns false |
| RedBlack.InOrder | RedBlackTree.java:197-203 | the keys `inOrderTraversal` prints: left subtree, node, right subtree; empty exactly for an absent node |
| RedBlack.PreOrder | RedBlackTree.java:204-210 | the keys `preOrderTraversal` prints: node, left subtree, right subtree |
| RedBlack.PostOrder | RedBlackTree.java:224-230 | the keys `postOrderTraversal` prints: left subtree, right subtree, node |
| RedBlack.Height | RedBlackTree.java:327-332 | `getHeight(node)`: 0 for null, otherwise one more than the larger child height |
| RedBlack.Plug | RedBlackTree.java:102-113 | the parent links: rebuilding the tree from a focused subtree and its path, as `rotateLeft` and `rotateRight` relink `node.parent.left` or `node.parent.right` (or `root`) to the new subtree root |
| RedBlack.Paint | RedBlackTree.java:185 | recolouring a node keeps its keys and children; an absent node stays absent |
| RedBlack.RotateLeft | RedBlackTree.java:95-114 | the right child takes the node's place and the in-order keys are unchanged |
| RedBlack.RotateRight | RedBlackTree.java:115-134 | the mirror image of `rotateLeft` |
| RedBlack.RotationsInverse | RedBlackTree.java:95-134 | `rotateRight` undoes `rotateLeft`, and each node keeps its colour |
| RedBlack.RotateLeftKeepsColors | RedBlackTree.java:95-114 | every key stays in order and keeps the colour of its node |
| RedBlack.RotateRightKeepsColors | RedBlackTree.java:115-134 | the same for `rotateRight` |
| RedBlack.PlugInOrder | RedBlackTree.java:6-18 | the keys of the whole tree are those left of the focus, then the focus, then those right of it |
| RedBlack.PlugBalanced | RedBlackTree.java:6-18 | the whole tree has uniform black height exactly when the focus has and the path expects the focus's black height |
| RedBlack.PlugRoot | RedBlackTree.java:104-105 | with no parent the focus is the root; otherwise the root is the top frame's node |
| RedBlack.PaintBlack | RedBlackTree.java:185 | painting the root black cannot create a red-red edge or break uniform black height |
| RedBlack.TraversalsArePermutations | RedBlackTree.java:197-230 | pre-order and post-order visit the same keys as in-order |
| RedBlack.SearchNode | RedBlackTree.java:187-195 | `searchNode` returns a position in the same tree, and a node it returns holds the key |
| RedBlack.SearchNodeFinds | RedBlackTree.java:187-195 | in a search tree, `searchNode` returns a node exactly when the key is present |
| RedBlack.KeysAtLeastBh | RedBlackTree.java:327-332 | a subtree with black height b holds at least 2^b - 1 keys |
| RedBlack.HeightAtMostTwiceBh | RedBlackTree.java:327-332 | without red-red edges, `getHeight` is at most twice the black height (plus one below a red root) |
| RedBlack.KeysAtMost | RedBlackTree.java:327-332 | a subtree of height h holds fewer than 2^h keys |
| RedBlack.HeightBounds | RedBlackTree.java:324-332 | a red-black tree with n keys and height h has 2^ceil(h/2) <= n + 1 and n < 2^h |
| RedBlack.NoBlackIsSmall | RedBlackTree.java:327-332 | a balanced subtree with black height 0 is absent or a single red leaf |
| RedBlack.ThreeKeysHeightTwo | AVLTreeJUnitTest.java:254-292 | any red-black tree with three keys has height 2 |
| RedBlackInsert.SwapColorsRight | RedBlackTree.java:158-160 | the parent and the grandparent exchange colours; keys unchanged |
| RedBlackInsert.SwapColorsLeft | RedBlackTree.java:178-180 | the same on the mirror side |
| RedBlackInsert.InsertStep | RedBlackTree.java:140-183 | one pass of the `fixViolation` loop yields a node with the same in-order keys as the grandparent's subtree |
| RedBlackInsert.InsertStepLocal | RedBlackTree.java:143-183 | under a red parent and a black grandparent, one pass yields a subtree with no red-red edge, uniform black height, and black height one more than the node's |
| RedBlackInsert.RecolorUnderLeft | RedBlackTree.java:146-150 | red uncle on the right: recolouring gives a valid subtree one black level higher |
| RedBlackInsert.RecolorUnderRight | RedBlackTree.java:166-170 | red uncle on the left: the same |
| RedBlackInsert.RotateInnerUnderLeft | RedBlackTree.java:152-161 | black uncle, node is a right child under a left parent: the two rotations and the colour swap give a valid subtree |
| RedBlackInsert.RotateInnerUnderRight | RedBlackTree.java:172-181 | the mirror case |
| RedBlackInsert.RotateOuterUnderLeft | RedBlackTree.java:157-161 | black uncle, node on the outside: one rotation and the colour swap give a valid subtree |
| RedBlackInsert.RotateOuterUnderRight | RedBlackTree.java:177-181 | the mirror case |
| RedBlackInsert.InsertStepKeeps | RedBlackTree.java:139-184 | each loop pass keeps the loop invariant two levels up and keeps the keys of the whole tree |
| RedBlackInsert.InsertFixDone | RedBlackTree.java:139-185 | when the loop stops, painting the root black gives a black root, no red-red edge and uniform black height, with the same keys |
| RedBlackInsert.FindInsertionPoint | RedBlackTree.java:38-49 | the descent loop reports a duplicate exactly when the key is present; otherwise it ends at the empty place whose left keys are smaller and right keys larger |
| RedBlackInsert.DescendLeft | RedBlackTree.java:42-43 | going left below a larger key keeps the bounds and the presence of the key |
| RedBlackInsert.DescendRight | RedBlackTree.java:44-45 | going right below a smaller key keeps them too |
| RedBlackInsert.FixViolation | RedBlackTree.java:135-186 | the loop ends with a black root, no red-red edge, uniform black height and the same in-order keys; a new root is just painted black |
| RedBlackInsert.NewLeafStartsFix | RedBlackTree.java:51-59 | linking a new red leaf into a red-black tree establishes the invariant of the `fixViolation` loop |
| RedBlackInsert.NewLeafKeys | RedBlackTree.java:51-55 | the new leaf keeps search order and adds exactly its key |
| RedBlackDelete.RedSiblingLeft | RedBlackTree.java:268-273 | case 1: after the rotation the node has a red parent whose new right child is the old sibling's left child |
| RedBlackDelete.RedSiblingRight | RedBlackTree.java:292-297 | the mirror of case 1 |
| RedBlackDelete.BlackSiblingLeft | RedBlackTree.java:274-289 | the black-sibling cases with the node a left child: when both of the sibling's children are black, the sibling turns red and the loop moves up to the parent; otherwise the rotations end the loop at the root |
| RedBlackDelete.BlackSiblingRight | RedBlackTree.java:298-313 | the mirror, with the node a right child |
| RedBlackDelete.FarRotationLeft | RedBlackTree.java:277-288 | cases 3 and 4: the rotations keep the in-order keys |
| RedBlackDelete.FarRotationRight | RedBlackTree.java:301-312 | the mirror of cases 3 and 4 |
| RedBlackDelete.DeleteFixFacts | RedBlackTree.java:265-267 | inside the loop the sibling exists, is balanced, and is one black level higher than the node |
| RedBlackDelete.RedSiblingLeftKeeps | RedBlackTree.java:268-273 | case 1 keeps the loop invariant and the keys, and leaves a black sibling |
| RedBlackDelete.RedSiblingRightKeeps | RedBlackTree.java:292-297 | the mirror of case 1 |
| RedBlackDelete.RecolorSiblingLeftKeeps | RedBlackTree.java:274-276 | case 2: recolouring the sibling red and moving up keeps the loop invariant and the keys; a red parent ends the loop |
| RedBlackDelete.RecolorSiblingRightKeeps | RedBlackTree.java:298-300 | the mirror of case 2 |
| RedBlackDelete.FarRotationLeftLocal | RedBlackTree.java:277-288 | cases 3 and 4 produce a subtree with the parent's colour, no red-red edge and the black height of the parent's subtree |
| RedBlackDelete.FarRotationRightLocal | RedBlackTree.java:301-312 | the mirror of cases 3 and 4 |
| RedBlackDelete.FarRotationLeftKeeps | RedBlackTree.java:277-288 | cases 3 and 4 make the whole tree valid with the same keys, and the loop ends at the root |
| RedBlackDelete.FarRotationRightKeeps | RedBlackTree.java:301-312 | the mirror of cases 3 and 4 |
| RedBlackDelete.DeleteFixDone | RedBlackTree.java:265-316 | when the loop stops, painting the node black gives a valid red-black tree with the same keys |
| RedBlackDelete.FixAfterDeletion | RedBlackTree.java:264-317 | the loop ends with a black root, no red-red edge, uniform black height and the same in-order keys; a red node is just painted black |
| RedBlackDelete.GetMinimum | RedBlackTree.java:211-216 | the loop stops at a node with no left child, the leftmost node `Leftmost` names; its key comes first in order, followed by its right subtree |
| RedBlackDelete.SuccessorPosition | RedBlackTree.java:236-240 | copying the successor's key up and focusing on the successor describes the same tree, and unlinking it removes exactly the deleted key's place |
| RedBlackDelete.ShapeIgnoresKeys | RedBlackTree.java:238 | overwriting a node's key keeps colours and black heights valid |
| RedBlackDelete.SpliceKeys | RedBlackTree.java:242-258 | replacing a node by its only child (or null) removes just that node's key from the in-order sequence |
| RedBlackDelete.SpliceStartsFix | RedBlackTree.java:248-261 | unlinking a black node establishes the invariant of the `fixAfterDeletion` loop at its child's place |
| RedBlackDelete.RedSplice | RedBlackTree.java:252-260 | an unlinked red node has no children, and removing it keeps the tree valid without any repair |
| RedBlackDelete.DeleteKeys | RedBlackTree.java:231-263 | after `deleteNode` the keys stay in search order and lose exactly the deleted key |
| RedBlackDelete.DeleteNode | RedBlackTree.java:231-263 | `deleteNode` returns a red-black tree whose keys are the old ones in order without the deleted one |
| RedBlackDelete.Leftmost | RedBlackTree.java:211-216 | the node `getMinimum` reaches has no left child |
| RedBlackDelete.Unlinked | RedBlackTree.java:236-246 | the node `deleteNode` unlinks has at most one child |
| RedBlackDelete.OnlyNullChildFaults | RedBlackTree.java:260-265 | when the unlinked black node has a child, that child is red, so the loop is not entered and only its colour is set; the code as written goes wrong only when the child is null |
| RedBlackDelete.SingleKeyFaults | RedBlackTree.java:260-261 | the only node of a one-key tree is black and childless, so deleting it passes null to `fixAfterDeletion` |
| RedBlackDelete.MixedSequenceFaults | AVLTreeJUnitTest.java:362-378 | the tree the mixed test holds before `delete("K")` is a red-black tree, `searchNode` finds "K" in it, and "K" is a black leaf, so deleting it passes null to `fixAfterDeletion` |
| RedBlackTrees.RedBlackTree.constructor | RedBlackTree.java:25-28 | a new tree is empty with size 0 and satisfies the invariant |
| RedBlackTrees.RedBlackTree.Search | RedBlackTree.java:76-78 | `search` is true exactly when the key is held |
| RedBlackTrees.RedBlackTree.Insert | RedBlackTree.java:31-63 | a duplicate returns false and changes nothing; otherwise the key set gains exactly the key and size grows by 1; the invariant is kept; the first key becomes a black root |
| RedBlackTrees.RedBlackTree.Delete | RedBlackTree.java:65-74 | an absent key returns false and changes nothing; otherwise the key set loses exactly the key and size drops by 1; the invariant is kept |
| RedBlackTrees.RedBlackTree.GetHeight | RedBlackTree.java:324-332 | the height of the root, with 2^ceil(h/2) <= size + 1 and size < 2^h |
| RedBlackTrees.RedBlackTree.GetSize | RedBlackTree.java:318-320 | `size` is the number of keys held |
| RedBlackTrees.RedBlackTree.TraverseInOrder | RedBlackTree.java:79-83 | the printed sequence is strictly increasing, has `size` keys, and holds exactly the searchable keys |
| RedBlackTrees.RedBlackTree.TraversePreOrder | RedBlackTree.java:84-88 | every key once, the root first |
| RedBlackTrees.RedBlackTree.TraversePostOrder | RedBlackTree.java:89-93 | every key once, the root last |
| RedBlackTrees.DeletedKeys | RedBlackTree.java:65-74 | after `deleteNode` there is one key fewer, and the key set lacks exactly the deleted key |
| RedBlackTrees.ThreeInsertions | AVLTreeJUnitTest.java:254-292 | three distinct keys inserted in any order give size 3 and height 2 (the four rotation tests) |
| RedBlackTrees.EmptyTree | AVLTreeJUnitTest.java:386-391 | an empty tree has size 0 and height 0, and deletion returns false |
| RedBlackTrees.SingleKeyDeletion | AVLTreeJUnitTest.java:245-251 | inserting one key and deleting it returns true, leaves size 0 and the key absent; the same tree faults in the code as written |

## Left out

- Printing: the traversals print keys to standard output. Here they return the sequence they would print.
- `AVLTree.main`, `Main.java` and their console and file I/O: these are not part of this model.
- `SelfBalanceTreeInterface.java` declares a generic interface that the classes do not match. Only the classes' own methods are modelled.
- `RedBlackTree.getRoot` exposes the private node object; the model has no node identity to return.
- The commented-out `getMaximum` in RedBlackTree.java is not modelled.
- Parent pointers, node identity and in-place relinking in RedBlackTree.java: the tree is a value and a position is a zipper. Pointer consistency (each child's `parent` field pointing back) is therefore built in, not proved. Aliasing between nodes is not modelled.
- In-place mutation in AVLTree.java: the recursive functions return new subtrees, as the Java code returns the new subtree root. The in-place overwrite of a node's key in the two-child case is a rebuilt node.
- Keys.CompareTo compares Unicode code points; Java compares UTF-16 code units. The two orders differ only for characters outside the Basic Multilingual Plane.
- AVL.AVLTree.Insert: `size` is an unbounded integer; Java's 32-bit `int` overflow after 2^31 - 1 insertions is not modelled. The same holds for RedBlackTrees.RedBlackTree.Insert.
- RedBlackTrees.RedBlackTree.GetHeight: the JUnit tests also check `height <= 3` for seven keys and `height == 3` after the mixed insert/delete sequence (AVLTreeJUnitTest.java:361-383). The model proves only the general bound `2^ceil(h/2) <= size + 1`, which is weaker than the seven-key check. The mixed-sequence check is not reached by the code as written: its `delete("K")` faults (see Findings). A hand trace of the corrected deletion for that sequence ends with the tree L black; I black with A red on its left; O red with M black on its left and P black on its right; Q red below P. That tree has height 4, not the 3 the test expects. This trace is not proved here.
- AVL.AVLTree.GetHeight: the exact heights of the seven-key and mixed-sequence AVL tests are not proved; the general bounds of AVL.HeightBounds hold instead.
- RedBlackTrees.RedBlackTree.Insert and RedBlackTrees.RedBlackTree.Delete state the new key set, size and invariant, but not the new root as a function of the old one (the AVL class does). The red-black engines are loops whose results are specified by properties, so no exact shape or height of a red-black test scenario follows from the contracts.
- RedBlackTrees.RedBlackTree.Delete models the corrected deletion, in which an absent child counts as black (see Findings). The as-written `NullPointerException`, thrown after unlinking and before `size--`, is described by RedBlackDelete.FaultsAsWritten and is not propagated.

## Findings

| source | as written | input that shows it | evidently intended | confidence | as-written member | corrected member |
|---|---|---|---|---|---|---|
| RedBlackTree.java:260-316 | When the unlinked node is black and has no children, `deleteNode` calls `fixAfterDeletion(null)`. The loop condition reads `node.color` on null; on an emptied tree, `node.color = BLACK` assigns to null. Either throws `NullPointerException` after the node is unlinked and before `size--`. | insert "Date", then delete "Date" (AVLTreeJUnitTest.java:245-251): the only node is black and childless | treat the absent child as a black leaf at the unlinked node's position: the textbook nil sentinel, which needs the parent known separately. Deletion then succeeds and size drops to 0 | high, from reading the code; not executed | RedBlackDelete.SingleKeyFaults | RedBlackTrees.RedBlackTree.Delete |
| RedBlackTree.java:260-316 | When the unlinked node is black and has no children, `deleteNode` calls `fixAfterDeletion(null)`. The loop condition reads `node.color` on null; on an emptied tree, `node.color = BLACK` assigns to null. Either throws `NullPointerException` after the node is unlinked and before `size--`. | the mixed insert/delete test (AVLTreeJUnitTest.java:362-378): after ten insertions and `delete("H")`, `delete("K")` unlinks a black leaf | treat the absent child as a black leaf at the unlinked node's position: the textbook nil sentinel, which needs the parent known separately. Deletion then succeeds and the test can go on to delete N | high, from reading the code; the tree before `delete("K")` is a hand trace of the ten insertions and `delete("H")`, and RedBlackDelete.MixedSequenceFaults proves the fault on that tree; not executed | RedBlackDelete.MixedSequenceFaults | RedBlackTrees.RedBlackTree.Delete |
