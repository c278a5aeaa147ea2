# ft::set red-black tree core, modelled in Dafny

This project models the ordered-container core of a C++98 re-implementation of
`std::set`. It covers five pieces:

- **The red-black tree** `ft::RBtree` (`inc/rbt.hpp`):
  - it has a black sentinel `_nil` and a root whose parent is `NULL`;
  - insertion runs a descent loop, then `fixInsert`;
  - deletion runs `deleteNodeHelper` (`rbTransplant`, with splicing of the in-order successor), then `fixDelete`;
  - it also has the two rotations, `searchTreeHelper`, `successor`/`predecessor`, `minimum`/`maximum`, `clear_h` and `swap`.
- **The free node helpers** of `inc/RBNode.hpp`.
- **The in-order bidirectional tree iterator** (`inc/bidirectional_iterator.hpp`).
- **The `ft::set` façade** that drives them (`inc/set.hpp`).
- **The small library pieces** the façade uses: `ft::equal` and `ft::lexicographical_compare` (`inc/algorithm.hpp`), `ft::pair` (`inc/utility.hpp`), and the `random_access_iterator`/`reverse_iterator` arithmetic with `distance` (`inc/iterator.hpp`).

How the tree is represented:

- **Nodes.** The tree is a class `RedBlackTree.RBTree` whose nodes live in an arena, `nodes: seq<Node>`:
  - index `0` is the sentinel `_nil`, and `-1` is the `NULL` parent of the root;
  - a node's `parent`, `left` and `right` are arena indices;
  - colours live in a parallel `colors` sequence;
  - `root` and `size` are the tree's `_root` and `_size`.
- **Ghost state.** Each tree carries a ghost `Layout` and a ghost `bh`:
  - the `Layout` holds the in-order sequence of live node ids, each node's in-order position, and the position span `[lo, hi)` of each node's subtree;
  - `bh` holds each node's black height.
- **Validity.** Every structural fact is stated locally, node by node (`Arena.NodeOk`):
  - the parent, left and right links agree with each other;
  - the subtree spans nest according to the links.
- **Consequences.** Because validity is local, a rotation changes only the spans of the two rotated nodes, and leaves the in-order sequence as it was.
- **Contents.** The keys read along the in-order sequence form `Contents()`. Binary-search-tree order is the statement that this sequence strictly increases.
- **Colour rules.** The red-black rules are stated per node:
  - the root and the sentinel are black;
  - no red node has a red child;
  - each child's black height plus its own blackness equals its parent's.
- **Fixup invariants.** The invariants of the `fixInsert` and `fixDelete` loops are the same rules with one excused node each (`InsertFix.FixInsInv`, `DeleteFix.Deficit`).

The modules build on each other in this order:

- `Arena`: nodes, layouts, keys and the red-black rules.
- `SortedSeq`: the reference insert and remove on strictly increasing sequences.
- Value-level lemmas for each pointer rewrite:
  - `Rotation`;
  - `Insertion` and `InsertFix` (insertion and `fixInsert`);
  - `Deletion` and `DeleteFix` (deletion and `fixDelete`).
- `RedBlackTree`: the imperative class, whose methods perform the pointer writes of the C++ code and call those lemmas.
- `NodeHelpers`, `BidirectionalIterator` and `FtSet` on top of the tree.
- `Algorithm`, `Utility` and `Iterator`: stand alone.

Specialisations in the model:

- **Keys.** Keys are mathematical integers ordered by `<`, so the comparator is fixed to `std::less<int>`. A set's `value_type` is its key, so `get_key_from_val` is the identity.
- **Allocation.** A node allocated by `insertNode` is appended to the arena. A node freed by deletion or `clear` stays in the arena as a dead slot, and nothing refers to it any more.
- **Node identity.** A node pointer is an arena index, so the node `operator==` (address comparison) is equality of indices (`NodeHelpers.SameNode`).
- **Node helpers.** `is_nil` in `inc/RBNode.hpp` tests for a black node with a NULL parent whose two children are itself. Neither tree draft builds its sentinel that way:
  - both construct `_nil` with NULL parent and children (inc/rbt.hpp:61, inc/RBTree.hpp:45), and the root's parent is NULL;
  - so in either tree `is_nil()` is false of `_nil`, and `min_node`, `max_node`, `next_node` and `prev_node` would run off the tree;
  - no code in either draft calls these helpers.
  - `NodeHelpers` therefore models them in the setting `is_nil` presupposes (`NodeHelpers.HelperTree`): a black sentinel that is its own left and right child, with the root hanging below it.
- **Pair comparisons.** `inc/utility.hpp:37-59` declares the six comparison operators inside `struct pair`, as member templates with two parameters whose template parameters shadow `T1` and `T2`. As written that is ill-formed C++: a member operator takes one argument besides `this`. The model takes them as the free functions (section 20.2.2 of ISO/IEC 14882:1998) that were evidently intended, with the bodies as written.

Where the two tree drafts differ, the model follows `inc/rbt.hpp`. `inc/RBTree.hpp` is the other draft, and it differs as follows:

- It orders whole stored values with `_comp(node->data, x->data)` rather than extracted keys (inc/RBTree.hpp:143-160). For `set`, where the value is the key, the two coincide.
- Its `swap` uses `std::swap` on the same three fields (inc/RBTree.hpp:227-231).
- Its `deleteNode` inlines the body of `deleteNodeHelper` unchanged (inc/RBTree.hpp:233-277).
- Its fixups are the same statements, with the colour field named `color` instead of `_color`.
- Its `searchTreeHelper` tests `key == node->data.first` for equality but descends with `_comp(key, node->data)` (inc/RBTree.hpp:410-423). These are two different views of the stored value.
  - The model uses one key view for both the test and the descent, as `inc/rbt.hpp` does (inc/rbt.hpp:509-522).
- Both drafts open with the include guard `RED_BLACK_TREE_HPP` (inc/rbt.hpp:13, inc/RBTree.hpp:13), so only one of them can be in a translation unit.

## Model

| member | source | states |
|---|---|---|
| RedBlackTree.RBTree.constructor | inc/rbt.hpp:58-63 | A new tree is valid and empty: root is the sentinel, size 0, no keys. |
| RedBlackTree.RBTree.Minimum | inc/rbt.hpp:93-101 | On an empty tree it returns the root (the sentinel). Otherwise it returns the node at in-order position 0, whose key is at most every key of the tree. |
| RedBlackTree.RBTree.Maximum | inc/rbt.hpp:104-112 | On an empty tree it returns the root. Otherwise it returns the last node in order, whose key is at least every key. |
| RedBlackTree.RBTree.MinimumFrom | inc/rbt.hpp:115-122 | `minimum(_nil)` returns `_root`. For a live node it returns the first node of that node's subtree in order, which has no left child. |
| RedBlackTree.RBTree.MaximumFrom | inc/rbt.hpp:125-132 | `maximum(_nil)` returns `_root`. For a live node it returns the last node of its subtree in order, which has no right child. |
| Rotation.RotateLeftShape | inc/rbt.hpp:134-150 | A left rotation at x on a well-formed tree yields a well-formed tree over the layout where only x and its right child swap spans. The in-order sequence and every key are unchanged. |
| Rotation.LeftRotateStep | inc/rbt.hpp:134-150 | The pointer writes of `left_rotate` make y take x's place: y becomes x's parent's child, or the root if x was the root; x becomes y's left child; and y's old left subtree becomes x's right subtree. |
| RedBlackTree.RBTree.LeftRotate | inc/rbt.hpp:134-150 | In place: the tree after the rotation is `RotatedLeft` of the old one, the shape is kept, the in-order order is the old one with spans re-assigned, and keys, colours and size are unchanged. |
| Rotation.RotateRightShape | inc/rbt.hpp:152-168 | Mirror of RotateLeftShape for a right rotation. |
| Rotation.RightRotateStep | inc/rbt.hpp:152-168 | Mirror of LeftRotateStep: the pointer writes of `right_rotate` put x's left child in x's place. |
| RedBlackTree.RBTree.RightRotate | inc/rbt.hpp:152-168 | Mirror of LeftRotate. |
| RedBlackTree.RBTree.InsertNode | inc/rbt.hpp:170-223 | The tree stays valid (search order, red-black rules, size equal to the number of live nodes). Contents becomes the sorted insertion of k. A present key returns `_nil` and leaves the whole tree (arena, colours, root, size) unchanged. An absent key returns the new node holding k, and the size grows by exactly one. Every node live before the call stays live, holding its key. |
| RedBlackTree.RBTree.FindSlot | inc/rbt.hpp:184-200 | The descent loop either meets k (then k is in the tree) or stops at y, the last node visited, with the sentinel on the side `k < y.key` picks. Every key before in-order position p is below k and every key from p on is above it. |
| RedBlackTree.RBTree.AttachRed | inc/rbt.hpp:201-208 | The new red node becomes y's child on the comparator side, or the root when y is NULL. Contents gains k at position p, and the size grows by one. Painting a lone root black makes the tree red-black; otherwise only the new node may break the red rule. |
| Insertion.InsertShape | inc/rbt.hpp:201-207 | Attaching a node at the sentinel slot the descent found gives a well-formed tree whose in-order sequence has the new node at position p. |
| Insertion.InsertKeys | inc/rbt.hpp:187-207 | After the attach, the key sequence is the old one with k inserted at p, and it is still strictly increasing. |
| Insertion.InsertColours | inc/rbt.hpp:180-207 | A red leaf added under a red-black tree keeps every colour rule except the red rule at the new node. |
| Insertion.InsertFirst | inc/rbt.hpp:210-214 | Inserting into an empty tree and painting the node black gives a red-black tree. |
| Insertion.AttachStep | inc/rbt.hpp:201-214 | All of the attach facts together: shape, order, the new key at p, and colours (a red-black tree when the node is the root and painted black, otherwise the one excused red node). |
| Insertion.InsertLayoutIsInserted | inc/rbt.hpp:201-207 | The ghost layout update places the new node at in-order position p and shifts later positions by one. |
| Insertion.InsertSurvivors | inc/rbt.hpp:201-222 | After the attachment and the colour fix, every node that was in the tree is still in it and holds the same key, whatever its new in-order position. |
| Insertion.AttachNodesIsAttached | inc/rbt.hpp:201-207 | The link update sets the new node's parent to y and y's chosen child to the new node, and changes nothing else. |
| InsertFix.DropExcuse | inc/rbt.hpp:216-219 | A red node whose parent is black breaks no rule. This is why `insertNode` may return without `fixInsert` when the new node's parent is the root. |
| InsertFix.Recolour | inc/rbt.hpp:324-353 | Uncle-red case: painting parent and uncle black and grandparent red keeps the black heights. The grandparent becomes the only node that may break the red rule, and the loop invariant holds at it. |
| InsertFix.InnerRightFix | inc/rbt.hpp:333-337 | Inner case (z is a left child of a right child): rotating right at the parent turns it into the outer case, with the old parent as the new z. |
| InsertFix.OuterRightFix | inc/rbt.hpp:338-340 | Outer case: the recolouring and the left rotation at the grandparent give a red-black tree. The loop invariant holds, and z's parent is now black, which ends the loop. |
| InsertFix.InnerLeftFix | inc/rbt.hpp:356-361 | Mirror of InnerRightFix. |
| InsertFix.OuterLeftFix | inc/rbt.hpp:363-365 | Mirror of OuterRightFix. |
| InsertFix.PaintRoot | inc/rbt.hpp:368-373 | When only the root breaks the red rule, painting the root black gives a red-black tree. |
| InsertFix.FixInsDone | inc/rbt.hpp:319-373 | When the loop stops (z is the root or z's parent is not red), painting the root black gives a red-black tree with the keys and their order untouched. |
| RedBlackTree.RBTree.IsRedNode | inc/rbt.hpp:319 | The loop test `z->parent->_color == red` agrees with the colour rules' red, is false of NULL, and in a valid tree is false of the sentinel and the root. |
| RedBlackTree.RBTree.FixInsert | inc/rbt.hpp:316-374 | Starting from the insertion invariant, the loop ends with a fully valid tree: a black root, no red node with a red parent, equal black heights. It has the same in-order sequence, keys and size. |
| RedBlackTree.RBTree.FixInsertStep | inc/rbt.hpp:319-367 | One iteration keeps the invariant and either ends the loop or moves z to a node with a strictly larger subtree, which is the termination measure. |
| RedBlackTree.RBTree.FixInsertRight | inc/rbt.hpp:321-342 | The parent-is-right-child branch keeps the invariant and makes progress as in FixInsertStep. |
| RedBlackTree.RBTree.FixInsertLeft | inc/rbt.hpp:343-367 | Mirror of FixInsertRight. |
| RedBlackTree.RBTree.RecolourUp | inc/rbt.hpp:324-330 | Recolouring moves z to its grandparent, whose subtree is strictly larger, and keeps the invariant there. |
| RedBlackTree.RBTree.RotateFixRight | inc/rbt.hpp:331-341 | Black-uncle case: after at most two rotations, the tree is red-black apart from the excuse and z's parent is black. |
| RedBlackTree.RBTree.InnerRightRotate | inc/rbt.hpp:333-337 | In place: the right rotation at z's parent yields the outer configuration, with z moved to the old parent. |
| RedBlackTree.RBTree.OuterRightRotate | inc/rbt.hpp:338-340 | In place: the recolouring and the left rotation at the grandparent leave z's parent black. |
| RedBlackTree.RBTree.RotateFixLeft | inc/rbt.hpp:354-366 | Mirror of RotateFixRight. |
| RedBlackTree.RBTree.InnerLeftRotate | inc/rbt.hpp:356-361 | Mirror of InnerRightRotate. |
| RedBlackTree.RBTree.OuterLeftRotate | inc/rbt.hpp:363-365 | Mirror of OuterRightRotate. |
| RedBlackTree.RBTree.SearchTreeHelper | inc/rbt.hpp:509-522 | A non-sentinel result is a live node in x's subtree holding k. A sentinel result from a live x means no key in x's subtree equals k. |
| RedBlackTree.RBTree.SearchTree | inc/rbt.hpp:231-234 | It returns a non-sentinel node exactly when k is in the tree, and that node holds k. |
| RedBlackTree.RBTree.Successor | inc/rbt.hpp:237-252 | It returns the next node in order, or NULL past the last node. |
| RedBlackTree.RBTree.Predecessor | inc/rbt.hpp:255-269 | It returns the previous node in order, or NULL before the first node. |
| RedBlackTree.RBTree.RbTransplant | inc/rbt.hpp:376-386 | v takes u's place under u's parent (or as the root), and v's parent becomes u's parent. |
| Deletion.TransplantSpliced | inc/rbt.hpp:376-386 | The transplant rewrite changes exactly the three links that move a child into u's place. |
| Deletion.SpliceLayoutDropped | inc/rbt.hpp:473-482 | Splicing out the node at in-order position q drops it from the in-order sequence and shifts the positions after it down by one. |
| Deletion.DeleteOneKeys | inc/rbt.hpp:473-482 | Deleting a node with at most one child, by transplanting that child, leaves a well-formed search tree. Its keys are the old keys with z's key removed, and it has one fewer node. |
| Deletion.DeleteOne | inc/rbt.hpp:473-505 | The same, plus the colours: removing a red node keeps the tree red-black. Removing a black node leaves the deficit invariant at x, the input `fixDelete` needs. |
| Deletion.SuccessorLayout | inc/rbt.hpp:483-500 | The in-order sequence after the two-child case is the old one with z removed. The successor y stands where z stood. |
| Deletion.SuccessorNodes | inc/rbt.hpp:483-500 | The arena after the two-child rewrite has as many slots as before. |
| Deletion.DeleteTwo | inc/rbt.hpp:483-505 | Two-child case: with the successor taking z's place and colour, the tree is a well-formed search tree holding the old keys minus z's. If y was red it is red-black; if y was black the deficit invariant holds at y's old right child. |
| Deletion.DeleteTwoKeys | inc/rbt.hpp:483-500 | The key sequence after the two-child rewrite is the old one with z's key removed, still strictly increasing. |
| Deletion.DeleteTwoRed | inc/rbt.hpp:486-499 | If the successor was red, moving it into z's place with z's colour keeps every red-black rule. |
| Deletion.DeleteTwoBlack | inc/rbt.hpp:486-505 | If the successor was black, the tree satisfies the deficit invariant at x, y's old right child. |
| Deletion.SpliceRedBlack | inc/rbt.hpp:473-482 | Splicing out a red node with at most one child keeps every red-black rule. |
| Deletion.SpliceDeficit | inc/rbt.hpp:473-505 | Splicing out a black node leaves the deficit invariant at its child x. |
| Deletion.ReplaceNodesReplaced | inc/rbt.hpp:496-498 | Putting y in z's place changes exactly the links around z, which now point at y. |
| Deletion.CutKeys | inc/rbt.hpp:462-507 | If the new in-order keys are the old ones with position q skipped, then the key sequence is the old one with its q-th key removed, and it is still sorted. |
| Deletion.Survivors | inc/rbt.hpp:501-503 | Every live node other than the deleted key's stays live with the same key. Only z's slot is freed. |
| Deletion.SuccessorOrder | inc/rbt.hpp:483-500 | Splicing out y just after z and then putting y in z's slot gives the in-order sequence without z. |
| RedBlackTree.RBTree.DeleteNodeHelper | inc/rbt.hpp:462-507 | The result is true exactly when k was present. Contents loses exactly k, the size drops by one when found, and the tree stays valid. An absent key leaves the whole tree unchanged. Every other live node stays live, holding its key. |
| RedBlackTree.RBTree.DeleteNode | inc/rbt.hpp:225-228 | The same contract as DeleteNodeHelper, which it forwards to. |
| RedBlackTree.RBTree.RemoveNode | inc/rbt.hpp:471-506 | Removing a live node z keeps the tree valid. Contents loses z's key, the size drops by one, and the in-order sequence is the old one without z. |
| RedBlackTree.RBTree.SpliceOut | inc/rbt.hpp:473-482 | In place, for at most one child: it gives a well-formed search tree without z. It is red-black if z was red, and in the deficit state at x if z was black. |
| RedBlackTree.RBTree.ReplaceBySuccessor | inc/rbt.hpp:483-500 | In place, for two children: it gives a well-formed search tree without z. It returns x and y's original colour: red-black if that colour is red, the deficit state at x if black. |
| RedBlackTree.RBTree.MoveSuccessor | inc/rbt.hpp:487-498 | The pointer writes of the two-child branch produce exactly `SuccessorNodes`, and the root moves to y when z was the root. |
| DeleteFix.RedBlackDeficit | inc/rbt.hpp:388-392 | A red-black tree is in the deficit state at its root, so the deficit invariant is weaker than validity. |
| DeleteFix.DeficitDone | inc/rbt.hpp:392-459 | When the loop stops (x is the root or x is red), painting x black gives a red-black tree. |
| DeleteFix.SpanBound | inc/rbt.hpp:392 | x's subtree size is at most the tree size, and equals it exactly at the root. This bounds the loop's termination measure. |
| DeleteFix.Case1LeftFix | inc/rbt.hpp:397-403 | Red sibling, x a left child: the recolouring and the left rotation at the parent keep the deficit at x with the same parent and subtree, and give x a black sibling. |
| DeleteFix.Case2Fix | inc/rbt.hpp:405-441 | Black sibling with two black children: painting the sibling red moves the deficit to the parent, whose subtree is strictly larger. |
| DeleteFix.Case3LeftFix | inc/rbt.hpp:412-418 | Sibling's far child black and near child red: the recolouring and the right rotation at the sibling keep the deficit and make the sibling's far child red. |
| DeleteFix.Case4LeftFix | inc/rbt.hpp:419-423 | Sibling's far child red: the recolouring and the left rotation at the parent remove the deficit, and the tree is red-black. |
| DeleteFix.Case1RightFix | inc/rbt.hpp:428-435 | Mirror of Case1LeftFix. |
| DeleteFix.Case3RightFix | inc/rbt.hpp:444-450 | Mirror of Case3LeftFix. |
| DeleteFix.Case4RightFix | inc/rbt.hpp:451-455 | Mirror of Case4LeftFix. |
| RedBlackTree.RBTree.FixDelete | inc/rbt.hpp:388-460 | From the deficit state at x, the loop ends with a red-black tree: a black root and uniform black height. It keeps the in-order sequence, the keys and the size. |
| RedBlackTree.RBTree.FixDeleteLeft | inc/rbt.hpp:394-425 | One iteration for x a left child keeps the deficit invariant at a node with a strictly larger subtree. |
| RedBlackTree.RBTree.RedSiblingLeft | inc/rbt.hpp:397-403 | In place: case 1 keeps the deficit at x and leaves x's sibling black. |
| RedBlackTree.RBTree.BlackSiblingLeft | inc/rbt.hpp:405-424 | In place: with a black sibling, the loop either moves up (case 2) or finishes with x at the root (cases 3 and 4). |
| RedBlackTree.RBTree.BlackSiblingUp | inc/rbt.hpp:405-441 | In place: case 2 moves x to its parent, with the deficit there. |
| RedBlackTree.RBTree.NearRedLeft | inc/rbt.hpp:412-418 | In place: case 3 leaves the sibling black with a red far child. |
| RedBlackTree.RBTree.FarRedLeft | inc/rbt.hpp:419-423 | In place: case 4 leaves a red-black tree. |
| RedBlackTree.RBTree.FixDeleteRight | inc/rbt.hpp:426-457 | Mirror of FixDeleteLeft. |
| RedBlackTree.RBTree.RedSiblingRight | inc/rbt.hpp:429-435 | Mirror of RedSiblingLeft. |
| RedBlackTree.RBTree.BlackSiblingRight | inc/rbt.hpp:437-456 | Mirror of BlackSiblingLeft. |
| RedBlackTree.RBTree.NearRedRight | inc/rbt.hpp:444-450 | Mirror of NearRedLeft. |
| RedBlackTree.RBTree.FarRedRight | inc/rbt.hpp:451-455 | Mirror of FarRedLeft. |
| RedBlackTree.RBTree.ClearHelper | inc/rbt.hpp:277-291 | Freeing x's subtree post-order lowers the size once per node, by exactly the number of nodes in the subtree. |
| RedBlackTree.RBTree.ClearH | inc/rbt.hpp:271-275 | The root becomes the sentinel. Called on the root, it leaves a valid empty tree of size 0. |
| RedBlackTree.RBTree.Swap | inc/rbt.hpp:293-306 | The two trees exchange their contents and sizes, and both stay valid. |
| Arena.SortedKeys | inc/rbt.hpp:187-207 | The layout's search-order predicate holds exactly when the in-order key sequence strictly increases. |
| Arena.KeysFrame | inc/rbt.hpp:134-168 | Re-linking that keeps the in-order node sequence and every key keeps the key sequence and its order. |
| Arena.KeyArrayKeys | inc/rbt.hpp:388-460 | Equal key arrays mean the same key in every slot. The fixups move no key. |
| Arena.KeysAbove | inc/rbt.hpp:187-193 | In a sorted tree, k below the key at position i is below every later key, so the descent may go left. |
| Arena.KeysBelow | inc/rbt.hpp:187-193 | In a sorted tree, k above the key at position i is above every earlier key, so the descent may go right. |
| Arena.KeyPresent | inc/rbt.hpp:194-199 | A node met during the descent with key k puts k among the tree's keys. |
| Arena.KeyAbsent | inc/rbt.hpp:187-200 | A descent that ends at the sentinel between smaller and larger keys proves k absent. |
| Arena.FirstIsLeast | inc/rbt.hpp:93-101 | The first node in order holds the least key. |
| Arena.LastIsGreatest | inc/rbt.hpp:104-112 | The last node in order holds the greatest key. |
| SortedSeq.InsertElems | inc/rbt.hpp:170-223 | The elements after the reference insertion are the old ones plus k. |
| SortedSeq.InsertIncreasing | inc/rbt.hpp:170-223 | The reference insertion keeps a strictly increasing sequence strictly increasing. |
| SortedSeq.InsertPresent | inc/rbt.hpp:194-199 | Inserting a key already present changes nothing. |
| SortedSeq.InsertAt | inc/rbt.hpp:201-207 | Inserting k where the keys cross k puts it exactly at that position. |
| SortedSeq.RemoveElems | inc/rbt.hpp:462-507 | The elements after the reference removal are the old ones minus k. |
| SortedSeq.RemoveIncreasing | inc/rbt.hpp:462-507 | Removal keeps a strictly increasing sequence strictly increasing. |
| SortedSeq.RemoveAbsent | inc/rbt.hpp:467-469 | Removing an absent key changes nothing. |
| SortedSeq.RemoveAt | inc/rbt.hpp:471-506 | Removing the key at position q is the sequence with its q-th element cut out. |
| NodeHelpers.IsNil | inc/RBNode.hpp:45 | `is_nil` holds only of a black node with a NULL parent whose two children are itself: the sentinel shape that NilExactly shows picks out the sentinel. |
| NodeHelpers.IsRedNode | inc/RBNode.hpp:46 | `is_red` holds exactly when the node is not black: colours are two-valued. |
| NodeHelpers.IsBlackNode | inc/RBNode.hpp:47 | `is_black` is the colour test the red-black invariants use, and excludes red. |
| NodeHelpers.IsLeft | inc/RBNode.hpp:48 | `is_left`: a node that is both its parent's left and right child has a parent whose two links coincide, which SideExactly rules out in a tree. |
| NodeHelpers.IsRight | inc/RBNode.hpp:49 | `is_right`, the mirror: being the parent's right and left child forces the parent's links to coincide. |
| NodeHelpers.SameNode | inc/RBNode.hpp:88-89 | Node `==` compares addresses, here arena indices: references that are equal denote one node, with the same contents. |
| NodeHelpers.OtherNode | inc/RBNode.hpp:91-92 | Node `!=` is the negation of `==`. |
| NodeHelpers.IdentityIsKey | inc/RBNode.hpp:88-89 | In a search tree, two live nodes are the same node exactly when they hold the same key. |
| NodeHelpers.NilExactly | inc/RBNode.hpp:45 | `is_nil` holds exactly for the sentinel among the sentinel and the live nodes. |
| NodeHelpers.SideExactly | inc/RBNode.hpp:48-49 | A non-root live node is exactly one of its parent's left or right child. It is the left one exactly when it comes before its parent in order. |
| NodeHelpers.MinNode | inc/RBNode.hpp:52-57 | Following left links from p reaches the first node of p's subtree in order, which has no left child. |
| NodeHelpers.MaxNode | inc/RBNode.hpp:59-64 | Following right links reaches the last node of p's subtree, which has no right child. |
| NodeHelpers.NextNode | inc/RBNode.hpp:66-75 | As written: with a right child it returns the in-order successor. Without one it returns the top of the climb (the node whose subtree ends at n), not that node's parent. |
| NodeHelpers.PrevNode | inc/RBNode.hpp:77-86 | As written, the mirror: it returns the in-order predecessor when there is a left child, otherwise the top of the leftward climb. |
| NodeHelpers.NextNodeReturnsItself | inc/RBNode.hpp:70-74 | In a two-node tree, `next_node` of the left leaf returns the leaf itself, while its in-order successor is the root. |
| NodeHelpers.PrevNodeReturnsItself | inc/RBNode.hpp:81-84 | In the mirror two-node tree, `prev_node` of the right leaf returns the leaf itself, while its in-order predecessor is the root. |
| NodeHelpers.NextNodeFixed | inc/RBNode.hpp:66-75 | The corrected `next_node` returns the next node in order, or the sentinel after the last. |
| NodeHelpers.PrevNodeFixed | inc/RBNode.hpp:77-86 | The corrected `prev_node` returns the previous node in order, or the sentinel before the first. |
| BidirectionalIterator.TreeIterator.constructor | inc/bidirectional_iterator.hpp:42 | The iterator stores the node, the root and the tree it walks. |
| BidirectionalIterator.TreeIterator.Deref | inc/bidirectional_iterator.hpp:78-86 | Dereferencing a non-end iterator gives the element at its in-order position. |
| BidirectionalIterator.TreeIterator.Increment | inc/bidirectional_iterator.hpp:98-103 | `++` moves to the next in-order position. At end it stays at end. |
| BidirectionalIterator.TreeIterator.PostIncrement | inc/bidirectional_iterator.hpp:105-110 | Postfix `++` returns a copy at the old position and advances as `++` does. |
| BidirectionalIterator.TreeIterator.Decrement | inc/bidirectional_iterator.hpp:112-119 | `--` from end moves to the maximum. Elsewhere it moves to the previous position. From the first element it yields NULL, not the sentinel. |
| BidirectionalIterator.TreeIterator.PostDecrement | inc/bidirectional_iterator.hpp:121-126 | Postfix `--` returns a copy at the old position and moves as `--` does. |
| BidirectionalIterator.TreeIterator.Minimum | inc/bidirectional_iterator.hpp:135-140 | It returns the first node of the node's subtree. |
| BidirectionalIterator.TreeIterator.Maximum | inc/bidirectional_iterator.hpp:143-148 | It returns the last node of the node's subtree. |
| BidirectionalIterator.TreeIterator.Successor | inc/bidirectional_iterator.hpp:151-168 | It returns the next node in order, or the sentinel past the last node (the climb's NULL mapped to `_nil`). |
| BidirectionalIterator.TreeIterator.Predecessor | inc/bidirectional_iterator.hpp:171-185 | It returns the previous node in order, or NULL before the first node. |
| BidirectionalIterator.TreeIterator.Equals | inc/bidirectional_iterator.hpp:62-65 | `==` compares only `_ptr`: two valid iterators over one tree are equal exactly when they are at the same in-order position, whatever roots they stored. |
| BidirectionalIterator.TreeIterator.NotEquals | inc/bidirectional_iterator.hpp:67-70 | `!=` is the negation of `==`. |
| FtSet.Set.constructor | inc/set.hpp:67 | A new set is valid and empty. |
| FtSet.Set.FromRange | inc/set.hpp:69-71 | The range constructor holds the source range's elements, inserted one by one. |
| FtSet.Set.Copy | inc/set.hpp:73 | The copy has the same elements as the source. |
| FtSet.Set.Assign | inc/set.hpp:77-86 | After assignment the set holds the source's old elements. Self-assignment changes nothing. |
| FtSet.Set.Begin | inc/set.hpp:88 | `begin` is at position 0. |
| FtSet.Set.End | inc/set.hpp:90 | `end` is at the position one past the last element. |
| FtSet.Set.IsEmpty | inc/set.hpp:97 | `empty` holds exactly when the set has no element. |
| FtSet.Set.Size | inc/set.hpp:98 | `size` is the number of elements. |
| FtSet.Set.Swap | inc/set.hpp:101 | The two sets exchange their elements. Swapping a set with itself leaves its elements as they were. |
| FtSet.Set.Clear | inc/set.hpp:102 | After `clear` the set is empty and valid. |
| FtSet.Set.Insert | inc/set.hpp:108-118 | The elements become the sorted insertion of v. The flag is true exactly when v was absent, and a present v leaves the tree unchanged. Every existing element keeps its node, so iterators at them stay valid. The iterator returned points at v either way. |
| FtSet.Set.InsertHint | inc/set.hpp:120 | The hint is ignored: it inserts as `insert(v)` does and returns the iterator at v. A present v leaves the tree unchanged, and every existing element keeps its node. |
| FtSet.Set.InsertRange | inc/set.hpp:122-126 | The elements become the old ones with the range's elements inserted in order. |
| FtSet.Set.InsertNext | inc/set.hpp:124-125 | One `insert(*(first++))` step inserts the element at the iterator and advances it, and the set then holds the old elements with the passed prefix of the range inserted in order. |
| FtSet.Set.NextSource | inc/set.hpp:125 | `*(first++)` inside `[first, last)` yields the element at first's position and moves first one position on, still within the range. |
| FtSet.Set.InsertSource | inc/set.hpp:125 | The `insert` of that element inserts it and leaves the source range untouched. |
| FtSet.Set.Advance | inc/set.hpp:138 | `*(first++)` yields the element at the iterator's position and moves it to the next position. |
| FtSet.Set.Erase | inc/set.hpp:130-134 | Erasing k removes exactly k. It returns 1 when k was present and 0 otherwise, and every other element keeps its node. |
| FtSet.Set.ErasePosition | inc/set.hpp:128 | Erasing at a dereferenceable iterator cuts exactly that position out of the element sequence. At `end()` it erases the key `*end()` reads from the sentinel (its default value, inc/rbt.hpp:61), if the set holds it. |
| FtSet.Set.EraseRange | inc/set.hpp:136-139 | Erasing `[first, last)` cuts exactly that slice out. The loop `erase(*(first++))` stays valid because the advanced iterator and `last` survive each erase. |
| FtSet.Set.EraseNext | inc/set.hpp:137-138 | One loop step erases the element at `first`, and `first == last` afterwards exactly when the slice is used up. |
| FtSet.Set.Find | inc/set.hpp:141-146 | It returns the iterator at k when k is an element, otherwise `end`. |
| FtSet.Set.Count | inc/set.hpp:148-157 | The result is 1 when k is an element, else 0. |
| FtSet.Set.LowerBound | inc/set.hpp:159-169 | The result is the first position whose element is not below k (or `end`). Every earlier element is below k. |
| FtSet.Set.UpperBound | inc/set.hpp:171-181 | The result is the first position whose element is above k (or `end`). No earlier element is above k. |
| FtSet.Set.EqualRange | inc/set.hpp:183 | The positions between the two bounds are exactly those holding k, so the range has length 1 or 0. |
| FtSet.EqualRangeIsKey | inc/set.hpp:159-183 | Over a strictly increasing sequence, the two bound characterisations enclose exactly the occurrences of k. |
| FtSet.InsertAllElems | inc/set.hpp:122-126 | Inserting a range one element at a time yields the old elements plus the range's. |
| FtSet.InsertAllIncreasing | inc/set.hpp:122-126 | Repeated insertion keeps the element sequence strictly increasing. |
| FtSet.InsertAllIntoEmpty | inc/set.hpp:73 | Inserting an increasing sequence into an empty set reproduces it, so a copy equals its source. |
| FtSet.Set.Items | inc/set.hpp:88-90 | Walking `begin` to `end` yields the element sequence. |
| FtSet.SetEqual | inc/set.hpp:187-188 | `==` holds exactly when the element sequences are equal (sizes first, then `ft::equal`). |
| FtSet.SetNotEqual | inc/set.hpp:190-191 | `!=` is the negation of `==`. |
| FtSet.SetLess | inc/set.hpp:193-194 | `<` is the lexicographic order of the element sequences. |
| FtSet.SetGreater | inc/set.hpp:196-197 | `>` is `<` with the operands swapped. |
| FtSet.SetLessEq | inc/set.hpp:199-200 | `<=` holds exactly when lhs is lexicographically less or equal. |
| FtSet.SetGreaterEq | inc/set.hpp:202-203 | `>=` holds exactly when rhs is lexicographically less or equal. |
| Algorithm.Equal | inc/algorithm.hpp:18-25 | The result is true exactly when the first range equals the same-length range starting at first2. |
| Algorithm.EqualBy | inc/algorithm.hpp:27-34 | The result is true exactly when the predicate holds on every pair of corresponding elements. |
| Algorithm.LexicographicalCompare | inc/algorithm.hpp:36-45 | The loop's result is the lexicographic less-than of the two ranges. |
| Algorithm.LexicographicalCompareBy | inc/algorithm.hpp:47-57 | The same, with `comp` in place of `<`. |
| Algorithm.LexLessByLess | inc/algorithm.hpp:36-57 | The comparator overload with `<` agrees with the plain overload. |
| Algorithm.LexLessFirstDifference | inc/algorithm.hpp:36-45 | Less-than holds exactly when the first difference has the smaller element in the first range, or the first range is a proper prefix of the second. |
| Algorithm.LexLessIrreflexive | inc/algorithm.hpp:44 | No range compares less than itself. |
| Algorithm.LexLessTrichotomy | inc/algorithm.hpp:36-45 | Of a < b, a == b and b < a, one holds, and a < b and b < a never both hold. |
| Algorithm.LexLessTransitive | inc/algorithm.hpp:36-45 | The lexicographic order is transitive. |
| Utility.MakePair | inc/utility.hpp:62 | `make_pair(x, y)` has first x and second y. |
| Utility.MakePairComponents | inc/utility.hpp:62 | A consequence of MakePair's contract, no separate property: rebuilding a pair from its components gives the same pair. |
| Utility.Eq | inc/utility.hpp:37-39 | Component-wise `==` is equality of the pairs. |
| Utility.Ne | inc/utility.hpp:41-43 | `!=` holds exactly when the pairs differ. |
| Utility.Less | inc/utility.hpp:45-47 | `<` is the lexicographic order of the two-element sequences `[first, second]`. |
| Utility.LessEq | inc/utility.hpp:49-51 | `<=`, written as `!(rhs < lhs)`, is "less or equal". |
| Utility.Greater | inc/utility.hpp:53-55 | `>`, written as `rhs < lhs`, is "neither less nor equal". |
| Utility.GreaterEq | inc/utility.hpp:57-59 | `>=`, written as `!(lhs < rhs)`, is "greater or equal". |
| Utility.LessStrictTotal | inc/utility.hpp:45-47 | `<` is irreflexive, transitive and total on pairs of ints. |
| Iterator.RandomAccessIterator.constructor | inc/iterator.hpp:123 | The iterator starts at the given index. |
| Iterator.RandomAccessIterator.Increment | inc/iterator.hpp:140 | `++` advances the index by one. |
| Iterator.RandomAccessIterator.Decrement | inc/iterator.hpp:141 | `--` moves the index back by one. |
| Iterator.RandomAccessIterator.PostIncrement | inc/iterator.hpp:142 | Postfix `++` returns the old index and advances. |
| Iterator.RandomAccessIterator.PostDecrement | inc/iterator.hpp:143 | Postfix `--` returns the old index and moves back. |
| Iterator.RandomAccessIterator.AddAssign | inc/iterator.hpp:144 | `+= n` shifts the index by n. |
| Iterator.RandomAccessIterator.SubAssign | inc/iterator.hpp:145 | `-= n` shifts the index by -n. |
| Iterator.RandomAccessIterator.Plus | inc/iterator.hpp:146 | `it + n` is a new iterator n further. |
| Iterator.RandomAccessIterator.Minus | inc/iterator.hpp:147 | `it - n` is a new iterator n back. |
| Iterator.RandomAccessIterator.Deref | inc/iterator.hpp:137 | `*it` is `it[0]`. |
| Iterator.RandomAccessIterator.At | inc/iterator.hpp:138 | `it[n]` is the element n places after the pointer, or -n places before it for negative n. |
| Iterator.AtIsAdvancedDeref | inc/iterator.hpp:137-146 | A consequence of the contracts of `Deref`, `At` and `Difference`, no separate property: `it[n]` is `*(it + n)`, and `(it + n) - it == n`. |
| Iterator.Difference | inc/iterator.hpp:160-161 | `lhs - rhs` is the number of places rhs moves forward to reach lhs. |
| Iterator.Less | inc/iterator.hpp:152 | `<` holds exactly when the difference is negative. |
| Iterator.Same | inc/iterator.hpp:150 | `==` holds exactly when the difference is zero. |
| Iterator.Distance | inc/iterator.hpp:163-171 | Counting `++` steps from first to last gives `last - first`. |
| Iterator.ReverseIterator.constructor | inc/iterator.hpp:71 | The reverse iterator stores its base. |
| Iterator.ReverseIterator.Increment | inc/iterator.hpp:84 | `++` decrements the base. |
| Iterator.ReverseIterator.Decrement | inc/iterator.hpp:85 | `--` increments the base. |
| Iterator.ReverseIterator.PostIncrement | inc/iterator.hpp:86 | Postfix `++` returns the old base and decrements it. |
| Iterator.ReverseIterator.PostDecrement | inc/iterator.hpp:87 | Postfix `--` returns the old base and increments it. |
| Iterator.ReverseIterator.AddAssign | inc/iterator.hpp:88 | `+= n` moves the base back by n. |
| Iterator.ReverseIterator.SubAssign | inc/iterator.hpp:89 | `-= n` moves the base forward by n. |
| Iterator.ReverseIterator.Plus | inc/iterator.hpp:90 | `r + n` has base `base - n`. |
| Iterator.ReverseIterator.Minus | inc/iterator.hpp:91 | `r - n` has base `base + n`. |
| Iterator.ReverseIterator.Deref | inc/iterator.hpp:81 | `*r` is `r[0]`, and a reverse iterator k steps from `rbegin` (base at the end) reads the k-th element of the buffer taken back to front. |
| Iterator.ReverseIterator.At | inc/iterator.hpp:80 | `r[n]` reads the element n steps further along the buffer taken back to front. |
| Iterator.ReversedAt | inc/iterator.hpp:81 | The k-th element of the reversed buffer is the buffer's element counted from the back. |
| Iterator.ReverseDifference | inc/iterator.hpp:104-105 | `lhs - rhs` is the number of `++` steps, each moving the base back by one, that take rhs to lhs. |
| Iterator.ReverseLess | inc/iterator.hpp:96 | `<`, the inverted base comparison, holds exactly when the reverse difference is negative. |
| Iterator.ReverseSame | inc/iterator.hpp:94 | `==` holds exactly when the reverse difference is zero. |

## Left out

- Allocation: `_alloc.allocate/construct/destroy/deallocate`, `max_size`, `get_allocator` and the destructors are not modelled. Nodes are arena slots, and a freed slot is never reused.
- Comparators: `key_comp`, `value_comp`, the `Compare` template parameter and `get_key_from_val` are fixed to `<` on `int` keys. Generic value types are not modelled.
- Iterator staleness: an iterator copies `_root` when it is made, and a later insertion or erasure can leave that copy stale. The model requires iterators to belong to the current tree (`TreeIterator.Valid`) and does not model stale use. `Set.EraseRange` re-establishes validity for the two iterators it uses.
- `BidirectionalIterator.TreeIterator.Decrement`: requires a non-empty tree or a non-end iterator. On an empty tree, `--end()` would compute `maximum(_nil)`, which reads the sentinel's children. The model also does not follow the NULL that `predecessor` yields before the first element any further.
- `rbegin`/`rend` of `set`, the `const_iterator` overloads and `operator->` are not modelled. `reverse_iterator` is modelled over random-access positions only.
- `Iterator.Distance`: requires `first <= last`, and covers only random-access positions. For the tree iterator the same count is `Position(last) - Position(first)`.
- `FtSet.Set.FromRange` and `FtSet.Set.InsertRange`: take a range of tree iterators over another set. The source templates accept any InputIterator, including the set's own range, where the insertion changes nothing. Other iterator kinds and the self-range are not modelled.
- `FtSet.Set.Assign`: requires two distinct trees, or the same set object. Two different sets that share one tree are not modelled.
- Node `operator=` and `pair::operator=`/converting constructor: value semantics are Dafny's value semantics for datatypes, so they have no member of their own.
- `inc/RBTree.hpp` is not modelled separately. Its differences from `inc/rbt.hpp` are listed above.
- Of the two-argument comparison operators on `random_access_iterator` and `reverse_iterator`, only `==`, `<` and difference are members (`Iterator.Same`, `Iterator.Less`, `Iterator.Difference`, and `Iterator.ReverseSame`, `Iterator.ReverseLess`, `Iterator.ReverseDifference`). The others, `!=`, `<=`, `>` and `>=`, are the same base comparison negated or swapped, and have no member of their own.
- `set.hpp` names `ft::RBTree` and `ft::tree_iterator`, while the headers define `RBtree` and `bidirectional_iterator`. The model connects the set to the tree and iterator that exist.
- Integer widths: `size_type` and indices are unbounded naturals. Overflow of `_size` cannot occur before memory runs out.

## Findings

| source | as written | input that shows it | evidently intended | confidence | as-written member | corrected member |
|---|---|---|---|---|---|---|
| inc/RBNode.hpp:70-74 | With a nil right child, `next_node` climbs while n is a right child and returns n itself, the top of the climb. | A root holding 2 with a left leaf holding 1: `next_node(leaf)` returns the leaf, not the root. | Return the climb's parent, the in-order successor, or the sentinel after the maximum. | not executed | NodeHelpers.NextNodeReturnsItself | NodeHelpers.NextNodeFixed |
| inc/RBNode.hpp:81-84 | `prev_node` mirrors the same climb and returns the top of the leftward climb. | A root holding 1 with a right leaf holding 2: `prev_node(leaf)` returns the leaf, not the root. | Return the in-order predecessor, or the sentinel before the minimum. | not executed | NodeHelpers.PrevNodeReturnsItself | NodeHelpers.PrevNodeFixed |
