/** The node arena shared by the red-black tree, its node helpers and its
    iterator. A C++ node pointer becomes an index into `nodes: seq<Node>`:
    index NIL (0) is the tree's sentinel and NULL (-1) stands for a null
    pointer. The ghost Layout records, for every live node, where it sits in
    the in-order sequence and which contiguous slice of that sequence its
    subtree covers; every structural invariant below is a local condition on
    one node, its children and its parent. */
module Arena {
  import opened SortedSeq

  const NIL: int := 0
  const NULL: int := -1

  datatype Color = Red | Black

  datatype Node = Node(key: int, parent: int, left: int, right: int)

  /** order: the live node ids in in-order; pos[i]: the index of node i in
      order; [lo[i], hi[i]): the slice of order covered by the subtree of i. */
  datatype Layout = Layout(order: seq<int>, pos: seq<int>, lo: seq<int>, hi: seq<int>)

  ghost predicate Sized(nodes: seq<Node>, L: Layout) {
    |nodes| >= 1 && |L.pos| == |nodes| && |L.lo| == |nodes| && |L.hi| == |nodes|
  }

  /** Node i is a real node of the tree (not the sentinel, not a freed slot). */
  ghost predicate Live(nodes: seq<Node>, L: Layout, i: int) {
    0 < i < |nodes| && i < |L.pos| && 0 <= L.pos[i] < |L.order| && L.order[L.pos[i]] == i
  }

  /** c is a live child of i whose subtree covers exactly [clo, chi). */
  ghost predicate ChildOk(nodes: seq<Node>, L: Layout, i: int, c: int, clo: int, chi: int) {
    Live(nodes, L, c) && c < |L.lo| && c < |L.hi| &&
    nodes[c].parent == i && L.lo[c] == clo && L.hi[c] == chi
  }

  /** The left subtree of i covers the part of i's span before i. */
  ghost predicate LeftLink(nodes: seq<Node>, L: Layout, i: int)
    requires 0 <= i < |nodes| && i < |L.pos| && i < |L.lo|
  {
    if nodes[i].left == NIL then L.lo[i] == L.pos[i] else ChildOk(nodes, L, i, nodes[i].left, L.lo[i], L.pos[i])
  }

  /** The right subtree of i covers the part of i's span after i. */
  ghost predicate RightLink(nodes: seq<Node>, L: Layout, i: int)
    requires 0 <= i < |nodes| && i < |L.pos| && i < |L.hi|
  {
    if nodes[i].right == NIL then L.hi[i] == L.pos[i] + 1 else ChildOk(nodes, L, i, nodes[i].right, L.pos[i] + 1, L.hi[i])
  }

  /** i is the root (whose parent is `top`) or a child of its parent. */
  ghost predicate UpLink(nodes: seq<Node>, root: int, top: int, L: Layout, i: int)
    requires 0 <= i < |nodes|
  {
    (i == root ==> nodes[i].parent == top) &&
    (i != root ==>
      Live(nodes, L, nodes[i].parent) &&
      (nodes[nodes[i].parent].left == i || nodes[nodes[i].parent].right == i))
  }

  /** The local shape condition of a live node i: its position lies in its
      span, its subtrees cover the rest of the span, children point back to
      i, and i hangs below its parent. */
  ghost predicate NodeOk(nodes: seq<Node>, root: int, top: int, L: Layout, i: int) {
    Live(nodes, L, i) && i < |L.lo| && i < |L.hi| &&
    0 <= L.lo[i] <= L.pos[i] < L.hi[i] <= |L.order| &&
    LeftLink(nodes, L, i) && RightLink(nodes, L, i) && UpLink(nodes, root, top, L, i)
  }

  /** The arena holds a binary tree rooted at `root` whose in-order sequence
      is L.order; `top` is the parent value of the root (NULL in the tree,
      the sentinel for the node helpers). */
  ghost predicate Shape(nodes: seq<Node>, root: int, top: int, L: Layout) {
    Sized(nodes, L) &&
    (root == NIL <==> L.order == []) &&
    (root != NIL ==> Live(nodes, L, root) && L.lo[root] == 0 && L.hi[root] == |L.order|) &&
    forall k | 0 <= k < |L.order| :: Placed(nodes, root, top, L, k)
  }

  /** Position k of the in-order sequence holds a distinct, well-shaped node.
      (A predicate of its own so that the quantifier in Shape is triggered
      only on demand, through NodeAt.) */
  ghost predicate Placed(nodes: seq<Node>, root: int, top: int, L: Layout, k: int) {
    0 <= k < |L.order| && 0 < L.order[k] < |nodes| && L.order[k] < |L.pos| && L.pos[L.order[k]] == k &&
    NodeOk(nodes, root, top, L, L.order[k])
  }

  lemma NodeAt(nodes: seq<Node>, root: int, top: int, L: Layout, i: int)
    requires Shape(nodes, root, top, L) && Live(nodes, L, i)
    ensures NodeOk(nodes, root, top, L, i)
  {
    assert Placed(nodes, root, top, L, L.pos[i]);
  }

  /** A non-root node hangs below a live parent whose span strictly
      contains its own, on exactly one side. */
  lemma ParentOf(nodes: seq<Node>, root: int, top: int, L: Layout, c: int)
    requires Shape(nodes, root, top, L) && Live(nodes, L, c) && c != root
    ensures NodeOk(nodes, root, top, L, c)
    ensures var pp := nodes[c].parent;
      Live(nodes, L, pp) && NodeOk(nodes, root, top, L, pp) && pp != c &&
      L.hi[c] - L.lo[c] < L.hi[pp] - L.lo[pp] &&
      (nodes[pp].left == c <==> nodes[pp].right != c) &&
      (nodes[pp].left == c ==> L.lo[c] == L.lo[pp] && L.hi[c] == L.pos[pp]) &&
      (nodes[pp].right == c ==> L.lo[c] == L.pos[pp] + 1 && L.hi[c] == L.hi[pp])
  {
    NodeAt(nodes, root, top, L, c);
    NodeAt(nodes, root, top, L, nodes[c].parent);
  }

  /** The key at in-order position k. */
  ghost function KeyAt(nodes: seq<Node>, L: Layout, k: int): int {
    if 0 <= k < |L.order| && 0 <= L.order[k] < |nodes| then nodes[L.order[k]].key else 0
  }

  /** Binary-search-tree order: the in-order key sequence strictly increases. */
  ghost predicate Sorted(nodes: seq<Node>, L: Layout) {
    forall a, b | 0 <= a < b < |L.order| :: KeyAt(nodes, L, a) < KeyAt(nodes, L, b)
  }

  /** The in-order key sequence: what iterating the tree from begin to end yields. */
  ghost function Keys(nodes: seq<Node>, L: Layout): (s: seq<int>)
    ensures |s| == |L.order|
    ensures forall k | 0 <= k < |s| :: s[k] == KeyAt(nodes, L, k)
  {
    seq(|L.order|, k => KeyAt(nodes, L, k))
  }

  /** The key of every slot of the arena, in slot order. */
  ghost function KeyArray(nodes: seq<Node>): (r: seq<int>)
    ensures |r| == |nodes|
  {
    seq(|nodes|, i requires 0 <= i < |nodes| => nodes[i].key)
  }

  /** Equal key arrays: every slot keeps its key. */
  lemma KeyArrayKeys(nodes: seq<Node>, nodes': seq<Node>)
    requires KeyArray(nodes') == KeyArray(nodes)
    ensures |nodes'| == |nodes| && forall i | 0 <= i < |nodes| :: nodes'[i].key == nodes[i].key
  {
    forall i | 0 <= i < |nodes|
      ensures nodes'[i].key == nodes[i].key
    {
      assert KeyArray(nodes')[i] == KeyArray(nodes)[i];
    }
  }

  /** Rewriting a slot without changing its key keeps the key array. */
  lemma KeyArrayUpdate(nodes: seq<Node>, i: int, n: Node)
    requires 0 <= i < |nodes| && n.key == nodes[i].key
    ensures KeyArray(nodes[i := n]) == KeyArray(nodes)
  {
    assert forall j | 0 <= j < |nodes| :: KeyArray(nodes[i := n])[j] == KeyArray(nodes)[j];
  }

  /** BST order is exactly an increasing key sequence. */
  lemma SortedKeys(nodes: seq<Node>, L: Layout)
    ensures Sorted(nodes, L) <==> Increasing(Keys(nodes, L))
  {
  }

  /** Operations that keep the in-order sequence and every key keep the key
      sequence. */
  lemma KeysFrame(nodes: seq<Node>, L: Layout, nodes': seq<Node>, L': Layout)
    requires L'.order == L.order && |nodes'| == |nodes|
    requires forall i | 0 <= i < |nodes| :: nodes'[i].key == nodes[i].key
    ensures Keys(nodes', L') == Keys(nodes, L)
    ensures Sorted(nodes, L) ==> Sorted(nodes', L')
  {
    assert forall q | 0 <= q < |L.order| :: KeyAt(nodes', L', q) == KeyAt(nodes, L, q);
  }

  // ---------------------------------------------------------------------
  // Red-black colouring

  ghost predicate IsBlack(colors: seq<Color>, c: int) {
    0 <= c < |colors| && colors[c] == Black
  }

  ghost predicate IsRed(colors: seq<Color>, c: int) {
    0 <= c < |colors| && colors[c] == Red
  }

  /** The number of black nodes child c adds on every path below its parent:
      its own black-height plus one if it is black (the sentinel counts 1). */
  ghost function Weight(colors: seq<Color>, bh: seq<nat>, c: int): int {
    (if 0 <= c < |bh| then bh[c] else 0) + (if IsBlack(colors, c) then 1 else 0)
  }

  /** Uniform black-height at i: both children contribute bh[i]. */
  ghost predicate BlackOk(nodes: seq<Node>, colors: seq<Color>, bh: seq<nat>, i: int) {
    0 <= i < |nodes| && i < |bh| &&
    Weight(colors, bh, nodes[i].left) == bh[i] && Weight(colors, bh, nodes[i].right) == bh[i]
  }

  /** No red node has a red child, except that child z is excused. */
  ghost predicate RedOk(nodes: seq<Node>, colors: seq<Color>, i: int, z: int) {
    0 <= i < |nodes| && i < |colors| &&
    (colors[i] == Red ==>
      (nodes[i].left == z || IsBlack(colors, nodes[i].left)) &&
      (nodes[i].right == z || IsBlack(colors, nodes[i].right)))
  }

  /** The colour rules on every live node, with the exceptions the fixups
      need: black-height may fail at node `bp`, the red rule may fail at node
      `rs` and for red child `rz`. NULL for all three means no exception. */
  ghost predicate ColoursExcept(nodes: seq<Node>, colors: seq<Color>, L: Layout, bh: seq<nat>, bp: int, rs: int, rz: int) {
    forall k | 0 <= k < |L.order| ::
      (L.order[k] != bp ==> BlackOk(nodes, colors, bh, L.order[k])) &&
      (L.order[k] != rs ==> RedOk(nodes, colors, L.order[k], rz))
  }

  /** The sentinel is black and has black-height 0. */
  ghost predicate Sentinel(nodes: seq<Node>, colors: seq<Color>, bh: seq<nat>) {
    |nodes| >= 1 && |colors| == |nodes| && |bh| == |nodes| && colors[NIL] == Black && bh[NIL] == 0
  }

  /** Invariants 1-4 of a red-black tree: sentinel and root black, no red
      node with a red child, uniform black-height. */
  ghost predicate RedBlack(nodes: seq<Node>, colors: seq<Color>, root: int, L: Layout, bh: seq<nat>) {
    Sentinel(nodes, colors, bh) && (root != NIL ==> IsBlack(colors, root)) &&
    ColoursExcept(nodes, colors, L, bh, NULL, NULL, NULL)
  }

  /** A red-black colouring still holds when one red node is excused. */
  lemma ExcuseRed(nodes: seq<Node>, colors: seq<Color>, root: int, L: Layout, bh: seq<nat>, z: int)
    requires Shape(nodes, root, NULL, L) && ColoursExcept(nodes, colors, L, bh, NULL, NULL, NULL)
    ensures ColoursExcept(nodes, colors, L, bh, NULL, NULL, z)
  {
    forall k | 0 <= k < |L.order|
      ensures RedOk(nodes, colors, L.order[k], z)
    {
      assert Placed(nodes, root, NULL, L, k);
      assert RedOk(nodes, colors, L.order[k], NULL);
    }
  }

  /** The colour rules at v depend only on v's children, the colours and
      black-heights of v and its children, and on whether the excused child
      is one of them. */
  lemma ColourFrame(nodes: seq<Node>, colors: seq<Color>, bh: seq<nat>,
                    nodes': seq<Node>, colors': seq<Color>, bh': seq<nat>, v: int, z: int, z': int)
    requires 0 <= v < |nodes| && v < |nodes'| && v < |colors| && v < |colors'| && v < |bh| && v < |bh'|
    requires nodes'[v].left == nodes[v].left && nodes'[v].right == nodes[v].right
    requires colors'[v] == colors[v] && bh'[v] == bh[v]
    requires var l, r := nodes[v].left, nodes[v].right;
      0 <= l < |colors| && l < |colors'| && l < |bh| && l < |bh'| &&
      0 <= r < |colors| && r < |colors'| && r < |bh| && r < |bh'| &&
      colors'[l] == colors[l] && bh'[l] == bh[l] && colors'[r] == colors[r] && bh'[r] == bh[r] &&
      (z != z' ==> l != z && r != z)
    requires BlackOk(nodes, colors, bh, v) && RedOk(nodes, colors, v, z)
    ensures BlackOk(nodes', colors', bh', v) && RedOk(nodes', colors', v, z')
  {
  }

  /** In a sorted tree, a key below the key at position i is below every
      key from i on, and a key above it is above every key up to i. */
  lemma KeysAbove(nodes: seq<Node>, L: Layout, i: int, k: int)
    requires Sorted(nodes, L) && 0 <= i < |L.order| && k < KeyAt(nodes, L, i)
    ensures forall q | i <= q < |L.order| :: k < KeyAt(nodes, L, q)
  {
    forall q | i < q < |L.order| ensures k < KeyAt(nodes, L, q) {
      assert KeyAt(nodes, L, i) < KeyAt(nodes, L, q);
    }
  }

  lemma KeysBelow(nodes: seq<Node>, L: Layout, i: int, k: int)
    requires Sorted(nodes, L) && 0 <= i < |L.order| && KeyAt(nodes, L, i) < k
    ensures forall q | 0 <= q <= i :: KeyAt(nodes, L, q) < k
  {
    forall q | 0 <= q < i ensures KeyAt(nodes, L, q) < k {
      assert KeyAt(nodes, L, q) < KeyAt(nodes, L, i);
    }
  }

  lemma KeyPresent(nodes: seq<Node>, L: Layout, q: int, k: int)
    requires 0 <= q < |L.order| && KeyAt(nodes, L, q) == k
    ensures k in Keys(nodes, L)
  {
    assert Keys(nodes, L)[q] == k;
  }

  /** A key that falls strictly between the keys before position p and
      those from p on is not in the tree. */
  lemma KeyAbsent(nodes: seq<Node>, L: Layout, p: int, k: int)
    requires 0 <= p <= |L.order|
    requires forall q | 0 <= q < p :: KeyAt(nodes, L, q) < k
    requires forall q | p <= q < |L.order| :: k < KeyAt(nodes, L, q)
    ensures k !in Keys(nodes, L)
  {
    forall q | 0 <= q < |L.order| ensures Keys(nodes, L)[q] != k {
      if q < p {
        assert KeyAt(nodes, L, q) < k;
      } else {
        assert k < KeyAt(nodes, L, q);
      }
    }
  }

  lemma FirstIsLeast(nodes: seq<Node>, L: Layout, p: int)
    requires Sorted(nodes, L) && p == 0 < |L.order| && 0 <= L.order[p] < |nodes|
    ensures forall k | 0 <= k < |Keys(nodes, L)| :: nodes[L.order[p]].key <= Keys(nodes, L)[k]
  {
    forall k | 0 <= k < |Keys(nodes, L)| ensures nodes[L.order[p]].key <= Keys(nodes, L)[k] {
      assert KeyAt(nodes, L, p) == nodes[L.order[p]].key;
      if k > p { assert KeyAt(nodes, L, p) < KeyAt(nodes, L, k); }
    }
  }

  lemma LastIsGreatest(nodes: seq<Node>, L: Layout, p: int)
    requires Sorted(nodes, L) && p == |L.order| - 1 >= 0 && 0 <= L.order[p] < |nodes|
    ensures forall k | 0 <= k < |Keys(nodes, L)| :: Keys(nodes, L)[k] <= nodes[L.order[p]].key
  {
    forall k | 0 <= k < |Keys(nodes, L)| ensures Keys(nodes, L)[k] <= nodes[L.order[p]].key {
      assert KeyAt(nodes, L, p) == nodes[L.order[p]].key;
      if k < p { assert KeyAt(nodes, L, k) < KeyAt(nodes, L, p); }
    }
  }
}
