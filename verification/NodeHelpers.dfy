/** The RbNode predicates and the free navigation functions of
    inc/RBNode.hpp, over the node arena. In this setting the sentinel is a
    black node whose children are itself and whose parent is NULL, and the
    root hangs below the sentinel (its parent is NIL). */
module NodeHelpers {
  import opened Arena

  /** is_nil: black, NULL parent, both children the node itself: the
      sentinel shape, a black self-loop. NilExactly shows that in a helper
      tree it holds of the sentinel and of no other node. */
  function IsNil(nodes: seq<Node>, colors: seq<Color>, i: int): (b: bool)
    requires 0 <= i < |nodes| && |colors| == |nodes|
    ensures b ==> IsBlackNode(colors, i) && nodes[i].parent == NULL
    ensures b ==> nodes[i].left == i && nodes[i].right == i
  {
    colors[i] == Black && nodes[i].parent == NULL && nodes[i].left == i && nodes[i].right == i
  }

  /** is_red and is_black. With two colours, a node is red exactly when it
      is not black, and is_black is the colour test of the red-black
      invariants. */
  function IsRedNode(colors: seq<Color>, i: int): (b: bool)
    requires 0 <= i < |colors|
    ensures b <==> !IsBlackNode(colors, i)
  {
    colors[i] == Red
  }

  function IsBlackNode(colors: seq<Color>, i: int): (b: bool)
    requires 0 <= i < |colors|
    ensures b <==> IsBlack(colors, i) && !IsRed(colors, i)
  {
    colors[i] == Black
  }

  /** is_left and is_right: the node is its parent's left (right) child.
      A node is both only when its parent's two links coincide, which
      SideExactly rules out in a tree. */
  function IsLeft(nodes: seq<Node>, i: int): (b: bool)
    requires 0 <= i < |nodes| && 0 <= nodes[i].parent < |nodes|
    ensures b && IsRight(nodes, i) ==> nodes[nodes[i].parent].left == nodes[nodes[i].parent].right
  {
    nodes[nodes[i].parent].left == i
  }

  function IsRight(nodes: seq<Node>, i: int): (b: bool)
    requires 0 <= i < |nodes| && 0 <= nodes[i].parent < |nodes|
    ensures b && nodes[nodes[i].parent].left == i ==> nodes[nodes[i].parent].left == nodes[nodes[i].parent].right
  {
    nodes[nodes[i].parent].right == i
  }

  /** operator== and operator!= on nodes compare addresses: two node
      references are equal exactly when they are the same slot of the
      arena, which then has the same contents. */
  function SameNode(nodes: seq<Node>, i: int, j: int): (b: bool)
    requires 0 <= i < |nodes| && 0 <= j < |nodes|
    ensures b ==> nodes[i] == nodes[j]
  {
    i == j
  }

  function OtherNode(nodes: seq<Node>, i: int, j: int): (b: bool)
    requires 0 <= i < |nodes| && 0 <= j < |nodes|
    ensures b <==> !SameNode(nodes, i, j)
  {
    !SameNode(nodes, i, j)
  }

  /** In a search tree node identity and key equality agree on live
      nodes: two distinct nodes never hold the same key. */
  lemma IdentityIsKey(nodes: seq<Node>, L: Layout, i: int, j: int)
    requires Sorted(nodes, L) && Live(nodes, L, i) && Live(nodes, L, j)
    ensures SameNode(nodes, i, j) <==> nodes[i].key == nodes[j].key
  {
    if i != j {
      if L.pos[i] < L.pos[j] {
        assert KeyAt(nodes, L, L.pos[i]) < KeyAt(nodes, L, L.pos[j]);
      } else {
        assert KeyAt(nodes, L, L.pos[j]) < KeyAt(nodes, L, L.pos[i]);
      }
    }
  }

  /** A tree as the helpers see it: well shaped below the sentinel, which
      is the is_nil self-loop. */
  ghost predicate HelperTree(nodes: seq<Node>, colors: seq<Color>, root: int, L: Layout) {
    Shape(nodes, root, NIL, L) && |colors| == |nodes| && IsNil(nodes, colors, NIL)
  }

  /** In such a tree is_nil picks out exactly the sentinel: no real node is
      a self-loop. */
  lemma NilExactly(nodes: seq<Node>, colors: seq<Color>, root: int, L: Layout, i: int)
    requires HelperTree(nodes, colors, root, L) && (i == NIL || Live(nodes, L, i))
    ensures IsNil(nodes, colors, i) <==> i == NIL
  {
    if i != NIL {
      NodeAt(nodes, root, NIL, L, i);
    }
  }

  /** A non-root node is exactly one of is_left and is_right, and is_left
      holds exactly when it comes before its parent in order. */
  lemma SideExactly(nodes: seq<Node>, colors: seq<Color>, root: int, L: Layout, i: int)
    requires HelperTree(nodes, colors, root, L) && Live(nodes, L, i) && i != root
    ensures 0 <= nodes[i].parent < |nodes|
    ensures IsLeft(nodes, i) != IsRight(nodes, i)
    ensures IsLeft(nodes, i) <==> L.pos[i] < L.pos[nodes[i].parent]
  {
    ParentOf(nodes, root, NIL, L, i);
    NodeAt(nodes, root, NIL, L, i);
  }

  /** min_node: follows left links until the left child is nil; the
      leftmost node of p's subtree. */
  method MinNode(nodes: seq<Node>, colors: seq<Color>, root: int, L: Layout, p: int) returns (r: int)
    requires HelperTree(nodes, colors, root, L) && Live(nodes, L, p)
    ensures Live(nodes, L, r) && L.pos[r] == L.lo[p] && nodes[r].left == NIL
  {
    r := p;
    NodeAt(nodes, root, NIL, L, r);
    NilExactly(nodes, colors, root, L, nodes[r].left);
    while !IsNil(nodes, colors, nodes[r].left)
      invariant Live(nodes, L, r) && L.lo[r] == L.lo[p] && NodeOk(nodes, root, NIL, L, r)
      invariant IsNil(nodes, colors, nodes[r].left) <==> nodes[r].left == NIL
      decreases L.hi[r] - L.lo[r]
    {
      r := nodes[r].left;
      NodeAt(nodes, root, NIL, L, r);
      NilExactly(nodes, colors, root, L, nodes[r].left);
    }
  }

  /** max_node: the mirror image, along right links. */
  method MaxNode(nodes: seq<Node>, colors: seq<Color>, root: int, L: Layout, p: int) returns (r: int)
    requires HelperTree(nodes, colors, root, L) && Live(nodes, L, p)
    ensures Live(nodes, L, r) && L.pos[r] == L.hi[p] - 1 && nodes[r].right == NIL
  {
    r := p;
    NodeAt(nodes, root, NIL, L, r);
    NilExactly(nodes, colors, root, L, nodes[r].right);
    while !IsNil(nodes, colors, nodes[r].right)
      invariant Live(nodes, L, r) && L.hi[r] == L.hi[p] && NodeOk(nodes, root, NIL, L, r)
      invariant IsNil(nodes, colors, nodes[r].right) <==> nodes[r].right == NIL
      decreases L.hi[r] - L.lo[r]
    {
      r := nodes[r].right;
      NodeAt(nodes, root, NIL, L, r);
      NilExactly(nodes, colors, root, L, nodes[r].right);
    }
  }

  /** Where the climb of next_node stops: the highest node r whose subtree
      ends just after n (so n is the last node of r's subtree) and which is
      the root or a left child. The in-order successor of n is r's parent. */
  ghost predicate ClimbTopRight(nodes: seq<Node>, root: int, L: Layout, n: int, r: int) {
    Live(nodes, L, r) && r < |L.lo| && r < |L.hi| && 0 <= n < |L.pos| &&
    L.lo[r] <= L.pos[n] && L.hi[r] == L.pos[n] + 1 &&
    (r == root || (0 <= nodes[r].parent < |nodes| && nodes[nodes[r].parent].left == r))
  }

  /** The mirror image for prev_node: n is the first node of r's subtree,
      and r is the root or a right child. */
  ghost predicate ClimbTopLeft(nodes: seq<Node>, root: int, L: Layout, n: int, r: int) {
    Live(nodes, L, r) && r < |L.lo| && r < |L.hi| && 0 <= n < |L.pos| &&
    L.lo[r] == L.pos[n] && L.pos[n] < L.hi[r] &&
    (r == root || (0 <= nodes[r].parent < |nodes| && nodes[nodes[r].parent].right == r))
  }

  /** next_node as written: with a right subtree, its leftmost node (the
      in-order successor); without one, the node where the climb over
      right-child links stops, which is not the successor. */
  method NextNode(nodes: seq<Node>, colors: seq<Color>, root: int, L: Layout, n: int) returns (r: int)
    requires HelperTree(nodes, colors, root, L) && Live(nodes, L, n)
    ensures nodes[n].right != NIL ==> Live(nodes, L, r) && L.pos[r] == L.pos[n] + 1
    ensures nodes[n].right == NIL ==> ClimbTopRight(nodes, root, L, n, r)
  {
    NodeAt(nodes, root, NIL, L, n);
    NilExactly(nodes, colors, root, L, nodes[n].right);
    if !IsNil(nodes, colors, nodes[n].right) {
      r := MinNode(nodes, colors, root, L, nodes[n].right);
    } else {
      r := n;
      NilExactly(nodes, colors, root, L, nodes[r].parent);
      while !IsNil(nodes, colors, nodes[r].parent) && r == nodes[nodes[r].parent].right
        invariant Live(nodes, L, r) && NodeOk(nodes, root, NIL, L, r)
        invariant L.lo[r] <= L.pos[n] && L.hi[r] == L.pos[n] + 1
        invariant IsNil(nodes, colors, nodes[r].parent) <==> r == root
        decreases |L.order| - (L.hi[r] - L.lo[r])
      {
        ParentOf(nodes, root, NIL, L, r);
        r := nodes[r].parent;
        NilExactly(nodes, colors, root, L, nodes[r].parent);
      }
      if r != root {
        ParentOf(nodes, root, NIL, L, r);
      }
    }
  }

  /** prev_node as written: the mirror image of next_node. */
  method PrevNode(nodes: seq<Node>, colors: seq<Color>, root: int, L: Layout, n: int) returns (r: int)
    requires HelperTree(nodes, colors, root, L) && Live(nodes, L, n)
    ensures nodes[n].left != NIL ==> Live(nodes, L, r) && L.pos[r] == L.pos[n] - 1
    ensures nodes[n].left == NIL ==> ClimbTopLeft(nodes, root, L, n, r)
  {
    NodeAt(nodes, root, NIL, L, n);
    NilExactly(nodes, colors, root, L, nodes[n].left);
    if !IsNil(nodes, colors, nodes[n].left) {
      r := MaxNode(nodes, colors, root, L, nodes[n].left);
    } else {
      r := n;
      NilExactly(nodes, colors, root, L, nodes[r].parent);
      while !IsNil(nodes, colors, nodes[r].parent) && r == nodes[nodes[r].parent].left
        invariant Live(nodes, L, r) && NodeOk(nodes, root, NIL, L, r)
        invariant L.lo[r] == L.pos[n] && L.pos[n] < L.hi[r]
        invariant IsNil(nodes, colors, nodes[r].parent) <==> r == root
        decreases |L.order| - (L.hi[r] - L.lo[r])
      {
        ParentOf(nodes, root, NIL, L, r);
        r := nodes[r].parent;
        NilExactly(nodes, colors, root, L, nodes[r].parent);
      }
      if r != root {
        ParentOf(nodes, root, NIL, L, r);
      }
    }
  }

  /** next_node as evidently intended: after the climb, the parent of the
      node where it stopped; the sentinel (end) past the greatest node. */
  method NextNodeFixed(nodes: seq<Node>, colors: seq<Color>, root: int, L: Layout, n: int) returns (r: int)
    requires HelperTree(nodes, colors, root, L) && Live(nodes, L, n)
    ensures L.pos[n] + 1 < |L.order| ==> r == L.order[L.pos[n] + 1]
    ensures L.pos[n] + 1 == |L.order| ==> r == NIL
  {
    NodeAt(nodes, root, NIL, L, n);
    NilExactly(nodes, colors, root, L, nodes[n].right);
    if !IsNil(nodes, colors, nodes[n].right) {
      r := MinNode(nodes, colors, root, L, nodes[n].right);
    } else {
      var c := n;
      NilExactly(nodes, colors, root, L, nodes[c].parent);
      while !IsNil(nodes, colors, nodes[c].parent) && c == nodes[nodes[c].parent].right
        invariant Live(nodes, L, c) && NodeOk(nodes, root, NIL, L, c)
        invariant L.hi[c] == L.pos[n] + 1
        invariant IsNil(nodes, colors, nodes[c].parent) <==> c == root
        decreases |L.order| - (L.hi[c] - L.lo[c])
      {
        ParentOf(nodes, root, NIL, L, c);
        c := nodes[c].parent;
        NilExactly(nodes, colors, root, L, nodes[c].parent);
      }
      if c != root {
        ParentOf(nodes, root, NIL, L, c);
      }
      r := nodes[c].parent;
    }
  }

  /** prev_node as evidently intended: the mirror image, with the sentinel
      before the least node. */
  method PrevNodeFixed(nodes: seq<Node>, colors: seq<Color>, root: int, L: Layout, n: int) returns (r: int)
    requires HelperTree(nodes, colors, root, L) && Live(nodes, L, n)
    ensures L.pos[n] > 0 ==> r == L.order[L.pos[n] - 1]
    ensures L.pos[n] == 0 ==> r == NIL
  {
    NodeAt(nodes, root, NIL, L, n);
    NilExactly(nodes, colors, root, L, nodes[n].left);
    if !IsNil(nodes, colors, nodes[n].left) {
      r := MaxNode(nodes, colors, root, L, nodes[n].left);
    } else {
      var c := n;
      NilExactly(nodes, colors, root, L, nodes[c].parent);
      while !IsNil(nodes, colors, nodes[c].parent) && c == nodes[nodes[c].parent].left
        invariant Live(nodes, L, c) && NodeOk(nodes, root, NIL, L, c)
        invariant L.lo[c] == L.pos[n]
        invariant IsNil(nodes, colors, nodes[c].parent) <==> c == root
        decreases |L.order| - (L.hi[c] - L.lo[c])
      {
        ParentOf(nodes, root, NIL, L, c);
        c := nodes[c].parent;
        NilExactly(nodes, colors, root, L, nodes[c].parent);
      }
      if c != root {
        ParentOf(nodes, root, NIL, L, c);
      }
      r := nodes[c].parent;
    }
  }

  /** A two-node tree: root 2 (key 2) with left child 1 (key 1). */
  function SmallNodes(): seq<Node> {
    [Node(0, NULL, NIL, NIL), Node(1, 2, NIL, NIL), Node(2, NIL, 1, NIL)]
  }

  function SmallLayout(): Layout {
    Layout([1, 2], [0, 0, 1], [0, 0, 0], [0, 1, 2])
  }

  /** In the two-node tree next_node(1) can only return node 1 itself,
      although node 2 comes next in order; and prev_node(2), from a node
      whose left child is 1, returns 1 as it should. */
  lemma NextNodeReturnsItself()
    ensures HelperTree(SmallNodes(), [Black, Red, Black], 2, SmallLayout()) && Sorted(SmallNodes(), SmallLayout())
    ensures forall r | ClimbTopRight(SmallNodes(), 2, SmallLayout(), 1, r) :: r == 1
    ensures SmallLayout().order[SmallLayout().pos[1] + 1] == 2
  {
    var nodes, L := SmallNodes(), SmallLayout();
    assert Placed(nodes, 2, NIL, L, 0) && Placed(nodes, 2, NIL, L, 1);
  }

  /** The mirror tree: root 1 (key 1) with right child 2 (key 2), where
      prev_node(2) can only return node 2 itself, not node 1. */
  function MirrorNodes(): seq<Node> {
    [Node(0, NULL, NIL, NIL), Node(1, NIL, NIL, 2), Node(2, 1, NIL, NIL)]
  }

  function MirrorLayout(): Layout {
    Layout([1, 2], [0, 0, 1], [0, 0, 1], [0, 2, 2])
  }

  lemma PrevNodeReturnsItself()
    ensures HelperTree(MirrorNodes(), [Black, Black, Red], 1, MirrorLayout()) && Sorted(MirrorNodes(), MirrorLayout())
    ensures forall r | ClimbTopLeft(MirrorNodes(), 1, MirrorLayout(), 2, r) :: r == 2
    ensures MirrorLayout().order[MirrorLayout().pos[2] - 1] == 1
  {
    var nodes, L := MirrorNodes(), MirrorLayout();
    assert Placed(nodes, 1, NIL, L, 0) && Placed(nodes, 1, NIL, L, 1);
  }
}
