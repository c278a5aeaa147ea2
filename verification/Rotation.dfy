/** left_rotate and right_rotate as value-level descriptions of the arena
    before and after, and the proof that a rotation keeps the tree shape and
    the in-order sequence: only the two rotated nodes change their span. */
module Rotation {
  import opened Arena

  /** x's parent p with its child x replaced by y (`x->parent->left = y` when
      x was the left child, `x->parent->right = y` otherwise). */
  function ReplaceChild(n: Node, x: int, y: int): Node {
    if n.left == x then n.(left := y) else n.(right := y)
  }

  /** The arena after left_rotate(x): x's right child y takes x's place,
      x becomes y's left child and y's old left subtree b becomes x's right. */
  ghost predicate RotatedLeft(nodes: seq<Node>, root: int, x: int, nodes': seq<Node>, root': int)
    requires 0 <= x < |nodes| && 0 <= nodes[x].right < |nodes|
  {
    var y := nodes[x].right;
    var b := nodes[y].left;
    var p := nodes[x].parent;
    |nodes'| == |nodes| &&
    nodes'[x] == nodes[x].(right := b, parent := y) &&
    nodes'[y] == nodes[y].(parent := p, left := x) &&
    (b != NIL ==> 0 <= b < |nodes| && nodes'[b] == nodes[b].(parent := x)) &&
    (p != NULL ==> 0 <= p < |nodes| && nodes'[p] == ReplaceChild(nodes[p], x, y)) &&
    root' == (if p == NULL then y else root) &&
    forall i | 0 <= i < |nodes| && i != x && i != y && i != p && (i == NIL || i != b) :: nodes'[i] == nodes[i]
  }

  /** The arena after right_rotate(x), the mirror image. */
  ghost predicate RotatedRight(nodes: seq<Node>, root: int, x: int, nodes': seq<Node>, root': int)
    requires 0 <= x < |nodes| && 0 <= nodes[x].left < |nodes|
  {
    var y := nodes[x].left;
    var b := nodes[y].right;
    var p := nodes[x].parent;
    |nodes'| == |nodes| &&
    nodes'[x] == nodes[x].(left := b, parent := y) &&
    nodes'[y] == nodes[y].(parent := p, right := x) &&
    (b != NIL ==> 0 <= b < |nodes| && nodes'[b] == nodes[b].(parent := x)) &&
    (p != NULL ==> 0 <= p < |nodes| && nodes'[p] == ReplaceChild(nodes[p], x, y)) &&
    root' == (if p == NULL then y else root) &&
    forall i | 0 <= i < |nodes| && i != x && i != y && i != p && (i == NIL || i != b) :: nodes'[i] == nodes[i]
  }

  /** The spans after left_rotate(x): y inherits x's span, x now ends where y sits. */
  ghost function RotLeftLayout(L: Layout, nodes: seq<Node>, x: int): Layout
    requires 0 <= x < |nodes| && 0 <= nodes[x].right < |nodes| && Sized(nodes, L)
  {
    var y := nodes[x].right;
    L.(lo := L.lo[y := L.lo[x]], hi := L.hi[x := L.pos[y]][y := L.hi[x]])
  }

  /** The spans after right_rotate(x): y inherits x's span, x now starts after y. */
  ghost function RotRightLayout(L: Layout, nodes: seq<Node>, x: int): Layout
    requires 0 <= x < |nodes| && 0 <= nodes[x].left < |nodes| && Sized(nodes, L)
  {
    var y := nodes[x].left;
    L.(lo := L.lo[x := L.pos[y] + 1][y := L.lo[x]], hi := L.hi[y := L.hi[x]])
  }

  /** The nodes left_rotate(x) touches are distinct: x, its right child y,
      y's left child b and x's parent p. */
  lemma LeftParts(nodes: seq<Node>, root: int, L: Layout, x: int)
    requires Shape(nodes, root, NULL, L) && Live(nodes, L, x) && nodes[x].right != NIL
    ensures NodeOk(nodes, root, NULL, L, x)
    ensures var y := nodes[x].right; var b := nodes[y].left; var p := nodes[x].parent;
      0 < y < |nodes| && y != x && 0 <= b < |nodes| && (b != NIL ==> b != x && b != y) &&
      (p == NULL <==> x == root) &&
      (p != NULL ==> 0 < p < |nodes| && p != x && p != y && p != b && (nodes[p].left == x || nodes[p].right == x))
  {
    var y := nodes[x].right;
    NodeAt(nodes, root, NULL, L, x);
    NodeAt(nodes, root, NULL, L, y);
    if nodes[y].left != NIL { NodeAt(nodes, root, NULL, L, nodes[y].left); }
    if nodes[x].parent != NULL { NodeAt(nodes, root, NULL, L, nodes[x].parent); }
  }

  /** The mirror image of LeftParts for right_rotate(x). */
  lemma RightParts(nodes: seq<Node>, root: int, L: Layout, x: int)
    requires Shape(nodes, root, NULL, L) && Live(nodes, L, x) && nodes[x].left != NIL
    ensures NodeOk(nodes, root, NULL, L, x)
    ensures var y := nodes[x].left; var b := nodes[y].right; var p := nodes[x].parent;
      0 < y < |nodes| && y != x && 0 <= b < |nodes| && (b != NIL ==> b != x && b != y) &&
      (p == NULL <==> x == root) &&
      (p != NULL ==> 0 < p < |nodes| && p != x && p != y && p != b && (nodes[p].left == x || nodes[p].right == x))
  {
    var y := nodes[x].left;
    NodeAt(nodes, root, NULL, L, x);
    NodeAt(nodes, root, NULL, L, y);
    if nodes[y].right != NIL { NodeAt(nodes, root, NULL, L, nodes[y].right); }
    if nodes[x].parent != NULL { NodeAt(nodes, root, NULL, L, nodes[x].parent); }
  }

  /** The situation of left_rotate(x) on a well-shaped tree. */
  ghost predicate LeftCtx(nodes: seq<Node>, root: int, L: Layout, x: int, nodes': seq<Node>, root': int) {
    Shape(nodes, root, NULL, L) && NodeOk(nodes, root, NULL, L, x) && nodes[x].right != NIL &&
    RotatedLeft(nodes, root, x, nodes', root')
  }

  lemma LeftAtOther(nodes: seq<Node>, root: int, L: Layout, x: int, nodes': seq<Node>, root': int, i: int)
    requires LeftCtx(nodes, root, L, x, nodes', root')
    requires Live(nodes, L, i) && i != x && i != nodes[x].right && i != nodes[nodes[x].right].left && i != nodes[x].parent
    ensures NodeOk(nodes', root', NULL, RotLeftLayout(L, nodes, x), i)
  {
    var y := nodes[x].right;
    NodeAt(nodes, root, NULL, L, i);
    NodeAt(nodes, root, NULL, L, y);
    var n := nodes[i];
    assert nodes'[i] == n;
    if n.left != NIL { NodeAt(nodes, root, NULL, L, n.left); }
    if n.right != NIL { NodeAt(nodes, root, NULL, L, n.right); }
    if i != root { NodeAt(nodes, root, NULL, L, n.parent); }
  }

  lemma LeftAtX(nodes: seq<Node>, root: int, L: Layout, x: int, nodes': seq<Node>, root': int)
    requires LeftCtx(nodes, root, L, x, nodes', root')
    ensures NodeOk(nodes', root', NULL, RotLeftLayout(L, nodes, x), x)
  {
    var y := nodes[x].right;
    var b := nodes[y].left;
    NodeAt(nodes, root, NULL, L, y);
    if nodes[x].left != NIL { NodeAt(nodes, root, NULL, L, nodes[x].left); }
    if b != NIL { NodeAt(nodes, root, NULL, L, b); }
  }

  lemma LeftAtY(nodes: seq<Node>, root: int, L: Layout, x: int, nodes': seq<Node>, root': int)
    requires LeftCtx(nodes, root, L, x, nodes', root')
    ensures NodeOk(nodes', root', NULL, RotLeftLayout(L, nodes, x), nodes[x].right)
  {
    var y := nodes[x].right;
    var p := nodes[x].parent;
    NodeAt(nodes, root, NULL, L, y);
    if nodes[y].right != NIL { NodeAt(nodes, root, NULL, L, nodes[y].right); }
    if p != NULL { NodeAt(nodes, root, NULL, L, p); }
  }

  lemma LeftAtB(nodes: seq<Node>, root: int, L: Layout, x: int, nodes': seq<Node>, root': int)
    requires LeftCtx(nodes, root, L, x, nodes', root')
    requires nodes[nodes[x].right].left != NIL
    ensures NodeOk(nodes', root', NULL, RotLeftLayout(L, nodes, x), nodes[nodes[x].right].left)
  {
    var y := nodes[x].right;
    var b := nodes[y].left;
    NodeAt(nodes, root, NULL, L, y);
    NodeAt(nodes, root, NULL, L, b);
    if nodes[b].left != NIL { NodeAt(nodes, root, NULL, L, nodes[b].left); }
    if nodes[b].right != NIL { NodeAt(nodes, root, NULL, L, nodes[b].right); }
  }

  /** The parent p of the rotated node keeps its child links: y replaces x. */
  lemma LeftAtPDown(nodes: seq<Node>, root: int, L: Layout, x: int, nodes': seq<Node>, root': int)
    requires LeftCtx(nodes, root, L, x, nodes', root')
    requires nodes[x].parent != NULL
    ensures var p := nodes[x].parent; var L' := RotLeftLayout(L, nodes, x);
      0 <= p < |nodes'| && p < |L'.pos| && p < |L'.lo| && p < |L'.hi| &&
      LeftLink(nodes', L', p) && RightLink(nodes', L', p)
  {
    var y := nodes[x].right;
    var p := nodes[x].parent;
    NodeAt(nodes, root, NULL, L, y);
    NodeAt(nodes, root, NULL, L, p);
    var n := nodes[p];
    if n.left == x {
      assert nodes'[p] == n.(left := y);
      if n.right != NIL { NodeAt(nodes, root, NULL, L, n.right); }
    } else {
      assert nodes'[p] == n.(right := y);
      if n.left != NIL { NodeAt(nodes, root, NULL, L, n.left); }
    }
  }

  /** The parent p of the rotated node is still linked to its own parent. */
  lemma LeftAtPUp(nodes: seq<Node>, root: int, L: Layout, x: int, nodes': seq<Node>, root': int)
    requires LeftCtx(nodes, root, L, x, nodes', root')
    requires nodes[x].parent != NULL
    ensures 0 <= nodes[x].parent < |nodes'| &&
      UpLink(nodes', root', NULL, RotLeftLayout(L, nodes, x), nodes[x].parent)
  {
    var y := nodes[x].right;
    var p := nodes[x].parent;
    NodeAt(nodes, root, NULL, L, p);
    if p != root {
      var q := nodes[p].parent;
      NodeAt(nodes, root, NULL, L, y);
      NodeAt(nodes, root, NULL, L, q);
      assert L.hi[p] - L.lo[p] < L.hi[q] - L.lo[q];
      assert nodes'[q] == nodes[q];
    }
  }

  lemma LeftAtP(nodes: seq<Node>, root: int, L: Layout, x: int, nodes': seq<Node>, root': int)
    requires LeftCtx(nodes, root, L, x, nodes', root')
    requires nodes[x].parent != NULL
    ensures NodeOk(nodes', root', NULL, RotLeftLayout(L, nodes, x), nodes[x].parent)
  {
    var y := nodes[x].right;
    var p := nodes[x].parent;
    var L' := RotLeftLayout(L, nodes, x);
    assert p != y && p != x && Live(nodes', L', p) && L'.lo[p] == L.lo[p] && L'.hi[p] == L.hi[p] &&
      0 <= L.lo[p] <= L.pos[p] < L.hi[p] <= |L.order| by {
      NodeAt(nodes, root, NULL, L, y);
      NodeAt(nodes, root, NULL, L, p);
    }
    LeftAtPDown(nodes, root, L, x, nodes', root');
    LeftAtPUp(nodes, root, L, x, nodes', root');
  }


  /** Left rotation keeps a well-shaped tree well shaped over the same
      in-order sequence, and changes no key. */
  lemma RotateLeftShape(nodes: seq<Node>, root: int, L: Layout, x: int, nodes': seq<Node>, root': int)
    requires LeftCtx(nodes, root, L, x, nodes', root')
    ensures Shape(nodes', root', NULL, RotLeftLayout(L, nodes, x))
    ensures forall i | 0 <= i < |nodes| :: nodes'[i].key == nodes[i].key
  {
    var y := nodes[x].right;
    var b := nodes[y].left;
    var p := nodes[x].parent;
    var L' := RotLeftLayout(L, nodes, x);
    NodeAt(nodes, root, NULL, L, y);
    forall i | 0 <= i < |nodes| ensures nodes'[i].key == nodes[i].key {
    }
    forall k | 0 <= k < |L.order| ensures Placed(nodes', root', NULL, L', k) {
      var i := L.order[k];
      assert Placed(nodes, root, NULL, L, k);
      if i == x {
        LeftAtX(nodes, root, L, x, nodes', root');
      } else if i == y {
        LeftAtY(nodes, root, L, x, nodes', root');
      } else if i == b {
        LeftAtB(nodes, root, L, x, nodes', root');
      } else if i == p {
        LeftAtP(nodes, root, L, x, nodes', root');
      } else {
        LeftAtOther(nodes, root, L, x, nodes', root', i);
      }
    }
    if p != NULL {
      NodeAt(nodes, root, NULL, L, p);
    }
  }

  /** The arena after left_rotate(x), written pointer by pointer in the
      order the source assigns them. */
  ghost function LeftRotateNodes(nodes: seq<Node>, x: int): seq<Node>
    requires 0 <= x < |nodes| && 0 <= nodes[x].right < |nodes| && 0 <= nodes[nodes[x].right].left < |nodes|
    requires nodes[x].parent == NULL || 0 <= nodes[x].parent < |nodes|
  {
    var y := nodes[x].right;
    var b := nodes[y].left;
    var p := nodes[x].parent;
    var n1 := nodes[x := nodes[x].(right := b)];
    var n2 := if b != NIL then n1[b := n1[b].(parent := x)] else n1;
    var n3 := n2[y := n2[y].(parent := p)];
    var n4 := if p == NULL then n3
      else if x == n3[p].left then n3[p := n3[p].(left := y)]
      else n3[p := n3[p].(right := y)];
    var n5 := n4[y := n4[y].(left := x)];
    n5[x := n5[x].(parent := y)]
  }

  /** What left_rotate(x) establishes about the arena it writes: the
      rotation described by RotatedLeft, a well-shaped tree with the new
      spans, and unchanged keys. */
  lemma LeftRotateStep(nodes: seq<Node>, root: int, L: Layout, x: int, nodes': seq<Node>, root': int)
    requires Shape(nodes, root, NULL, L) && Live(nodes, L, x) && nodes[x].right != NIL
    requires 0 <= nodes[x].right < |nodes| && 0 <= nodes[nodes[x].right].left < |nodes|
    requires nodes[x].parent == NULL || 0 <= nodes[x].parent < |nodes|
    requires nodes' == LeftRotateNodes(nodes, x)
    requires root' == if nodes[x].parent == NULL then nodes[x].right else root
    ensures NodeOk(nodes, root, NULL, L, x) && RotatedLeft(nodes, root, x, nodes', root')
    ensures Shape(nodes', root', NULL, RotLeftLayout(L, nodes, x))
    ensures forall i | 0 <= i < |nodes| :: nodes'[i].key == nodes[i].key
  {
    LeftParts(nodes, root, L, x);
    RotateLeftShape(nodes, root, L, x, nodes', root');
  }

  /** The situation of right_rotate(x) on a well-shaped tree. */
  ghost predicate RightCtx(nodes: seq<Node>, root: int, L: Layout, x: int, nodes': seq<Node>, root': int) {
    Shape(nodes, root, NULL, L) && NodeOk(nodes, root, NULL, L, x) && nodes[x].left != NIL &&
    RotatedRight(nodes, root, x, nodes', root')
  }

  lemma RightAtOther(nodes: seq<Node>, root: int, L: Layout, x: int, nodes': seq<Node>, root': int, i: int)
    requires RightCtx(nodes, root, L, x, nodes', root')
    requires Live(nodes, L, i) && i != x && i != nodes[x].left && i != nodes[nodes[x].left].right && i != nodes[x].parent
    ensures NodeOk(nodes', root', NULL, RotRightLayout(L, nodes, x), i)
  {
    var y := nodes[x].left;
    NodeAt(nodes, root, NULL, L, i);
    NodeAt(nodes, root, NULL, L, y);
    var n := nodes[i];
    assert nodes'[i] == n;
    if n.left != NIL { NodeAt(nodes, root, NULL, L, n.left); }
    if n.right != NIL { NodeAt(nodes, root, NULL, L, n.right); }
    if i != root { NodeAt(nodes, root, NULL, L, n.parent); }
  }

  lemma RightAtX(nodes: seq<Node>, root: int, L: Layout, x: int, nodes': seq<Node>, root': int)
    requires RightCtx(nodes, root, L, x, nodes', root')
    ensures NodeOk(nodes', root', NULL, RotRightLayout(L, nodes, x), x)
  {
    var y := nodes[x].left;
    var b := nodes[y].right;
    NodeAt(nodes, root, NULL, L, y);
    if nodes[x].right != NIL { NodeAt(nodes, root, NULL, L, nodes[x].right); }
    if b != NIL { NodeAt(nodes, root, NULL, L, b); }
  }

  lemma RightAtY(nodes: seq<Node>, root: int, L: Layout, x: int, nodes': seq<Node>, root': int)
    requires RightCtx(nodes, root, L, x, nodes', root')
    ensures NodeOk(nodes', root', NULL, RotRightLayout(L, nodes, x), nodes[x].left)
  {
    var y := nodes[x].left;
    var p := nodes[x].parent;
    NodeAt(nodes, root, NULL, L, y);
    if nodes[y].left != NIL { NodeAt(nodes, root, NULL, L, nodes[y].left); }
    if p != NULL { NodeAt(nodes, root, NULL, L, p); }
  }

  lemma RightAtB(nodes: seq<Node>, root: int, L: Layout, x: int, nodes': seq<Node>, root': int)
    requires RightCtx(nodes, root, L, x, nodes', root')
    requires nodes[nodes[x].left].right != NIL
    ensures NodeOk(nodes', root', NULL, RotRightLayout(L, nodes, x), nodes[nodes[x].left].right)
  {
    var y := nodes[x].left;
    var b := nodes[y].right;
    NodeAt(nodes, root, NULL, L, y);
    NodeAt(nodes, root, NULL, L, b);
    if nodes[b].left != NIL { NodeAt(nodes, root, NULL, L, nodes[b].left); }
    if nodes[b].right != NIL { NodeAt(nodes, root, NULL, L, nodes[b].right); }
  }

  /** The parent p of the rotated node keeps its child links: y replaces x. */
  lemma RightAtPDown(nodes: seq<Node>, root: int, L: Layout, x: int, nodes': seq<Node>, root': int)
    requires RightCtx(nodes, root, L, x, nodes', root')
    requires nodes[x].parent != NULL
    ensures var p := nodes[x].parent; var L' := RotRightLayout(L, nodes, x);
      0 <= p < |nodes'| && p < |L'.pos| && p < |L'.lo| && p < |L'.hi| &&
      LeftLink(nodes', L', p) && RightLink(nodes', L', p)
  {
    var y := nodes[x].left;
    var p := nodes[x].parent;
    NodeAt(nodes, root, NULL, L, y);
    NodeAt(nodes, root, NULL, L, p);
    var n := nodes[p];
    if n.left == x {
      assert nodes'[p] == n.(left := y);
      if n.right != NIL { NodeAt(nodes, root, NULL, L, n.right); }
    } else {
      assert nodes'[p] == n.(right := y);
      if n.left != NIL { NodeAt(nodes, root, NULL, L, n.left); }
    }
  }

  /** The parent p of the rotated node is still linked to its own parent. */
  lemma RightAtPUp(nodes: seq<Node>, root: int, L: Layout, x: int, nodes': seq<Node>, root': int)
    requires RightCtx(nodes, root, L, x, nodes', root')
    requires nodes[x].parent != NULL
    ensures 0 <= nodes[x].parent < |nodes'| &&
      UpLink(nodes', root', NULL, RotRightLayout(L, nodes, x), nodes[x].parent)
  {
    var y := nodes[x].left;
    var p := nodes[x].parent;
    NodeAt(nodes, root, NULL, L, p);
    if p != root {
      var q := nodes[p].parent;
      NodeAt(nodes, root, NULL, L, y);
      NodeAt(nodes, root, NULL, L, q);
      assert L.hi[p] - L.lo[p] < L.hi[q] - L.lo[q];
      assert nodes'[q] == nodes[q];
    }
  }

  lemma RightAtP(nodes: seq<Node>, root: int, L: Layout, x: int, nodes': seq<Node>, root': int)
    requires RightCtx(nodes, root, L, x, nodes', root')
    requires nodes[x].parent != NULL
    ensures NodeOk(nodes', root', NULL, RotRightLayout(L, nodes, x), nodes[x].parent)
  {
    var y := nodes[x].left;
    var p := nodes[x].parent;
    var L' := RotRightLayout(L, nodes, x);
    assert p != y && p != x && Live(nodes', L', p) && L'.lo[p] == L.lo[p] && L'.hi[p] == L.hi[p] &&
      0 <= L.lo[p] <= L.pos[p] < L.hi[p] <= |L.order| by {
      NodeAt(nodes, root, NULL, L, y);
      NodeAt(nodes, root, NULL, L, p);
    }
    RightAtPDown(nodes, root, L, x, nodes', root');
    RightAtPUp(nodes, root, L, x, nodes', root');
  }

  /** Right rotation keeps a well-shaped tree well shaped over the same
      in-order sequence, and changes no key. */
  lemma RotateRightShape(nodes: seq<Node>, root: int, L: Layout, x: int, nodes': seq<Node>, root': int)
    requires RightCtx(nodes, root, L, x, nodes', root')
    ensures Shape(nodes', root', NULL, RotRightLayout(L, nodes, x))
    ensures forall i | 0 <= i < |nodes| :: nodes'[i].key == nodes[i].key
  {
    var y := nodes[x].left;
    var b := nodes[y].right;
    var p := nodes[x].parent;
    var L' := RotRightLayout(L, nodes, x);
    NodeAt(nodes, root, NULL, L, y);
    forall i | 0 <= i < |nodes| ensures nodes'[i].key == nodes[i].key {
    }
    forall k | 0 <= k < |L.order| ensures Placed(nodes', root', NULL, L', k) {
      var i := L.order[k];
      assert Placed(nodes, root, NULL, L, k);
      if i == x {
        RightAtX(nodes, root, L, x, nodes', root');
      } else if i == y {
        RightAtY(nodes, root, L, x, nodes', root');
      } else if i == b {
        RightAtB(nodes, root, L, x, nodes', root');
      } else if i == p {
        RightAtP(nodes, root, L, x, nodes', root');
      } else {
        RightAtOther(nodes, root, L, x, nodes', root', i);
      }
    }
    if p != NULL {
      NodeAt(nodes, root, NULL, L, p);
    }
  }

  /** The arena after right_rotate(x), written pointer by pointer in the
      order the source assigns them. */
  ghost function RightRotateNodes(nodes: seq<Node>, x: int): seq<Node>
    requires 0 <= x < |nodes| && 0 <= nodes[x].left < |nodes| && 0 <= nodes[nodes[x].left].right < |nodes|
    requires nodes[x].parent == NULL || 0 <= nodes[x].parent < |nodes|
  {
    var y := nodes[x].left;
    var b := nodes[y].right;
    var p := nodes[x].parent;
    var n1 := nodes[x := nodes[x].(left := b)];
    var n2 := if b != NIL then n1[b := n1[b].(parent := x)] else n1;
    var n3 := n2[y := n2[y].(parent := p)];
    var n4 := if p == NULL then n3
      else if x == n3[p].left then n3[p := n3[p].(left := y)]
      else n3[p := n3[p].(right := y)];
    var n5 := n4[y := n4[y].(right := x)];
    n5[x := n5[x].(parent := y)]
  }

  /** What right_rotate(x) establishes about the arena it writes: the
      rotation described by RotatedRight, a well-shaped tree with the new
      spans, and unchanged keys. */
  lemma RightRotateStep(nodes: seq<Node>, root: int, L: Layout, x: int, nodes': seq<Node>, root': int)
    requires Shape(nodes, root, NULL, L) && Live(nodes, L, x) && nodes[x].left != NIL
    requires 0 <= nodes[x].left < |nodes| && 0 <= nodes[nodes[x].left].right < |nodes|
    requires nodes[x].parent == NULL || 0 <= nodes[x].parent < |nodes|
    requires nodes' == RightRotateNodes(nodes, x)
    requires root' == if nodes[x].parent == NULL then nodes[x].left else root
    ensures NodeOk(nodes, root, NULL, L, x) && RotatedRight(nodes, root, x, nodes', root')
    ensures Shape(nodes', root', NULL, RotRightLayout(L, nodes, x))
    ensures forall i | 0 <= i < |nodes| :: nodes'[i].key == nodes[i].key
  {
    RightParts(nodes, root, L, x);
    RotateRightShape(nodes, root, L, x, nodes', root');
  }
}
