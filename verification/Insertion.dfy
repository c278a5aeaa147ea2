/** The attach step of insertNode as a value-level description: the new red
    node, with both children the sentinel, hangs below the last node y of the
    descent (or becomes the root of an empty tree), and its in-order position
    p splits the old in-order sequence. */
module Insertion {
  import opened Arena

  /** s with every entry at or above t moved up by one. */
  ghost function Bump(s: seq<int>, t: int): (r: seq<int>)
    ensures |r| == |s|
    ensures forall i | 0 <= i < |s| :: r[i] == if s[i] >= t then s[i] + 1 else s[i]
  {
    seq(|s|, i requires 0 <= i < |s| => if s[i] >= t then s[i] + 1 else s[i])
  }

  /** The arena after the new node z = |nodes| with key k is attached below y
      (on y's left when goLeft), or as the root when y is NULL. */
  ghost function AttachNodes(nodes: seq<Node>, y: int, k: int, goLeft: bool): (r: seq<Node>)
    requires y == NULL || 0 <= y < |nodes|
    ensures |r| == |nodes| + 1
  {
    var z := |nodes|;
    var n := nodes + [Node(k, y, NIL, NIL)];
    if y == NULL then n
    else if goLeft then n[y := n[y].(left := z)]
    else n[y := n[y].(right := z)]
  }

  /** The layout after inserting z at in-order position p: positions from p
      on move up by one, and so do span bounds from t on (t = p + 1 when z
      becomes a left child, t = p when it becomes a right child). */
  ghost function InsertLayout(L: Layout, p: int, t: int, z: int): Layout
    requires 0 <= p <= |L.order|
  {
    Layout(L.order[..p] + [z] + L.order[p..], Bump(L.pos, p) + [p], Bump(L.lo, t) + [p], Bump(L.hi, t) + [p + 1])
  }

  /** L' is L with z inserted at in-order position p, described pointwise. */
  ghost predicate Inserted(L: Layout, L': Layout, p: int, t: int, z: int) {
    0 <= p <= |L.order| && |L'.order| == |L.order| + 1 && L'.order[p] == z &&
    (forall q | 0 <= q < p :: L'.order[q] == L.order[q]) &&
    (forall q | p < q < |L'.order| :: L'.order[q] == L.order[q - 1]) &&
    |L.pos| == z && |L.lo| == z && |L.hi| == z &&
    |L'.pos| == z + 1 && |L'.lo| == z + 1 && |L'.hi| == z + 1 &&
    L'.pos[z] == p && L'.lo[z] == p && L'.hi[z] == p + 1 &&
    forall v | 0 <= v < z ::
      L'.pos[v] == (if L.pos[v] >= p then L.pos[v] + 1 else L.pos[v]) &&
      L'.lo[v] == (if L.lo[v] >= t then L.lo[v] + 1 else L.lo[v]) &&
      L'.hi[v] == (if L.hi[v] >= t then L.hi[v] + 1 else L.hi[v])
  }

  lemma InsertLayoutIsInserted(L: Layout, p: int, t: int, z: int)
    requires 0 <= p <= |L.order| && |L.pos| == z && |L.lo| == z && |L.hi| == z
    ensures Inserted(L, InsertLayout(L, p, t, z), p, t, z)
  {
    var L' := InsertLayout(L, p, t, z);
    assert L'.order == L.order[..p] + [z] + L.order[p..];
  }

  /** nodes' is nodes with the new node z attached below y, pointwise. */
  ghost predicate Attached(nodes: seq<Node>, nodes': seq<Node>, y: int, k: int, goLeft: bool) {
    var z := |nodes|;
    |nodes'| == z + 1 && nodes'[z] == Node(k, y, NIL, NIL) &&
    (y != NULL ==>
      0 <= y < z &&
      nodes'[y] == if goLeft then nodes[y].(left := z) else nodes[y].(right := z)) &&
    forall v | 0 <= v < z && v != y :: nodes'[v] == nodes[v]
  }

  lemma AttachNodesIsAttached(nodes: seq<Node>, y: int, k: int, goLeft: bool)
    requires y == NULL || 0 <= y < |nodes|
    ensures Attached(nodes, AttachNodes(nodes, y, k, goLeft), y, k, goLeft)
  {
  }

  /** The situation after the descent of insertNode: y is NULL on an empty
      tree, otherwise a node whose goLeft side is the sentinel, and p, t are
      the insertion position and span threshold. */
  ghost predicate InsCtx(nodes: seq<Node>, root: int, L: Layout, y: int, goLeft: bool, p: int, t: int) {
    Shape(nodes, root, NULL, L) &&
    (y == NULL ==> root == NIL && p == 0 && t == 0) &&
    (y != NULL ==>
      NodeOk(nodes, root, NULL, L, y) &&
      (goLeft ==> nodes[y].left == NIL && p == L.pos[y] && t == p + 1) &&
      (!goLeft ==> nodes[y].right == NIL && p == L.pos[y] + 1 && t == p))
  }

  /** Everything the per-node lemmas below need about the attach step. */
  ghost predicate InsStep(nodes: seq<Node>, root: int, L: Layout, y: int, k: int, goLeft: bool, p: int, t: int,
                          nodes': seq<Node>, root': int, L': Layout) {
    InsCtx(nodes, root, L, y, goLeft, p, t) && Attached(nodes, nodes', y, k, goLeft) &&
    Inserted(L, L', p, t, |nodes|) && root' == (if y == NULL then |nodes| else root)
  }

  lemma InsLive(nodes: seq<Node>, root: int, L: Layout, y: int, k: int, goLeft: bool, p: int, t: int,
                 nodes': seq<Node>, root': int, L': Layout, v: int)
    requires InsStep(nodes, root, L, y, k, goLeft, p, t, nodes', root', L')
    requires Live(nodes, L, v)
    ensures Live(nodes', L', v)
  {
  }

  /** A node other than y keeps its children and their spans shift with it. */
  lemma InsAtOtherLinks(nodes: seq<Node>, root: int, L: Layout, y: int, k: int, goLeft: bool, p: int, t: int,
                        nodes': seq<Node>, root': int, L': Layout, v: int)
    requires InsStep(nodes, root, L, y, k, goLeft, p, t, nodes', root', L')
    requires Live(nodes, L, v) && v != y
    ensures v < |L'.pos| && v < |L'.lo| && v < |L'.hi| && LeftLink(nodes', L', v) && RightLink(nodes', L', v)
  {
    NodeAt(nodes, root, NULL, L, v);
    var n := nodes[v];
    assert nodes'[v] == n;
    if y != NULL {
      assert L.pos[v] != L.pos[y];
    }
    assert LeftLink(nodes', L', v) by {
      if n.left != NIL {
        NodeAt(nodes, root, NULL, L, n.left);
        InsLive(nodes, root, L, y, k, goLeft, p, t, nodes', root', L', n.left);
      }
    }
    assert RightLink(nodes', L', v) by {
      if n.right != NIL {
        NodeAt(nodes, root, NULL, L, n.right);
        InsLive(nodes, root, L, y, k, goLeft, p, t, nodes', root', L', n.right);
      }
    }
  }

  /** Every old node still hangs below its old parent. */
  lemma InsUp(nodes: seq<Node>, root: int, L: Layout, y: int, k: int, goLeft: bool, p: int, t: int,
              nodes': seq<Node>, root': int, L': Layout, v: int)
    requires InsStep(nodes, root, L, y, k, goLeft, p, t, nodes', root', L')
    requires Live(nodes, L, v)
    ensures 0 <= v < |nodes'| && UpLink(nodes', root', NULL, L', v)
  {
    NodeAt(nodes, root, NULL, L, v);
    var n := nodes[v];
    assert nodes'[v].parent == n.parent;
    if v != root {
      NodeAt(nodes, root, NULL, L, n.parent);
      InsLive(nodes, root, L, y, k, goLeft, p, t, nodes', root', L', n.parent);
    }
  }

  lemma InsAtOther(nodes: seq<Node>, root: int, L: Layout, y: int, k: int, goLeft: bool, p: int, t: int,
                   nodes': seq<Node>, root': int, L': Layout, v: int)
    requires InsStep(nodes, root, L, y, k, goLeft, p, t, nodes', root', L')
    requires Live(nodes, L, v) && v != y
    ensures NodeOk(nodes', root', NULL, L', v)
  {
    NodeAt(nodes, root, NULL, L, v);
    InsLive(nodes, root, L, y, k, goLeft, p, t, nodes', root', L', v);
    InsAtOtherLinks(nodes, root, L, y, k, goLeft, p, t, nodes', root', L', v);
    InsUp(nodes, root, L, y, k, goLeft, p, t, nodes', root', L', v);
  }

  /** y gains z as its goLeft child; its other child keeps its shifted span. */
  lemma InsAtYLinks(nodes: seq<Node>, root: int, L: Layout, y: int, k: int, goLeft: bool, p: int, t: int,
                    nodes': seq<Node>, root': int, L': Layout)
    requires InsStep(nodes, root, L, y, k, goLeft, p, t, nodes', root', L') && y != NULL
    ensures 0 <= y < |nodes'| && y < |L'.pos| && y < |L'.lo| && y < |L'.hi| &&
      LeftLink(nodes', L', y) && RightLink(nodes', L', y)
  {
    var n := nodes[y];
    if n.left != NIL {
      NodeAt(nodes, root, NULL, L, n.left);
    }
    if n.right != NIL {
      NodeAt(nodes, root, NULL, L, n.right);
    }
  }

  lemma InsAtY(nodes: seq<Node>, root: int, L: Layout, y: int, k: int, goLeft: bool, p: int, t: int,
               nodes': seq<Node>, root': int, L': Layout)
    requires InsStep(nodes, root, L, y, k, goLeft, p, t, nodes', root', L') && y != NULL
    ensures NodeOk(nodes', root', NULL, L', y)
  {
    InsLive(nodes, root, L, y, k, goLeft, p, t, nodes', root', L', y);
    InsAtYLinks(nodes, root, L, y, k, goLeft, p, t, nodes', root', L');
    InsUp(nodes, root, L, y, k, goLeft, p, t, nodes', root', L', y);
  }

  lemma InsAtZ(nodes: seq<Node>, root: int, L: Layout, y: int, k: int, goLeft: bool, p: int, t: int,
               nodes': seq<Node>, root': int, L': Layout)
    requires InsStep(nodes, root, L, y, k, goLeft, p, t, nodes', root', L')
    ensures NodeOk(nodes', root', NULL, L', |nodes|)
  {
  }

  /** Attaching the new node keeps the arena a well-shaped tree whose
      in-order sequence has z inserted at position p. */
  lemma InsertShape(nodes: seq<Node>, root: int, L: Layout, y: int, k: int, goLeft: bool, p: int, t: int,
                    nodes': seq<Node>, root': int, L': Layout)
    requires InsStep(nodes, root, L, y, k, goLeft, p, t, nodes', root', L')
    ensures Shape(nodes', root', NULL, L')
  {
    forall q | 0 <= q < |L'.order| ensures Placed(nodes', root', NULL, L', q) {
      if q == p {
        InsAtZ(nodes, root, L, y, k, goLeft, p, t, nodes', root', L');
      } else {
        InsAtOld(nodes, root, L, y, k, goLeft, p, t, nodes', root', L', q);
      }
    }
    if root' != |nodes| {
      assert Live(nodes', L', root);
    }
  }

  /** Every position other than p holds a node of the old tree, still
      well placed. */
  lemma InsAtOld(nodes: seq<Node>, root: int, L: Layout, y: int, k: int, goLeft: bool, p: int, t: int,
                 nodes': seq<Node>, root': int, L': Layout, q: int)
    requires InsStep(nodes, root, L, y, k, goLeft, p, t, nodes', root', L')
    requires 0 <= q < |L'.order| && q != p
    ensures Placed(nodes', root', NULL, L', q)
  {
    var q0 := if q < p then q else q - 1;
    assert Placed(nodes, root, NULL, L, q0);
    var v := L.order[q0];
    assert L'.order[q] == v;
    if v == y {
      InsAtY(nodes, root, L, y, k, goLeft, p, t, nodes', root', L');
    } else {
      InsAtOther(nodes, root, L, y, k, goLeft, p, t, nodes', root', L', v);
    }
  }

  /** The attach step inserts k into the in-order key sequence at position
      p, and the sequence stays strictly increasing when k lies between the
      keys before p and the keys from p on. */
  lemma InsertKeys(nodes: seq<Node>, root: int, L: Layout, y: int, k: int, goLeft: bool, p: int, t: int,
                   nodes': seq<Node>, root': int, L': Layout)
    requires InsStep(nodes, root, L, y, k, goLeft, p, t, nodes', root', L') && Sorted(nodes, L)
    requires forall q | 0 <= q < p :: KeyAt(nodes, L, q) < k
    requires forall q | p <= q < |L.order| :: k < KeyAt(nodes, L, q)
    ensures Keys(nodes', L') == Keys(nodes, L)[..p] + [k] + Keys(nodes, L)[p..]
    ensures Sorted(nodes', L')
  {
    forall q | 0 <= q < |L'.order| && q != p
      ensures KeyAt(nodes', L', q) == KeyAt(nodes, L, if q < p then q else q - 1)
    {
      var q0 := if q < p then q else q - 1;
      assert Placed(nodes, root, NULL, L, q0);
      assert L'.order[q] == L.order[q0];
    }
    SpliceKeys(nodes, L, nodes', L', p, k);
  }

  /** A key sequence that is the old one with k spliced in at position p. */
  lemma SpliceKeys(nodes: seq<Node>, L: Layout, nodes': seq<Node>, L': Layout, p: int, k: int)
    requires 0 <= p <= |L.order| && |L'.order| == |L.order| + 1 && KeyAt(nodes', L', p) == k
    requires forall q | 0 <= q < |L'.order| && q != p ::
      KeyAt(nodes', L', q) == KeyAt(nodes, L, if q < p then q else q - 1)
    requires Sorted(nodes, L)
    requires forall q | 0 <= q < p :: KeyAt(nodes, L, q) < k
    requires forall q | p <= q < |L.order| :: k < KeyAt(nodes, L, q)
    ensures Keys(nodes', L') == Keys(nodes, L)[..p] + [k] + Keys(nodes, L)[p..]
    ensures Sorted(nodes', L')
  {
    var K := Keys(nodes, L);
    var R := K[..p] + [k] + K[p..];
    forall q | 0 <= q < |R| ensures Keys(nodes', L')[q] == R[q] {
      if q < p {
        assert R[q] == K[q];
      } else if q > p {
        assert R[q] == K[q - 1];
      }
    }
    assert Keys(nodes', L') == R;
  }

  /** The new node is red with black-height 1, like the sentinel it replaces
      in y: black-heights stay uniform and only a red y with the red child z
      can break the red rule. */
  lemma InsertColours(nodes: seq<Node>, colors: seq<Color>, root: int, L: Layout, bh: seq<nat>,
                      y: int, k: int, goLeft: bool, p: int, t: int, nodes': seq<Node>, root': int, L': Layout)
    requires InsStep(nodes, root, L, y, k, goLeft, p, t, nodes', root', L')
    requires RedBlack(nodes, colors, root, L, bh)
    ensures Sentinel(nodes', colors + [Red], bh + [1])
    ensures ColoursExcept(nodes', colors + [Red], L', bh + [1], NULL, NULL, |nodes|)
    ensures root' == root ==> (root != NIL ==> IsBlack(colors + [Red], root))
  {
    var colors', bh' := colors + [Red], bh + [1];
    var z := |nodes|;
    forall q | 0 <= q < |L'.order|
      ensures BlackOk(nodes', colors', bh', L'.order[q]) && RedOk(nodes', colors', L'.order[q], z)
    {
      if q != p {
        var q0 := if q < p then q else q - 1;
        assert Placed(nodes, root, NULL, L, q0);
        var v := L.order[q0];
        assert L'.order[q] == v;
        assert BlackOk(nodes, colors, bh, v) && RedOk(nodes, colors, v, NULL);
        InsColourAt(nodes, colors, root, L, bh, y, k, goLeft, p, t, nodes', root', L', v);
      }
    }
  }

  lemma InsColourAt(nodes: seq<Node>, colors: seq<Color>, root: int, L: Layout, bh: seq<nat>,
                    y: int, k: int, goLeft: bool, p: int, t: int, nodes': seq<Node>, root': int, L': Layout, v: int)
    requires InsStep(nodes, root, L, y, k, goLeft, p, t, nodes', root', L')
    requires Sentinel(nodes, colors, bh) && Live(nodes, L, v)
    requires BlackOk(nodes, colors, bh, v) && RedOk(nodes, colors, v, NULL)
    ensures BlackOk(nodes', colors + [Red], bh + [1], v) && RedOk(nodes', colors + [Red], v, |nodes|)
  {
    NodeAt(nodes, root, NULL, L, v);
  }

  /** Inserting into an empty tree and painting the new root black gives a
      red-black tree. */
  lemma InsertFirst(nodes: seq<Node>, colors: seq<Color>, root: int, L: Layout, bh: seq<nat>,
                    y: int, k: int, goLeft: bool, p: int, t: int, nodes': seq<Node>, root': int, L': Layout)
    requires InsStep(nodes, root, L, y, k, goLeft, p, t, nodes', root', L') && y == NULL
    requires RedBlack(nodes, colors, root, L, bh)
    ensures RedBlack(nodes', colors + [Black], root', L', bh + [1])
  {
  }

  /** Everything the attach step of insertNode establishes, for the arena,
      layout, colours and black-heights it produces. */
  lemma AttachStep(nodes: seq<Node>, colors: seq<Color>, root: int, L: Layout, bh: seq<nat>,
                   y: int, k: int, goLeft: bool, p: int, t: int,
                   nodes': seq<Node>, colors': seq<Color>, root': int, L': Layout, bh': seq<nat>)
    requires InsCtx(nodes, root, L, y, goLeft, p, t) && Sorted(nodes, L) && RedBlack(nodes, colors, root, L, bh)
    requires forall q | 0 <= q < p :: KeyAt(nodes, L, q) < k
    requires forall q | p <= q < |L.order| :: k < KeyAt(nodes, L, q)
    requires nodes' == AttachNodes(nodes, y, k, goLeft) && L' == InsertLayout(L, p, t, |nodes|)
    requires root' == (if y == NULL then |nodes| else root) && colors' == colors + [Red] && bh' == bh + [1]
    ensures Shape(nodes', root', NULL, L') && Sorted(nodes', L')
    ensures Keys(nodes', L') == Keys(nodes, L)[..p] + [k] + Keys(nodes, L)[p..]
    ensures Live(nodes', L', |nodes|) && L'.order[p] == |nodes| && |colors'| == |nodes'|
    ensures y == NULL ==> RedBlack(nodes', colors'[|nodes| := Black], root', L', bh')
    ensures y != NULL ==>
      (Sentinel(nodes', colors', bh') && IsBlack(colors', root') &&
       ColoursExcept(nodes', colors', L', bh', NULL, NULL, |nodes|))
  {
    assert InsStep(nodes, root, L, y, k, goLeft, p, t, nodes', root', L') by {
      AttachNodesIsAttached(nodes, y, k, goLeft);
      InsertLayoutIsInserted(L, p, t, |nodes|);
    }
    InsertShape(nodes, root, L, y, k, goLeft, p, t, nodes', root', L');
    InsertKeys(nodes, root, L, y, k, goLeft, p, t, nodes', root', L');
    if y == NULL {
      assert colors'[|nodes| := Black] == colors + [Black];
      InsertFirst(nodes, colors, root, L, bh, y, k, goLeft, p, t, nodes', root', L');
    } else {
      InsertColours(nodes, colors, root, L, bh, y, k, goLeft, p, t, nodes', root', L');
    }
  }

  /** Every node of the tree before an insertion at in-order position p is
      still a node of the tree afterwards, holding the same key. */
  lemma InsertSurvivors(nodes: seq<Node>, L: Layout, p: int, z: int, nodes': seq<Node>, root': int, L': Layout)
    requires 0 <= p <= |L.order| && L'.order == L.order[..p] + [z] + L.order[p..]
    requires Shape(nodes', root', NULL, L') && |nodes| <= |nodes'|
    requires forall i | 0 <= i < |nodes| :: nodes'[i].key == nodes[i].key
    ensures forall n | Live(nodes, L, n) :: Live(nodes', L', n) && nodes'[n].key == nodes[n].key
  {
    forall n | Live(nodes, L, n)
      ensures Live(nodes', L', n)
    {
      var j := L.pos[n];
      var i := if j < p then j else j + 1;
      assert L'.order[i] == n;
      assert Placed(nodes', root', NULL, L', i);
    }
  }
}
