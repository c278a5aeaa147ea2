/** The removal step of deleteNodeHelper as value-level descriptions.
    rbTransplant(u, x) on a node u with at most one child x splices u out
    of the tree; when the deleted node z has two children, its successor y
    is spliced out first and then takes z's place. The lemmas below give,
    for each step, the new layout, the well-shapedness of the result, what
    happens to the key sequence and to the red-black colouring. */
module Deletion {
  import opened SortedSeq
  import opened Arena
  import opened Rotation
  import opened DeleteFix

  // ---------------------------------------------------------------------
  // Splicing out a node with at most one child

  /** A span bound or position after position q is removed. */
  ghost function Dec(v: int, q: int): int {
    if v > q then v - 1 else v
  }

  ghost function Drop(s: seq<int>, q: int): (r: seq<int>)
    ensures |r| == |s|
    ensures forall i | 0 <= i < |s| :: r[i] == Dec(s[i], q)
  {
    seq(|s|, i requires 0 <= i < |s| => Dec(s[i], q))
  }

  /** The layout after the node at in-order position q leaves the tree. */
  ghost function SpliceLayout(L: Layout, q: int): Layout
    requires 0 <= q < |L.order|
  {
    Layout(L.order[..q] + L.order[q + 1..], Drop(L.pos, q), Drop(L.lo, q), Drop(L.hi, q))
  }

  /** L' is L with position q removed, described pointwise. */
  ghost predicate Dropped(L: Layout, L': Layout, q: int) {
    0 <= q < |L.order| && |L'.order| == |L.order| - 1 &&
    (forall k | 0 <= k < q :: L'.order[k] == L.order[k]) &&
    (forall k | q <= k < |L'.order| :: L'.order[k] == L.order[k + 1]) &&
    |L'.pos| == |L.pos| && |L'.lo| == |L.lo| && |L'.hi| == |L.hi| &&
    (forall v | 0 <= v < |L.pos| :: L'.pos[v] == Dec(L.pos[v], q)) &&
    (forall v | 0 <= v < |L.lo| :: L'.lo[v] == Dec(L.lo[v], q)) &&
    (forall v | 0 <= v < |L.hi| :: L'.hi[v] == Dec(L.hi[v], q))
  }

  lemma SpliceLayoutDropped(L: Layout, q: int)
    requires 0 <= q < |L.order|
    ensures Dropped(L, SpliceLayout(L, q), q)
  {
    var L' := SpliceLayout(L, q);
    assert forall k | q <= k < |L'.order| :: L'.order[k] == L.order[k + 1];
  }

  /** rbTransplant(u, v): u's parent (or the root pointer) now refers to v,
      and v's parent field is set to u's parent, even when v is the sentinel. */
  ghost function TransplantNodes(nodes: seq<Node>, u: int, v: int): (r: seq<Node>)
    requires 0 <= u < |nodes| && 0 <= v < |nodes|
    requires nodes[u].parent == NULL || 0 <= nodes[u].parent < |nodes|
    ensures |r| == |nodes|
  {
    var p := nodes[u].parent;
    var n1 := if p == NULL then nodes else nodes[p := ReplaceChild(nodes[p], u, v)];
    n1[v := n1[v].(parent := p)]
  }

  ghost function TransplantRoot(nodes: seq<Node>, root: int, u: int, v: int): int
    requires 0 <= u < |nodes|
  {
    if nodes[u].parent == NULL then v else root
  }

  /** nodes' is nodes with u replaced by x below u's parent, pointwise. */
  ghost predicate Spliced(nodes: seq<Node>, nodes': seq<Node>, u: int, x: int) {
    0 <= u < |nodes| && 0 <= x < |nodes| && |nodes'| == |nodes| &&
    var p := nodes[u].parent;
    (p != NULL ==> 0 <= p < |nodes| && nodes'[p] == ReplaceChild(nodes[p], u, x)) &&
    nodes'[x] == nodes[x].(parent := p) &&
    forall i | 0 <= i < |nodes| && i != p && i != x :: nodes'[i] == nodes[i]
  }

  lemma TransplantSpliced(nodes: seq<Node>, u: int, x: int)
    requires 0 <= u < |nodes| && 0 <= x < |nodes| && x != nodes[u].parent
    requires nodes[u].parent == NULL || 0 <= nodes[u].parent < |nodes|
    ensures Spliced(nodes, TransplantNodes(nodes, u, x), u, x)
  {
  }

  /** u, a node with at most one child x (the other side is the sentinel),
      has been spliced out. */
  ghost predicate SpliceCtx(nodes: seq<Node>, root: int, L: Layout, u: int, x: int,
                            nodes': seq<Node>, root': int, L': Layout) {
    Shape(nodes, root, NULL, L) && Live(nodes, L, u) &&
    ((nodes[u].left == NIL && x == nodes[u].right) || (nodes[u].right == NIL && x == nodes[u].left)) &&
    Spliced(nodes, nodes', u, x) && Dropped(L, L', L.pos[u]) &&
    root' == (if nodes[u].parent == NULL then x else root)
  }

  /** Removing position q keeps every other live node live. */
  lemma DroppedLive(nodes: seq<Node>, L: Layout, nodes': seq<Node>, L': Layout, q: int, v: int)
    requires Dropped(L, L', q) && |nodes'| == |nodes|
    requires Live(nodes, L, v) && L.pos[v] != q
    ensures Live(nodes', L', v)
  {
    if L.pos[v] > q {
      assert L'.order[L.pos[v] - 1] == L.order[L.pos[v]];
    }
  }

  lemma SpliceLive(nodes: seq<Node>, root: int, L: Layout, u: int, x: int,
                   nodes': seq<Node>, root': int, L': Layout, v: int)
    requires SpliceCtx(nodes, root, L, u, x, nodes', root', L')
    requires Live(nodes, L, v) && v != u
    ensures Live(nodes', L', v)
  {
    var q := L.pos[u];
    assert L.pos[v] != q;
    if L.pos[v] > q {
      assert L'.order[L.pos[v] - 1] == L.order[L.pos[v]];
    }
  }

  /** A child link survives the removal of another position: both the
      child's span and the bounds it must match move down together. */
  lemma DropLink(nodes: seq<Node>, L: Layout, nodes': seq<Node>, L': Layout, q: int,
                 v: int, c: int, clo: int, chi: int)
    requires Dropped(L, L', q) && |nodes'| == |nodes|
    requires ChildOk(nodes, L, v, c, clo, chi) && L.pos[c] != q
    requires nodes'[c].parent == nodes[c].parent
    ensures ChildOk(nodes', L', v, c, Dec(clo, q), Dec(chi, q))
  {
    DroppedLive(nodes, L, nodes', L', q, c);
  }

  /** A node other than u and its parent keeps its children; their spans
      move down past q with it. */
  lemma SpliceLeftOther(nodes: seq<Node>, root: int, L: Layout, u: int, x: int,
                        nodes': seq<Node>, root': int, L': Layout, v: int)
    requires SpliceCtx(nodes, root, L, u, x, nodes', root', L')
    requires Live(nodes, L, v) && v != u && v != nodes[u].parent
    ensures v < |L'.pos| && v < |L'.lo| && LeftLink(nodes', L', v)
  {
    NodeAt(nodes, root, NULL, L, v);
    var c := nodes[v].left;
    assert nodes'[v].left == c;
    if c != NIL {
      assert c != u && c != x by {
        NodeAt(nodes, root, NULL, L, u);
      }
      NodeAt(nodes, root, NULL, L, c);
      DropLink(nodes, L, nodes', L', L.pos[u], v, c, L.lo[v], L.pos[v]);
    }
  }

  lemma SpliceRightOther(nodes: seq<Node>, root: int, L: Layout, u: int, x: int,
                         nodes': seq<Node>, root': int, L': Layout, v: int)
    requires SpliceCtx(nodes, root, L, u, x, nodes', root', L')
    requires Live(nodes, L, v) && v != u && v != nodes[u].parent
    ensures v < |L'.pos| && v < |L'.hi| && RightLink(nodes', L', v)
  {
    NodeAt(nodes, root, NULL, L, v);
    var c := nodes[v].right;
    assert nodes'[v].right == c;
    assert L.pos[v] != L.pos[u];
    if c != NIL {
      assert c != u && c != x by {
        NodeAt(nodes, root, NULL, L, u);
      }
      NodeAt(nodes, root, NULL, L, c);
      DropLink(nodes, L, nodes', L', L.pos[u], v, c, L.pos[v] + 1, L.hi[v]);
    }
  }

  /** u's parent p now has x where it had u; p's other child is kept. */
  lemma SpliceNearP(nodes: seq<Node>, root: int, L: Layout, u: int, x: int,
                    nodes': seq<Node>, root': int, L': Layout)
    requires SpliceCtx(nodes, root, L, u, x, nodes', root', L')
    requires nodes[u].parent != NULL
    ensures var p := nodes[u].parent;
      0 <= p < |nodes'| && p < |L'.pos| && p < |L'.lo| && p < |L'.hi| &&
      (nodes[p].left == u <==> nodes[p].right != u) &&
      (nodes[p].left == u ==> LeftLink(nodes', L', p)) &&
      (nodes[p].right == u ==> RightLink(nodes', L', p))
  {
    var p := nodes[u].parent;
    NodeAt(nodes, root, NULL, L, u);
    ParentOf(nodes, root, NULL, L, u);
    if x != NIL {
      NodeAt(nodes, root, NULL, L, x);
      DroppedLive(nodes, L, nodes', L', L.pos[u], x);
    }
  }

  lemma SpliceFarP(nodes: seq<Node>, root: int, L: Layout, u: int, x: int,
                   nodes': seq<Node>, root': int, L': Layout)
    requires SpliceCtx(nodes, root, L, u, x, nodes', root', L')
    requires nodes[u].parent != NULL
    ensures var p := nodes[u].parent;
      0 <= p < |nodes'| && p < |L'.pos| && p < |L'.lo| && p < |L'.hi| &&
      (nodes[p].left == u ==> RightLink(nodes', L', p)) &&
      (nodes[p].right == u ==> LeftLink(nodes', L', p))
  {
    var p := nodes[u].parent;
    assert u != root by {
      NodeAt(nodes, root, NULL, L, u);
    }
    ParentOf(nodes, root, NULL, L, u);
    var n := nodes[p];
    var c := if n.left == u then n.right else n.left;
    assert nodes'[p] == ReplaceChild(n, u, x);
    assert L.pos[p] != L.pos[u];
    if c != NIL {
      NodeAt(nodes, root, NULL, L, c);
      assert c != x by {
        NodeAt(nodes, root, NULL, L, u);
      }
      if n.left == u {
        DropLink(nodes, L, nodes', L', L.pos[u], p, c, L.pos[p] + 1, L.hi[p]);
      } else {
        DropLink(nodes, L, nodes', L', L.pos[u], p, c, L.lo[p], L.pos[p]);
      }
    }
  }

  /** Every remaining node hangs below its parent, x below u's parent. */
  lemma SpliceUp(nodes: seq<Node>, root: int, L: Layout, u: int, x: int,
                 nodes': seq<Node>, root': int, L': Layout, v: int)
    requires SpliceCtx(nodes, root, L, u, x, nodes', root', L')
    requires Live(nodes, L, v) && v != u
    ensures 0 <= v < |nodes'| && UpLink(nodes', root', NULL, L', v)
  {
    var p := nodes[u].parent;
    NodeAt(nodes, root, NULL, L, u);
    NodeAt(nodes, root, NULL, L, v);
    var pv := nodes[v].parent;
    if v == x {
      assert nodes'[x].parent == p;
      if p != NULL {
        ParentOf(nodes, root, NULL, L, u);
        DroppedLive(nodes, L, nodes', L', L.pos[u], p);
      }
    } else {
      assert nodes'[v].parent == pv;
      if v != root {
        ParentOf(nodes, root, NULL, L, v);
        DroppedLive(nodes, L, nodes', L', L.pos[u], pv);
        assert pv != u;
      }
    }
  }

  lemma SpliceAt(nodes: seq<Node>, root: int, L: Layout, u: int, x: int,
                 nodes': seq<Node>, root': int, L': Layout, v: int)
    requires SpliceCtx(nodes, root, L, u, x, nodes', root', L')
    requires Live(nodes, L, v) && v != u
    ensures NodeOk(nodes', root', NULL, L', v)
  {
    assert L.pos[v] != L.pos[u] && 0 <= L.lo[v] <= L.pos[v] < L.hi[v] <= |L.order| by {
      NodeAt(nodes, root, NULL, L, v);
    }
    SpliceLive(nodes, root, L, u, x, nodes', root', L', v);
    if v == nodes[u].parent {
      SpliceNearP(nodes, root, L, u, x, nodes', root', L');
      SpliceFarP(nodes, root, L, u, x, nodes', root', L');
    } else {
      SpliceLeftOther(nodes, root, L, u, x, nodes', root', L', v);
      SpliceRightOther(nodes, root, L, u, x, nodes', root', L', v);
    }
    SpliceUp(nodes, root, L, u, x, nodes', root', L', v);
  }

  lemma SplicePlaced(nodes: seq<Node>, root: int, L: Layout, u: int, x: int,
                     nodes': seq<Node>, root': int, L': Layout)
    requires SpliceCtx(nodes, root, L, u, x, nodes', root', L')
    ensures forall k | 0 <= k < |L'.order| :: Placed(nodes', root', NULL, L', k)
  {
    var q := L.pos[u];
    forall k | 0 <= k < |L'.order| ensures Placed(nodes', root', NULL, L', k) {
      var k0 := if k < q then k else k + 1;
      assert Placed(nodes, root, NULL, L, k0);
      assert L'.order[k] == L.order[k0];
      SpliceAt(nodes, root, L, u, x, nodes', root', L', L.order[k0]);
    }
  }

  /** Splicing out u keeps a well-shaped tree whose in-order sequence has
      lost u's position, and changes no key. */
  lemma SpliceShape(nodes: seq<Node>, root: int, L: Layout, u: int, x: int,
                    nodes': seq<Node>, root': int, L': Layout)
    requires SpliceCtx(nodes, root, L, u, x, nodes', root', L')
    ensures Shape(nodes', root', NULL, L')
    ensures L'.order == L.order[..L.pos[u]] + L.order[L.pos[u] + 1..]
    ensures forall i | 0 <= i < |nodes| :: nodes'[i].key == nodes[i].key
  {
    var q := L.pos[u];
    var p := nodes[u].parent;
    SplicePlaced(nodes, root, L, u, x, nodes', root', L');
    NodeAt(nodes, root, NULL, L, u);
    if p == NULL {
      if x == NIL {
        assert L.lo[u] == q == 0 && L.hi[u] == q + 1 == |L.order|;
      } else {
        NodeAt(nodes, root, NULL, L, x);
        SpliceLive(nodes, root, L, u, x, nodes', root', L', x);
      }
    } else {
      SpliceLive(nodes, root, L, u, x, nodes', root', L', root);
    }
    assert L'.order == L.order[..q] + L.order[q + 1..];
  }

  // Splicing out u keeps every colour and black-height: a red u leaves a
  // red-black tree, a black u leaves x's side one black short.

  lemma SpliceColourAt(nodes: seq<Node>, colors: seq<Color>, root: int, L: Layout, bh: seq<nat>, u: int, x: int,
                       nodes': seq<Node>, root': int, L': Layout, v: int)
    requires SpliceCtx(nodes, root, L, u, x, nodes', root', L') && RedBlack(nodes, colors, root, L, bh)
    requires Live(nodes, L, v) && v != u
    ensures v != nodes[u].parent || IsRed(colors, u) ==> BlackOk(nodes', colors, bh, v)
    ensures RedOk(nodes', colors, v, x)
    ensures IsRed(colors, u) ==> RedOk(nodes', colors, v, NULL)
  {
    NodeAt(nodes, root, NULL, L, v);
    NodeAt(nodes, root, NULL, L, u);
    ColoursAt(nodes, colors, L, bh, NULL, NULL, NULL, v);
    ColoursAt(nodes, colors, L, bh, NULL, NULL, NULL, u);
    var p := nodes[u].parent;
    if v != p {
      var n := nodes[v];
      assert nodes'[v].left == n.left && nodes'[v].right == n.right;
    }
  }

  lemma SpliceColours(nodes: seq<Node>, colors: seq<Color>, root: int, L: Layout, bh: seq<nat>, u: int, x: int,
                      nodes': seq<Node>, root': int, L': Layout)
    requires SpliceCtx(nodes, root, L, u, x, nodes', root', L') && RedBlack(nodes, colors, root, L, bh)
    ensures ColoursExcept(nodes', colors, L', bh, nodes[u].parent, x, x)
    ensures IsRed(colors, u) ==> ColoursExcept(nodes', colors, L', bh, NULL, NULL, NULL)
  {
    var q := L.pos[u];
    var p := nodes[u].parent;
    forall k | 0 <= k < |L'.order|
      ensures L'.order[k] != p ==> BlackOk(nodes', colors, bh, L'.order[k])
      ensures RedOk(nodes', colors, L'.order[k], x)
      ensures IsRed(colors, u) ==> BlackOk(nodes', colors, bh, L'.order[k]) && RedOk(nodes', colors, L'.order[k], NULL)
    {
      var k' := if k < q then k else k + 1;
      assert Placed(nodes, root, NULL, L, k');
      assert L'.order[k] == L.order[k'];
      SpliceColourAt(nodes, colors, root, L, bh, u, x, nodes', root', L', L.order[k']);
    }
  }

  /** Splicing out a red node leaves a red-black tree. */
  lemma SpliceRedBlack(nodes: seq<Node>, colors: seq<Color>, root: int, L: Layout, bh: seq<nat>, u: int, x: int,
                       nodes': seq<Node>, root': int, L': Layout)
    requires SpliceCtx(nodes, root, L, u, x, nodes', root', L') && RedBlack(nodes, colors, root, L, bh)
    requires IsRed(colors, u)
    ensures Shape(nodes', root', NULL, L') && RedBlack(nodes', colors, root', L', bh)
  {
    SpliceShape(nodes, root, L, u, x, nodes', root', L');
    SpliceColours(nodes, colors, root, L, bh, u, x, nodes', root', L');
    NodeAt(nodes, root, NULL, L, u);
  }

  /** Splicing out a black node leaves the fixDelete invariant at x. */
  lemma SpliceDeficit(nodes: seq<Node>, colors: seq<Color>, root: int, L: Layout, bh: seq<nat>, u: int, x: int,
                      nodes': seq<Node>, root': int, L': Layout)
    requires SpliceCtx(nodes, root, L, u, x, nodes', root', L') && RedBlack(nodes, colors, root, L, bh)
    requires IsBlack(colors, u)
    ensures Deficit(nodes', colors, root', L', bh, x)
  {
    SpliceShape(nodes, root, L, u, x, nodes', root', L');
    SpliceColours(nodes, colors, root, L, bh, u, x, nodes', root', L');
    NodeAt(nodes, root, NULL, L, u);
    if x != NIL {
      NodeAt(nodes, root, NULL, L, x);
      SpliceLive(nodes, root, L, u, x, nodes', root', L', x);
    }
    if nodes[u].parent != NULL {
      SpliceDeficitLinks(nodes, colors, root, L, bh, u, x, nodes', root', L');
    }
  }

  /** ... where x now hangs from u's parent p, one black short of its
      sibling there. */
  lemma SpliceDeficitLinks(nodes: seq<Node>, colors: seq<Color>, root: int, L: Layout, bh: seq<nat>, u: int, x: int,
                           nodes': seq<Node>, root': int, L': Layout)
    requires SpliceCtx(nodes, root, L, u, x, nodes', root', L') && RedBlack(nodes, colors, root, L, bh)
    requires IsBlack(colors, u) && nodes[u].parent != NULL
    ensures var p := nodes[u].parent;
      x != root' && root' == root && 0 <= x < |nodes'| && nodes'[x].parent == p && Live(nodes', L', p) &&
      (nodes'[p].left == x || nodes'[p].right == x) &&
      Weight(colors, bh, x) + 1 == bh[p] && Weight(colors, bh, Sibling(nodes', p, x)) == bh[p]
  {
    var p := nodes[u].parent;
    NodeAt(nodes, root, NULL, L, u);
    ColoursAt(nodes, colors, L, bh, NULL, NULL, NULL, u);
    ParentOf(nodes, root, NULL, L, u);
    SpliceLive(nodes, root, L, u, x, nodes', root', L', p);
    ColoursAt(nodes, colors, L, bh, NULL, NULL, NULL, p);
    var c := Sibling(nodes, p, u);
    if c != NIL {
      NodeAt(nodes, root, NULL, L, c);
    }
  }

  // ---------------------------------------------------------------------
  // The successor y taking the place of the deleted node z

  /** y adopts c as its right child: y.right := c; c.parent := y. */
  ghost function AdoptRight(nodes: seq<Node>, y: int, c: int): (r: seq<Node>)
    requires 0 <= y < |nodes| && 0 <= c < |nodes|
    ensures |r| == |nodes|
  {
    var n := nodes[y := nodes[y].(right := c)];
    n[c := n[c].(parent := y)]
  }

  /** y adopts c as its left child: y.left := c; c.parent := y. */
  ghost function AdoptLeft(nodes: seq<Node>, y: int, c: int): (r: seq<Node>)
    requires 0 <= y < |nodes| && 0 <= c < |nodes|
    ensures |r| == |nodes|
  {
    var n := nodes[y := nodes[y].(left := c)];
    n[c := n[c].(parent := y)]
  }

  /** y adopts z's right child, takes z's place by transplant(z, y), and
      adopts z's left child. */
  ghost function ReplaceNodes(nodes: seq<Node>, z: int, y: int): (r: seq<Node>)
    requires 0 <= z < |nodes| && 0 <= y < |nodes| && z != y
    requires nodes[z].parent == NULL || 0 <= nodes[z].parent < |nodes|
    requires 0 <= nodes[z].left < |nodes| && 0 <= nodes[z].right < |nodes|
    ensures |r| == |nodes|
  {
    var n := nodes[z];
    AdoptLeft(TransplantNodes(AdoptRight(nodes, y, n.right), z, y), y, n.left)
  }

  /** nodes' is nodes with y in z's place, pointwise; the slot of z, which
      leaves the tree, is left unconstrained. */
  ghost predicate Replaced(nodes: seq<Node>, nodes': seq<Node>, z: int, y: int) {
    0 <= z < |nodes| && 0 <= y < |nodes| && |nodes'| == |nodes| &&
    var n := nodes[z];
    var p := n.parent;
    0 <= n.left < |nodes| && 0 <= n.right < |nodes| &&
    nodes'[y] == Node(nodes[y].key, p, n.left, n.right) &&
    (p != NULL ==> 0 <= p < |nodes| && nodes'[p] == ReplaceChild(nodes[p], z, y)) &&
    nodes'[n.left] == nodes[n.left].(parent := y) &&
    nodes'[n.right] == nodes[n.right].(parent := y) &&
    nodes'[z].key == nodes[z].key &&
    forall i | 0 <= i < |nodes| && i != y && i != z && i != p && i != n.left && i != n.right :: nodes'[i] == nodes[i]
  }

  lemma ReplaceNodesReplaced(nodes: seq<Node>, z: int, y: int)
    requires 0 <= z < |nodes| && 0 <= y < |nodes| && z != y
    requires nodes[z].parent == NULL || 0 <= nodes[z].parent < |nodes|
    requires 0 <= nodes[z].left < |nodes| && 0 <= nodes[z].right < |nodes|
    requires var n := nodes[z];
      y != n.parent && y != n.left && y != n.right && n.parent != n.left && n.parent != n.right &&
      n.left != n.right && z != n.parent && z != n.left && z != n.right
    ensures Replaced(nodes, ReplaceNodes(nodes, z, y), z, y)
  {
  }

  /** The layout after y takes z's place: same in-order sequence with y
      at z's position and z's span. */
  ghost function ReplaceLayout(L: Layout, z: int, y: int): Layout
    requires 0 <= z < |L.pos| && 0 <= L.pos[z] < |L.order| && z < |L.lo| && z < |L.hi|
    requires 0 <= y < |L.pos| && y < |L.lo| && y < |L.hi|
  {
    Layout(L.order[L.pos[z] := y], L.pos[y := L.pos[z]], L.lo[y := L.lo[z]], L.hi[y := L.hi[z]])
  }

  /** z is a node of the tree, y a slot that holds no node of it. */
  ghost predicate ReplaceCtx(nodes: seq<Node>, root: int, L: Layout, z: int, y: int,
                             nodes': seq<Node>, root': int, L': Layout) {
    Shape(nodes, root, NULL, L) && Live(nodes, L, z) && 0 < y < |nodes| && !Live(nodes, L, y) &&
    Replaced(nodes, nodes', z, y) && L' == ReplaceLayout(L, z, y) &&
    root' == (if nodes[z].parent == NULL then y else root)
  }

  /** A dead slot is not in the in-order sequence. */
  lemma DeadAbsent(nodes: seq<Node>, root: int, L: Layout, y: int)
    requires Shape(nodes, root, NULL, L) && 0 < y < |nodes| && !Live(nodes, L, y)
    ensures forall k | 0 <= k < |L.order| :: L.order[k] != y
  {
    forall k | 0 <= k < |L.order| ensures L.order[k] != y {
      assert Placed(nodes, root, NULL, L, k);
    }
  }

  lemma ReplaceLive(nodes: seq<Node>, root: int, L: Layout, z: int, y: int,
                    nodes': seq<Node>, root': int, L': Layout, v: int)
    requires ReplaceCtx(nodes, root, L, z, y, nodes', root', L')
    requires (Live(nodes, L, v) && v != z) || v == y
    ensures Live(nodes', L', v)
  {
  }

  /** The nodes around z: its parent and children are live (or the
      sentinel), and none of them is y. */
  lemma ReplaceFamily(nodes: seq<Node>, root: int, L: Layout, z: int, y: int,
                      nodes': seq<Node>, root': int, L': Layout)
    requires ReplaceCtx(nodes, root, L, z, y, nodes', root', L')
    ensures NodeOk(nodes, root, NULL, L, z)
    ensures var n := nodes[z];
      n.parent != y && n.left != y && n.right != y &&
      (n.parent != NULL ==> n.parent != n.left && n.parent != n.right) &&
      (n.left != NIL ==> NodeOk(nodes, root, NULL, L, n.left)) &&
      (n.right != NIL ==> NodeOk(nodes, root, NULL, L, n.right))
  {
    ZFamily(nodes, root, L, z, y);
  }

  lemma ZFamily(nodes: seq<Node>, root: int, L: Layout, z: int, y: int)
    requires Shape(nodes, root, NULL, L) && Live(nodes, L, z) && 0 < y < |nodes| && !Live(nodes, L, y)
    ensures NodeOk(nodes, root, NULL, L, z)
    ensures var n := nodes[z];
      n.parent != y && n.left != y && n.right != y &&
      (n.parent != NULL ==> n.parent != n.left && n.parent != n.right) &&
      (n.left != NIL ==> NodeOk(nodes, root, NULL, L, n.left)) &&
      (n.right != NIL ==> NodeOk(nodes, root, NULL, L, n.right))
  {
    NodeAt(nodes, root, NULL, L, z);
    var n := nodes[z];
    if n.left != NIL { NodeAt(nodes, root, NULL, L, n.left); }
    if n.right != NIL { NodeAt(nodes, root, NULL, L, n.right); }
    if n.parent != NULL {
      ParentOf(nodes, root, NULL, L, z);
    }
  }

  /** y, in z's place, has z's parent, children and span. */
  lemma ReplaceAtY(nodes: seq<Node>, root: int, L: Layout, z: int, y: int,
                   nodes': seq<Node>, root': int, L': Layout)
    requires ReplaceCtx(nodes, root, L, z, y, nodes', root', L')
    ensures NodeOk(nodes', root', NULL, L', y)
  {
    ReplaceFamily(nodes, root, L, z, y, nodes', root', L');
    var n := nodes[z];
    ReplaceLive(nodes, root, L, z, y, nodes', root', L', y);
    if n.left != NIL { ReplaceLive(nodes, root, L, z, y, nodes', root', L', n.left); }
    if n.right != NIL { ReplaceLive(nodes, root, L, z, y, nodes', root', L', n.right); }
    if n.parent != NULL {
      ParentOf(nodes, root, NULL, L, z);
      ReplaceLive(nodes, root, L, z, y, nodes', root', L', n.parent);
    }
  }

  /** What y taking z's place leaves alone at slot v. */
  lemma ReplaceKeep(nodes: seq<Node>, root: int, L: Layout, z: int, y: int,
                    nodes': seq<Node>, root': int, L': Layout, v: int)
    requires ReplaceCtx(nodes, root, L, z, y, nodes', root', L')
    requires 0 <= v < |nodes| && v != y && v != z
    ensures nodes'[v].key == nodes[v].key
    ensures v != nodes[z].left && v != nodes[z].right ==> nodes'[v].parent == nodes[v].parent
    ensures v != nodes[z].parent ==> nodes'[v].left == nodes[v].left && nodes'[v].right == nodes[v].right
  {
  }

  /** z's parent has y where it had z. */
  lemma ReplaceAtPDown(nodes: seq<Node>, root: int, L: Layout, z: int, y: int,
                       nodes': seq<Node>, root': int, L': Layout)
    requires ReplaceCtx(nodes, root, L, z, y, nodes', root', L')
    requires nodes[z].parent != NULL
    ensures var p := nodes[z].parent;
      Live(nodes', L', p) && 0 <= L'.lo[p] <= L'.pos[p] < L'.hi[p] <= |L'.order| &&
      LeftLink(nodes', L', p) && RightLink(nodes', L', p)
  {
    ReplaceAtPLeft(nodes, root, L, z, y, nodes', root', L');
    ReplaceAtPRight(nodes, root, L, z, y, nodes', root', L');
  }

  lemma ReplaceAtPLeft(nodes: seq<Node>, root: int, L: Layout, z: int, y: int,
                       nodes': seq<Node>, root': int, L': Layout)
    requires ReplaceCtx(nodes, root, L, z, y, nodes', root', L')
    requires nodes[z].parent != NULL
    ensures var p := nodes[z].parent;
      Live(nodes', L', p) && 0 <= L'.lo[p] <= L'.pos[p] < L'.hi[p] <= |L'.order| && LeftLink(nodes', L', p)
  {
    ReplaceFamily(nodes, root, L, z, y, nodes', root', L');
    var p := nodes[z].parent;
    ParentOf(nodes, root, NULL, L, z);
    ReplaceLive(nodes, root, L, z, y, nodes', root', L', p);
    ReplaceLive(nodes, root, L, z, y, nodes', root', L', y);
    var m := nodes[p];
    assert nodes'[p] == ReplaceChild(m, z, y);
    var c := if m.left == z then m.right else m.left;
    if c != NIL {
      NodeAt(nodes, root, NULL, L, c);
      ReplaceLive(nodes, root, L, z, y, nodes', root', L', c);
      ReplaceKeep(nodes, root, L, z, y, nodes', root', L', c);
    }
  }

  lemma ReplaceAtPRight(nodes: seq<Node>, root: int, L: Layout, z: int, y: int,
                       nodes': seq<Node>, root': int, L': Layout)
    requires ReplaceCtx(nodes, root, L, z, y, nodes', root', L')
    requires nodes[z].parent != NULL
    ensures var p := nodes[z].parent; Live(nodes', L', p) && RightLink(nodes', L', p)
  {
    ReplaceFamily(nodes, root, L, z, y, nodes', root', L');
    var p := nodes[z].parent;
    ParentOf(nodes, root, NULL, L, z);
    ReplaceLive(nodes, root, L, z, y, nodes', root', L', p);
    ReplaceLive(nodes, root, L, z, y, nodes', root', L', y);
    var m := nodes[p];
    assert nodes'[p] == ReplaceChild(m, z, y);
    var c := if m.left == z then m.right else m.left;
    if c != NIL {
      NodeAt(nodes, root, NULL, L, c);
      ReplaceLive(nodes, root, L, z, y, nodes', root', L', c);
      ReplaceKeep(nodes, root, L, z, y, nodes', root', L', c);
    }
  }

  lemma ReplaceAtPUp(nodes: seq<Node>, root: int, L: Layout, z: int, y: int,
                     nodes': seq<Node>, root': int, L': Layout)
    requires ReplaceCtx(nodes, root, L, z, y, nodes', root', L')
    requires nodes[z].parent != NULL
    ensures UpLink(nodes', root', NULL, L', nodes[z].parent)
  {
    ReplaceFamily(nodes, root, L, z, y, nodes', root', L');
    var p := nodes[z].parent;
    ParentOf(nodes, root, NULL, L, z);
    ReplaceKeep(nodes, root, L, z, y, nodes', root', L', p);
    if p != root {
      ParentOf(nodes, root, NULL, L, p);
      var g := nodes[p].parent;
      ReplaceLive(nodes, root, L, z, y, nodes', root', L', g);
      ReplaceKeep(nodes, root, L, z, y, nodes', root', L', g);
    }
  }

  lemma ReplaceAtP(nodes: seq<Node>, root: int, L: Layout, z: int, y: int,
                   nodes': seq<Node>, root': int, L': Layout)
    requires ReplaceCtx(nodes, root, L, z, y, nodes', root', L')
    requires nodes[z].parent != NULL
    ensures NodeOk(nodes', root', NULL, L', nodes[z].parent)
  {
    ReplaceAtPDown(nodes, root, L, z, y, nodes', root', L');
    ReplaceAtPUp(nodes, root, L, z, y, nodes', root', L');
  }

  /** The children of a node v other than z's parent keep their parent
      and span. */
  lemma ReplaceDown(nodes: seq<Node>, root: int, L: Layout, z: int, y: int,
                    nodes': seq<Node>, root': int, L': Layout, v: int)
    requires ReplaceCtx(nodes, root, L, z, y, nodes', root', L')
    requires Live(nodes, L, v) && v != z && v != nodes[z].parent
    ensures Live(nodes', L', v) && 0 <= L'.lo[v] <= L'.pos[v] < L'.hi[v] <= |L'.order|
    ensures LeftLink(nodes', L', v) && RightLink(nodes', L', v)
  {
    ReplaceFamily(nodes, root, L, z, y, nodes', root', L');
    NodeAt(nodes, root, NULL, L, v);
    ReplaceLive(nodes, root, L, z, y, nodes', root', L', v);
    ReplaceKeep(nodes, root, L, z, y, nodes', root', L', v);
    var m := nodes[v];
    if m.left != NIL {
      NodeAt(nodes, root, NULL, L, m.left);
      ReplaceLive(nodes, root, L, z, y, nodes', root', L', m.left);
      ReplaceKeep(nodes, root, L, z, y, nodes', root', L', m.left);
    }
    if m.right != NIL {
      NodeAt(nodes, root, NULL, L, m.right);
      ReplaceLive(nodes, root, L, z, y, nodes', root', L', m.right);
      ReplaceKeep(nodes, root, L, z, y, nodes', root', L', m.right);
    }
  }

  /** z's children now hang below y. */
  lemma ReplaceAtChild(nodes: seq<Node>, root: int, L: Layout, z: int, y: int,
                       nodes': seq<Node>, root': int, L': Layout, v: int)
    requires ReplaceCtx(nodes, root, L, z, y, nodes', root', L')
    requires v != NIL && (v == nodes[z].left || v == nodes[z].right)
    ensures NodeOk(nodes', root', NULL, L', v)
  {
    ReplaceFamily(nodes, root, L, z, y, nodes', root', L');
    ReplaceDown(nodes, root, L, z, y, nodes', root', L', v);
    ReplaceLive(nodes, root, L, z, y, nodes', root', L', y);
    assert nodes'[v].parent == y;
  }

  /** Every other node keeps its links and its span. */
  lemma ReplaceAtOther(nodes: seq<Node>, root: int, L: Layout, z: int, y: int,
                       nodes': seq<Node>, root': int, L': Layout, v: int)
    requires ReplaceCtx(nodes, root, L, z, y, nodes', root', L')
    requires Live(nodes, L, v) && v != z && v != nodes[z].parent && v != nodes[z].left && v != nodes[z].right
    ensures NodeOk(nodes', root', NULL, L', v)
  {
    ReplaceFamily(nodes, root, L, z, y, nodes', root', L');
    ReplaceDown(nodes, root, L, z, y, nodes', root', L', v);
    NodeAt(nodes, root, NULL, L, v);
    if v != root {
      ParentOf(nodes, root, NULL, L, v);
      var g := nodes[v].parent;
      ReplaceLive(nodes, root, L, z, y, nodes', root', L', g);
      ReplaceKeep(nodes, root, L, z, y, nodes', root', L', g);
    }
  }

  lemma ReplacePlaced(nodes: seq<Node>, root: int, L: Layout, z: int, y: int,
                      nodes': seq<Node>, root': int, L': Layout)
    requires ReplaceCtx(nodes, root, L, z, y, nodes', root', L')
    ensures forall k | 0 <= k < |L'.order| :: Placed(nodes', root', NULL, L', k)
  {
    var q := L.pos[z];
    forall k | 0 <= k < |L'.order| ensures Placed(nodes', root', NULL, L', k) {
      if k == q {
        ReplaceAtY(nodes, root, L, z, y, nodes', root', L');
      } else {
        assert Placed(nodes, root, NULL, L, k);
        var v := L.order[k];
        assert L'.order[k] == v;
        if v == nodes[z].parent {
          ReplaceAtP(nodes, root, L, z, y, nodes', root', L');
        } else if v == nodes[z].left || v == nodes[z].right {
          ReplaceAtChild(nodes, root, L, z, y, nodes', root', L', v);
        } else {
          ReplaceAtOther(nodes, root, L, z, y, nodes', root', L', v);
        }
      }
    }
  }

  /** y taking z's place keeps a well-shaped tree; the in-order sequence has
      y where it had z, and no key changes. */
  lemma ReplaceShape(nodes: seq<Node>, root: int, L: Layout, z: int, y: int,
                     nodes': seq<Node>, root': int, L': Layout)
    requires ReplaceCtx(nodes, root, L, z, y, nodes', root', L')
    ensures Shape(nodes', root', NULL, L')
    ensures L'.order == L.order[L.pos[z] := y]
    ensures forall i | 0 <= i < |nodes| :: nodes'[i].key == nodes[i].key
  {
    ReplacePlaced(nodes, root, L, z, y, nodes', root', L');
    ReplaceFamily(nodes, root, L, z, y, nodes', root', L');
    if nodes[z].parent == NULL {
      ReplaceLive(nodes, root, L, z, y, nodes', root', L', y);
    } else {
      ReplaceLive(nodes, root, L, z, y, nodes', root', L', root);
    }
  }

  // y taking z's place also takes z's colour and black-height, so every
  // colour rule that held at z now holds at y.

  /** z renamed to y. */
  ghost function Ren(v: int, z: int, y: int): int {
    if v == z then y else v
  }

  lemma ReplaceBlackAt(nodes: seq<Node>, colors: seq<Color>, root: int, L: Layout, bh: seq<nat>, z: int, y: int,
                        nodes': seq<Node>, root': int, L': Layout, bp: int, rs: int, rz: int, v: int)
    requires ReplaceCtx(nodes, root, L, z, y, nodes', root', L') && Sentinel(nodes, colors, bh)
    requires ColoursExcept(nodes, colors, L, bh, bp, rs, rz)
    requires bp != y && rs != y && rs != z && rz != y && rz != z
    requires Live(nodes, L, v)
    ensures v != bp ==> BlackOk(nodes', colors[y := colors[z]], bh[y := bh[z]], Ren(v, z, y))
  {
    ReplaceFamily(nodes, root, L, z, y, nodes', root', L');
    NodeAt(nodes, root, NULL, L, v);
    ColoursAt(nodes, colors, L, bh, bp, rs, rz, v);
    var n := nodes[v];
    assert n.left != y && n.right != y;
    if v != z && v != nodes[z].parent {
      assert n.left != z && n.right != z;
      assert nodes'[v].left == n.left && nodes'[v].right == n.right;
    }
  }

  lemma ReplaceRedAt(nodes: seq<Node>, colors: seq<Color>, root: int, L: Layout, bh: seq<nat>, z: int, y: int,
                        nodes': seq<Node>, root': int, L': Layout, bp: int, rs: int, rz: int, v: int)
    requires ReplaceCtx(nodes, root, L, z, y, nodes', root', L') && Sentinel(nodes, colors, bh)
    requires ColoursExcept(nodes, colors, L, bh, bp, rs, rz)
    requires bp != y && rs != y && rs != z && rz != y && rz != z
    requires Live(nodes, L, v)
    ensures v != rs ==> RedOk(nodes', colors[y := colors[z]], Ren(v, z, y), rz)
  {
    ReplaceFamily(nodes, root, L, z, y, nodes', root', L');
    NodeAt(nodes, root, NULL, L, v);
    ColoursAt(nodes, colors, L, bh, bp, rs, rz, v);
    var n := nodes[v];
    assert n.left != y && n.right != y;
    if v != z && v != nodes[z].parent {
      assert n.left != z && n.right != z;
      assert nodes'[v].left == n.left && nodes'[v].right == n.right;
    }
  }

  lemma ReplaceColours(nodes: seq<Node>, colors: seq<Color>, root: int, L: Layout, bh: seq<nat>, z: int, y: int,
                       nodes': seq<Node>, root': int, L': Layout, bp: int, rs: int, rz: int)
    requires ReplaceCtx(nodes, root, L, z, y, nodes', root', L') && Sentinel(nodes, colors, bh)
    requires ColoursExcept(nodes, colors, L, bh, bp, rs, rz)
    requires bp != y && rs != y && rs != z && rz != y && rz != z
    ensures ColoursExcept(nodes', colors[y := colors[z]], L', bh[y := bh[z]], Ren(bp, z, y), rs, rz)
  {
    forall k | 0 <= k < |L'.order|
      ensures L'.order[k] != Ren(bp, z, y) ==> BlackOk(nodes', colors[y := colors[z]], bh[y := bh[z]], L'.order[k])
      ensures L'.order[k] != rs ==> RedOk(nodes', colors[y := colors[z]], L'.order[k], rz)
    {
      assert Placed(nodes, root, NULL, L, k);
      ReplaceBlackAt(nodes, colors, root, L, bh, z, y, nodes', root', L', bp, rs, rz, L.order[k]);
      ReplaceRedAt(nodes, colors, root, L, bh, z, y, nodes', root', L', bp, rs, rz, L.order[k]);
    }
  }

  /** y in z's place with z's colour keeps a red-black tree red-black. */
  lemma ReplaceRedBlack(nodes: seq<Node>, colors: seq<Color>, root: int, L: Layout, bh: seq<nat>, z: int, y: int,
                        nodes': seq<Node>, root': int, L': Layout)
    requires ReplaceCtx(nodes, root, L, z, y, nodes', root', L') && RedBlack(nodes, colors, root, L, bh)
    ensures Shape(nodes', root', NULL, L') && RedBlack(nodes', colors[y := colors[z]], root', L', bh[y := bh[z]])
  {
    ReplaceShape(nodes, root, L, z, y, nodes', root', L');
    ReplaceColours(nodes, colors, root, L, bh, z, y, nodes', root', L', NULL, NULL, NULL);
    assert L.order != [];
    NodeAt(nodes, root, NULL, L, z);
    NodeAt(nodes, root, NULL, L, root);
    if nodes[z].parent != NULL {
      assert root != y && root != z;
    } else {
      assert z == root;
    }
  }

  /** ... and keeps the fixDelete invariant at x, a node other than z and
      y, which is z's child or else z has two children (so the sentinel's
      parent link is not disturbed). */
  lemma ReplaceDeficit(nodes: seq<Node>, colors: seq<Color>, root: int, L: Layout, bh: seq<nat>, z: int, y: int,
                       nodes': seq<Node>, root': int, L': Layout, x: int)
    requires ReplaceCtx(nodes, root, L, z, y, nodes', root', L') && Deficit(nodes, colors, root, L, bh, x)
    requires x != z && x != y
    requires nodes[x].parent == z || (nodes[z].left != NIL && nodes[z].right != NIL)
    ensures Deficit(nodes', colors[y := colors[z]], root', L', bh[y := bh[z]], x)
  {
    var colors', bh' := colors[y := colors[z]], bh[y := bh[z]];
    ReplaceShape(nodes, root, L, z, y, nodes', root', L');
    ReplaceFamily(nodes, root, L, z, y, nodes', root', L');
    if x != NIL {
      ReplaceLive(nodes, root, L, z, y, nodes', root', L', x);
    }
    if nodes[z].parent != NULL {
      ReplaceLive(nodes, root, L, z, y, nodes', root', L', root);
    }
    if x == root {
      ReplaceColours(nodes, colors, root, L, bh, z, y, nodes', root', L', NULL, x, x);
    } else {
      var p := nodes[x].parent;
      ReplaceColours(nodes, colors, root, L, bh, z, y, nodes', root', L', p, x, x);
      ReplaceDeficitLinks(nodes, colors, root, L, bh, z, y, nodes', root', L', x);
    }
  }

  lemma ReplaceDeficitLinks(nodes: seq<Node>, colors: seq<Color>, root: int, L: Layout, bh: seq<nat>, z: int, y: int,
                            nodes': seq<Node>, root': int, L': Layout, x: int)
    requires ReplaceCtx(nodes, root, L, z, y, nodes', root', L') && Deficit(nodes, colors, root, L, bh, x)
    requires x != z && x != y && x != root
    requires nodes[x].parent == z || (nodes[z].left != NIL && nodes[z].right != NIL)
    ensures var p := nodes[x].parent; var p' := Ren(p, z, y);
      0 <= p' < |nodes'| && nodes'[x].parent == p' && Live(nodes', L', p') &&
      (nodes'[p'].left == x || nodes'[p'].right == x) &&
      Weight(colors[y := colors[z]], bh[y := bh[z]], x) + 1 == bh[y := bh[z]][p'] &&
      Weight(colors[y := colors[z]], bh[y := bh[z]], Sibling(nodes', p', x)) == bh[y := bh[z]][p']
  {
    if nodes[x].parent == z {
      ReplaceLinksAtZ(nodes, colors, root, L, bh, z, y, nodes', root', L', x);
    } else {
      ReplaceLinksElse(nodes, colors, root, L, bh, z, y, nodes', root', L', x);
    }
  }

  /** x was a child of z: it is now a child of y, with the same sibling. */
  lemma ReplaceLinksAtZ(nodes: seq<Node>, colors: seq<Color>, root: int, L: Layout, bh: seq<nat>, z: int, y: int,
                        nodes': seq<Node>, root': int, L': Layout, x: int)
    requires ReplaceCtx(nodes, root, L, z, y, nodes', root', L') && Deficit(nodes, colors, root, L, bh, x)
    requires x != z && x != y && x != root && nodes[x].parent == z
    ensures nodes'[x].parent == y && Live(nodes', L', y) &&
      (nodes'[y].left == x || nodes'[y].right == x) &&
      Weight(colors[y := colors[z]], bh[y := bh[z]], x) + 1 == bh[y := bh[z]][y] &&
      Weight(colors[y := colors[z]], bh[y := bh[z]], Sibling(nodes', y, x)) == bh[y := bh[z]][y]
  {
    ReplaceFamily(nodes, root, L, z, y, nodes', root', L');
    ReplaceLive(nodes, root, L, z, y, nodes', root', L', y);
    assert Sibling(nodes', y, x) == Sibling(nodes, z, x);
  }

  /** x's parent is not z: it keeps its parent, whose other child is the
      old sibling renamed. */
  lemma ReplaceLinksElse(nodes: seq<Node>, colors: seq<Color>, root: int, L: Layout, bh: seq<nat>, z: int, y: int,
                         nodes': seq<Node>, root': int, L': Layout, x: int)
    requires ReplaceCtx(nodes, root, L, z, y, nodes', root', L') && Deficit(nodes, colors, root, L, bh, x)
    requires x != z && x != y && x != root && nodes[z].left != NIL && nodes[z].right != NIL
    requires nodes[x].parent != z
    ensures var p := nodes[x].parent;
      0 <= p < |nodes'| && nodes'[x].parent == p && Live(nodes', L', p) &&
      (nodes'[p].left == x || nodes'[p].right == x) &&
      Weight(colors[y := colors[z]], bh[y := bh[z]], x) + 1 == bh[y := bh[z]][p] &&
      Weight(colors[y := colors[z]], bh[y := bh[z]], Sibling(nodes', p, x)) == bh[y := bh[z]][p]
  {
    var p := nodes[x].parent;
    ReplaceLive(nodes, root, L, z, y, nodes', root', L', p);
    ReplaceSibling(nodes, root, L, z, y, nodes', root', L', x);
    var c := Sibling(nodes, p, x);
    assert Weight(colors[y := colors[z]], bh[y := bh[z]], Ren(c, z, y)) == Weight(colors, bh, c);
  }

  /** Outside z, a child keeps its parent and its sibling, renamed. */
  lemma ReplaceSibling(nodes: seq<Node>, root: int, L: Layout, z: int, y: int,
                       nodes': seq<Node>, root': int, L': Layout, x: int)
    requires ReplaceCtx(nodes, root, L, z, y, nodes', root', L')
    requires 0 <= x < |nodes| && x != z && x != y && nodes[z].left != NIL && nodes[z].right != NIL
    requires Live(nodes, L, nodes[x].parent) && nodes[x].parent != z
    requires nodes[nodes[x].parent].left == x || nodes[nodes[x].parent].right == x
    ensures var p := nodes[x].parent;
      p != y && nodes'[x].parent == p && (nodes'[p].left == x || nodes'[p].right == x) &&
      Sibling(nodes', p, x) == Ren(Sibling(nodes, p, x), z, y) && Sibling(nodes, p, x) != y
  {
    ReplaceFamily(nodes, root, L, z, y, nodes', root', L');
    var p := nodes[x].parent;
    NodeAt(nodes, root, NULL, L, p);
    ReplaceKeep(nodes, root, L, z, y, nodes', root', L', x);
    if p != nodes[z].parent {
      ReplaceKeep(nodes, root, L, z, y, nodes', root', L', p);
    }
  }

  // ---------------------------------------------------------------------
  // A node with two children: its successor y (the minimum of z's right
  // subtree, at the next in-order position) is spliced out of its place
  // and then takes z's place.

  /** z has two children and y holds the next in-order position, with the
      sentinel on its left. */
  ghost predicate SuccCtx(nodes: seq<Node>, root: int, L: Layout, z: int, y: int) {
    Shape(nodes, root, NULL, L) && Live(nodes, L, z) && nodes[z].left != NIL && nodes[z].right != NIL &&
    Live(nodes, L, y) && L.pos[y] == L.pos[z] + 1 && nodes[y].left == NIL
  }

  /** The indices the two-children branch follows are in range, and z is
      untouched by the first transplant unless it is y's parent. */
  ghost predicate SuccWf(nodes: seq<Node>, z: int, y: int) {
    0 <= z < |nodes| && 0 <= y < |nodes| && z != y && 0 <= nodes[y].right < |nodes| &&
    (nodes[y].parent == NULL || 0 <= nodes[y].parent < |nodes|) &&
    (nodes[z].parent == NULL || 0 <= nodes[z].parent < |nodes|) &&
    0 <= nodes[z].left < |nodes| && 0 <= nodes[z].right < |nodes| &&
    (nodes[y].parent != z ==> TransplantNodes(nodes, y, nodes[y].right)[z] == nodes[z])
  }

  /** The arena after the two-children branch of deleteNodeHelper: when y
      is z's right child, x.parent := y; otherwise transplant(y, x) and y
      adopts z's right child; then transplant(z, y) and y adopts z's left
      child. Slot z itself is never written. */
  ghost function SuccessorNodes(nodes: seq<Node>, z: int, y: int): (r: seq<Node>)
    requires SuccWf(nodes, z, y)
    ensures |r| == |nodes|
  {
    var x := nodes[y].right;
    if nodes[y].parent == z then
      var n1 := nodes[x := nodes[x].(parent := y)];
      AdoptLeft(TransplantNodes(n1, z, y), y, nodes[z].left)
    else
      ReplaceNodes(TransplantNodes(nodes, y, x), z, y)
  }

  /** The layout after the two-children branch: y's position, the one
      after z's, is cut out and y moves to z's position, so z leaves the
      in-order sequence. */
  ghost function SuccessorLayout(nodes: seq<Node>, root: int, L: Layout, z: int, y: int): (L': Layout)
    requires SuccCtx(nodes, root, L, z, y)
    ensures L'.order == L.order[..L.pos[z]] + L.order[L.pos[z] + 1..]
  {
    SuccessorOrder(L.order, L.pos[z]);
    ReplaceLayout(SpliceLayout(L, L.pos[z] + 1), z, y)
  }

  /** Where y and its right child x sit relative to z. */
  lemma SuccFacts(nodes: seq<Node>, root: int, L: Layout, z: int, y: int)
    requires SuccCtx(nodes, root, L, z, y)
    ensures var x := nodes[y].right; var yp := nodes[y].parent; var q := L.pos[z];
      NodeOk(nodes, root, NULL, L, z) && NodeOk(nodes, root, NULL, L, y) && y != root && y != z &&
      Live(nodes, L, yp) && (x == NIL || Live(nodes, L, x)) && x != yp && x != z && x != y &&
      (yp == z <==> y == nodes[z].right) &&
      q + 1 < |L.order| && L.order[q + 1] == y
  {
    var x, yp, q := nodes[y].right, nodes[y].parent, L.pos[z];
    NodeAt(nodes, root, NULL, L, z);
    NodeAt(nodes, root, NULL, L, nodes[z].left);
    NodeAt(nodes, root, NULL, L, y);
    assert y != root;
    ParentOf(nodes, root, NULL, L, y);
    if x != NIL {
      NodeAt(nodes, root, NULL, L, x);
    }
  }

  /** The facts the branch's pointer writes rely on: every index it follows
      is in range, and z's own slot is never among the written ones. */
  lemma SuccSteps(nodes: seq<Node>, root: int, L: Layout, z: int, y: int)
    requires SuccCtx(nodes, root, L, z, y)
    ensures SuccWf(nodes, z, y)
    ensures var x := nodes[y].right; var n := nodes[z];
      x != z && n.parent != z && n.right != z && n.left != z && n.parent != y && n.left != y &&
      nodes[y].parent != NULL &&
      (nodes[y].parent == z ==> y == n.right)
  {
    SuccFacts(nodes, root, L, z, y);
    SuccSplice(nodes, root, L, z, y);
    NodeAt(nodes, root, NULL, L, nodes[z].left);
    if nodes[z].parent != NULL {
      ParentOf(nodes, root, NULL, L, z);
    }
  }

  /** The first transplant of the branch splices y out. */
  lemma SuccSplice(nodes: seq<Node>, root: int, L: Layout, z: int, y: int)
    requires SuccCtx(nodes, root, L, z, y)
    ensures SuccWf(nodes, z, y)
    ensures var x := nodes[y].right; var yp := nodes[y].parent; var q := L.pos[z];
      TransplantNodes(nodes, y, x)[z].parent == nodes[z].parent &&
      (yp == z ==> TransplantNodes(nodes, y, x)[x].parent == z) &&
      SpliceCtx(nodes, root, L, y, x, TransplantNodes(nodes, y, x), root, SpliceLayout(L, q + 1))
  {
    SuccFacts(nodes, root, L, z, y);
    var x, q := nodes[y].right, L.pos[z];
    TransplantSpliced(nodes, y, x);
    SpliceLayoutDropped(L, q + 1);
  }

  /** The values the two-children branch goes through: nodes1 and L1
      once y is spliced out, then nodes', root' and L' once y has taken
      z's place. */
  ghost predicate SuccStep(nodes: seq<Node>, root: int, L: Layout, z: int, y: int,
                           nodes1: seq<Node>, L1: Layout, nodes': seq<Node>, root': int, L': Layout) {
    SuccCtx(nodes, root, L, z, y) && SuccWf(nodes, z, y) &&
    nodes1 == TransplantNodes(nodes, y, nodes[y].right) && L1 == SpliceLayout(L, L.pos[z] + 1) &&
    nodes' == SuccessorNodes(nodes, z, y) && root' == TransplantRoot(nodes, root, z, y) &&
    L' == ReplaceLayout(L1, z, y)
  }

  /** With y spliced out first, the rest of the branch is y taking z's
      place: the successor step is a splice followed by a replacement. */
  lemma SuccessorReplaced(nodes: seq<Node>, root: int, L: Layout, z: int, y: int,
                          nodes1: seq<Node>, L1: Layout, nodes': seq<Node>, root': int, L': Layout)
    requires SuccStep(nodes, root, L, z, y, nodes1, L1, nodes', root', L')
    ensures SpliceCtx(nodes, root, L, y, nodes[y].right, nodes1, root, L1)
    ensures ReplaceCtx(nodes1, root, L1, z, y, nodes', root', L')
  {
    SuccessorSpliced(nodes, root, L, z, y, nodes1, L1, nodes', root', L');
    SuccessorReplacesZ(nodes, root, L, z, y, nodes1, L1, nodes', root', L');
  }

  /** The first half of the successor step: y is spliced out, and z is
      still a node of the resulting tree while y is not. */
  lemma SuccessorSpliced(nodes: seq<Node>, root: int, L: Layout, z: int, y: int,
                         nodes1: seq<Node>, L1: Layout, nodes': seq<Node>, root': int, L': Layout)
    requires SuccStep(nodes, root, L, z, y, nodes1, L1, nodes', root', L')
    ensures SpliceCtx(nodes, root, L, y, nodes[y].right, nodes1, root, L1) && nodes1[z].parent == nodes[z].parent
    ensures Shape(nodes1, root, NULL, L1) && Live(nodes1, L1, z) && 0 < y < |nodes1| && !Live(nodes1, L1, y)
  {
    SuccFacts(nodes, root, L, z, y);
    SuccSplice(nodes, root, L, z, y);
    var x := nodes[y].right;
    SpliceShape(nodes, root, L, y, x, nodes1, root, L1);
    SpliceLive(nodes, root, L, y, x, nodes1, root, L1, z);
    DeadAfterSplice(nodes, root, L, y, x, nodes1, root, L1);
  }

  /** The second half: the remaining pointer writes put y in z's place. */
  lemma SuccessorReplacesZ(nodes: seq<Node>, root: int, L: Layout, z: int, y: int,
                           nodes1: seq<Node>, L1: Layout, nodes': seq<Node>, root': int, L': Layout)
    requires SuccStep(nodes, root, L, z, y, nodes1, L1, nodes', root', L')
    ensures Replaced(nodes1, nodes', z, y)
  {
    SuccessorSpliced(nodes, root, L, z, y, nodes1, L1, nodes', root', L');
    SuccFacts(nodes, root, L, z, y);
    ZFamily(nodes1, root, L1, z, y);
    ReplaceNodesReplaced(nodes1, z, y);
    if nodes[y].parent == z {
      SuccessorAsReplace(nodes, z, y);
    }
  }

  /** The spliced-out node is no longer live. */
  lemma DeadAfterSplice(nodes: seq<Node>, root: int, L: Layout, u: int, x: int,
                        nodes': seq<Node>, root': int, L': Layout)
    requires SpliceCtx(nodes, root, L, u, x, nodes', root', L')
    ensures !Live(nodes', L', u)
  {
    var q := L.pos[u];
    assert L'.pos[u] == q;
    if q < |L'.order| {
      assert Placed(nodes, root, NULL, L, q + 1);
      assert L'.order[q] == L.order[q + 1];
    }
  }

  /** When y is z's right child, the branch differs from a splice followed
      by a replacement only in the slot of z (which keeps its right link to
      y). */
  lemma SuccessorAsReplace(nodes: seq<Node>, z: int, y: int)
    requires SuccWf(nodes, z, y) && nodes[z].right == y && nodes[y].parent == z
    requires var x := nodes[y].right; var n := nodes[z];
      x != z && x != y && n.parent != y && n.parent != x && n.parent != n.left && n.left != y && n.left != x &&
      n.parent != z && n.left != z
    requires Replaced(TransplantNodes(nodes, y, nodes[y].right),
                      ReplaceNodes(TransplantNodes(nodes, y, nodes[y].right), z, y), z, y)
    ensures Replaced(TransplantNodes(nodes, y, nodes[y].right), SuccessorNodes(nodes, z, y), z, y)
  {
    var x := nodes[y].right;
    var nodes1 := TransplantNodes(nodes, y, x);
    var n1 := nodes[x := nodes[x].(parent := y)];
    assert AdoptRight(nodes1, y, x) == n1[z := ReplaceChild(nodes[z], y, x)];
    AdoptAwayFromZ(n1, z, y, nodes[z].left, ReplaceChild(nodes[z], y, x));
  }

  /** The last two steps of the branch neither read nor write z's own
      links, so what z's slot holds does not matter to the other slots. */
  lemma AdoptAwayFromZ(nodes: seq<Node>, z: int, y: int, l: int, n: Node)
    requires 0 <= z < |nodes| && 0 <= y < |nodes| && 0 <= l < |nodes| && z != y && l != z
    requires nodes[z].parent == NULL || 0 <= nodes[z].parent < |nodes|
    requires n.parent == nodes[z].parent && n.parent != z
    ensures var a := AdoptLeft(TransplantNodes(nodes[z := n], z, y), y, l);
      var b := AdoptLeft(TransplantNodes(nodes, z, y), y, l);
      |a| == |b| && a[z] == n && b[z] == nodes[z] &&
      forall i | 0 <= i < |nodes| && i != z :: a[i] == b[i]
  {
  }

  // ---------------------------------------------------------------------
  // The whole removal step

  /** A key sequence that is the old one with position q cut out. */
  lemma CutKeys(nodes: seq<Node>, L: Layout, nodes': seq<Node>, L': Layout, q: int)
    requires 0 <= q < |L.order| && |L'.order| == |L.order| - 1 && Sorted(nodes, L)
    requires forall r | 0 <= r < |L'.order| :: KeyAt(nodes', L', r) == KeyAt(nodes, L, if r < q then r else r + 1)
    ensures Keys(nodes', L') == Keys(nodes, L)[..q] + Keys(nodes, L)[q + 1..]
    ensures Keys(nodes', L') == Remove(Keys(nodes, L), KeyAt(nodes, L, q))
    ensures Sorted(nodes', L')
  {
    var K := Keys(nodes, L);
    var R := K[..q] + K[q + 1..];
    forall r | 0 <= r < |R| ensures Keys(nodes', L')[r] == R[r] {
      if r >= q {
        assert R[r] == K[r + 1];
      }
    }
    assert Keys(nodes', L') == R;
    SortedKeys(nodes, L);
    RemoveAt(K, q);
    RemoveIncreasing(K, K[q]);
    SortedKeys(nodes', L');
  }

  /** Removing z, which has at most one child x, by transplant(z, x):
      the key of z leaves the in-order sequence, and the tree is red-black
      when z was red, or short of one black on x's path when z was black. */
  lemma DeleteOne(nodes: seq<Node>, colors: seq<Color>, root: int, L: Layout, bh: seq<nat>, z: int, x: int)
    requires Shape(nodes, root, NULL, L) && Sorted(nodes, L) && RedBlack(nodes, colors, root, L, bh)
    requires Live(nodes, L, z)
    requires (nodes[z].left == NIL && x == nodes[z].right) || (nodes[z].right == NIL && x == nodes[z].left)
    ensures 0 <= x < |nodes| && (nodes[z].parent == NULL || 0 <= nodes[z].parent < |nodes|)
    ensures var nodes', root', L' := TransplantNodes(nodes, z, x), TransplantRoot(nodes, root, z, x), SpliceLayout(L, L.pos[z]);
      Shape(nodes', root', NULL, L') && Sorted(nodes', L') &&
      Keys(nodes', L') == Remove(Keys(nodes, L), nodes[z].key) && |L'.order| == |L.order| - 1 &&
      (IsRed(colors, z) ==> RedBlack(nodes', colors, root', L', bh)) &&
      (IsBlack(colors, z) ==> Deficit(nodes', colors, root', L', bh, x))
  {
    SpliceOne(nodes, root, L, z, x);
    var q := L.pos[z];
    var nodes', root', L' := TransplantNodes(nodes, z, x), TransplantRoot(nodes, root, z, x), SpliceLayout(L, q);
    DeleteOneKeys(nodes, root, L, z, x);
    if IsRed(colors, z) {
      SpliceRedBlack(nodes, colors, root, L, bh, z, x, nodes', root', L');
    } else {
      SpliceDeficit(nodes, colors, root, L, bh, z, x, nodes', root', L');
    }
  }

  /** transplant(z, x) on a node with at most one child x splices z out. */
  lemma SpliceOne(nodes: seq<Node>, root: int, L: Layout, z: int, x: int)
    requires Shape(nodes, root, NULL, L) && Live(nodes, L, z)
    requires (nodes[z].left == NIL && x == nodes[z].right) || (nodes[z].right == NIL && x == nodes[z].left)
    ensures 0 <= x < |nodes| && (nodes[z].parent == NULL || 0 <= nodes[z].parent < |nodes|)
    ensures SpliceCtx(nodes, root, L, z, x, TransplantNodes(nodes, z, x), TransplantRoot(nodes, root, z, x),
                      SpliceLayout(L, L.pos[z]))
  {
    NodeAt(nodes, root, NULL, L, z);
    if x != NIL {
      NodeAt(nodes, root, NULL, L, x);
    }
    TransplantSpliced(nodes, z, x);
    SpliceLayoutDropped(L, L.pos[z]);
  }

  lemma DeleteOneKeys(nodes: seq<Node>, root: int, L: Layout, z: int, x: int)
    requires Shape(nodes, root, NULL, L) && Sorted(nodes, L) && Live(nodes, L, z)
    requires (nodes[z].left == NIL && x == nodes[z].right) || (nodes[z].right == NIL && x == nodes[z].left)
    ensures 0 <= x < |nodes| && (nodes[z].parent == NULL || 0 <= nodes[z].parent < |nodes|)
    ensures var nodes', root', L' := TransplantNodes(nodes, z, x), TransplantRoot(nodes, root, z, x), SpliceLayout(L, L.pos[z]);
      Shape(nodes', root', NULL, L') && Sorted(nodes', L') &&
      Keys(nodes', L') == Remove(Keys(nodes, L), nodes[z].key) && |L'.order| == |L.order| - 1
  {
    SpliceOne(nodes, root, L, z, x);
    var q := L.pos[z];
    var nodes', root', L' := TransplantNodes(nodes, z, x), TransplantRoot(nodes, root, z, x), SpliceLayout(L, q);
    SpliceShape(nodes, root, L, z, x, nodes', root', L');
    assert KeyAt(nodes, L, q) == nodes[z].key;
    CutKeys(nodes, L, nodes', L', q);
  }

  /** Removing z, which has two children, through its successor y: the key
      of z leaves the in-order sequence, y keeps z's colour, and the tree is
      red-black when y was red, or short of one black on the path of y's
      old right child x when y was black. */
  lemma DeleteTwo(nodes: seq<Node>, colors: seq<Color>, root: int, L: Layout, bh: seq<nat>, z: int, y: int,
                   nodes': seq<Node>, colors': seq<Color>, root': int, L': Layout, bh': seq<nat>)
    requires SuccCtx(nodes, root, L, z, y) && Sorted(nodes, L) && RedBlack(nodes, colors, root, L, bh)
    requires SuccWf(nodes, z, y) && nodes' == SuccessorNodes(nodes, z, y) && root' == TransplantRoot(nodes, root, z, y)
    requires L' == SuccessorLayout(nodes, root, L, z, y)
    requires colors' == colors[y := colors[z]] && bh' == bh[y := bh[z]]
    ensures Shape(nodes', root', NULL, L') && Sorted(nodes', L')
    ensures Keys(nodes', L') == Remove(Keys(nodes, L), nodes[z].key) && |L'.order| == |L.order| - 1
    ensures IsRed(colors, y) ==> RedBlack(nodes', colors', root', L', bh')
    ensures IsBlack(colors, y) ==> Deficit(nodes', colors', root', L', bh', nodes[y].right)
  {
    var nodes1, L1 := TransplantNodes(nodes, y, nodes[y].right), SpliceLayout(L, L.pos[z] + 1);
    assert SuccStep(nodes, root, L, z, y, nodes1, L1, nodes', root', L');
    SuccessorShape(nodes, root, L, z, y, nodes1, L1, nodes', root', L');
    DeleteTwoKeys(nodes, root, L, z, y, nodes1, L1, nodes', root', L');
    if IsRed(colors, y) {
      DeleteTwoRed(nodes, colors, root, L, bh, z, y, nodes1, L1, nodes', root', L');
    } else {
      DeleteTwoBlack(nodes, colors, root, L, bh, z, y, nodes1, L1, nodes', root', L');
    }
  }

  /** The shape after the two-children branch: y at z's position and the
      position after it cut out. */
  lemma SuccessorShape(nodes: seq<Node>, root: int, L: Layout, z: int, y: int,
                       nodes1: seq<Node>, L1: Layout, nodes': seq<Node>, root': int, L': Layout)
    requires SuccStep(nodes, root, L, z, y, nodes1, L1, nodes', root', L')
    ensures var q := L.pos[z];
      Shape(nodes', root', NULL, L') && q + 1 < |L.order| && L.order[q + 1] == y &&
      L'.order == (L.order[..q + 1] + L.order[q + 2..])[q := y]
  {
    SuccessorReplaced(nodes, root, L, z, y, nodes1, L1, nodes', root', L');
    SpliceShape(nodes, root, L, y, nodes[y].right, nodes1, root, L1);
    ReplaceShape(nodes1, root, L1, z, y, nodes', root', L');
    assert L1.pos[z] == L.pos[z];
  }

  /** The keys after the two-children branch: y's key, the next one in
      order, now sits at z's position. */
  lemma DeleteTwoKeys(nodes: seq<Node>, root: int, L: Layout, z: int, y: int,
                       nodes1: seq<Node>, L1: Layout, nodes': seq<Node>, root': int, L': Layout)
    requires SuccStep(nodes, root, L, z, y, nodes1, L1, nodes', root', L') && Sorted(nodes, L)
    ensures Keys(nodes', L') == Remove(Keys(nodes, L), nodes[z].key) && Sorted(nodes', L')
  {
    SuccessorShape(nodes, root, L, z, y, nodes1, L1, nodes', root', L');
    SuccessorKeys(nodes, z, y);
    KeyArrayKeys(nodes, nodes');
    var q := L.pos[z];
    assert KeyAt(nodes, L, q) == nodes[z].key;
    CutNextKeys(nodes, L, nodes', L', q);
  }

  /** Cutting position q + 1 and moving its node to position q cuts the
      key at q. */
  lemma CutNextKeys(nodes: seq<Node>, L: Layout, nodes': seq<Node>, L': Layout, q: int)
    requires 0 <= q && q + 1 < |L.order| && Sorted(nodes, L) && |nodes'| == |nodes|
    requires L'.order == (L.order[..q + 1] + L.order[q + 2..])[q := L.order[q + 1]]
    requires forall i | 0 <= i < |nodes| :: nodes'[i].key == nodes[i].key
    ensures Keys(nodes', L') == Remove(Keys(nodes, L), KeyAt(nodes, L, q)) && Sorted(nodes', L')
  {
    forall r | 0 <= r < |L'.order|
      ensures KeyAt(nodes', L', r) == KeyAt(nodes, L, if r < q then r else r + 1)
    {
      assert L'.order[r] == L.order[if r < q then r else r + 1];
    }
    CutKeys(nodes, L, nodes', L', q);
  }

  lemma DeleteTwoRed(nodes: seq<Node>, colors: seq<Color>, root: int, L: Layout, bh: seq<nat>, z: int, y: int,
                      nodes1: seq<Node>, L1: Layout, nodes': seq<Node>, root': int, L': Layout)
    requires SuccStep(nodes, root, L, z, y, nodes1, L1, nodes', root', L')
    requires RedBlack(nodes, colors, root, L, bh) && IsRed(colors, y)
    ensures RedBlack(nodes', colors[y := colors[z]], root', L', bh[y := bh[z]])
  {
    SuccessorReplaced(nodes, root, L, z, y, nodes1, L1, nodes', root', L');
    SpliceRedBlack(nodes, colors, root, L, bh, y, nodes[y].right, nodes1, root, L1);
    ReplaceRedBlack(nodes1, colors, root, L1, bh, z, y, nodes', root', L');
  }

  /** Once y is spliced out, its right child x hangs from z, or z still
      has both children. */
  lemma SuccChild(nodes: seq<Node>, root: int, L: Layout, z: int, y: int,
                   nodes1: seq<Node>, L1: Layout, nodes': seq<Node>, root': int, L': Layout)
    requires SuccStep(nodes, root, L, z, y, nodes1, L1, nodes', root', L')
    ensures var x := nodes[y].right;
      x != z && x != y && (nodes1[x].parent == z || (nodes1[z].left != NIL && nodes1[z].right != NIL))
  {
    SuccFacts(nodes, root, L, z, y);
    SuccSplice(nodes, root, L, z, y);
  }

  lemma DeleteTwoBlack(nodes: seq<Node>, colors: seq<Color>, root: int, L: Layout, bh: seq<nat>, z: int, y: int,
                        nodes1: seq<Node>, L1: Layout, nodes': seq<Node>, root': int, L': Layout)
    requires SuccStep(nodes, root, L, z, y, nodes1, L1, nodes', root', L')
    requires RedBlack(nodes, colors, root, L, bh) && IsBlack(colors, y)
    ensures Deficit(nodes', colors[y := colors[z]], root', L', bh[y := bh[z]], nodes[y].right)
  {
    SuccessorReplaced(nodes, root, L, z, y, nodes1, L1, nodes', root', L');
    SuccChild(nodes, root, L, z, y, nodes1, L1, nodes', root', L');
    var x := nodes[y].right;
    SpliceDeficit(nodes, colors, root, L, bh, y, x, nodes1, root, L1);
    ReplaceDeficit(nodes1, colors, root, L1, bh, z, y, nodes', root', L', x);
  }


  /** The pointer writes of deletion leave every slot's key in place. */
  lemma TransplantKeys(nodes: seq<Node>, u: int, v: int)
    requires 0 <= u < |nodes| && 0 <= v < |nodes|
    requires nodes[u].parent == NULL || 0 <= nodes[u].parent < |nodes|
    ensures KeyArray(TransplantNodes(nodes, u, v)) == KeyArray(nodes)
  {
    var p := nodes[u].parent;
    var n1 := if p == NULL then nodes else nodes[p := ReplaceChild(nodes[p], u, v)];
    if p != NULL {
      KeyArrayUpdate(nodes, p, ReplaceChild(nodes[p], u, v));
    }
    KeyArrayUpdate(n1, v, n1[v].(parent := p));
  }

  lemma AdoptKeys(nodes: seq<Node>, y: int, c: int)
    requires 0 <= y < |nodes| && 0 <= c < |nodes|
    ensures KeyArray(AdoptLeft(nodes, y, c)) == KeyArray(nodes)
    ensures KeyArray(AdoptRight(nodes, y, c)) == KeyArray(nodes)
  {
    KeyArrayUpdate(nodes, y, nodes[y].(left := c));
    KeyArrayUpdate(nodes[y := nodes[y].(left := c)], c, nodes[y := nodes[y].(left := c)][c].(parent := y));
    KeyArrayUpdate(nodes, y, nodes[y].(right := c));
    KeyArrayUpdate(nodes[y := nodes[y].(right := c)], c, nodes[y := nodes[y].(right := c)][c].(parent := y));
  }

  lemma SuccessorKeys(nodes: seq<Node>, z: int, y: int)
    requires SuccWf(nodes, z, y)
    ensures KeyArray(SuccessorNodes(nodes, z, y)) == KeyArray(nodes)
  {
    var x := nodes[y].right;
    if nodes[y].parent == z {
      var n1 := nodes[x := nodes[x].(parent := y)];
      KeyArrayUpdate(nodes, x, nodes[x].(parent := y));
      TransplantKeys(n1, z, y);
      AdoptKeys(TransplantNodes(n1, z, y), y, nodes[z].left);
    } else {
      var n1 := TransplantNodes(nodes, y, x);
      TransplantKeys(nodes, y, x);
      var n := n1[z];
      AdoptKeys(n1, y, n.right);
      var n2 := AdoptRight(n1, y, n.right);
      TransplantKeys(n2, z, y);
      AdoptKeys(TransplantNodes(n2, z, y), y, n.left);
    }
  }

  /** Cutting position q out of the in-order sequence after the successor
      y = order[q + 1] has been spliced out and has taken z's place. */
  lemma SuccessorOrder(order: seq<int>, q: int)
    requires 0 <= q && q + 1 < |order|
    ensures (order[..q + 1] + order[q + 2..])[q := order[q + 1]] == order[..q] + order[q + 1..]
  {
  }

  /** Every node of the tree other than the one at in-order position q,
      which held k, is still a node of the tree after a deletion that cut
      position q out of the in-order sequence and kept every slot's key. */
  lemma Survivors(nodes: seq<Node>, L: Layout, k: int, nodes': seq<Node>, root': int, L': Layout, q: int)
    requires 0 <= q < |L.order| && KeyAt(nodes, L, q) == k
    requires L'.order == L.order[..q] + L.order[q + 1..]
    requires Shape(nodes', root', NULL, L') && KeyArray(nodes') == KeyArray(nodes)
    ensures forall n | Live(nodes, L, n) && nodes[n].key != k :: Live(nodes', L', n) && nodes'[n].key == nodes[n].key
  {
    KeyArrayKeys(nodes, nodes');
    forall n | Live(nodes, L, n) && nodes[n].key != k
      ensures Live(nodes', L', n)
    {
      var j := L.pos[n];
      var i := if j < q then j else j - 1;
      assert L'.order[i] == n;
      assert Placed(nodes', root', NULL, L', i);
    }
  }
}
