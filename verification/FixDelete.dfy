/** fixDelete as value-level descriptions: after a black node has been
    removed, the subtree at x holds one black node fewer than its sibling's
    (x carries an "extra black"). Each round of the loop either moves the
    deficit up to x's parent (case 2), or removes it by recolouring and
    rotating (case 4, possibly after cases 1 and 3). The lemmas below give,
    for each case, the colouring after it. */
module DeleteFix {
  import opened Arena
  import opened Rotation

  /** The other child of p (the source tests `x == x->parent->left`). */
  ghost function Sibling(nodes: seq<Node>, p: int, x: int): int
    requires 0 <= p < |nodes|
  {
    if nodes[p].left == x then nodes[p].right else nodes[p].left
  }

  /** The number of positions x's subtree covers (0 for the sentinel). */
  ghost function Span(L: Layout, x: int): int {
    if 0 < x < |L.lo| && x < |L.hi| then L.hi[x] - L.lo[x] else 0
  }

  /** The loop invariant of fixDelete. The tree is well-shaped and every
      colour rule holds except: x may be red with a red child or a red
      parent, and, unless x is the root, x's side of its parent p has
      black-height one less than its sibling's side. */
  ghost predicate Deficit(nodes: seq<Node>, colors: seq<Color>, root: int, L: Layout, bh: seq<nat>, x: int) {
    Shape(nodes, root, NULL, L) && Sentinel(nodes, colors, bh) &&
    (x == NIL || Live(nodes, L, x)) && (root == NIL ==> x == NIL) &&
    (root != NIL && root != x ==> IsBlack(colors, root)) &&
    if x == root then ColoursExcept(nodes, colors, L, bh, NULL, x, x)
    else
      var p := nodes[x].parent;
      Live(nodes, L, p) && (nodes[p].left == x || nodes[p].right == x) &&
      Weight(colors, bh, x) + 1 == bh[p] && Weight(colors, bh, Sibling(nodes, p, x)) == bh[p] &&
      ColoursExcept(nodes, colors, L, bh, p, x, x)
  }

  /** The colour rules at one live node. */
  lemma ColoursAt(nodes: seq<Node>, colors: seq<Color>, L: Layout, bh: seq<nat>, bp: int, rs: int, rz: int, v: int)
    requires ColoursExcept(nodes, colors, L, bh, bp, rs, rz) && Live(nodes, L, v)
    ensures v != bp ==> BlackOk(nodes, colors, bh, v)
    ensures v != rs ==> RedOk(nodes, colors, v, rz)
  {
    assert L.order[L.pos[v]] == v;
  }

  /** The colour rules at a node v are kept when only nodes a, b and c,
      none of them v or a child of v, change colour or black-height, and v
      keeps its children. */
  lemma OtherColours(nodes: seq<Node>, colors: seq<Color>, bh: seq<nat>, root: int, L: Layout,
                     nodes': seq<Node>, colors': seq<Color>, bh': seq<nat>, v: int, a: int, b: int, c: int)
    requires Shape(nodes, root, NULL, L) && Live(nodes, L, v)
    requires BlackOk(nodes, colors, bh, v) && RedOk(nodes, colors, v, NULL)
    requires |nodes'| == |nodes| && |colors| == |nodes| && |colors'| == |nodes| && |bh| == |nodes| && |bh'| == |nodes|
    requires nodes'[v].left == nodes[v].left && nodes'[v].right == nodes[v].right
    requires forall i | 0 <= i < |nodes| && i != a && i != b && i != c :: colors'[i] == colors[i] && bh'[i] == bh[i]
    requires v != a && v != b && v != c
    requires 0 < a < |nodes| && nodes[a].parent != v
    requires 0 < b < |nodes| && nodes[b].parent != v
    requires 0 < c < |nodes| && nodes[c].parent != v
    ensures BlackOk(nodes', colors', bh', v) && RedOk(nodes', colors', v, NULL)
  {
    NodeAt(nodes, root, NULL, L, v);
    ColourFrame(nodes, colors, bh, nodes', colors', bh', v, NULL, NULL);
  }

  /** A black x needs no excuse from the red rule. */
  lemma Unexcuse(nodes: seq<Node>, colors: seq<Color>, L: Layout, bh: seq<nat>, bp: int, x: int)
    requires ColoursExcept(nodes, colors, L, bh, bp, x, x) && IsBlack(colors, x) && |colors| == |nodes|
    ensures ColoursExcept(nodes, colors, L, bh, bp, NULL, NULL)
  {
    forall k | 0 <= k < |L.order|
      ensures RedOk(nodes, colors, L.order[k], NULL)
    {
      if L.order[k] != x {
        assert RedOk(nodes, colors, L.order[k], x);
      }
    }
  }

  /** Excusing a red child from the red rule keeps the rules. */
  lemma Excuse(nodes: seq<Node>, colors: seq<Color>, root: int, L: Layout, bh: seq<nat>, bp: int, rs: int, rz: int)
    requires Shape(nodes, root, NULL, L) && ColoursExcept(nodes, colors, L, bh, bp, rs, NULL)
    ensures ColoursExcept(nodes, colors, L, bh, bp, rs, rz)
  {
    forall k | 0 <= k < |L.order| && L.order[k] != rs
      ensures RedOk(nodes, colors, L.order[k], rz)
    {
      assert Placed(nodes, root, NULL, L, k);
      assert RedOk(nodes, colors, L.order[k], NULL);
    }
  }

  /** A red-black tree is the invariant with x at the root. */
  lemma RedBlackDeficit(nodes: seq<Node>, colors: seq<Color>, root: int, L: Layout, bh: seq<nat>)
    requires Shape(nodes, root, NULL, L) && RedBlack(nodes, colors, root, L, bh)
    ensures Deficit(nodes, colors, root, L, bh, root)
  {
    forall k | 0 <= k < |L.order|
      ensures BlackOk(nodes, colors, bh, L.order[k]) && RedOk(nodes, colors, L.order[k], NULL)
    {
      assert Placed(nodes, root, NULL, L, k);
    }
    Excuse(nodes, colors, root, L, bh, NULL, root, root);
  }

  /** Painting a stopped x black repairs the rules at node v. */
  lemma DoneAt(nodes: seq<Node>, colors: seq<Color>, root: int, L: Layout, bh: seq<nat>, x: int, v: int)
    requires Deficit(nodes, colors, root, L, bh, x) && (x == root || IsRed(colors, x))
    requires Live(nodes, L, v)
    ensures BlackOk(nodes, colors[x := Black], bh, v) && RedOk(nodes, colors[x := Black], v, NULL)
  {
    NodeAt(nodes, root, NULL, L, v);
    var n := nodes[v];
    if n.left != NIL { NodeAt(nodes, root, NULL, L, n.left); }
    if n.right != NIL { NodeAt(nodes, root, NULL, L, n.right); }
    if x == root {
      ColoursAt(nodes, colors, L, bh, NULL, x, x, v);
    } else {
      var p := nodes[x].parent;
      ColoursAt(nodes, colors, L, bh, p, x, x, v);
      if v == p {
        assert n.left == x || n.right == x;
      }
    }
  }

  /** When the loop stops (x is the root, or x is red), painting x black
      gives a red-black tree. */
  lemma DeficitDone(nodes: seq<Node>, colors: seq<Color>, root: int, L: Layout, bh: seq<nat>, x: int)
    requires Deficit(nodes, colors, root, L, bh, x) && (x == root || IsRed(colors, x))
    ensures RedBlack(nodes, colors[x := Black], root, L, bh)
  {
    forall k | 0 <= k < |L.order|
      ensures BlackOk(nodes, colors[x := Black], bh, L.order[k]) && RedOk(nodes, colors[x := Black], L.order[k], NULL)
    {
      assert Placed(nodes, root, NULL, L, k);
      DoneAt(nodes, colors, root, L, bh, x, L.order[k]);
    }
  }

  // ---------------------------------------------------------------------
  // One round of the loop: x is black and not the root; p is its parent and
  // w = Sibling(p, x)

  ghost predicate DefBelow(nodes: seq<Node>, colors: seq<Color>, root: int, L: Layout, bh: seq<nat>, x: int) {
    Deficit(nodes, colors, root, L, bh, x) && x != root && IsBlack(colors, x)
  }

  /** x, its parent p and its sibling w: w is a real node (its side has
      black-height at least 2), and the rules hold at all three except
      black-height at p. */
  lemma DefFamily(nodes: seq<Node>, colors: seq<Color>, root: int, L: Layout, bh: seq<nat>, x: int)
    requires DefBelow(nodes, colors, root, L, bh, x)
    ensures var p := nodes[x].parent;
      NodeOk(nodes, root, NULL, L, p) &&
      var w := Sibling(nodes, p, x);
      (nodes[p].left == x ==> nodes[p].right == w) && (nodes[p].left != x ==> nodes[p].right == x && nodes[p].left == w) &&
      NodeOk(nodes, root, NULL, L, w) && nodes[w].parent == p && w != NIL && w != x && w != p && x != p &&
      ColoursExcept(nodes, colors, L, bh, p, NULL, NULL) &&
      RedOk(nodes, colors, p, NULL) && BlackOk(nodes, colors, bh, w) && RedOk(nodes, colors, w, NULL) &&
      Weight(colors, bh, x) + 1 == bh[p] && Weight(colors, bh, w) == bh[p] && bh[p] >= 2 &&
      (x != NIL ==> NodeOk(nodes, root, NULL, L, x) && Span(L, x) < Span(L, p))
  {
    var p := nodes[x].parent;
    Unexcuse(nodes, colors, L, bh, p, x);
    NodeAt(nodes, root, NULL, L, p);
    var w := Sibling(nodes, p, x);
    assert w != NIL;
    NodeAt(nodes, root, NULL, L, w);
    ColoursAt(nodes, colors, L, bh, p, NULL, NULL, p);
    ColoursAt(nodes, colors, L, bh, p, NULL, NULL, w);
    if x != NIL {
      ParentOf(nodes, root, NULL, L, x);
    }
  }

  /** The indices one round of the loop reads: x's parent p, the sibling w
      and w's children. */
  lemma SiblingRanges(nodes: seq<Node>, colors: seq<Color>, root: int, L: Layout, bh: seq<nat>, x: int)
    requires DefBelow(nodes, colors, root, L, bh, x)
    ensures Sized(nodes, L) && |colors| == |nodes| && |bh| == |nodes|
    ensures var p := nodes[x].parent;
      Live(nodes, L, p) && bh[p] >= 1 &&
      var w := Sibling(nodes, p, x);
      Live(nodes, L, w) && 0 <= nodes[w].left < |nodes| && 0 <= nodes[w].right < |nodes| &&
      (nodes[p].left == x ==> nodes[p].right == w) && (nodes[p].left != x ==> nodes[p].left == w)
  {
    DefFamily(nodes, colors, root, L, bh, x);
  }

  /** p's parent g, when p is not the root. */
  lemma Upper(nodes: seq<Node>, colors: seq<Color>, root: int, L: Layout, bh: seq<nat>, x: int)
    requires DefBelow(nodes, colors, root, L, bh, x) && nodes[x].parent != root
    ensures var p := nodes[x].parent; var w := Sibling(nodes, p, x); var g := nodes[p].parent;
      NodeOk(nodes, root, NULL, L, g) && g != x && g != w && g != p &&
      (nodes[g].left == p <==> nodes[g].right != p) &&
      BlackOk(nodes, colors, bh, g) && RedOk(nodes, colors, g, NULL) && Span(L, p) < Span(L, g)
  {
    DefFamily(nodes, colors, root, L, bh, x);
    var p := nodes[x].parent;
    var w := Sibling(nodes, p, x);
    ParentOf(nodes, root, NULL, L, p);
    ParentOf(nodes, root, NULL, L, w);
    var g := nodes[p].parent;
    ColoursAt(nodes, colors, L, bh, p, NULL, NULL, g);
  }

  // Case 2: w and both its children are black. Paint w red; both sides of
  // p are now one black short, so the deficit moves up to p.

  ghost predicate Case2(nodes: seq<Node>, colors: seq<Color>, root: int, L: Layout, bh: seq<nat>, x: int,
                        colors': seq<Color>, bh': seq<nat>) {
    DefBelow(nodes, colors, root, L, bh, x) &&
    var p := nodes[x].parent;
    var w := Sibling(nodes, p, x);
    0 <= w < |nodes| && IsBlack(colors, w) && IsBlack(colors, nodes[w].left) && IsBlack(colors, nodes[w].right) &&
    bh[p] >= 1 && colors' == colors[w := Red] && bh' == bh[p := bh[p] - 1]
  }

  lemma Case2AtP(nodes: seq<Node>, colors: seq<Color>, root: int, L: Layout, bh: seq<nat>, x: int,
                 colors': seq<Color>, bh': seq<nat>)
    requires Case2(nodes, colors, root, L, bh, x, colors', bh')
    ensures BlackOk(nodes, colors', bh', nodes[x].parent)
  {
    DefFamily(nodes, colors, root, L, bh, x);
  }

  lemma Case2AtW(nodes: seq<Node>, colors: seq<Color>, root: int, L: Layout, bh: seq<nat>, x: int,
                 colors': seq<Color>, bh': seq<nat>)
    requires Case2(nodes, colors, root, L, bh, x, colors', bh')
    ensures var w := Sibling(nodes, nodes[x].parent, x);
      BlackOk(nodes, colors', bh', w) && RedOk(nodes, colors', w, NULL)
  {
    DefFamily(nodes, colors, root, L, bh, x);
    var p := nodes[x].parent;
    var w := Sibling(nodes, p, x);
    var n := nodes[w];
    assert n.left != p && n.right != p && n.left != w && n.right != w by {
      if n.left != NIL { NodeAt(nodes, root, NULL, L, n.left); }
      if n.right != NIL { NodeAt(nodes, root, NULL, L, n.right); }
    }
  }

  lemma Case2AtG(nodes: seq<Node>, colors: seq<Color>, root: int, L: Layout, bh: seq<nat>, x: int,
                 colors': seq<Color>, bh': seq<nat>)
    requires Case2(nodes, colors, root, L, bh, x, colors', bh')
    requires nodes[x].parent != root
    ensures RedOk(nodes, colors', nodes[nodes[x].parent].parent, NULL)
  {
    DefFamily(nodes, colors, root, L, bh, x);
    Upper(nodes, colors, root, L, bh, x);
    var p := nodes[x].parent;
    var g := nodes[p].parent;
    var c := Sibling(nodes, g, p);
    if c != NIL {
      NodeAt(nodes, root, NULL, L, c);
    }
  }

  lemma Case2AtOther(nodes: seq<Node>, colors: seq<Color>, root: int, L: Layout, bh: seq<nat>, x: int,
                     colors': seq<Color>, bh': seq<nat>, v: int)
    requires Case2(nodes, colors, root, L, bh, x, colors', bh')
    requires Live(nodes, L, v)
    requires var p := nodes[x].parent;
      v != p && v != Sibling(nodes, p, x) && v != nodes[p].parent
    ensures BlackOk(nodes, colors', bh', v) && RedOk(nodes, colors', v, NULL)
  {
    DefFamily(nodes, colors, root, L, bh, x);
    var p := nodes[x].parent;
    var w := Sibling(nodes, p, x);
    NodeAt(nodes, root, NULL, L, v);
    ColoursAt(nodes, colors, L, bh, p, NULL, NULL, v);
    var n := nodes[v];
    assert n.left != p && n.right != p && n.left != w && n.right != w;
    ColourFrame(nodes, colors, bh, nodes, colors', bh', v, NULL, NULL);
  }

  lemma Case2Colours(nodes: seq<Node>, colors: seq<Color>, root: int, L: Layout, bh: seq<nat>, x: int,
                     colors': seq<Color>, bh': seq<nat>)
    requires Case2(nodes, colors, root, L, bh, x, colors', bh')
    ensures var p := nodes[x].parent;
      ColoursExcept(nodes, colors', L, bh', nodes[p].parent, p, NULL)
  {
    var p := nodes[x].parent;
    var w := Sibling(nodes, p, x);
    var g := nodes[p].parent;
    DefFamily(nodes, colors, root, L, bh, x);
    forall k | 0 <= k < |L.order|
      ensures L.order[k] != g ==> BlackOk(nodes, colors', bh', L.order[k])
      ensures L.order[k] != p ==> RedOk(nodes, colors', L.order[k], NULL)
    {
      assert Placed(nodes, root, NULL, L, k);
      var v := L.order[k];
      if v == p {
        Case2AtP(nodes, colors, root, L, bh, x, colors', bh');
      } else if v == w {
        Case2AtW(nodes, colors, root, L, bh, x, colors', bh');
      } else if v == g && p != root {
        Case2AtG(nodes, colors, root, L, bh, x, colors', bh');
      } else {
        Case2AtOther(nodes, colors, root, L, bh, x, colors', bh', v);
      }
    }
  }

  /** After case 2, p's side of its own parent is one black short. */
  lemma Case2Links(nodes: seq<Node>, colors: seq<Color>, root: int, L: Layout, bh: seq<nat>, x: int,
                   colors': seq<Color>, bh': seq<nat>)
    requires Case2(nodes, colors, root, L, bh, x, colors', bh')
    requires nodes[x].parent != root
    ensures var p := nodes[x].parent; var g := nodes[p].parent;
      Live(nodes, L, g) && (nodes[g].left == p || nodes[g].right == p) &&
      Weight(colors', bh', p) + 1 == bh'[g] && Weight(colors', bh', Sibling(nodes, g, p)) == bh'[g]
  {
    DefFamily(nodes, colors, root, L, bh, x);
    Upper(nodes, colors, root, L, bh, x);
    var p := nodes[x].parent;
    var g := nodes[p].parent;
    var c := Sibling(nodes, g, p);
    if c != NIL {
      NodeAt(nodes, root, NULL, L, c);
    }
  }

  /** Case 2 moves the deficit up: the invariant holds at p, whose subtree
      is strictly larger than x's. */
  lemma Case2Fix(nodes: seq<Node>, colors: seq<Color>, root: int, L: Layout, bh: seq<nat>, x: int,
                 colors': seq<Color>, bh': seq<nat>)
    requires Case2(nodes, colors, root, L, bh, x, colors', bh')
    ensures Deficit(nodes, colors', root, L, bh', nodes[x].parent)
    ensures Span(L, nodes[x].parent) > Span(L, x)
  {
    var p := nodes[x].parent;
    DefFamily(nodes, colors, root, L, bh, x);
    Case2Colours(nodes, colors, root, L, bh, x, colors', bh');
    Excuse(nodes, colors', root, L, bh', nodes[p].parent, p, p);
    if p != root {
      Case2Links(nodes, colors, root, L, bh, x, colors', bh');
      Upper(nodes, colors, root, L, bh, x);
    } else {
      assert nodes[p].parent == NULL;
    }
  }

  // ---------------------------------------------------------------------
  // x is the left child of its parent p; its sibling is w = p.right

  ghost predicate DefLeft(nodes: seq<Node>, colors: seq<Color>, root: int, L: Layout, bh: seq<nat>, x: int) {
    DefBelow(nodes, colors, root, L, bh, x) && nodes[nodes[x].parent].left == x
  }

  lemma LeftFamily(nodes: seq<Node>, colors: seq<Color>, root: int, L: Layout, bh: seq<nat>, x: int)
    requires DefLeft(nodes, colors, root, L, bh, x)
    ensures var p := nodes[x].parent;
      NodeOk(nodes, root, NULL, L, p) && 0 <= nodes[p].right < |nodes| && nodes[p].left == x &&
      var w := nodes[p].right;
      w == Sibling(nodes, p, x) &&
      NodeOk(nodes, root, NULL, L, w) && nodes[w].parent == p && w != NIL && w != x && w != p && x != p &&
      ColoursExcept(nodes, colors, L, bh, p, NULL, NULL) &&
      RedOk(nodes, colors, p, NULL) && BlackOk(nodes, colors, bh, w) && RedOk(nodes, colors, w, NULL) &&
      Weight(colors, bh, x) + 1 == bh[p] && Weight(colors, bh, w) == bh[p] && bh[p] >= 2 &&
      (x != NIL ==> NodeOk(nodes, root, NULL, L, x) && Span(L, x) < Span(L, p))
  {
    DefFamily(nodes, colors, root, L, bh, x);
  }

  lemma LeftUpper(nodes: seq<Node>, colors: seq<Color>, root: int, L: Layout, bh: seq<nat>, x: int)
    requires DefLeft(nodes, colors, root, L, bh, x) && nodes[x].parent != root
    ensures var p := nodes[x].parent; var w := nodes[p].right; var g := nodes[p].parent;
      NodeOk(nodes, root, NULL, L, g) && g != x && g != w && g != p &&
      (nodes[g].left == p <==> nodes[g].right != p) &&
      BlackOk(nodes, colors, bh, g) && RedOk(nodes, colors, g, NULL) && Span(L, p) < Span(L, g)
  {
    Upper(nodes, colors, root, L, bh, x);
  }

  // Case 1: w is red. Paint w black and p red, rotate p left; x keeps its
  // parent p and its new sibling (w's old left child) is black.

  ghost predicate Case1Left(nodes: seq<Node>, colors: seq<Color>, root: int, L: Layout, bh: seq<nat>, x: int,
                            nodes': seq<Node>, colors': seq<Color>, root': int, L': Layout) {
    DefLeft(nodes, colors, root, L, bh, x) &&
    var p := nodes[x].parent;
    0 <= nodes[p].right < |nodes| && Sized(nodes, L) &&
    var w := nodes[p].right;
    IsRed(colors, w) && colors' == colors[w := Black][p := Red] &&
    RotatedLeft(nodes, root, p, nodes', root') && L' == RotLeftLayout(L, nodes, p)
  }

  lemma Case1LeftAtW(nodes: seq<Node>, colors: seq<Color>, root: int, L: Layout, bh: seq<nat>, x: int,
                     nodes': seq<Node>, colors': seq<Color>, root': int, L': Layout)
    requires Case1Left(nodes, colors, root, L, bh, x, nodes', colors', root', L')
    ensures var w := nodes[nodes[x].parent].right;
      BlackOk(nodes', colors', bh, w) && RedOk(nodes', colors', w, NULL)
  {
    LeftFamily(nodes, colors, root, L, bh, x);
  }

  lemma Case1LeftAtP(nodes: seq<Node>, colors: seq<Color>, root: int, L: Layout, bh: seq<nat>, x: int,
                     nodes': seq<Node>, colors': seq<Color>, root': int, L': Layout)
    requires Case1Left(nodes, colors, root, L, bh, x, nodes', colors', root', L')
    ensures RedOk(nodes', colors', nodes[x].parent, NULL)
  {
    LeftFamily(nodes, colors, root, L, bh, x);
    var p := nodes[x].parent;
    var a := nodes[nodes[p].right].left;
    if a != NIL {
      NodeAt(nodes, root, NULL, L, a);
    }
  }

  lemma Case1LeftAtG(nodes: seq<Node>, colors: seq<Color>, root: int, L: Layout, bh: seq<nat>, x: int,
                     nodes': seq<Node>, colors': seq<Color>, root': int, L': Layout)
    requires Case1Left(nodes, colors, root, L, bh, x, nodes', colors', root', L')
    requires nodes[x].parent != root
    ensures var g := nodes[nodes[x].parent].parent;
      BlackOk(nodes', colors', bh, g) && RedOk(nodes', colors', g, NULL)
  {
    LeftFamily(nodes, colors, root, L, bh, x);
    LeftUpper(nodes, colors, root, L, bh, x);
    var p := nodes[x].parent;
    var g := nodes[p].parent;
    var c := Sibling(nodes, g, p);
    if c != NIL {
      NodeAt(nodes, root, NULL, L, c);
    }
  }

  lemma Case1LeftAtOther(nodes: seq<Node>, colors: seq<Color>, root: int, L: Layout, bh: seq<nat>, x: int,
                         nodes': seq<Node>, colors': seq<Color>, root': int, L': Layout, v: int)
    requires Case1Left(nodes, colors, root, L, bh, x, nodes', colors', root', L')
    requires Live(nodes, L, v)
    requires var p := nodes[x].parent;
      v != p && v != nodes[p].right && v != nodes[p].parent
    ensures BlackOk(nodes', colors', bh, v) && RedOk(nodes', colors', v, NULL)
  {
    LeftFamily(nodes, colors, root, L, bh, x);
    var p := nodes[x].parent;
    var w := nodes[p].right;
    NodeAt(nodes, root, NULL, L, v);
    ColoursAt(nodes, colors, L, bh, p, NULL, NULL, v);
    var n := nodes[v];
    assert nodes'[v].left == n.left && nodes'[v].right == n.right;
    assert n.left != p && n.right != p && n.left != w && n.right != w;
    ColourFrame(nodes, colors, bh, nodes', colors', bh, v, NULL, NULL);
  }

  lemma Case1LeftColours(nodes: seq<Node>, colors: seq<Color>, root: int, L: Layout, bh: seq<nat>, x: int,
                         nodes': seq<Node>, colors': seq<Color>, root': int, L': Layout)
    requires Case1Left(nodes, colors, root, L, bh, x, nodes', colors', root', L')
    ensures ColoursExcept(nodes', colors', L', bh, nodes[x].parent, x, NULL)
  {
    var p := nodes[x].parent;
    var w := nodes[p].right;
    var g := nodes[p].parent;
    LeftFamily(nodes, colors, root, L, bh, x);
    forall k | 0 <= k < |L'.order|
      ensures L'.order[k] != p ==> BlackOk(nodes', colors', bh, L'.order[k])
      ensures RedOk(nodes', colors', L'.order[k], NULL)
    {
      assert Placed(nodes, root, NULL, L, k);
      var v := L.order[k];
      if v == p {
        Case1LeftAtP(nodes, colors, root, L, bh, x, nodes', colors', root', L');
      } else if v == w {
        Case1LeftAtW(nodes, colors, root, L, bh, x, nodes', colors', root', L');
      } else if v == g && p != root {
        Case1LeftAtG(nodes, colors, root, L, bh, x, nodes', colors', root', L');
      } else {
        Case1LeftAtOther(nodes, colors, root, L, bh, x, nodes', colors', root', L', v);
      }
    }
  }

  /** After case 1, x still hangs left of p, whose new right child is w's
      old left child a: black, and as heavy as p's black-height requires. */
  lemma Case1LeftLinks(nodes: seq<Node>, colors: seq<Color>, root: int, L: Layout, bh: seq<nat>, x: int,
                       nodes': seq<Node>, colors': seq<Color>, root': int, L': Layout)
    requires Case1Left(nodes, colors, root, L, bh, x, nodes', colors', root', L')
    ensures var p := nodes[x].parent;
      nodes'[x].parent == p && nodes'[p].left == x && 0 <= nodes'[p].right < |nodes| &&
      Live(nodes', L', p) && (x == NIL || Live(nodes', L', x)) && Span(L', x) == Span(L, x) &&
      IsBlack(colors', x) && Weight(colors', bh, x) + 1 == bh[p] &&
      Weight(colors', bh, nodes'[p].right) == bh[p] && IsBlack(colors', nodes'[p].right)
  {
    LeftFamily(nodes, colors, root, L, bh, x);
    var p := nodes[x].parent;
    var w := nodes[p].right;
    var a := nodes[w].left;
    if a != NIL {
      NodeAt(nodes, root, NULL, L, a);
    }
  }

  /** After case 1 the root is w (when p was the root) or unchanged; black
      either way. */
  lemma Case1LeftRoot(nodes: seq<Node>, colors: seq<Color>, root: int, L: Layout, bh: seq<nat>, x: int,
                      nodes': seq<Node>, colors': seq<Color>, root': int, L': Layout)
    requires Case1Left(nodes, colors, root, L, bh, x, nodes', colors', root', L')
    ensures root' != NIL && root' != x && IsBlack(colors', root')
  {
    LeftFamily(nodes, colors, root, L, bh, x);
    if nodes[x].parent != root {
      LeftUpper(nodes, colors, root, L, bh, x);
    }
  }

  /** Case 1 keeps the invariant, keeps x below p and makes x's sibling black. */
  lemma Case1LeftFix(nodes: seq<Node>, colors: seq<Color>, root: int, L: Layout, bh: seq<nat>, x: int,
                     nodes': seq<Node>, colors': seq<Color>, root': int, L': Layout)
    requires Case1Left(nodes, colors, root, L, bh, x, nodes', colors', root', L')
    ensures DefLeft(nodes', colors', root', L', bh, x)
    ensures nodes'[x].parent == nodes[x].parent && Span(L', x) == Span(L, x)
    ensures IsBlack(colors', nodes'[nodes'[x].parent].right)
    ensures L'.order == L.order && forall i | 0 <= i < |nodes| :: nodes'[i].key == nodes[i].key
  {
    var p := nodes[x].parent;
    LeftFamily(nodes, colors, root, L, bh, x);
    RotateLeftShape(nodes, root, L, p, nodes', root');
    Case1LeftColours(nodes, colors, root, L, bh, x, nodes', colors', root', L');
    Excuse(nodes', colors', root', L', bh, p, x, x);
    Case1LeftLinks(nodes, colors, root, L, bh, x, nodes', colors', root', L');
    Case1LeftRoot(nodes, colors, root, L, bh, x, nodes', colors', root', L');
  }

  // Case 3: w is black, its right child is black and its left child c is
  // red. Paint c black and w red, rotate w right; x's new sibling is c,
  // black with a red right child.

  ghost predicate Case3Left(nodes: seq<Node>, colors: seq<Color>, root: int, L: Layout, bh: seq<nat>, x: int,
                            nodes': seq<Node>, colors': seq<Color>, root': int, L': Layout) {
    DefLeft(nodes, colors, root, L, bh, x) &&
    var p := nodes[x].parent;
    0 <= nodes[p].right < |nodes| && Sized(nodes, L) &&
    var w := nodes[p].right;
    0 <= nodes[w].left < |nodes| &&
    var c := nodes[w].left;
    IsBlack(colors, w) && IsBlack(colors, nodes[w].right) && IsRed(colors, c) &&
    colors' == colors[c := Black][w := Red] &&
    RotatedRight(nodes, root, w, nodes', root') && L' == RotRightLayout(L, nodes, w)
  }

  /** w, c and c's children. */
  lemma Case3LeftFamily(nodes: seq<Node>, colors: seq<Color>, root: int, L: Layout, bh: seq<nat>, x: int,
                        nodes': seq<Node>, colors': seq<Color>, root': int, L': Layout)
    requires Case3Left(nodes, colors, root, L, bh, x, nodes', colors', root', L')
    ensures var p := nodes[x].parent; var w := nodes[p].right; var c := nodes[w].left;
      c != NIL && NodeOk(nodes, root, NULL, L, c) && c != p && c != x && c != w &&
      BlackOk(nodes, colors, bh, c) && RedOk(nodes, colors, c, NULL) &&
      nodes[c].left != c && nodes[c].left != w && nodes[c].left != p &&
      nodes[c].right != c && nodes[c].right != w && nodes[c].right != p &&
      nodes[w].right != c && nodes[w].right != w && nodes[w].right != p
  {
    LeftFamily(nodes, colors, root, L, bh, x);
    var p := nodes[x].parent;
    var w := nodes[p].right;
    var c := nodes[w].left;
    NodeAt(nodes, root, NULL, L, c);
    ColoursAt(nodes, colors, L, bh, p, NULL, NULL, c);
    var n := nodes[c];
    if n.left != NIL { NodeAt(nodes, root, NULL, L, n.left); }
    if n.right != NIL { NodeAt(nodes, root, NULL, L, n.right); }
    if nodes[w].right != NIL { NodeAt(nodes, root, NULL, L, nodes[w].right); }
  }

  lemma Case3LeftAtC(nodes: seq<Node>, colors: seq<Color>, root: int, L: Layout, bh: seq<nat>, x: int,
                     nodes': seq<Node>, colors': seq<Color>, root': int, L': Layout)
    requires Case3Left(nodes, colors, root, L, bh, x, nodes', colors', root', L')
    ensures var c := nodes[nodes[nodes[x].parent].right].left;
      BlackOk(nodes', colors', bh, c) && RedOk(nodes', colors', c, NULL)
  {
    LeftFamily(nodes, colors, root, L, bh, x);
    Case3LeftFamily(nodes, colors, root, L, bh, x, nodes', colors', root', L');
  }

  lemma Case3LeftAtW(nodes: seq<Node>, colors: seq<Color>, root: int, L: Layout, bh: seq<nat>, x: int,
                     nodes': seq<Node>, colors': seq<Color>, root': int, L': Layout)
    requires Case3Left(nodes, colors, root, L, bh, x, nodes', colors', root', L')
    ensures var w := nodes[nodes[x].parent].right;
      BlackOk(nodes', colors', bh, w) && RedOk(nodes', colors', w, NULL)
  {
    LeftFamily(nodes, colors, root, L, bh, x);
    Case3LeftFamily(nodes, colors, root, L, bh, x, nodes', colors', root', L');
  }

  lemma Case3LeftAtP(nodes: seq<Node>, colors: seq<Color>, root: int, L: Layout, bh: seq<nat>, x: int,
                     nodes': seq<Node>, colors': seq<Color>, root': int, L': Layout)
    requires Case3Left(nodes, colors, root, L, bh, x, nodes', colors', root', L')
    ensures RedOk(nodes', colors', nodes[x].parent, NULL)
  {
    LeftFamily(nodes, colors, root, L, bh, x);
    Case3LeftFamily(nodes, colors, root, L, bh, x, nodes', colors', root', L');
  }

  lemma Case3LeftAtOther(nodes: seq<Node>, colors: seq<Color>, root: int, L: Layout, bh: seq<nat>, x: int,
                         nodes': seq<Node>, colors': seq<Color>, root': int, L': Layout, v: int)
    requires Case3Left(nodes, colors, root, L, bh, x, nodes', colors', root', L')
    requires Live(nodes, L, v)
    requires var p := nodes[x].parent; var w := nodes[p].right;
      v != p && v != w && v != nodes[w].left
    ensures BlackOk(nodes', colors', bh, v) && RedOk(nodes', colors', v, NULL)
  {
    LeftFamily(nodes, colors, root, L, bh, x);
    Case3LeftFamily(nodes, colors, root, L, bh, x, nodes', colors', root', L');
    var p := nodes[x].parent;
    var w := nodes[p].right;
    var c := nodes[w].left;
    NodeAt(nodes, root, NULL, L, v);
    ColoursAt(nodes, colors, L, bh, p, NULL, NULL, v);
    var n := nodes[v];
    assert nodes'[v].left == n.left && nodes'[v].right == n.right;
    assert n.left != c && n.right != c && n.left != w && n.right != w;
    ColourFrame(nodes, colors, bh, nodes', colors', bh, v, NULL, NULL);
  }

  lemma Case3LeftColours(nodes: seq<Node>, colors: seq<Color>, root: int, L: Layout, bh: seq<nat>, x: int,
                         nodes': seq<Node>, colors': seq<Color>, root': int, L': Layout)
    requires Case3Left(nodes, colors, root, L, bh, x, nodes', colors', root', L')
    ensures ColoursExcept(nodes', colors', L', bh, nodes[x].parent, x, NULL)
  {
    var p := nodes[x].parent;
    var w := nodes[p].right;
    var c := nodes[w].left;
    forall k | 0 <= k < |L'.order|
      ensures L'.order[k] != p ==> BlackOk(nodes', colors', bh, L'.order[k])
      ensures RedOk(nodes', colors', L'.order[k], NULL)
    {
      assert Placed(nodes, root, NULL, L, k);
      var v := L.order[k];
      if v == p {
        Case3LeftAtP(nodes, colors, root, L, bh, x, nodes', colors', root', L');
      } else if v == w {
        Case3LeftAtW(nodes, colors, root, L, bh, x, nodes', colors', root', L');
      } else if v == c {
        Case3LeftAtC(nodes, colors, root, L, bh, x, nodes', colors', root', L');
      } else {
        Case3LeftAtOther(nodes, colors, root, L, bh, x, nodes', colors', root', L', v);
      }
    }
  }

  /** After case 3, x still hangs left of p, whose new right child c is
      black, as heavy as w was, and has the red w as its right child. */
  lemma Case3LeftLinks(nodes: seq<Node>, colors: seq<Color>, root: int, L: Layout, bh: seq<nat>, x: int,
                       nodes': seq<Node>, colors': seq<Color>, root': int, L': Layout)
    requires Case3Left(nodes, colors, root, L, bh, x, nodes', colors', root', L')
    ensures var p := nodes[x].parent;
      nodes'[x].parent == p && nodes'[p].left == x && 0 <= nodes'[p].right < |nodes| &&
      Live(nodes', L', p) && (x == NIL || Live(nodes', L', x)) && Span(L', x) == Span(L, x) &&
      root' == root && IsBlack(colors', x) && Weight(colors', bh, x) + 1 == bh[p] &&
      var c := nodes'[p].right;
      Weight(colors', bh, c) == bh[p] && IsBlack(colors', c) &&
      0 <= nodes'[c].right < |nodes| && IsRed(colors', nodes'[c].right)
  {
    LeftFamily(nodes, colors, root, L, bh, x);
    Case3LeftFamily(nodes, colors, root, L, bh, x, nodes', colors', root', L');
  }

  /** Case 3 keeps the invariant and sets up case 4. */
  lemma Case3LeftFix(nodes: seq<Node>, colors: seq<Color>, root: int, L: Layout, bh: seq<nat>, x: int,
                     nodes': seq<Node>, colors': seq<Color>, root': int, L': Layout)
    requires Case3Left(nodes, colors, root, L, bh, x, nodes', colors', root', L')
    ensures DefLeft(nodes', colors', root', L', bh, x)
    ensures nodes'[x].parent == nodes[x].parent && Span(L', x) == Span(L, x)
    ensures var w := nodes'[nodes'[x].parent].right;
      IsBlack(colors', w) && 0 <= nodes'[w].right < |nodes'| && IsRed(colors', nodes'[w].right)
    ensures L'.order == L.order && forall i | 0 <= i < |nodes| :: nodes'[i].key == nodes[i].key
  {
    var p := nodes[x].parent;
    var w := nodes[p].right;
    LeftFamily(nodes, colors, root, L, bh, x);
    RotateRightShape(nodes, root, L, w, nodes', root');
    Case3LeftColours(nodes, colors, root, L, bh, x, nodes', colors', root', L');
    Excuse(nodes', colors', root', L', bh, p, x, x);
    Case3LeftLinks(nodes, colors, root, L, bh, x, nodes', colors', root', L');
    assert w != root;
  }

  // Case 4: w is black and its right child d is red. w takes p's colour,
  // p and d become black, rotate p left; the deficit is gone.

  ghost predicate Case4Left(nodes: seq<Node>, colors: seq<Color>, root: int, L: Layout, bh: seq<nat>, x: int,
                            nodes': seq<Node>, colors': seq<Color>, root': int, L': Layout, bh': seq<nat>) {
    DefLeft(nodes, colors, root, L, bh, x) &&
    var p := nodes[x].parent;
    0 <= nodes[p].right < |nodes| && Sized(nodes, L) &&
    var w := nodes[p].right;
    0 <= nodes[w].right < |nodes| &&
    var d := nodes[w].right;
    IsBlack(colors, w) && IsRed(colors, d) && bh[p] >= 1 &&
    colors' == colors[w := colors[p]][p := Black][d := Black] &&
    bh' == bh[p := bh[p] - 1][w := bh[p]] &&
    RotatedLeft(nodes, root, p, nodes', root') && L' == RotLeftLayout(L, nodes, p)
  }

  /** d and w's left child a. */
  lemma Case4LeftFamily(nodes: seq<Node>, colors: seq<Color>, root: int, L: Layout, bh: seq<nat>, x: int,
                        nodes': seq<Node>, colors': seq<Color>, root': int, L': Layout, bh': seq<nat>)
    requires Case4Left(nodes, colors, root, L, bh, x, nodes', colors', root', L', bh')
    ensures var p := nodes[x].parent; var w := nodes[p].right; var d := nodes[w].right; var a := nodes[w].left;
      d != NIL && NodeOk(nodes, root, NULL, L, d) && d != p && d != x && d != w &&
      BlackOk(nodes, colors, bh, d) && RedOk(nodes, colors, d, NULL) &&
      nodes[d].left != d && nodes[d].left != w && nodes[d].left != p &&
      nodes[d].right != d && nodes[d].right != w && nodes[d].right != p &&
      a != w && a != p && a != d && (a != NIL ==> a != x) && 0 <= a < |nodes|
  {
    LeftFamily(nodes, colors, root, L, bh, x);
    var p := nodes[x].parent;
    var w := nodes[p].right;
    var d := nodes[w].right;
    NodeAt(nodes, root, NULL, L, d);
    ColoursAt(nodes, colors, L, bh, p, NULL, NULL, d);
    var n := nodes[d];
    if n.left != NIL { NodeAt(nodes, root, NULL, L, n.left); }
    if n.right != NIL { NodeAt(nodes, root, NULL, L, n.right); }
    if nodes[w].left != NIL { NodeAt(nodes, root, NULL, L, nodes[w].left); }
  }

  lemma Case4LeftAtP(nodes: seq<Node>, colors: seq<Color>, root: int, L: Layout, bh: seq<nat>, x: int,
                     nodes': seq<Node>, colors': seq<Color>, root': int, L': Layout, bh': seq<nat>)
    requires Case4Left(nodes, colors, root, L, bh, x, nodes', colors', root', L', bh')
    ensures var p := nodes[x].parent;
      BlackOk(nodes', colors', bh', p) && RedOk(nodes', colors', p, NULL)
  {
    LeftFamily(nodes, colors, root, L, bh, x);
    Case4LeftFamily(nodes, colors, root, L, bh, x, nodes', colors', root', L', bh');
  }

  lemma Case4LeftAtW(nodes: seq<Node>, colors: seq<Color>, root: int, L: Layout, bh: seq<nat>, x: int,
                     nodes': seq<Node>, colors': seq<Color>, root': int, L': Layout, bh': seq<nat>)
    requires Case4Left(nodes, colors, root, L, bh, x, nodes', colors', root', L', bh')
    ensures var w := nodes[nodes[x].parent].right;
      BlackOk(nodes', colors', bh', w) && RedOk(nodes', colors', w, NULL)
  {
    LeftFamily(nodes, colors, root, L, bh, x);
    Case4LeftFamily(nodes, colors, root, L, bh, x, nodes', colors', root', L', bh');
  }

  lemma Case4LeftAtD(nodes: seq<Node>, colors: seq<Color>, root: int, L: Layout, bh: seq<nat>, x: int,
                     nodes': seq<Node>, colors': seq<Color>, root': int, L': Layout, bh': seq<nat>)
    requires Case4Left(nodes, colors, root, L, bh, x, nodes', colors', root', L', bh')
    ensures var d := nodes[nodes[nodes[x].parent].right].right;
      BlackOk(nodes', colors', bh', d) && RedOk(nodes', colors', d, NULL)
  {
    LeftFamily(nodes, colors, root, L, bh, x);
    Case4LeftFamily(nodes, colors, root, L, bh, x, nodes', colors', root', L', bh');
  }

  /** p's sibling c below g is none of p, w, d. */
  lemma Case4LeftUncle(nodes: seq<Node>, colors: seq<Color>, root: int, L: Layout, bh: seq<nat>, x: int,
                       nodes': seq<Node>, colors': seq<Color>, root': int, L': Layout, bh': seq<nat>)
    requires Case4Left(nodes, colors, root, L, bh, x, nodes', colors', root', L', bh')
    requires nodes[x].parent != root
    ensures var p := nodes[x].parent; var w := nodes[p].right; var g := nodes[p].parent;
      0 <= g < |nodes| &&
      var c := Sibling(nodes, g, p);
      0 <= c < |nodes| && c != p && c != w && c != nodes[w].right &&
      nodes'[g] == ReplaceChild(nodes[g], p, w) && (nodes[g].left == p ==> nodes[g].right == c) &&
      (nodes[g].left != p ==> nodes[g].left == c && nodes[g].right == p) &&
      BlackOk(nodes, colors, bh, g) && RedOk(nodes, colors, g, NULL)
  {
    LeftFamily(nodes, colors, root, L, bh, x);
    LeftUpper(nodes, colors, root, L, bh, x);
    var p := nodes[x].parent;
    var g := nodes[p].parent;
    var c := Sibling(nodes, g, p);
    if c != NIL {
      NodeAt(nodes, root, NULL, L, c);
    }
    Case4LeftFamily(nodes, colors, root, L, bh, x, nodes', colors', root', L', bh');
  }

  lemma Case4LeftAtG(nodes: seq<Node>, colors: seq<Color>, root: int, L: Layout, bh: seq<nat>, x: int,
                     nodes': seq<Node>, colors': seq<Color>, root': int, L': Layout, bh': seq<nat>)
    requires Case4Left(nodes, colors, root, L, bh, x, nodes', colors', root', L', bh')
    requires nodes[x].parent != root
    ensures var g := nodes[nodes[x].parent].parent;
      BlackOk(nodes', colors', bh', g) && RedOk(nodes', colors', g, NULL)
  {
    Case4LeftUncle(nodes, colors, root, L, bh, x, nodes', colors', root', L', bh');
    var p := nodes[x].parent;
    var w := nodes[p].right;
    var g := nodes[p].parent;
    var c := Sibling(nodes, g, p);
    assert p != w && p != NIL && w != NIL && g != p && g != w && g != nodes[w].right by {
      LeftFamily(nodes, colors, root, L, bh, x);
      LeftUpper(nodes, colors, root, L, bh, x);
    }
    assert Weight(colors', bh', w) == Weight(colors, bh, p);
    assert Weight(colors', bh', c) == Weight(colors, bh, c) && colors'[c] == colors[c];
    assert colors'[g] == colors[g] && bh'[g] == bh[g];
  }

  lemma Case4LeftAtOther(nodes: seq<Node>, colors: seq<Color>, root: int, L: Layout, bh: seq<nat>, x: int,
                         nodes': seq<Node>, colors': seq<Color>, root': int, L': Layout, bh': seq<nat>, v: int)
    requires Case4Left(nodes, colors, root, L, bh, x, nodes', colors', root', L', bh')
    requires Live(nodes, L, v)
    requires var p := nodes[x].parent; var w := nodes[p].right;
      v != p && v != w && v != nodes[w].right && v != nodes[p].parent
    ensures BlackOk(nodes', colors', bh', v) && RedOk(nodes', colors', v, NULL)
  {
    LeftFamily(nodes, colors, root, L, bh, x);
    Case4LeftFamily(nodes, colors, root, L, bh, x, nodes', colors', root', L', bh');
    var p := nodes[x].parent;
    var w := nodes[p].right;
    var d := nodes[w].right;
    ColoursAt(nodes, colors, L, bh, p, NULL, NULL, v);
    OtherColours(nodes, colors, bh, root, L, nodes', colors', bh', v, p, w, d);
  }

  lemma Case4LeftColours(nodes: seq<Node>, colors: seq<Color>, root: int, L: Layout, bh: seq<nat>, x: int,
                         nodes': seq<Node>, colors': seq<Color>, root': int, L': Layout, bh': seq<nat>)
    requires Case4Left(nodes, colors, root, L, bh, x, nodes', colors', root', L', bh')
    ensures ColoursExcept(nodes', colors', L', bh', NULL, NULL, NULL)
  {
    var p := nodes[x].parent;
    var w := nodes[p].right;
    var d := nodes[w].right;
    var g := nodes[p].parent;
    LeftFamily(nodes, colors, root, L, bh, x);
    forall k | 0 <= k < |L'.order|
      ensures BlackOk(nodes', colors', bh', L'.order[k]) && RedOk(nodes', colors', L'.order[k], NULL)
    {
      assert Placed(nodes, root, NULL, L, k);
      var v := L.order[k];
      if v == p {
        Case4LeftAtP(nodes, colors, root, L, bh, x, nodes', colors', root', L', bh');
      } else if v == w {
        Case4LeftAtW(nodes, colors, root, L, bh, x, nodes', colors', root', L', bh');
      } else if v == d {
        Case4LeftAtD(nodes, colors, root, L, bh, x, nodes', colors', root', L', bh');
      } else if v == g && p != root {
        Case4LeftAtG(nodes, colors, root, L, bh, x, nodes', colors', root', L', bh');
      } else {
        Case4LeftAtOther(nodes, colors, root, L, bh, x, nodes', colors', root', L', bh', v);
      }
    }
  }

  /** After case 4 the root is w (when p was the root, w took its black)
      or unchanged. */
  lemma Case4LeftRoot(nodes: seq<Node>, colors: seq<Color>, root: int, L: Layout, bh: seq<nat>, x: int,
                      nodes': seq<Node>, colors': seq<Color>, root': int, L': Layout, bh': seq<nat>)
    requires Case4Left(nodes, colors, root, L, bh, x, nodes', colors', root', L', bh')
    ensures Sentinel(nodes', colors', bh') && root' != NIL && IsBlack(colors', root')
  {
    LeftFamily(nodes, colors, root, L, bh, x);
    Case4LeftFamily(nodes, colors, root, L, bh, x, nodes', colors', root', L', bh');
    var p := nodes[x].parent;
    if p != root {
      LeftUpper(nodes, colors, root, L, bh, x);
      var w := nodes[p].right;
      assert root != w && root != nodes[w].right by {
        ParentOf(nodes, root, NULL, L, w);
        ParentOf(nodes, root, NULL, L, nodes[w].right);
      }
    }
  }

  /** Case 4 ends the loop with a red-black tree. */
  lemma Case4LeftFix(nodes: seq<Node>, colors: seq<Color>, root: int, L: Layout, bh: seq<nat>, x: int,
                     nodes': seq<Node>, colors': seq<Color>, root': int, L': Layout, bh': seq<nat>)
    requires Case4Left(nodes, colors, root, L, bh, x, nodes', colors', root', L', bh')
    ensures Shape(nodes', root', NULL, L') && RedBlack(nodes', colors', root', L', bh')
    ensures L'.order == L.order && forall i | 0 <= i < |nodes| :: nodes'[i].key == nodes[i].key
  {
    var p := nodes[x].parent;
    LeftFamily(nodes, colors, root, L, bh, x);
    RotateLeftShape(nodes, root, L, p, nodes', root');
    Case4LeftColours(nodes, colors, root, L, bh, x, nodes', colors', root', L', bh');
    Case4LeftRoot(nodes, colors, root, L, bh, x, nodes', colors', root', L', bh');
  }

  // ---------------------------------------------------------------------
  // x is the right child of its parent p; its sibling is w = p.left

  ghost predicate DefRight(nodes: seq<Node>, colors: seq<Color>, root: int, L: Layout, bh: seq<nat>, x: int) {
    DefBelow(nodes, colors, root, L, bh, x) && nodes[nodes[x].parent].right == x
  }

  lemma RightFamily(nodes: seq<Node>, colors: seq<Color>, root: int, L: Layout, bh: seq<nat>, x: int)
    requires DefRight(nodes, colors, root, L, bh, x)
    ensures var p := nodes[x].parent;
      NodeOk(nodes, root, NULL, L, p) && 0 <= nodes[p].left < |nodes| && nodes[p].right == x &&
      var w := nodes[p].left;
      w == Sibling(nodes, p, x) &&
      NodeOk(nodes, root, NULL, L, w) && nodes[w].parent == p && w != NIL && w != x && w != p && x != p &&
      ColoursExcept(nodes, colors, L, bh, p, NULL, NULL) &&
      RedOk(nodes, colors, p, NULL) && BlackOk(nodes, colors, bh, w) && RedOk(nodes, colors, w, NULL) &&
      Weight(colors, bh, x) + 1 == bh[p] && Weight(colors, bh, w) == bh[p] && bh[p] >= 2 &&
      (x != NIL ==> NodeOk(nodes, root, NULL, L, x) && Span(L, x) < Span(L, p))
  {
    DefFamily(nodes, colors, root, L, bh, x);
  }

  lemma RightUpper(nodes: seq<Node>, colors: seq<Color>, root: int, L: Layout, bh: seq<nat>, x: int)
    requires DefRight(nodes, colors, root, L, bh, x) && nodes[x].parent != root
    ensures var p := nodes[x].parent; var w := nodes[p].left; var g := nodes[p].parent;
      NodeOk(nodes, root, NULL, L, g) && g != x && g != w && g != p &&
      (nodes[g].right == p <==> nodes[g].left != p) &&
      BlackOk(nodes, colors, bh, g) && RedOk(nodes, colors, g, NULL) && Span(L, p) < Span(L, g)
  {
    Upper(nodes, colors, root, L, bh, x);
  }

  // Case 1: w is red. Paint w black and p red, rotate p right; x keeps its
  // parent p and its new sibling (w's old right child) is black.

  ghost predicate Case1Right(nodes: seq<Node>, colors: seq<Color>, root: int, L: Layout, bh: seq<nat>, x: int,
                            nodes': seq<Node>, colors': seq<Color>, root': int, L': Layout) {
    DefRight(nodes, colors, root, L, bh, x) &&
    var p := nodes[x].parent;
    0 <= nodes[p].left < |nodes| && Sized(nodes, L) &&
    var w := nodes[p].left;
    IsRed(colors, w) && colors' == colors[w := Black][p := Red] &&
    RotatedRight(nodes, root, p, nodes', root') && L' == RotRightLayout(L, nodes, p)
  }

  lemma Case1RightAtW(nodes: seq<Node>, colors: seq<Color>, root: int, L: Layout, bh: seq<nat>, x: int,
                     nodes': seq<Node>, colors': seq<Color>, root': int, L': Layout)
    requires Case1Right(nodes, colors, root, L, bh, x, nodes', colors', root', L')
    ensures var w := nodes[nodes[x].parent].left;
      BlackOk(nodes', colors', bh, w) && RedOk(nodes', colors', w, NULL)
  {
    RightFamily(nodes, colors, root, L, bh, x);
  }

  lemma Case1RightAtP(nodes: seq<Node>, colors: seq<Color>, root: int, L: Layout, bh: seq<nat>, x: int,
                     nodes': seq<Node>, colors': seq<Color>, root': int, L': Layout)
    requires Case1Right(nodes, colors, root, L, bh, x, nodes', colors', root', L')
    ensures RedOk(nodes', colors', nodes[x].parent, NULL)
  {
    RightFamily(nodes, colors, root, L, bh, x);
    var p := nodes[x].parent;
    var a := nodes[nodes[p].left].right;
    if a != NIL {
      NodeAt(nodes, root, NULL, L, a);
    }
  }

  lemma Case1RightAtG(nodes: seq<Node>, colors: seq<Color>, root: int, L: Layout, bh: seq<nat>, x: int,
                     nodes': seq<Node>, colors': seq<Color>, root': int, L': Layout)
    requires Case1Right(nodes, colors, root, L, bh, x, nodes', colors', root', L')
    requires nodes[x].parent != root
    ensures var g := nodes[nodes[x].parent].parent;
      BlackOk(nodes', colors', bh, g) && RedOk(nodes', colors', g, NULL)
  {
    RightFamily(nodes, colors, root, L, bh, x);
    RightUpper(nodes, colors, root, L, bh, x);
    var p := nodes[x].parent;
    var g := nodes[p].parent;
    var c := Sibling(nodes, g, p);
    if c != NIL {
      NodeAt(nodes, root, NULL, L, c);
    }
  }

  lemma Case1RightAtOther(nodes: seq<Node>, colors: seq<Color>, root: int, L: Layout, bh: seq<nat>, x: int,
                         nodes': seq<Node>, colors': seq<Color>, root': int, L': Layout, v: int)
    requires Case1Right(nodes, colors, root, L, bh, x, nodes', colors', root', L')
    requires Live(nodes, L, v)
    requires var p := nodes[x].parent;
      v != p && v != nodes[p].left && v != nodes[p].parent
    ensures BlackOk(nodes', colors', bh, v) && RedOk(nodes', colors', v, NULL)
  {
    RightFamily(nodes, colors, root, L, bh, x);
    var p := nodes[x].parent;
    var w := nodes[p].left;
    NodeAt(nodes, root, NULL, L, v);
    ColoursAt(nodes, colors, L, bh, p, NULL, NULL, v);
    var n := nodes[v];
    assert nodes'[v].right == n.right && nodes'[v].left == n.left;
    assert n.right != p && n.left != p && n.right != w && n.left != w;
    ColourFrame(nodes, colors, bh, nodes', colors', bh, v, NULL, NULL);
  }

  lemma Case1RightColours(nodes: seq<Node>, colors: seq<Color>, root: int, L: Layout, bh: seq<nat>, x: int,
                         nodes': seq<Node>, colors': seq<Color>, root': int, L': Layout)
    requires Case1Right(nodes, colors, root, L, bh, x, nodes', colors', root', L')
    ensures ColoursExcept(nodes', colors', L', bh, nodes[x].parent, x, NULL)
  {
    var p := nodes[x].parent;
    var w := nodes[p].left;
    var g := nodes[p].parent;
    RightFamily(nodes, colors, root, L, bh, x);
    forall k | 0 <= k < |L'.order|
      ensures L'.order[k] != p ==> BlackOk(nodes', colors', bh, L'.order[k])
      ensures RedOk(nodes', colors', L'.order[k], NULL)
    {
      assert Placed(nodes, root, NULL, L, k);
      var v := L.order[k];
      if v == p {
        Case1RightAtP(nodes, colors, root, L, bh, x, nodes', colors', root', L');
      } else if v == w {
        Case1RightAtW(nodes, colors, root, L, bh, x, nodes', colors', root', L');
      } else if v == g && p != root {
        Case1RightAtG(nodes, colors, root, L, bh, x, nodes', colors', root', L');
      } else {
        Case1RightAtOther(nodes, colors, root, L, bh, x, nodes', colors', root', L', v);
      }
    }
  }

  /** After case 1, x still hangs right of p, whose new left child is w's
      old right child a: black, and as heavy as p's black-height requires. */
  lemma Case1RightLinks(nodes: seq<Node>, colors: seq<Color>, root: int, L: Layout, bh: seq<nat>, x: int,
                       nodes': seq<Node>, colors': seq<Color>, root': int, L': Layout)
    requires Case1Right(nodes, colors, root, L, bh, x, nodes', colors', root', L')
    ensures var p := nodes[x].parent;
      nodes'[x].parent == p && nodes'[p].right == x && 0 <= nodes'[p].left < |nodes| &&
      Live(nodes', L', p) && (x == NIL || Live(nodes', L', x)) && Span(L', x) == Span(L, x) &&
      IsBlack(colors', x) && Weight(colors', bh, x) + 1 == bh[p] &&
      Weight(colors', bh, nodes'[p].left) == bh[p] && IsBlack(colors', nodes'[p].left)
  {
    RightFamily(nodes, colors, root, L, bh, x);
    var p := nodes[x].parent;
    var w := nodes[p].left;
    var a := nodes[w].right;
    if a != NIL {
      NodeAt(nodes, root, NULL, L, a);
    }
  }

  /** After case 1 the root is w (when p was the root) or unchanged; black
      either way. */
  lemma Case1RightRoot(nodes: seq<Node>, colors: seq<Color>, root: int, L: Layout, bh: seq<nat>, x: int,
                      nodes': seq<Node>, colors': seq<Color>, root': int, L': Layout)
    requires Case1Right(nodes, colors, root, L, bh, x, nodes', colors', root', L')
    ensures root' != NIL && root' != x && IsBlack(colors', root')
  {
    RightFamily(nodes, colors, root, L, bh, x);
    if nodes[x].parent != root {
      RightUpper(nodes, colors, root, L, bh, x);
    }
  }

  /** Case 1 keeps the invariant, keeps x below p and makes x's sibling black. */
  lemma Case1RightFix(nodes: seq<Node>, colors: seq<Color>, root: int, L: Layout, bh: seq<nat>, x: int,
                     nodes': seq<Node>, colors': seq<Color>, root': int, L': Layout)
    requires Case1Right(nodes, colors, root, L, bh, x, nodes', colors', root', L')
    ensures DefRight(nodes', colors', root', L', bh, x)
    ensures nodes'[x].parent == nodes[x].parent && Span(L', x) == Span(L, x)
    ensures IsBlack(colors', nodes'[nodes'[x].parent].left)
    ensures L'.order == L.order && forall i | 0 <= i < |nodes| :: nodes'[i].key == nodes[i].key
  {
    var p := nodes[x].parent;
    RightFamily(nodes, colors, root, L, bh, x);
    RotateRightShape(nodes, root, L, p, nodes', root');
    Case1RightColours(nodes, colors, root, L, bh, x, nodes', colors', root', L');
    Excuse(nodes', colors', root', L', bh, p, x, x);
    Case1RightLinks(nodes, colors, root, L, bh, x, nodes', colors', root', L');
    Case1RightRoot(nodes, colors, root, L, bh, x, nodes', colors', root', L');
  }

  // Case 3: w is black, its left child is black and its right child c is
  // red. Paint c black and w red, rotate w left; x's new sibling is c,
  // black with a red left child.

  ghost predicate Case3Right(nodes: seq<Node>, colors: seq<Color>, root: int, L: Layout, bh: seq<nat>, x: int,
                            nodes': seq<Node>, colors': seq<Color>, root': int, L': Layout) {
    DefRight(nodes, colors, root, L, bh, x) &&
    var p := nodes[x].parent;
    0 <= nodes[p].left < |nodes| && Sized(nodes, L) &&
    var w := nodes[p].left;
    0 <= nodes[w].right < |nodes| &&
    var c := nodes[w].right;
    IsBlack(colors, w) && IsBlack(colors, nodes[w].left) && IsRed(colors, c) &&
    colors' == colors[c := Black][w := Red] &&
    RotatedLeft(nodes, root, w, nodes', root') && L' == RotLeftLayout(L, nodes, w)
  }

  /** w, c and c's children. */
  lemma Case3RightFamily(nodes: seq<Node>, colors: seq<Color>, root: int, L: Layout, bh: seq<nat>, x: int,
                        nodes': seq<Node>, colors': seq<Color>, root': int, L': Layout)
    requires Case3Right(nodes, colors, root, L, bh, x, nodes', colors', root', L')
    ensures var p := nodes[x].parent; var w := nodes[p].left; var c := nodes[w].right;
      c != NIL && NodeOk(nodes, root, NULL, L, c) && c != p && c != x && c != w &&
      BlackOk(nodes, colors, bh, c) && RedOk(nodes, colors, c, NULL) &&
      nodes[c].right != c && nodes[c].right != w && nodes[c].right != p &&
      nodes[c].left != c && nodes[c].left != w && nodes[c].left != p &&
      nodes[w].left != c && nodes[w].left != w && nodes[w].left != p
  {
    RightFamily(nodes, colors, root, L, bh, x);
    var p := nodes[x].parent;
    var w := nodes[p].left;
    var c := nodes[w].right;
    NodeAt(nodes, root, NULL, L, c);
    ColoursAt(nodes, colors, L, bh, p, NULL, NULL, c);
    var n := nodes[c];
    if n.right != NIL { NodeAt(nodes, root, NULL, L, n.right); }
    if n.left != NIL { NodeAt(nodes, root, NULL, L, n.left); }
    if nodes[w].left != NIL { NodeAt(nodes, root, NULL, L, nodes[w].left); }
  }

  lemma Case3RightAtC(nodes: seq<Node>, colors: seq<Color>, root: int, L: Layout, bh: seq<nat>, x: int,
                     nodes': seq<Node>, colors': seq<Color>, root': int, L': Layout)
    requires Case3Right(nodes, colors, root, L, bh, x, nodes', colors', root', L')
    ensures var c := nodes[nodes[nodes[x].parent].left].right;
      BlackOk(nodes', colors', bh, c) && RedOk(nodes', colors', c, NULL)
  {
    RightFamily(nodes, colors, root, L, bh, x);
    Case3RightFamily(nodes, colors, root, L, bh, x, nodes', colors', root', L');
  }

  lemma Case3RightAtW(nodes: seq<Node>, colors: seq<Color>, root: int, L: Layout, bh: seq<nat>, x: int,
                     nodes': seq<Node>, colors': seq<Color>, root': int, L': Layout)
    requires Case3Right(nodes, colors, root, L, bh, x, nodes', colors', root', L')
    ensures var w := nodes[nodes[x].parent].left;
      BlackOk(nodes', colors', bh, w) && RedOk(nodes', colors', w, NULL)
  {
    RightFamily(nodes, colors, root, L, bh, x);
    Case3RightFamily(nodes, colors, root, L, bh, x, nodes', colors', root', L');
  }

  lemma Case3RightAtP(nodes: seq<Node>, colors: seq<Color>, root: int, L: Layout, bh: seq<nat>, x: int,
                     nodes': seq<Node>, colors': seq<Color>, root': int, L': Layout)
    requires Case3Right(nodes, colors, root, L, bh, x, nodes', colors', root', L')
    ensures RedOk(nodes', colors', nodes[x].parent, NULL)
  {
    RightFamily(nodes, colors, root, L, bh, x);
    Case3RightFamily(nodes, colors, root, L, bh, x, nodes', colors', root', L');
  }

  lemma Case3RightAtOther(nodes: seq<Node>, colors: seq<Color>, root: int, L: Layout, bh: seq<nat>, x: int,
                         nodes': seq<Node>, colors': seq<Color>, root': int, L': Layout, v: int)
    requires Case3Right(nodes, colors, root, L, bh, x, nodes', colors', root', L')
    requires Live(nodes, L, v)
    requires var p := nodes[x].parent; var w := nodes[p].left;
      v != p && v != w && v != nodes[w].right
    ensures BlackOk(nodes', colors', bh, v) && RedOk(nodes', colors', v, NULL)
  {
    RightFamily(nodes, colors, root, L, bh, x);
    Case3RightFamily(nodes, colors, root, L, bh, x, nodes', colors', root', L');
    var p := nodes[x].parent;
    var w := nodes[p].left;
    var c := nodes[w].right;
    NodeAt(nodes, root, NULL, L, v);
    ColoursAt(nodes, colors, L, bh, p, NULL, NULL, v);
    var n := nodes[v];
    assert nodes'[v].right == n.right && nodes'[v].left == n.left;
    assert n.right != c && n.left != c && n.right != w && n.left != w;
    ColourFrame(nodes, colors, bh, nodes', colors', bh, v, NULL, NULL);
  }

  lemma Case3RightColours(nodes: seq<Node>, colors: seq<Color>, root: int, L: Layout, bh: seq<nat>, x: int,
                         nodes': seq<Node>, colors': seq<Color>, root': int, L': Layout)
    requires Case3Right(nodes, colors, root, L, bh, x, nodes', colors', root', L')
    ensures ColoursExcept(nodes', colors', L', bh, nodes[x].parent, x, NULL)
  {
    var p := nodes[x].parent;
    var w := nodes[p].left;
    var c := nodes[w].right;
    forall k | 0 <= k < |L'.order|
      ensures L'.order[k] != p ==> BlackOk(nodes', colors', bh, L'.order[k])
      ensures RedOk(nodes', colors', L'.order[k], NULL)
    {
      assert Placed(nodes, root, NULL, L, k);
      var v := L.order[k];
      if v == p {
        Case3RightAtP(nodes, colors, root, L, bh, x, nodes', colors', root', L');
      } else if v == w {
        Case3RightAtW(nodes, colors, root, L, bh, x, nodes', colors', root', L');
      } else if v == c {
        Case3RightAtC(nodes, colors, root, L, bh, x, nodes', colors', root', L');
      } else {
        Case3RightAtOther(nodes, colors, root, L, bh, x, nodes', colors', root', L', v);
      }
    }
  }

  /** After case 3, x still hangs right of p, whose new left child c is
      black, as heavy as w was, and has the red w as its left child. */
  lemma Case3RightLinks(nodes: seq<Node>, colors: seq<Color>, root: int, L: Layout, bh: seq<nat>, x: int,
                       nodes': seq<Node>, colors': seq<Color>, root': int, L': Layout)
    requires Case3Right(nodes, colors, root, L, bh, x, nodes', colors', root', L')
    ensures var p := nodes[x].parent;
      nodes'[x].parent == p && nodes'[p].right == x && 0 <= nodes'[p].left < |nodes| &&
      Live(nodes', L', p) && (x == NIL || Live(nodes', L', x)) && Span(L', x) == Span(L, x) &&
      root' == root && IsBlack(colors', x) && Weight(colors', bh, x) + 1 == bh[p] &&
      var c := nodes'[p].left;
      Weight(colors', bh, c) == bh[p] && IsBlack(colors', c) &&
      0 <= nodes'[c].left < |nodes| && IsRed(colors', nodes'[c].left)
  {
    RightFamily(nodes, colors, root, L, bh, x);
    Case3RightFamily(nodes, colors, root, L, bh, x, nodes', colors', root', L');
  }

  /** Case 3 keeps the invariant and sets up case 4. */
  lemma Case3RightFix(nodes: seq<Node>, colors: seq<Color>, root: int, L: Layout, bh: seq<nat>, x: int,
                     nodes': seq<Node>, colors': seq<Color>, root': int, L': Layout)
    requires Case3Right(nodes, colors, root, L, bh, x, nodes', colors', root', L')
    ensures DefRight(nodes', colors', root', L', bh, x)
    ensures nodes'[x].parent == nodes[x].parent && Span(L', x) == Span(L, x)
    ensures var w := nodes'[nodes'[x].parent].left;
      IsBlack(colors', w) && 0 <= nodes'[w].left < |nodes'| && IsRed(colors', nodes'[w].left)
    ensures L'.order == L.order && forall i | 0 <= i < |nodes| :: nodes'[i].key == nodes[i].key
  {
    var p := nodes[x].parent;
    var w := nodes[p].left;
    RightFamily(nodes, colors, root, L, bh, x);
    RotateLeftShape(nodes, root, L, w, nodes', root');
    Case3RightColours(nodes, colors, root, L, bh, x, nodes', colors', root', L');
    Excuse(nodes', colors', root', L', bh, p, x, x);
    Case3RightLinks(nodes, colors, root, L, bh, x, nodes', colors', root', L');
    assert w != root;
  }

  // Case 4: w is black and its left child d is red. w takes p's colour,
  // p and d become black, rotate p right; the deficit is gone.

  ghost predicate Case4Right(nodes: seq<Node>, colors: seq<Color>, root: int, L: Layout, bh: seq<nat>, x: int,
                            nodes': seq<Node>, colors': seq<Color>, root': int, L': Layout, bh': seq<nat>) {
    DefRight(nodes, colors, root, L, bh, x) &&
    var p := nodes[x].parent;
    0 <= nodes[p].left < |nodes| && Sized(nodes, L) &&
    var w := nodes[p].left;
    0 <= nodes[w].left < |nodes| &&
    var d := nodes[w].left;
    IsBlack(colors, w) && IsRed(colors, d) && bh[p] >= 1 &&
    colors' == colors[w := colors[p]][p := Black][d := Black] &&
    bh' == bh[p := bh[p] - 1][w := bh[p]] &&
    RotatedRight(nodes, root, p, nodes', root') && L' == RotRightLayout(L, nodes, p)
  }

  /** d and w's right child a. */
  lemma Case4RightFamily(nodes: seq<Node>, colors: seq<Color>, root: int, L: Layout, bh: seq<nat>, x: int,
                        nodes': seq<Node>, colors': seq<Color>, root': int, L': Layout, bh': seq<nat>)
    requires Case4Right(nodes, colors, root, L, bh, x, nodes', colors', root', L', bh')
    ensures var p := nodes[x].parent; var w := nodes[p].left; var d := nodes[w].left; var a := nodes[w].right;
      d != NIL && NodeOk(nodes, root, NULL, L, d) && d != p && d != x && d != w &&
      BlackOk(nodes, colors, bh, d) && RedOk(nodes, colors, d, NULL) &&
      nodes[d].right != d && nodes[d].right != w && nodes[d].right != p &&
      nodes[d].left != d && nodes[d].left != w && nodes[d].left != p &&
      a != w && a != p && a != d && (a != NIL ==> a != x) && 0 <= a < |nodes|
  {
    RightFamily(nodes, colors, root, L, bh, x);
    var p := nodes[x].parent;
    var w := nodes[p].left;
    var d := nodes[w].left;
    NodeAt(nodes, root, NULL, L, d);
    ColoursAt(nodes, colors, L, bh, p, NULL, NULL, d);
    var n := nodes[d];
    if n.right != NIL { NodeAt(nodes, root, NULL, L, n.right); }
    if n.left != NIL { NodeAt(nodes, root, NULL, L, n.left); }
    if nodes[w].right != NIL { NodeAt(nodes, root, NULL, L, nodes[w].right); }
  }

  lemma Case4RightAtP(nodes: seq<Node>, colors: seq<Color>, root: int, L: Layout, bh: seq<nat>, x: int,
                     nodes': seq<Node>, colors': seq<Color>, root': int, L': Layout, bh': seq<nat>)
    requires Case4Right(nodes, colors, root, L, bh, x, nodes', colors', root', L', bh')
    ensures var p := nodes[x].parent;
      BlackOk(nodes', colors', bh', p) && RedOk(nodes', colors', p, NULL)
  {
    RightFamily(nodes, colors, root, L, bh, x);
    Case4RightFamily(nodes, colors, root, L, bh, x, nodes', colors', root', L', bh');
  }

  lemma Case4RightAtW(nodes: seq<Node>, colors: seq<Color>, root: int, L: Layout, bh: seq<nat>, x: int,
                     nodes': seq<Node>, colors': seq<Color>, root': int, L': Layout, bh': seq<nat>)
    requires Case4Right(nodes, colors, root, L, bh, x, nodes', colors', root', L', bh')
    ensures var w := nodes[nodes[x].parent].left;
      BlackOk(nodes', colors', bh', w) && RedOk(nodes', colors', w, NULL)
  {
    RightFamily(nodes, colors, root, L, bh, x);
    Case4RightFamily(nodes, colors, root, L, bh, x, nodes', colors', root', L', bh');
  }

  lemma Case4RightAtD(nodes: seq<Node>, colors: seq<Color>, root: int, L: Layout, bh: seq<nat>, x: int,
                     nodes': seq<Node>, colors': seq<Color>, root': int, L': Layout, bh': seq<nat>)
    requires Case4Right(nodes, colors, root, L, bh, x, nodes', colors', root', L', bh')
    ensures var d := nodes[nodes[nodes[x].parent].left].left;
      BlackOk(nodes', colors', bh', d) && RedOk(nodes', colors', d, NULL)
  {
    RightFamily(nodes, colors, root, L, bh, x);
    Case4RightFamily(nodes, colors, root, L, bh, x, nodes', colors', root', L', bh');
  }

  /** p's sibling c below g is none of p, w, d. */
  lemma Case4RightUncle(nodes: seq<Node>, colors: seq<Color>, root: int, L: Layout, bh: seq<nat>, x: int,
                       nodes': seq<Node>, colors': seq<Color>, root': int, L': Layout, bh': seq<nat>)
    requires Case4Right(nodes, colors, root, L, bh, x, nodes', colors', root', L', bh')
    requires nodes[x].parent != root
    ensures var p := nodes[x].parent; var w := nodes[p].left; var g := nodes[p].parent;
      0 <= g < |nodes| &&
      var c := Sibling(nodes, g, p);
      0 <= c < |nodes| && c != p && c != w && c != nodes[w].left &&
      nodes'[g] == ReplaceChild(nodes[g], p, w) && (nodes[g].right == p ==> nodes[g].left == c) &&
      (nodes[g].right != p ==> nodes[g].right == c && nodes[g].left == p) &&
      BlackOk(nodes, colors, bh, g) && RedOk(nodes, colors, g, NULL)
  {
    RightFamily(nodes, colors, root, L, bh, x);
    RightUpper(nodes, colors, root, L, bh, x);
    var p := nodes[x].parent;
    var g := nodes[p].parent;
    var c := Sibling(nodes, g, p);
    if c != NIL {
      NodeAt(nodes, root, NULL, L, c);
    }
    Case4RightFamily(nodes, colors, root, L, bh, x, nodes', colors', root', L', bh');
  }

  lemma Case4RightAtG(nodes: seq<Node>, colors: seq<Color>, root: int, L: Layout, bh: seq<nat>, x: int,
                     nodes': seq<Node>, colors': seq<Color>, root': int, L': Layout, bh': seq<nat>)
    requires Case4Right(nodes, colors, root, L, bh, x, nodes', colors', root', L', bh')
    requires nodes[x].parent != root
    ensures var g := nodes[nodes[x].parent].parent;
      BlackOk(nodes', colors', bh', g) && RedOk(nodes', colors', g, NULL)
  {
    Case4RightUncle(nodes, colors, root, L, bh, x, nodes', colors', root', L', bh');
    var p := nodes[x].parent;
    var w := nodes[p].left;
    var g := nodes[p].parent;
    var c := Sibling(nodes, g, p);
    assert p != w && p != NIL && w != NIL && g != p && g != w && g != nodes[w].left by {
      RightFamily(nodes, colors, root, L, bh, x);
      RightUpper(nodes, colors, root, L, bh, x);
    }
    assert Weight(colors', bh', w) == Weight(colors, bh, p);
    assert Weight(colors', bh', c) == Weight(colors, bh, c) && colors'[c] == colors[c];
    assert colors'[g] == colors[g] && bh'[g] == bh[g];
  }

  lemma Case4RightAtOther(nodes: seq<Node>, colors: seq<Color>, root: int, L: Layout, bh: seq<nat>, x: int,
                         nodes': seq<Node>, colors': seq<Color>, root': int, L': Layout, bh': seq<nat>, v: int)
    requires Case4Right(nodes, colors, root, L, bh, x, nodes', colors', root', L', bh')
    requires Live(nodes, L, v)
    requires var p := nodes[x].parent; var w := nodes[p].left;
      v != p && v != w && v != nodes[w].left && v != nodes[p].parent
    ensures BlackOk(nodes', colors', bh', v) && RedOk(nodes', colors', v, NULL)
  {
    RightFamily(nodes, colors, root, L, bh, x);
    Case4RightFamily(nodes, colors, root, L, bh, x, nodes', colors', root', L', bh');
    var p := nodes[x].parent;
    var w := nodes[p].left;
    var d := nodes[w].left;
    ColoursAt(nodes, colors, L, bh, p, NULL, NULL, v);
    OtherColours(nodes, colors, bh, root, L, nodes', colors', bh', v, p, w, d);
  }

  lemma Case4RightColours(nodes: seq<Node>, colors: seq<Color>, root: int, L: Layout, bh: seq<nat>, x: int,
                         nodes': seq<Node>, colors': seq<Color>, root': int, L': Layout, bh': seq<nat>)
    requires Case4Right(nodes, colors, root, L, bh, x, nodes', colors', root', L', bh')
    ensures ColoursExcept(nodes', colors', L', bh', NULL, NULL, NULL)
  {
    var p := nodes[x].parent;
    var w := nodes[p].left;
    var d := nodes[w].left;
    var g := nodes[p].parent;
    RightFamily(nodes, colors, root, L, bh, x);
    forall k | 0 <= k < |L'.order|
      ensures BlackOk(nodes', colors', bh', L'.order[k]) && RedOk(nodes', colors', L'.order[k], NULL)
    {
      assert Placed(nodes, root, NULL, L, k);
      var v := L.order[k];
      if v == p {
        Case4RightAtP(nodes, colors, root, L, bh, x, nodes', colors', root', L', bh');
      } else if v == w {
        Case4RightAtW(nodes, colors, root, L, bh, x, nodes', colors', root', L', bh');
      } else if v == d {
        Case4RightAtD(nodes, colors, root, L, bh, x, nodes', colors', root', L', bh');
      } else if v == g && p != root {
        Case4RightAtG(nodes, colors, root, L, bh, x, nodes', colors', root', L', bh');
      } else {
        Case4RightAtOther(nodes, colors, root, L, bh, x, nodes', colors', root', L', bh', v);
      }
    }
  }

  /** After case 4 the root is w (when p was the root, w took its black)
      or unchanged. */
  lemma Case4RightRoot(nodes: seq<Node>, colors: seq<Color>, root: int, L: Layout, bh: seq<nat>, x: int,
                      nodes': seq<Node>, colors': seq<Color>, root': int, L': Layout, bh': seq<nat>)
    requires Case4Right(nodes, colors, root, L, bh, x, nodes', colors', root', L', bh')
    ensures Sentinel(nodes', colors', bh') && root' != NIL && IsBlack(colors', root')
  {
    RightFamily(nodes, colors, root, L, bh, x);
    Case4RightFamily(nodes, colors, root, L, bh, x, nodes', colors', root', L', bh');
    var p := nodes[x].parent;
    if p != root {
      RightUpper(nodes, colors, root, L, bh, x);
      var w := nodes[p].left;
      assert root != w && root != nodes[w].left by {
        ParentOf(nodes, root, NULL, L, w);
        ParentOf(nodes, root, NULL, L, nodes[w].left);
      }
    }
  }

  /** Case 4 ends the loop with a red-black tree. */
  lemma Case4RightFix(nodes: seq<Node>, colors: seq<Color>, root: int, L: Layout, bh: seq<nat>, x: int,
                     nodes': seq<Node>, colors': seq<Color>, root': int, L': Layout, bh': seq<nat>)
    requires Case4Right(nodes, colors, root, L, bh, x, nodes', colors', root', L', bh')
    ensures Shape(nodes', root', NULL, L') && RedBlack(nodes', colors', root', L', bh')
    ensures L'.order == L.order && forall i | 0 <= i < |nodes| :: nodes'[i].key == nodes[i].key
  {
    var p := nodes[x].parent;
    RightFamily(nodes, colors, root, L, bh, x);
    RotateRightShape(nodes, root, L, p, nodes', root');
    Case4RightColours(nodes, colors, root, L, bh, x, nodes', colors', root', L', bh');
    Case4RightRoot(nodes, colors, root, L, bh, x, nodes', colors', root', L', bh');
  }

  /** The measure of the loop: x's span grows with every round that does
      not end the loop, and the root's span is the whole tree. */
  lemma SpanBound(nodes: seq<Node>, colors: seq<Color>, root: int, L: Layout, bh: seq<nat>, x: int)
    requires Deficit(nodes, colors, root, L, bh, x)
    ensures 0 <= Span(L, x) <= |L.order|
    ensures x == root ==> Span(L, x) == |L.order|
    ensures x != root ==> Span(L, x) < |L.order|
  {
    if x != NIL {
      NodeAt(nodes, root, NULL, L, x);
    }
    if x != root {
      var p := nodes[x].parent;
      NodeAt(nodes, root, NULL, L, p);
      if x != NIL {
        ParentOf(nodes, root, NULL, L, x);
      }
    }
  }
}
