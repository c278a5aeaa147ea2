/** fixInsert: the loop that restores the red-black invariants after a red
    node z was attached, as value-level steps. Between steps the tree has
    uniform black-heights and no red node with a red child, except that the
    red node z may have a red parent. */
module InsertFix {
  import opened Arena
  import opened Rotation

  /** The loop invariant of fixInsert. */
  ghost predicate FixInsInv(nodes: seq<Node>, colors: seq<Color>, root: int, L: Layout, bh: seq<nat>, z: int) {
    Shape(nodes, root, NULL, L) && Sentinel(nodes, colors, bh) &&
    root != NIL && IsBlack(colors, root) &&
    Live(nodes, L, z) && z != root && colors[z] == Red &&
    ColoursExcept(nodes, colors, L, bh, NULL, NULL, z)
  }

  /** When z is the root or has a black parent, the red rule holds
      everywhere. */
  lemma DropExcuse(nodes: seq<Node>, colors: seq<Color>, root: int, L: Layout, bh: seq<nat>, z: int)
    requires Shape(nodes, root, NULL, L) && Live(nodes, L, z)
    requires ColoursExcept(nodes, colors, L, bh, NULL, NULL, z)
    requires z == root || IsBlack(colors, nodes[z].parent)
    ensures ColoursExcept(nodes, colors, L, bh, NULL, NULL, NULL)
  {
    NodeAt(nodes, root, NULL, L, z);
    forall q | 0 <= q < |L.order| ensures RedOk(nodes, colors, L.order[q], NULL) {
      var v := L.order[q];
      assert Placed(nodes, root, NULL, L, q);
      assert RedOk(nodes, colors, v, z);
      if v != nodes[z].parent {
        assert nodes[v].left != z && nodes[v].right != z;
      }
    }
  }

  /** Painting the root black after the loop: a red root with possibly a
      red child becomes a red-black tree (black-heights stay, since nothing
      lies above the root). */
  lemma PaintRoot(nodes: seq<Node>, colors: seq<Color>, root: int, L: Layout, bh: seq<nat>)
    requires Shape(nodes, root, NULL, L) && Live(nodes, L, root) && Sentinel(nodes, colors, bh)
    requires ColoursExcept(nodes, colors, L, bh, NULL, NULL, root)
    ensures RedBlack(nodes, colors[root := Black], root, L, bh)
  {
    var colors' := colors[root := Black];
    forall q | 0 <= q < |L.order|
      ensures BlackOk(nodes, colors', bh, L.order[q]) && RedOk(nodes, colors', L.order[q], NULL)
    {
      var v := L.order[q];
      assert Placed(nodes, root, NULL, L, q);
      var n := nodes[v];
      assert BlackOk(nodes, colors, bh, v) && RedOk(nodes, colors, v, root);
      assert n.left != root && n.right != root by {
        if n.left != NIL { NodeAt(nodes, root, NULL, L, n.left); }
        if n.right != NIL { NodeAt(nodes, root, NULL, L, n.right); }
      }
    }
  }

  /** When fixInsert's loop stops, z is the root or has a black parent;
      painting the root black then restores every invariant, and since the
      loop kept the in-order sequence and every key, the key sequence is the
      one it started from. */
  lemma FixInsDone(nodes: seq<Node>, colors: seq<Color>, root: int, L: Layout, bh: seq<nat>, z: int,
                   nodes0: seq<Node>, L0: Layout, colors': seq<Color>)
    requires Shape(nodes, root, NULL, L) && Sentinel(nodes, colors, bh) && Live(nodes, L, z)
    requires ColoursExcept(nodes, colors, L, bh, NULL, NULL, z)
    requires z == root || !IsRed(colors, nodes[z].parent)
    requires colors' == colors[root := Black]
    requires L.order == L0.order && |nodes| == |nodes0| && Sorted(nodes0, L0)
    requires forall i | 0 <= i < |nodes0| :: nodes[i].key == nodes0[i].key
    ensures RedBlack(nodes, colors', root, L, bh)
    ensures Keys(nodes, L) == Keys(nodes0, L0) && Sorted(nodes, L)
  {
    if z != root {
      ParentOf(nodes, root, NULL, L, z);
      DropExcuse(nodes, colors, root, L, bh, z);
    }
    PaintRoot(nodes, colors, root, L, bh);
    KeysFrame(nodes0, L0, nodes, L);
  }

  /** The uncle of z: the other child of z's grandparent g. */
  function Uncle(nodes: seq<Node>, g: int, zp: int): int
    requires 0 <= g < |nodes|
  {
    if zp == nodes[g].right then nodes[g].left else nodes[g].right
  }

  /** When z's parent is red it is not the root, so z has a black
      grandparent. */
  lemma FamilyLine(nodes: seq<Node>, colors: seq<Color>, root: int, L: Layout, bh: seq<nat>, z: int)
    requires FixInsInv(nodes, colors, root, L, bh, z)
    requires IsRed(colors, nodes[z].parent)
    ensures NodeOk(nodes, root, NULL, L, z) && RedOk(nodes, colors, z, z) && BlackOk(nodes, colors, bh, z)
    ensures var zp := nodes[z].parent;
      Live(nodes, L, zp) && zp != root && NodeOk(nodes, root, NULL, L, zp) && BlackOk(nodes, colors, bh, zp) &&
      var g := nodes[zp].parent;
      Live(nodes, L, g) && NodeOk(nodes, root, NULL, L, g) && colors[g] == Black && BlackOk(nodes, colors, bh, g) &&
      g != z && (nodes[g].left == zp || nodes[g].right == zp)
  {
    var zp := nodes[z].parent;
    ParentOf(nodes, root, NULL, L, z);
    ParentOf(nodes, root, NULL, L, zp);
    var g := nodes[zp].parent;
    assert RedOk(nodes, colors, g, z) && BlackOk(nodes, colors, bh, g) by {
      assert L.order[L.pos[g]] == g;
    }
    assert RedOk(nodes, colors, z, z) && BlackOk(nodes, colors, bh, z) by {
      assert L.order[L.pos[z]] == z;
    }
    assert BlackOk(nodes, colors, bh, zp) by {
      assert L.order[L.pos[zp]] == zp;
    }
  }

  /** z's uncle is the grandparent's other child. */
  lemma FamilyUncle(nodes: seq<Node>, colors: seq<Color>, root: int, L: Layout, bh: seq<nat>, z: int)
    requires FixInsInv(nodes, colors, root, L, bh, z)
    requires IsRed(colors, nodes[z].parent)
    ensures var zp := nodes[z].parent;
      0 <= zp < |nodes| && 0 <= nodes[zp].parent < |nodes| &&
      var g := nodes[zp].parent;
      var u := Uncle(nodes, g, zp);
      0 <= u < |nodes| && u != zp && u != g && u != z &&
      (u != NIL ==> Live(nodes, L, u) && nodes[u].parent == g && NodeOk(nodes, root, NULL, L, u) &&
                    BlackOk(nodes, colors, bh, u))
  {
    FamilyLine(nodes, colors, root, L, bh, z);
    var zp := nodes[z].parent;
    var g := nodes[zp].parent;
    var u := Uncle(nodes, g, zp);
    if u != NIL {
      NodeAt(nodes, root, NULL, L, u);
      assert L.order[L.pos[u]] == u;
    }
  }

  /** The family of z in the fixInsert loop: parent, grandparent and uncle. */
  lemma Family(nodes: seq<Node>, colors: seq<Color>, root: int, L: Layout, bh: seq<nat>, z: int)
    requires FixInsInv(nodes, colors, root, L, bh, z)
    requires IsRed(colors, nodes[z].parent)
    ensures NodeOk(nodes, root, NULL, L, z) && RedOk(nodes, colors, z, z)
    ensures var zp := nodes[z].parent;
      Live(nodes, L, zp) && zp != root && NodeOk(nodes, root, NULL, L, zp) &&
      var g := nodes[zp].parent;
      Live(nodes, L, g) && NodeOk(nodes, root, NULL, L, g) && colors[g] == Black &&
      g != z && (nodes[g].left == zp || nodes[g].right == zp) &&
      var u := Uncle(nodes, g, zp);
      0 <= u < |nodes| && u != zp && u != g && u != z &&
      (u != NIL ==> Live(nodes, L, u) && nodes[u].parent == g && NodeOk(nodes, root, NULL, L, u)) &&
      BlackOk(nodes, colors, bh, g) && BlackOk(nodes, colors, bh, zp) && BlackOk(nodes, colors, bh, z) &&
      (u != NIL ==> BlackOk(nodes, colors, bh, u))
  {
    FamilyLine(nodes, colors, root, L, bh, z);
    FamilyUncle(nodes, colors, root, L, bh, z);
  }

  /** The situation of case 1 of fixInsert: z's parent and uncle are red. */
  ghost predicate RedUncle(nodes: seq<Node>, colors: seq<Color>, root: int, L: Layout, bh: seq<nat>, z: int) {
    FixInsInv(nodes, colors, root, L, bh, z) && IsRed(colors, nodes[z].parent) &&
    var zp := nodes[z].parent;
    0 <= zp < |nodes| && 0 <= nodes[zp].parent < |nodes| &&
    IsRed(colors, Uncle(nodes, nodes[zp].parent, zp))
  }

  /** The colours and black-heights after case 1. */
  ghost function RecolourColors(nodes: seq<Node>, colors: seq<Color>, z: int): seq<Color>
    requires 0 <= z < |nodes| && 0 <= nodes[z].parent < |nodes| && 0 <= nodes[nodes[z].parent].parent < |nodes|
  {
    var zp := nodes[z].parent; var g := nodes[zp].parent; var u := Uncle(nodes, g, zp);
    if 0 <= u < |colors| && 0 <= zp < |colors| && 0 <= g < |colors| then colors[u := Black][zp := Black][g := Red] else colors
  }

  ghost function RecolourBh(nodes: seq<Node>, bh: seq<nat>, z: int): seq<nat>
    requires 0 <= z < |nodes| && 0 <= nodes[z].parent < |nodes| && 0 <= nodes[nodes[z].parent].parent < |nodes|
  {
    var g := nodes[nodes[z].parent].parent;
    if g < |bh| then bh[g := bh[g] + 1] else bh
  }

  lemma RecolourAtG(nodes: seq<Node>, colors: seq<Color>, root: int, L: Layout, bh: seq<nat>, z: int)
    requires RedUncle(nodes, colors, root, L, bh, z)
    ensures var g := nodes[nodes[z].parent].parent;
      BlackOk(nodes, RecolourColors(nodes, colors, z), RecolourBh(nodes, bh, z), g) &&
      RedOk(nodes, RecolourColors(nodes, colors, z), g, g)
  {
    Family(nodes, colors, root, L, bh, z);
  }

  lemma RecolourAtParent(nodes: seq<Node>, colors: seq<Color>, root: int, L: Layout, bh: seq<nat>, z: int)
    requires RedUncle(nodes, colors, root, L, bh, z)
    ensures var zp := nodes[z].parent; var g := nodes[zp].parent;
      BlackOk(nodes, RecolourColors(nodes, colors, z), RecolourBh(nodes, bh, z), zp) &&
      RedOk(nodes, RecolourColors(nodes, colors, z), zp, g)
  {
    var zp := nodes[z].parent; var g := nodes[zp].parent; var u := Uncle(nodes, g, zp);
    assert 0 <= u < |nodes| && u != zp && u != g && zp != g && BlackOk(nodes, colors, bh, zp) &&
      nodes[zp].left != u && nodes[zp].left != g && nodes[zp].left != zp &&
      nodes[zp].right != u && nodes[zp].right != g && nodes[zp].right != zp by {
      Family(nodes, colors, root, L, bh, z);
      var n := nodes[zp];
      if n.left != NIL { NodeAt(nodes, root, NULL, L, n.left); }
      if n.right != NIL { NodeAt(nodes, root, NULL, L, n.right); }
    }
    RecolourParentLocal(nodes, colors, bh, z);
  }

  /** Case 1 at z's parent, from the facts about it alone: it turns black
      and keeps its children and black-height. */
  lemma RecolourParentLocal(nodes: seq<Node>, colors: seq<Color>, bh: seq<nat>, z: int)
    requires |colors| == |nodes| && |bh| == |nodes| && 0 <= z < |nodes|
    requires
      var zp := nodes[z].parent;
      0 <= zp < |nodes| && 0 <= nodes[zp].parent < |nodes| &&
      var g := nodes[zp].parent; var u := Uncle(nodes, g, zp);
      0 <= u < |nodes| && u != zp && u != g && zp != g &&
      BlackOk(nodes, colors, bh, zp) &&
      nodes[zp].left != u && nodes[zp].left != g && nodes[zp].left != zp &&
      nodes[zp].right != u && nodes[zp].right != g && nodes[zp].right != zp
    ensures var zp := nodes[z].parent; var g := nodes[zp].parent;
      BlackOk(nodes, RecolourColors(nodes, colors, z), RecolourBh(nodes, bh, z), zp) &&
      RedOk(nodes, RecolourColors(nodes, colors, z), zp, g)
  {
  }

  /** Case 1 seen from one node v other than g, z's parent and z's uncle:
      what v's colour rules depend on is unchanged, except that g's weight
      stays the same while g turns red. */
  lemma RecolourLocal(nodes: seq<Node>, colors: seq<Color>, bh: seq<nat>, z: int, v: int)
    requires |colors| == |nodes| && |bh| == |nodes| && 0 <= v < |nodes| && 0 <= z < |nodes|
    requires
      var zp := nodes[z].parent;
      0 <= zp < |nodes| && 0 <= nodes[zp].parent < |nodes| &&
      var g := nodes[zp].parent; var u := Uncle(nodes, g, zp);
      0 <= u < |nodes| && colors[g] == Black &&
      v != g && v != zp && v != u &&
      BlackOk(nodes, colors, bh, v) && RedOk(nodes, colors, v, z) &&
      nodes[v].left != zp && nodes[v].left != u && nodes[v].left != z &&
      nodes[v].right != zp && nodes[v].right != u && nodes[v].right != z
    ensures var g := nodes[nodes[z].parent].parent;
      BlackOk(nodes, RecolourColors(nodes, colors, z), RecolourBh(nodes, bh, z), v) &&
      RedOk(nodes, RecolourColors(nodes, colors, z), v, g)
  {
  }

  lemma RecolourAtUncle(nodes: seq<Node>, colors: seq<Color>, root: int, L: Layout, bh: seq<nat>, z: int)
    requires RedUncle(nodes, colors, root, L, bh, z)
    ensures var zp := nodes[z].parent; var g := nodes[zp].parent; var u := Uncle(nodes, g, zp);
      BlackOk(nodes, RecolourColors(nodes, colors, z), RecolourBh(nodes, bh, z), u) &&
      RedOk(nodes, RecolourColors(nodes, colors, z), u, g)
  {
    var zp := nodes[z].parent; var g := nodes[zp].parent; var u := Uncle(nodes, g, zp);
    assert 0 <= u < |nodes| && u != zp && u != g && u != z && BlackOk(nodes, colors, bh, u) &&
      nodes[u].left != zp && nodes[u].left != z && nodes[u].left != g && nodes[u].left != u &&
      nodes[u].right != zp && nodes[u].right != z && nodes[u].right != g && nodes[u].right != u by {
      Family(nodes, colors, root, L, bh, z);
      var n := nodes[u];
      if n.left != NIL { NodeAt(nodes, root, NULL, L, n.left); }
      if n.right != NIL { NodeAt(nodes, root, NULL, L, n.right); }
    }
    RecolourUncleLocal(nodes, colors, bh, z);
  }

  /** Case 1 at the uncle u, from the facts about u alone: u turns black
      and keeps its children and black-height. */
  lemma RecolourUncleLocal(nodes: seq<Node>, colors: seq<Color>, bh: seq<nat>, z: int)
    requires |colors| == |nodes| && |bh| == |nodes| && 0 <= z < |nodes|
    requires
      var zp := nodes[z].parent;
      0 <= zp < |nodes| && 0 <= nodes[zp].parent < |nodes| &&
      var g := nodes[zp].parent; var u := Uncle(nodes, g, zp);
      0 <= u < |nodes| && u != zp && u != g &&
      BlackOk(nodes, colors, bh, u) &&
      nodes[u].left != zp && nodes[u].left != g && nodes[u].left != u &&
      nodes[u].right != zp && nodes[u].right != g && nodes[u].right != u
    ensures var zp := nodes[z].parent; var g := nodes[zp].parent; var u := Uncle(nodes, g, zp);
      BlackOk(nodes, RecolourColors(nodes, colors, z), RecolourBh(nodes, bh, z), u) &&
      RedOk(nodes, RecolourColors(nodes, colors, z), u, g)
  {
  }

  lemma RecolourAtOther(nodes: seq<Node>, colors: seq<Color>, root: int, L: Layout, bh: seq<nat>, z: int, v: int)
    requires RedUncle(nodes, colors, root, L, bh, z) && Live(nodes, L, v)
    requires var zp := nodes[z].parent; var g := nodes[zp].parent;
      v != g && v != zp && v != Uncle(nodes, g, zp)
    ensures var g := nodes[nodes[z].parent].parent;
      BlackOk(nodes, RecolourColors(nodes, colors, z), RecolourBh(nodes, bh, z), v) &&
      RedOk(nodes, RecolourColors(nodes, colors, z), v, g)
  {
    Family(nodes, colors, root, L, bh, z);
    var zp := nodes[z].parent; var g := nodes[zp].parent; var u := Uncle(nodes, g, zp);
    NodeAt(nodes, root, NULL, L, v);
    assert BlackOk(nodes, colors, bh, v) && RedOk(nodes, colors, v, z) by {
      assert L.order[L.pos[v]] == v;
    }
    var n := nodes[v];
    assert n.left != zp && n.left != u && n.left != z && n.right != zp && n.right != u && n.right != z;
    RecolourLocal(nodes, colors, bh, z, v);
  }

  /** Case 1 of fixInsert (red uncle): painting parent and uncle black and
      the grandparent g red moves the only possible red-red violation up to
      g; g's black-height grows by one. */
  lemma RecolourRules(nodes: seq<Node>, colors: seq<Color>, root: int, L: Layout, bh: seq<nat>, z: int)
    requires RedUncle(nodes, colors, root, L, bh, z)
    ensures var g := nodes[nodes[z].parent].parent;
      ColoursExcept(nodes, RecolourColors(nodes, colors, z), L, RecolourBh(nodes, bh, z), NULL, NULL, g)
  {
    FamilyLine(nodes, colors, root, L, bh, z);
    FamilyUncle(nodes, colors, root, L, bh, z);
    var zp := nodes[z].parent; var g := nodes[zp].parent; var u := Uncle(nodes, g, zp);
    var colors', bh' := RecolourColors(nodes, colors, z), RecolourBh(nodes, bh, z);
    forall q | 0 <= q < |L.order|
      ensures BlackOk(nodes, colors', bh', L.order[q]) && RedOk(nodes, colors', L.order[q], g)
    {
      assert Placed(nodes, root, NULL, L, q);
      var v := L.order[q];
      if v == g {
        RecolourAtG(nodes, colors, root, L, bh, z);
      } else if v == zp {
        RecolourAtParent(nodes, colors, root, L, bh, z);
      } else if v == u {
        RecolourAtUncle(nodes, colors, root, L, bh, z);
      } else {
        RecolourAtOther(nodes, colors, root, L, bh, z, v);
      }
    }
  }

  lemma Recolour(nodes: seq<Node>, colors: seq<Color>, root: int, L: Layout, bh: seq<nat>, z: int)
    requires RedUncle(nodes, colors, root, L, bh, z)
    ensures var zp := nodes[z].parent; var g := nodes[zp].parent; var u := Uncle(nodes, g, zp);
      var colors', bh' := RecolourColors(nodes, colors, z), RecolourBh(nodes, bh, z);
      colors' == colors[u := Black][zp := Black][g := Red] && bh' == bh[g := bh[g] + 1] &&
      Sentinel(nodes, colors', bh') && ColoursExcept(nodes, colors', L, bh', NULL, NULL, g) &&
      Live(nodes, L, g) && (g != root ==> FixInsInv(nodes, colors', root, L, bh', g))
  {
    FamilyLine(nodes, colors, root, L, bh, z);
    FamilyUncle(nodes, colors, root, L, bh, z);
    RecolourRules(nodes, colors, root, L, bh, z);
  }

  /** Cases 2 and 3 of fixInsert, outer form: z is the right child of its
      red parent zp, which is the right child of g, and z's uncle is black. */
  ghost predicate OuterRight(nodes: seq<Node>, colors: seq<Color>, root: int, L: Layout, bh: seq<nat>, z: int) {
    FixInsInv(nodes, colors, root, L, bh, z) && IsRed(colors, nodes[z].parent) &&
    var zp := nodes[z].parent;
    0 <= zp < |nodes| && 0 <= nodes[zp].parent < |nodes| &&
    var g := nodes[zp].parent;
    zp == nodes[g].right && z == nodes[zp].right && !IsRed(colors, nodes[g].left)
  }

  /** The arena after painting zp black, g red and left_rotate(g). */
  ghost predicate OuterRightDone(nodes: seq<Node>, colors: seq<Color>, root: int, L: Layout, bh: seq<nat>, z: int,
                                 nodes': seq<Node>, colors': seq<Color>, root': int, L': Layout) {
    OuterRight(nodes, colors, root, L, bh, z) &&
    var zp := nodes[z].parent; var g := nodes[zp].parent;
    0 <= g < |nodes| && 0 <= nodes[g].right < |nodes| && Sized(nodes, L) &&
    colors' == colors[zp := Black][g := Red] &&
    RotatedLeft(nodes, root, g, nodes', root') && L' == RotLeftLayout(L, nodes, g)
  }

  lemma OuterRightAtG(nodes: seq<Node>, colors: seq<Color>, root: int, L: Layout, bh: seq<nat>, z: int,
                      nodes': seq<Node>, colors': seq<Color>, root': int, L': Layout)
    requires OuterRightDone(nodes, colors, root, L, bh, z, nodes', colors', root', L')
    ensures var g := nodes[nodes[z].parent].parent;
      BlackOk(nodes', colors', bh, g) && RedOk(nodes', colors', g, NULL)
  {
    Family(nodes, colors, root, L, bh, z);
    var zp := nodes[z].parent; var g := nodes[zp].parent;
    var b := nodes[zp].left;
    assert RedOk(nodes, colors, zp, z) by {
      assert L.order[L.pos[zp]] == zp;
    }
    assert b != z;
    if b != NIL { NodeAt(nodes, root, NULL, L, b); }
  }

  lemma OuterRightAtZp(nodes: seq<Node>, colors: seq<Color>, root: int, L: Layout, bh: seq<nat>, z: int,
                       nodes': seq<Node>, colors': seq<Color>, root': int, L': Layout)
    requires OuterRightDone(nodes, colors, root, L, bh, z, nodes', colors', root', L')
    ensures var zp := nodes[z].parent;
      BlackOk(nodes', colors', bh, zp) && RedOk(nodes', colors', zp, NULL)
  {
    Family(nodes, colors, root, L, bh, z);
  }

  lemma OuterRightAtTop(nodes: seq<Node>, colors: seq<Color>, root: int, L: Layout, bh: seq<nat>, z: int,
                        nodes': seq<Node>, colors': seq<Color>, root': int, L': Layout)
    requires OuterRightDone(nodes, colors, root, L, bh, z, nodes', colors', root', L')
    requires nodes[nodes[nodes[z].parent].parent].parent != NULL
    ensures var gg := nodes[nodes[nodes[z].parent].parent].parent;
      BlackOk(nodes', colors', bh, gg) && RedOk(nodes', colors', gg, NULL)
  {
    Family(nodes, colors, root, L, bh, z);
    var zp := nodes[z].parent; var g := nodes[zp].parent;
    ParentOf(nodes, root, NULL, L, g);
    var gg := nodes[g].parent;
    assert BlackOk(nodes, colors, bh, gg) && RedOk(nodes, colors, gg, z) by {
      assert L.order[L.pos[gg]] == gg;
    }
    var n := nodes[gg];
    assert n.left != z && n.right != z && n.left != zp && n.right != zp;
    if n.left != NIL && n.left != g { NodeAt(nodes, root, NULL, L, n.left); }
    if n.right != NIL && n.right != g { NodeAt(nodes, root, NULL, L, n.right); }
  }

  lemma OuterRightAtOther(nodes: seq<Node>, colors: seq<Color>, root: int, L: Layout, bh: seq<nat>, z: int,
                          nodes': seq<Node>, colors': seq<Color>, root': int, L': Layout, v: int)
    requires OuterRightDone(nodes, colors, root, L, bh, z, nodes', colors', root', L')
    requires Live(nodes, L, v)
    requires var zp := nodes[z].parent; var g := nodes[zp].parent;
      v != zp && v != g && v != nodes[g].parent
    ensures BlackOk(nodes', colors', bh, v) && RedOk(nodes', colors', v, NULL)
  {
    Family(nodes, colors, root, L, bh, z);
    var zp := nodes[z].parent; var g := nodes[zp].parent;
    NodeAt(nodes, root, NULL, L, v);
    assert BlackOk(nodes, colors, bh, v) && RedOk(nodes, colors, v, z) by {
      assert L.order[L.pos[v]] == v;
    }
    var n := nodes[v];
    assert nodes'[v].left == n.left && nodes'[v].right == n.right;
    assert n.left != z && n.right != z && n.left != zp && n.right != zp && n.left != g && n.right != g by {
      if n.left != NIL { NodeAt(nodes, root, NULL, L, n.left); }
      if n.right != NIL { NodeAt(nodes, root, NULL, L, n.right); }
    }
    ColourFrame(nodes, colors, bh, nodes', colors', bh, v, z, NULL);
  }

  /** Cases 2 and 3, outer form: after painting zp black and g red and
      rotating g left, the tree is a red-black tree again; black-heights do
      not change, and z's new parent is black, which ends the loop. */
  lemma OuterRightColours(nodes: seq<Node>, colors: seq<Color>, root: int, L: Layout, bh: seq<nat>, z: int,
                          nodes': seq<Node>, colors': seq<Color>, root': int, L': Layout)
    requires OuterRightDone(nodes, colors, root, L, bh, z, nodes', colors', root', L')
    ensures ColoursExcept(nodes', colors', L', bh, NULL, NULL, NULL)
  {
    var zp := nodes[z].parent; var g := nodes[zp].parent; var gg := nodes[g].parent;
    forall q | 0 <= q < |L'.order|
      ensures BlackOk(nodes', colors', bh, L'.order[q]) && RedOk(nodes', colors', L'.order[q], NULL)
    {
      assert Placed(nodes, root, NULL, L, q);
      var v := L.order[q];
      if v == g {
        OuterRightAtG(nodes, colors, root, L, bh, z, nodes', colors', root', L');
      } else if v == zp {
        OuterRightAtZp(nodes, colors, root, L, bh, z, nodes', colors', root', L');
      } else if v == gg {
        OuterRightAtTop(nodes, colors, root, L, bh, z, nodes', colors', root', L');
      } else {
        OuterRightAtOther(nodes, colors, root, L, bh, z, nodes', colors', root', L', v);
      }
    }
  }

  lemma OuterRightFix(nodes: seq<Node>, colors: seq<Color>, root: int, L: Layout, bh: seq<nat>, z: int,
                      nodes': seq<Node>, colors': seq<Color>, root': int, L': Layout)
    requires OuterRightDone(nodes, colors, root, L, bh, z, nodes', colors', root', L')
    ensures RedBlack(nodes', colors', root', L', bh)
    ensures FixInsInv(nodes', colors', root', L', bh, z)
    ensures nodes'[z].parent == nodes[z].parent && IsBlack(colors', nodes'[z].parent)
  {
    Family(nodes, colors, root, L, bh, z);
    var zp := nodes[z].parent; var g := nodes[zp].parent; var gg := nodes[g].parent;
    RotateLeftShape(nodes, root, L, g, nodes', root');
    OuterRightColours(nodes, colors, root, L, bh, z, nodes', colors', root', L');
    if gg != NULL {
      assert root' == root && root != g && root != zp;
    }
    ExcuseRed(nodes', colors', root', L', bh, z);
  }

  /** Case 2 of fixInsert, inner form: z is the left child of its red parent
      zp, which is the right child of g, and z's uncle is black. */
  ghost predicate InnerRight(nodes: seq<Node>, colors: seq<Color>, root: int, L: Layout, bh: seq<nat>, z: int) {
    FixInsInv(nodes, colors, root, L, bh, z) && IsRed(colors, nodes[z].parent) &&
    var zp := nodes[z].parent;
    0 <= zp < |nodes| && 0 <= nodes[zp].parent < |nodes| &&
    var g := nodes[zp].parent;
    zp == nodes[g].right && z == nodes[zp].left && !IsRed(colors, nodes[g].left)
  }

  /** The arena after right_rotate(zp). */
  ghost predicate InnerRightDone(nodes: seq<Node>, colors: seq<Color>, root: int, L: Layout, bh: seq<nat>, z: int,
                                 nodes': seq<Node>, root': int, L': Layout) {
    InnerRight(nodes, colors, root, L, bh, z) &&
    var zp := nodes[z].parent;
    0 <= zp < |nodes| && 0 <= nodes[zp].left < |nodes| && Sized(nodes, L) &&
    RotatedRight(nodes, root, zp, nodes', root') && L' == RotRightLayout(L, nodes, zp)
  }

  lemma InnerRightAtZp(nodes: seq<Node>, colors: seq<Color>, root: int, L: Layout, bh: seq<nat>, z: int,
                       nodes': seq<Node>, root': int, L': Layout)
    requires InnerRightDone(nodes, colors, root, L, bh, z, nodes', root', L')
    ensures var zp := nodes[z].parent;
      BlackOk(nodes', colors, bh, zp) && RedOk(nodes', colors, zp, zp)
  {
    Family(nodes, colors, root, L, bh, z);
    var zp := nodes[z].parent;
    assert RedOk(nodes, colors, zp, z) by {
      assert L.order[L.pos[zp]] == zp;
    }
    var c := nodes[z].right;
    if c != NIL { NodeAt(nodes, root, NULL, L, c); }
    var d := nodes[zp].right;
    if d != NIL { NodeAt(nodes, root, NULL, L, d); }
  }

  lemma InnerRightAtZ(nodes: seq<Node>, colors: seq<Color>, root: int, L: Layout, bh: seq<nat>, z: int,
                      nodes': seq<Node>, root': int, L': Layout)
    requires InnerRightDone(nodes, colors, root, L, bh, z, nodes', root', L')
    ensures var zp := nodes[z].parent;
      BlackOk(nodes', colors, bh, z) && RedOk(nodes', colors, z, zp)
  {
    Family(nodes, colors, root, L, bh, z);
    var a := nodes[z].left;
    if a != NIL { NodeAt(nodes, root, NULL, L, a); }
  }

  lemma InnerRightAtG(nodes: seq<Node>, colors: seq<Color>, root: int, L: Layout, bh: seq<nat>, z: int,
                      nodes': seq<Node>, root': int, L': Layout)
    requires InnerRightDone(nodes, colors, root, L, bh, z, nodes', root', L')
    ensures var zp := nodes[z].parent; var g := nodes[zp].parent;
      BlackOk(nodes', colors, bh, g) && RedOk(nodes', colors, g, zp)
  {
    Family(nodes, colors, root, L, bh, z);
  }

  lemma InnerRightAtOther(nodes: seq<Node>, colors: seq<Color>, root: int, L: Layout, bh: seq<nat>, z: int,
                          nodes': seq<Node>, root': int, L': Layout, v: int)
    requires InnerRightDone(nodes, colors, root, L, bh, z, nodes', root', L')
    requires Live(nodes, L, v)
    requires var zp := nodes[z].parent; v != z && v != zp && v != nodes[zp].parent
    ensures BlackOk(nodes', colors, bh, v) && RedOk(nodes', colors, v, nodes[z].parent)
  {
    Family(nodes, colors, root, L, bh, z);
    var zp := nodes[z].parent;
    NodeAt(nodes, root, NULL, L, v);
    assert BlackOk(nodes, colors, bh, v) && RedOk(nodes, colors, v, z) by {
      assert L.order[L.pos[v]] == v;
    }
    var n := nodes[v];
    assert nodes'[v].left == n.left && nodes'[v].right == n.right;
    assert n.left != z && n.right != z by {
      if n.left != NIL { NodeAt(nodes, root, NULL, L, n.left); }
      if n.right != NIL { NodeAt(nodes, root, NULL, L, n.right); }
    }
    ColourFrame(nodes, colors, bh, nodes', colors, bh, v, z, zp);
  }

  /** Case 2 of fixInsert: rotating zp right turns the inner form into the
      outer form with z's old parent as the new z; no colour and no
      black-height changes. */
  lemma InnerRightFix(nodes: seq<Node>, colors: seq<Color>, root: int, L: Layout, bh: seq<nat>, z: int,
                      nodes': seq<Node>, root': int, L': Layout)
    requires InnerRightDone(nodes, colors, root, L, bh, z, nodes', root', L')
    ensures OuterRight(nodes', colors, root', L', bh, nodes[z].parent)
  {
    Family(nodes, colors, root, L, bh, z);
    var zp := nodes[z].parent; var g := nodes[zp].parent;
    RotateRightShape(nodes, root, L, zp, nodes', root');
    forall q | 0 <= q < |L'.order|
      ensures BlackOk(nodes', colors, bh, L'.order[q]) && RedOk(nodes', colors, L'.order[q], zp)
    {
      assert Placed(nodes, root, NULL, L, q);
      var v := L.order[q];
      if v == zp {
        InnerRightAtZp(nodes, colors, root, L, bh, z, nodes', root', L');
      } else if v == z {
        InnerRightAtZ(nodes, colors, root, L, bh, z, nodes', root', L');
      } else if v == g {
        InnerRightAtG(nodes, colors, root, L, bh, z, nodes', root', L');
      } else {
        InnerRightAtOther(nodes, colors, root, L, bh, z, nodes', root', L', v);
      }
    }
    assert root' == root;
  }

  // The mirror images: z's parent is the left child of g.

  /** Cases 2 and 3 of fixInsert, outer form: z is the left child of its
      red parent zp, which is the left child of g, and z's uncle is black. */
  ghost predicate OuterLeft(nodes: seq<Node>, colors: seq<Color>, root: int, L: Layout, bh: seq<nat>, z: int) {
    FixInsInv(nodes, colors, root, L, bh, z) && IsRed(colors, nodes[z].parent) &&
    var zp := nodes[z].parent;
    0 <= zp < |nodes| && 0 <= nodes[zp].parent < |nodes| &&
    var g := nodes[zp].parent;
    zp == nodes[g].left && z == nodes[zp].left && !IsRed(colors, nodes[g].right)
  }

  /** The arena after painting zp black, g red and right_rotate(g). */
  ghost predicate OuterLeftDone(nodes: seq<Node>, colors: seq<Color>, root: int, L: Layout, bh: seq<nat>, z: int,
                                 nodes': seq<Node>, colors': seq<Color>, root': int, L': Layout) {
    OuterLeft(nodes, colors, root, L, bh, z) &&
    var zp := nodes[z].parent; var g := nodes[zp].parent;
    0 <= g < |nodes| && 0 <= nodes[g].left < |nodes| && Sized(nodes, L) &&
    colors' == colors[zp := Black][g := Red] &&
    RotatedRight(nodes, root, g, nodes', root') && L' == RotRightLayout(L, nodes, g)
  }

  lemma OuterLeftAtG(nodes: seq<Node>, colors: seq<Color>, root: int, L: Layout, bh: seq<nat>, z: int,
                      nodes': seq<Node>, colors': seq<Color>, root': int, L': Layout)
    requires OuterLeftDone(nodes, colors, root, L, bh, z, nodes', colors', root', L')
    ensures var g := nodes[nodes[z].parent].parent;
      BlackOk(nodes', colors', bh, g) && RedOk(nodes', colors', g, NULL)
  {
    Family(nodes, colors, root, L, bh, z);
    var zp := nodes[z].parent; var g := nodes[zp].parent;
    var b := nodes[zp].right;
    assert RedOk(nodes, colors, zp, z) by {
      assert L.order[L.pos[zp]] == zp;
    }
    assert b != z;
    if b != NIL { NodeAt(nodes, root, NULL, L, b); }
  }

  lemma OuterLeftAtZp(nodes: seq<Node>, colors: seq<Color>, root: int, L: Layout, bh: seq<nat>, z: int,
                       nodes': seq<Node>, colors': seq<Color>, root': int, L': Layout)
    requires OuterLeftDone(nodes, colors, root, L, bh, z, nodes', colors', root', L')
    ensures var zp := nodes[z].parent;
      BlackOk(nodes', colors', bh, zp) && RedOk(nodes', colors', zp, NULL)
  {
    Family(nodes, colors, root, L, bh, z);
  }

  lemma OuterLeftAtTop(nodes: seq<Node>, colors: seq<Color>, root: int, L: Layout, bh: seq<nat>, z: int,
                        nodes': seq<Node>, colors': seq<Color>, root': int, L': Layout)
    requires OuterLeftDone(nodes, colors, root, L, bh, z, nodes', colors', root', L')
    requires nodes[nodes[nodes[z].parent].parent].parent != NULL
    ensures var gg := nodes[nodes[nodes[z].parent].parent].parent;
      BlackOk(nodes', colors', bh, gg) && RedOk(nodes', colors', gg, NULL)
  {
    Family(nodes, colors, root, L, bh, z);
    var zp := nodes[z].parent; var g := nodes[zp].parent;
    ParentOf(nodes, root, NULL, L, g);
    var gg := nodes[g].parent;
    assert BlackOk(nodes, colors, bh, gg) && RedOk(nodes, colors, gg, z) by {
      assert L.order[L.pos[gg]] == gg;
    }
    var n := nodes[gg];
    assert n.right != z && n.left != z && n.right != zp && n.left != zp;
    if n.right != NIL && n.right != g { NodeAt(nodes, root, NULL, L, n.right); }
    if n.left != NIL && n.left != g { NodeAt(nodes, root, NULL, L, n.left); }
  }

  lemma OuterLeftAtOther(nodes: seq<Node>, colors: seq<Color>, root: int, L: Layout, bh: seq<nat>, z: int,
                          nodes': seq<Node>, colors': seq<Color>, root': int, L': Layout, v: int)
    requires OuterLeftDone(nodes, colors, root, L, bh, z, nodes', colors', root', L')
    requires Live(nodes, L, v)
    requires var zp := nodes[z].parent; var g := nodes[zp].parent;
      v != zp && v != g && v != nodes[g].parent
    ensures BlackOk(nodes', colors', bh, v) && RedOk(nodes', colors', v, NULL)
  {
    Family(nodes, colors, root, L, bh, z);
    var zp := nodes[z].parent; var g := nodes[zp].parent;
    NodeAt(nodes, root, NULL, L, v);
    assert BlackOk(nodes, colors, bh, v) && RedOk(nodes, colors, v, z) by {
      assert L.order[L.pos[v]] == v;
    }
    var n := nodes[v];
    assert nodes'[v].right == n.right && nodes'[v].left == n.left;
    assert n.right != z && n.left != z && n.right != zp && n.left != zp && n.right != g && n.left != g by {
      if n.right != NIL { NodeAt(nodes, root, NULL, L, n.right); }
      if n.left != NIL { NodeAt(nodes, root, NULL, L, n.left); }
    }
    ColourFrame(nodes, colors, bh, nodes', colors', bh, v, z, NULL);
  }

  /** Cases 2 and 3, outer form: after painting zp black and g red and
      rotating g right, the tree is a red-black tree again; black-heights do
      not change, and z's new parent is black, which ends the loop. */
  lemma OuterLeftColours(nodes: seq<Node>, colors: seq<Color>, root: int, L: Layout, bh: seq<nat>, z: int,
                          nodes': seq<Node>, colors': seq<Color>, root': int, L': Layout)
    requires OuterLeftDone(nodes, colors, root, L, bh, z, nodes', colors', root', L')
    ensures ColoursExcept(nodes', colors', L', bh, NULL, NULL, NULL)
  {
    var zp := nodes[z].parent; var g := nodes[zp].parent; var gg := nodes[g].parent;
    forall q | 0 <= q < |L'.order|
      ensures BlackOk(nodes', colors', bh, L'.order[q]) && RedOk(nodes', colors', L'.order[q], NULL)
    {
      assert Placed(nodes, root, NULL, L, q);
      var v := L.order[q];
      if v == g {
        OuterLeftAtG(nodes, colors, root, L, bh, z, nodes', colors', root', L');
      } else if v == zp {
        OuterLeftAtZp(nodes, colors, root, L, bh, z, nodes', colors', root', L');
      } else if v == gg {
        OuterLeftAtTop(nodes, colors, root, L, bh, z, nodes', colors', root', L');
      } else {
        OuterLeftAtOther(nodes, colors, root, L, bh, z, nodes', colors', root', L', v);
      }
    }
  }

  lemma OuterLeftFix(nodes: seq<Node>, colors: seq<Color>, root: int, L: Layout, bh: seq<nat>, z: int,
                      nodes': seq<Node>, colors': seq<Color>, root': int, L': Layout)
    requires OuterLeftDone(nodes, colors, root, L, bh, z, nodes', colors', root', L')
    ensures RedBlack(nodes', colors', root', L', bh)
    ensures FixInsInv(nodes', colors', root', L', bh, z)
    ensures nodes'[z].parent == nodes[z].parent && IsBlack(colors', nodes'[z].parent)
  {
    Family(nodes, colors, root, L, bh, z);
    var zp := nodes[z].parent; var g := nodes[zp].parent; var gg := nodes[g].parent;
    RotateRightShape(nodes, root, L, g, nodes', root');
    OuterLeftColours(nodes, colors, root, L, bh, z, nodes', colors', root', L');
    if gg != NULL {
      assert root' == root && root != g && root != zp;
    }
    ExcuseRed(nodes', colors', root', L', bh, z);
  }

  /** Case 2 of fixInsert, inner form: z is the right child of its red parent
      zp, which is the left child of g, and z's uncle is black. */
  ghost predicate InnerLeft(nodes: seq<Node>, colors: seq<Color>, root: int, L: Layout, bh: seq<nat>, z: int) {
    FixInsInv(nodes, colors, root, L, bh, z) && IsRed(colors, nodes[z].parent) &&
    var zp := nodes[z].parent;
    0 <= zp < |nodes| && 0 <= nodes[zp].parent < |nodes| &&
    var g := nodes[zp].parent;
    zp == nodes[g].left && z == nodes[zp].right && !IsRed(colors, nodes[g].right)
  }

  /** The arena after left_rotate(zp). */
  ghost predicate InnerLeftDone(nodes: seq<Node>, colors: seq<Color>, root: int, L: Layout, bh: seq<nat>, z: int,
                                 nodes': seq<Node>, root': int, L': Layout) {
    InnerLeft(nodes, colors, root, L, bh, z) &&
    var zp := nodes[z].parent;
    0 <= zp < |nodes| && 0 <= nodes[zp].right < |nodes| && Sized(nodes, L) &&
    RotatedLeft(nodes, root, zp, nodes', root') && L' == RotLeftLayout(L, nodes, zp)
  }

  lemma InnerLeftAtZp(nodes: seq<Node>, colors: seq<Color>, root: int, L: Layout, bh: seq<nat>, z: int,
                       nodes': seq<Node>, root': int, L': Layout)
    requires InnerLeftDone(nodes, colors, root, L, bh, z, nodes', root', L')
    ensures var zp := nodes[z].parent;
      BlackOk(nodes', colors, bh, zp) && RedOk(nodes', colors, zp, zp)
  {
    Family(nodes, colors, root, L, bh, z);
    var zp := nodes[z].parent;
    assert RedOk(nodes, colors, zp, z) by {
      assert L.order[L.pos[zp]] == zp;
    }
    var c := nodes[z].left;
    if c != NIL { NodeAt(nodes, root, NULL, L, c); }
    var d := nodes[zp].left;
    if d != NIL { NodeAt(nodes, root, NULL, L, d); }
  }

  lemma InnerLeftAtZ(nodes: seq<Node>, colors: seq<Color>, root: int, L: Layout, bh: seq<nat>, z: int,
                      nodes': seq<Node>, root': int, L': Layout)
    requires InnerLeftDone(nodes, colors, root, L, bh, z, nodes', root', L')
    ensures var zp := nodes[z].parent;
      BlackOk(nodes', colors, bh, z) && RedOk(nodes', colors, z, zp)
  {
    Family(nodes, colors, root, L, bh, z);
    var a := nodes[z].right;
    if a != NIL { NodeAt(nodes, root, NULL, L, a); }
  }

  lemma InnerLeftAtG(nodes: seq<Node>, colors: seq<Color>, root: int, L: Layout, bh: seq<nat>, z: int,
                      nodes': seq<Node>, root': int, L': Layout)
    requires InnerLeftDone(nodes, colors, root, L, bh, z, nodes', root', L')
    ensures var zp := nodes[z].parent; var g := nodes[zp].parent;
      BlackOk(nodes', colors, bh, g) && RedOk(nodes', colors, g, zp)
  {
    Family(nodes, colors, root, L, bh, z);
  }

  lemma InnerLeftAtOther(nodes: seq<Node>, colors: seq<Color>, root: int, L: Layout, bh: seq<nat>, z: int,
                          nodes': seq<Node>, root': int, L': Layout, v: int)
    requires InnerLeftDone(nodes, colors, root, L, bh, z, nodes', root', L')
    requires Live(nodes, L, v)
    requires var zp := nodes[z].parent; v != z && v != zp && v != nodes[zp].parent
    ensures BlackOk(nodes', colors, bh, v) && RedOk(nodes', colors, v, nodes[z].parent)
  {
    Family(nodes, colors, root, L, bh, z);
    var zp := nodes[z].parent;
    NodeAt(nodes, root, NULL, L, v);
    assert BlackOk(nodes, colors, bh, v) && RedOk(nodes, colors, v, z) by {
      assert L.order[L.pos[v]] == v;
    }
    var n := nodes[v];
    assert nodes'[v].right == n.right && nodes'[v].left == n.left;
    assert n.right != z && n.left != z by {
      if n.right != NIL { NodeAt(nodes, root, NULL, L, n.right); }
      if n.left != NIL { NodeAt(nodes, root, NULL, L, n.left); }
    }
    ColourFrame(nodes, colors, bh, nodes', colors, bh, v, z, zp);
  }

  /** Case 2 of fixInsert: rotating zp left turns the inner form into the
      outer form with z's old parent as the new z; no colour and no
      black-height changes. */
  lemma InnerLeftFix(nodes: seq<Node>, colors: seq<Color>, root: int, L: Layout, bh: seq<nat>, z: int,
                      nodes': seq<Node>, root': int, L': Layout)
    requires InnerLeftDone(nodes, colors, root, L, bh, z, nodes', root', L')
    ensures OuterLeft(nodes', colors, root', L', bh, nodes[z].parent)
  {
    Family(nodes, colors, root, L, bh, z);
    var zp := nodes[z].parent; var g := nodes[zp].parent;
    RotateLeftShape(nodes, root, L, zp, nodes', root');
    forall q | 0 <= q < |L'.order|
      ensures BlackOk(nodes', colors, bh, L'.order[q]) && RedOk(nodes', colors, L'.order[q], zp)
    {
      assert Placed(nodes, root, NULL, L, q);
      var v := L.order[q];
      if v == zp {
        InnerLeftAtZp(nodes, colors, root, L, bh, z, nodes', root', L');
      } else if v == z {
        InnerLeftAtZ(nodes, colors, root, L, bh, z, nodes', root', L');
      } else if v == g {
        InnerLeftAtG(nodes, colors, root, L, bh, z, nodes', root', L');
      } else {
        InnerLeftAtOther(nodes, colors, root, L, bh, z, nodes', root', L', v);
      }
    }
    assert root' == root;
  }
}
