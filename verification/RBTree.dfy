/** The red-black tree of inc/rbt.hpp over the node arena: an ordered set of
    int keys with a sentinel nil node (index NIL) and a NULL root parent. */
module RedBlackTree {
  import opened Arena
  import opened Rotation
  import opened Insertion
  import opened InsertFix
  import opened SortedSeq
  import opened DeleteFix
  import opened Deletion

  class RBTree {
    var nodes: seq<Node>
    var colors: seq<Color>
    var root: int
    var size: nat
    ghost var L: Layout
    ghost var bh: seq<nat>

    /** Parent/child consistency, BST order, red-black invariants 1-4 and
        the size counter equal to the number of live nodes. */
    ghost predicate Valid()
      reads this
    {
      Shape(nodes, root, NULL, L) && Sorted(nodes, L) && RedBlack(nodes, colors, root, L, bh) &&
      size == |L.order|
    }

    /** The keys in iteration (in-order) order. */
    ghost function Contents(): seq<int>
      reads this`nodes, this`L
    {
      Keys(nodes, L)
    }

    constructor ()
      ensures Valid() && root == NIL && size == 0 && Contents() == []
    {
      nodes := [Node(0, NULL, NULL, NULL)];
      colors := [Black];
      root := NIL;
      size := 0;
      L := Layout([], [0], [0], [0]);
      bh := [0];
    }

    /** The least key's node, or the root (the sentinel) of an empty tree. */
    method Minimum() returns (r: int)
      requires Valid()
      ensures root == NIL ==> r == NIL
      ensures root != NIL ==> Live(nodes, L, r) && L.pos[r] == 0
      ensures root != NIL ==> forall k | 0 <= k < |Contents()| :: nodes[r].key <= Contents()[k]
    {
      r := root;
      if r == NIL {
        return;
      }
      NodeAt(nodes, root, NULL, L, r);
      while nodes[r].left != NIL
        invariant Live(nodes, L, r) && L.lo[r] == 0 && NodeOk(nodes, root, NULL, L, r)
        decreases L.hi[r] - L.lo[r]
      {
        r := nodes[r].left;
        NodeAt(nodes, root, NULL, L, r);
      }
      FirstIsLeast(nodes, L, 0);
    }

    /** The greatest key's node, or the root (the sentinel) of an empty tree. */
    method Maximum() returns (r: int)
      requires Valid()
      ensures root == NIL ==> r == NIL
      ensures root != NIL ==> Live(nodes, L, r) && L.pos[r] == |L.order| - 1
      ensures root != NIL ==> forall k | 0 <= k < |Contents()| :: Contents()[k] <= nodes[r].key
    {
      r := root;
      if r == NIL {
        return;
      }
      NodeAt(nodes, root, NULL, L, r);
      while nodes[r].right != NIL
        invariant Live(nodes, L, r) && L.hi[r] == |L.order| && NodeOk(nodes, root, NULL, L, r)
        decreases L.hi[r] - L.lo[r]
      {
        r := nodes[r].right;
        NodeAt(nodes, root, NULL, L, r);
      }
      LastIsGreatest(nodes, L, |L.order| - 1);
    }

    /** minimum(node): the leftmost node of x's subtree; for the sentinel,
        the root is returned. */
    method MinimumFrom(x: int) returns (r: int)
      requires Valid() && (x == NIL || Live(nodes, L, x))
      ensures x == NIL ==> r == root
      ensures x != NIL ==> Live(nodes, L, r) && L.pos[r] == L.lo[x] && nodes[r].left == NIL
    {
      if x == NIL {
        return root;
      }
      r := x;
      NodeAt(nodes, root, NULL, L, r);
      while nodes[r].left != NIL
        invariant Live(nodes, L, r) && L.lo[r] == L.lo[x] && NodeOk(nodes, root, NULL, L, r)
        decreases L.hi[r] - L.lo[r]
      {
        r := nodes[r].left;
        NodeAt(nodes, root, NULL, L, r);
      }
    }

    /** maximum(node): the rightmost node of x's subtree; for the sentinel,
        the root is returned. */
    method MaximumFrom(x: int) returns (r: int)
      requires Valid() && (x == NIL || Live(nodes, L, x))
      ensures x == NIL ==> r == root
      ensures x != NIL ==> Live(nodes, L, r) && L.pos[r] == L.hi[x] - 1 && nodes[r].right == NIL
    {
      if x == NIL {
        return root;
      }
      r := x;
      NodeAt(nodes, root, NULL, L, r);
      while nodes[r].right != NIL
        invariant Live(nodes, L, r) && L.hi[r] == L.hi[x] && NodeOk(nodes, root, NULL, L, r)
        decreases L.hi[r] - L.lo[r]
      {
        r := nodes[r].right;
        NodeAt(nodes, root, NULL, L, r);
      }
    }

    /** searchTreeHelper: descends from x by comparing k with each key; the
        node holding k in x's subtree, or the sentinel when none does. */
    function SearchTreeHelper(x: int, k: int): (r: int)
      reads this
      requires Valid() && (x == NIL || Live(nodes, L, x))
      ensures r != NIL ==> x != NIL && Live(nodes, L, r) && nodes[r].key == k && L.lo[x] <= L.pos[r] < L.hi[x]
      ensures r == NIL && x != NIL ==> forall q | L.lo[x] <= q < L.hi[x] :: KeyAt(nodes, L, q) != k
      decreases if x == NIL then 0 else L.hi[x] - L.lo[x]
    {
      if x == NIL then NIL
      else
        NodeAt(nodes, root, NULL, L, x);
        assert KeyAt(nodes, L, L.pos[x]) == nodes[x].key;
        if k == nodes[x].key then x
      else if k < nodes[x].key then SearchTreeHelper(nodes[x].left, k)
      else SearchTreeHelper(nodes[x].right, k)
    }

    /** searchTree: the node holding k, or the sentinel when k is absent. */
    function SearchTree(k: int): (r: int)
      reads this
      requires Valid()
      ensures r != NIL <==> k in Contents()
      ensures r != NIL ==> Live(nodes, L, r) && nodes[r].key == k
    {
      var r := SearchTreeHelper(root, k);
      if r != NIL then
        assert Contents()[L.pos[r]] == k;
        r
      else if root == NIL then
        r
      else
        assert forall q | 0 <= q < |Contents()| :: Contents()[q] != k;
        r
    }

    /** successor: the node after x in the in-order sequence, or NULL when x
        holds the greatest key. */
    method Successor(x: int) returns (y: int)
      requires Valid() && Live(nodes, L, x)
      ensures L.pos[x] + 1 < |L.order| ==> y == L.order[L.pos[x] + 1]
      ensures L.pos[x] + 1 == |L.order| ==> y == NULL
    {
      NodeAt(nodes, root, NULL, L, x);
      if nodes[x].right != NIL {
        y := MinimumFrom(nodes[x].right);
        return;
      }
      var c := x;
      y := nodes[c].parent;
      while y != NULL && c == nodes[y].right
        invariant Live(nodes, L, c) && NodeOk(nodes, root, NULL, L, c)
        invariant L.hi[c] == L.pos[x] + 1 && y == nodes[c].parent
        decreases |L.order| - (L.hi[c] - L.lo[c])
      {
        NodeAt(nodes, root, NULL, L, y);
        c := y;
        y := nodes[y].parent;
      }
      if y != NULL {
        NodeAt(nodes, root, NULL, L, y);
      }
    }

    /** predecessor: the node before x in the in-order sequence, or NULL
        when x holds the least key. */
    method Predecessor(x: int) returns (y: int)
      requires Valid() && Live(nodes, L, x)
      ensures L.pos[x] > 0 ==> y == L.order[L.pos[x] - 1]
      ensures L.pos[x] == 0 ==> y == NULL
    {
      NodeAt(nodes, root, NULL, L, x);
      if nodes[x].left != NIL {
        y := MaximumFrom(nodes[x].left);
        return;
      }
      var c := x;
      y := nodes[c].parent;
      while y != NULL && c == nodes[y].left
        invariant Live(nodes, L, c) && NodeOk(nodes, root, NULL, L, c)
        invariant L.lo[c] == L.pos[x] && y == nodes[c].parent
        decreases |L.order| - (L.hi[c] - L.lo[c])
      {
        NodeAt(nodes, root, NULL, L, y);
        c := y;
        y := nodes[y].parent;
      }
      if y != NULL {
        NodeAt(nodes, root, NULL, L, y);
      }
    }
  
    /** left_rotate: x's right child takes x's place; the in-order sequence,
        the keys, the colours and the black-heights stay as they were. */
    method LeftRotate(x: int)
      requires Shape(nodes, root, NULL, L) && Live(nodes, L, x) && nodes[x].right != NIL
      modifies this
      ensures old(NodeOk(nodes, root, NULL, L, x)) && RotatedLeft(old(nodes), old(root), x, nodes, root)
      ensures L == RotLeftLayout(old(L), old(nodes), x)
      ensures Shape(nodes, root, NULL, L)
      ensures forall i | 0 <= i < |nodes| :: nodes[i].key == old(nodes[i].key)
      ensures size == old(size) && colors == old(colors) && bh == old(bh)
    {
      LeftParts(nodes, root, L, x);
      var y := nodes[x].right;
      var b := nodes[y].left;
      var p := nodes[x].parent;
      ghost var nodes0, root0, L0 := nodes, root, L;
      nodes := nodes[x := nodes[x].(right := b)];
      if b != NIL {
        nodes := nodes[b := nodes[b].(parent := x)];
      }
      nodes := nodes[y := nodes[y].(parent := p)];
      if p == NULL {
        root := y;
      } else if x == nodes[p].left {
        nodes := nodes[p := nodes[p].(left := y)];
      } else {
        nodes := nodes[p := nodes[p].(right := y)];
      }
      nodes := nodes[y := nodes[y].(left := x)];
      nodes := nodes[x := nodes[x].(parent := y)];
      L := RotLeftLayout(L0, nodes0, x);
      LeftRotateStep(nodes0, root0, L0, x, nodes, root);
    }

    /** right_rotate: the mirror image of left_rotate. */
    method RightRotate(x: int)
      requires Shape(nodes, root, NULL, L) && Live(nodes, L, x) && nodes[x].left != NIL
      modifies this
      ensures old(NodeOk(nodes, root, NULL, L, x)) && RotatedRight(old(nodes), old(root), x, nodes, root)
      ensures L == RotRightLayout(old(L), old(nodes), x)
      ensures Shape(nodes, root, NULL, L)
      ensures forall i | 0 <= i < |nodes| :: nodes[i].key == old(nodes[i].key)
      ensures size == old(size) && colors == old(colors) && bh == old(bh)
    {
      RightParts(nodes, root, L, x);
      var y := nodes[x].left;
      var b := nodes[y].right;
      var p := nodes[x].parent;
      ghost var nodes0, root0, L0 := nodes, root, L;
      nodes := nodes[x := nodes[x].(left := b)];
      if b != NIL {
        nodes := nodes[b := nodes[b].(parent := x)];
      }
      nodes := nodes[y := nodes[y].(parent := p)];
      if p == NULL {
        root := y;
      } else if x == nodes[p].left {
        nodes := nodes[p := nodes[p].(left := y)];
      } else {
        nodes := nodes[p := nodes[p].(right := y)];
      }
      nodes := nodes[y := nodes[y].(right := x)];
      nodes := nodes[x := nodes[x].(parent := y)];
      L := RotRightLayout(L0, nodes0, x);
      RightRotateStep(nodes0, root0, L0, x, nodes, root);
    }
  
    /** insertNode: descends from the root to the sentinel where k belongs,
        attaches a red node there and restores the colours. A key already
        present leaves the tree unchanged and yields the sentinel; otherwise
        the new node is returned. */
    method InsertNode(k: int) returns (r: int)
      requires Valid()
      modifies this
      ensures Valid()
      ensures Contents() == Insert(old(Contents()), k)
      ensures k in old(Contents()) ==> r == NIL && size == old(size)
      ensures k !in old(Contents()) ==> Live(nodes, L, r) && nodes[r].key == k && size == old(size) + 1
      ensures k in old(Contents()) ==> unchanged(this)
      ensures forall n | old(Live(nodes, L, n)) :: Live(nodes, L, n) && nodes[n].key == old(nodes[n].key)
    {
      var y, found, goLeft, p := FindSlot(k);
      SortedKeys(nodes, L);
      if found {
        InsertPresent(Contents(), k);
        return NIL;
      }
      KeyAbsent(nodes, L, p, k);
      InsertAt(Contents(), k, p);
      ghost var t := if y != NULL && goLeft then p + 1 else p;
      var z := AttachRed(y, k, goLeft, p, t);
      r := z;
      if y == NULL {
        colors := colors[z := Black];
      } else if nodes[y].parent == NULL {
        DropExcuse(nodes, colors, root, L, bh, z);
      } else {
        FixInsert(z);
        assert Placed(nodes, root, NULL, L, p) && KeyAt(nodes, L, p) == Contents()[p] == k;
      }
      InsertSurvivors(old(nodes), old(L), p, z, nodes, root, L);
    }

    /** The descent loop of insertNode: y is the last node visited (NULL on
        an empty tree) and found says the loop met k. Otherwise k lies
        strictly between the keys before in-order position p and those from
        p on, and belongs there as y's goLeft child, where y has the
        sentinel. */
    method FindSlot(k: int) returns (y: int, found: bool, ghost goLeft: bool, ghost p: int)
      requires Shape(nodes, root, NULL, L) && Sorted(nodes, L)
      ensures found ==> k in Contents()
      ensures !found ==> InsCtx(nodes, root, L, y, goLeft, p, if y != NULL && goLeft then p + 1 else p)
      ensures !found && y != NULL ==> (goLeft <==> k < nodes[y].key)
      ensures !found ==> 0 <= p <= |L.order| && (forall q | 0 <= q < p :: KeyAt(nodes, L, q) < k)
      ensures !found ==> forall q | p <= q < |L.order| :: k < KeyAt(nodes, L, q)
    {
      y := NULL;
      var x := root;
      goLeft := false;
      ghost var a, b := 0, |L.order|;
      while x != NIL
        invariant 0 <= a <= b <= |L.order|
        invariant forall q | 0 <= q < a :: KeyAt(nodes, L, q) < k
        invariant forall q | b <= q < |L.order| :: k < KeyAt(nodes, L, q)
        invariant x != NIL ==> Live(nodes, L, x) && L.lo[x] == a && L.hi[x] == b
        invariant y == NULL ==> x == root && a == 0 && b == |L.order|
        invariant y != NULL ==> Live(nodes, L, y)
        invariant y != NULL && goLeft ==> x == nodes[y].left && a == L.lo[y] && b == L.pos[y] && k < nodes[y].key
        invariant y != NULL && !goLeft ==> x == nodes[y].right && a == L.pos[y] + 1 && b == L.hi[y] && nodes[y].key < k
        decreases b - a
      {
        NodeAt(nodes, root, NULL, L, x);
        y := x;
        assert KeyAt(nodes, L, L.pos[x]) == nodes[x].key;
        if k < nodes[x].key {
          KeysAbove(nodes, L, L.pos[x], k);
          x := nodes[x].left;
          goLeft := true;
          a, b := L.lo[y], L.pos[y];
        } else if nodes[x].key < k {
          KeysBelow(nodes, L, L.pos[x], k);
          x := nodes[x].right;
          goLeft := false;
          a, b := L.pos[y] + 1, L.hi[y];
        } else {
          KeyPresent(nodes, L, L.pos[x], k);
          return y, true, goLeft, a;
        }
      }
      if y != NULL {
        NodeAt(nodes, root, NULL, L, y);
      }
      found, p := false, a;
    }

    /** The attach step of insertNode: a red node with key k becomes the
        root of an empty tree or the goLeft child of y, at in-order position
        p. Only the red rule at the new node may fail afterwards. */
    method AttachRed(y: int, k: int, ghost goLeft: bool, ghost p: int, ghost t: int) returns (z: int)
      requires InsCtx(nodes, root, L, y, goLeft, p, t) && Sorted(nodes, L) && size == |L.order|
      requires RedBlack(nodes, colors, root, L, bh)
      requires y != NULL ==> (goLeft <==> k < nodes[y].key)
      requires forall q | 0 <= q < p :: KeyAt(nodes, L, q) < k
      requires forall q | p <= q < |L.order| :: k < KeyAt(nodes, L, q)
      modifies this
      ensures Shape(nodes, root, NULL, L) && Sorted(nodes, L) && size == |L.order| == old(size) + 1
      ensures Contents() == old(Contents())[..p] + [k] + old(Contents())[p..]
      ensures z == |old(nodes)| && Live(nodes, L, z) && nodes[z].key == k && L.order[p] == z
      ensures L.order == old(L.order)[..p] + [z] + old(L.order)[p..]
      ensures |nodes| == old(|nodes|) + 1 && forall i | 0 <= i < old(|nodes|) :: nodes[i].key == old(nodes[i].key)
      ensures nodes[z].parent == y && root == (if y == NULL then z else old(root))
      ensures y != NULL ==> 0 <= y < |nodes| && nodes[y].parent == old(nodes[y].parent)
      ensures y == NULL ==> z < |colors| && RedBlack(nodes, colors[z := Black], root, L, bh)
      ensures y != NULL ==>
        (Sentinel(nodes, colors, bh) && IsBlack(colors, root) && colors[z] == Red &&
         ColoursExcept(nodes, colors, L, bh, NULL, NULL, z))
    {
      ghost var nodes0, colors0, root0, L0, bh0 := nodes, colors, root, L, bh;
      z := |nodes|;
      nodes := nodes + [Node(k, y, NIL, NIL)];
      colors := colors + [Red];
      if y == NULL {
        root := z;
      } else if k < nodes[y].key {
        nodes := nodes[y := nodes[y].(left := z)];
      } else {
        nodes := nodes[y := nodes[y].(right := z)];
      }
      size := size + 1;
      L := InsertLayout(L0, p, t, z);
      bh := bh + [1];
      assert nodes == AttachNodes(nodes0, y, k, goLeft);
      AttachStep(nodes0, colors0, root0, L0, bh0, y, k, goLeft, p, t, nodes, colors, root, L, bh);
    }

    /** fixInsert: walks up from the red node z, recolouring while z's uncle
        is red and rotating once it is black, until the red-black invariants
        hold again; the in-order sequence and every key stay as they were. */
    method FixInsert(z0: int)
      requires FixInsInv(nodes, colors, root, L, bh, z0) && Sorted(nodes, L) && size == |L.order|
      modifies this
      ensures Valid()
      ensures L.order == old(L.order) && Contents() == old(Contents()) && size == old(size)
      ensures |nodes| == old(|nodes|) && forall i | 0 <= i < |nodes| :: nodes[i].key == old(nodes[i].key)
    {
      var z := z0;
      while IsRedNode(nodes[z].parent)
        invariant FixInsInv(nodes, colors, root, L, bh, z)
        invariant L.order == old(L.order) && |nodes| == old(|nodes|) && size == old(size)
        invariant forall i | 0 <= i < |nodes| :: nodes[i].key == old(nodes[i].key)
        decreases if IsRed(colors, nodes[z].parent) then 1 else 0, |L.order| - (L.hi[z] - L.lo[z])
      {
        z := FixInsertStep(z);
        if z == root {
          break;
        }
      }
      FixInsDone(nodes, colors, root, L, bh, z, old(nodes), old(L), colors[root := Black]);
      colors := colors[root := Black];
    }

    /** One round of fixInsert's loop, on the side z's parent hangs on. */
    method FixInsertStep(z: int) returns (z': int)
      requires FixInsInv(nodes, colors, root, L, bh, z) && IsRed(colors, nodes[z].parent)
      modifies this
      ensures Shape(nodes, root, NULL, L) && Sentinel(nodes, colors, bh) && Live(nodes, L, z')
      ensures ColoursExcept(nodes, colors, L, bh, NULL, NULL, z')
      ensures z' != root ==> FixInsInv(nodes, colors, root, L, bh, z') && L.hi[z'] - L.lo[z'] <= |L.order|
      ensures z' != root ==> !IsRed(colors, nodes[z'].parent) || L.hi[z'] - L.lo[z'] > old(L.hi[z] - L.lo[z])
      ensures L.order == old(L.order) && |nodes| == old(|nodes|) && size == old(size)
      ensures forall i | 0 <= i < |nodes| :: nodes[i].key == old(nodes[i].key)
    {
      var zp := nodes[z].parent;
      assert 0 <= zp < |nodes| && 0 <= nodes[zp].parent < |nodes| &&
        (zp == nodes[nodes[zp].parent].left || zp == nodes[nodes[zp].parent].right) by {
        Family(nodes, colors, root, L, bh, z);
      }
      var g := nodes[zp].parent;
      if zp == nodes[g].right {
        z' := FixInsertRight(z);
      } else {
        z' := FixInsertLeft(z);
      }
      if z' != root {
        assert 0 <= L.lo[z'] && L.hi[z'] <= |L.order| by {
          NodeAt(nodes, root, NULL, L, z');
        }
      }
    }

    /** One round of fixInsert when z's parent is the right child of z's
        grandparent g: with a red uncle, recolour and continue from g;
        otherwise rotate, which ends the loop. */
    method FixInsertRight(z: int) returns (z': int)
      requires FixInsInv(nodes, colors, root, L, bh, z) && IsRed(colors, nodes[z].parent)
      requires var zp := nodes[z].parent;
        (0 <= zp < |nodes| && 0 <= nodes[zp].parent < |nodes| && zp == nodes[nodes[zp].parent].right)
      modifies this
      ensures Shape(nodes, root, NULL, L) && Sentinel(nodes, colors, bh) && Live(nodes, L, z')
      ensures ColoursExcept(nodes, colors, L, bh, NULL, NULL, z')
      ensures z' != root ==> FixInsInv(nodes, colors, root, L, bh, z')
      ensures z' != root ==> !IsRed(colors, nodes[z'].parent) || L.hi[z'] - L.lo[z'] > old(L.hi[z] - L.lo[z])
      ensures L.order == old(L.order) && |nodes| == old(|nodes|) && size == old(size)
      ensures forall i | 0 <= i < |nodes| :: nodes[i].key == old(nodes[i].key)
    {
      var zp := nodes[z].parent;
      var g := nodes[zp].parent;
      var u := nodes[g].left;
      assert 0 <= u < |colors| by {
        Family(nodes, colors, root, L, bh, z);
      }
      if colors[u] == Red {
        z' := RecolourUp(z);
      } else {
        z' := RotateFixRight(z);
      }
    }

    /** Case 1 of fixInsert (z's parent and uncle are red): both turn black
        and the grandparent g red; the loop goes on from g, whose span is
        larger than z's. */
    method RecolourUp(z: int) returns (z': int)
      requires RedUncle(nodes, colors, root, L, bh, z)
      modifies this`colors, this`bh
      ensures Sentinel(nodes, colors, bh) && Live(nodes, L, z')
      ensures ColoursExcept(nodes, colors, L, bh, NULL, NULL, z')
      ensures z' != root ==> FixInsInv(nodes, colors, root, L, bh, z')
      ensures L.hi[z'] - L.lo[z'] > L.hi[z] - L.lo[z]
    {
      var zp := nodes[z].parent;
      var g := nodes[zp].parent;
      var u := Uncle(nodes, g, zp);
      assert L.hi[g] - L.lo[g] > L.hi[z] - L.lo[z] by {
        ParentOf(nodes, root, NULL, L, z);
        ParentOf(nodes, root, NULL, L, zp);
      }
      Recolour(nodes, colors, root, L, bh, z);
      ghost var colors', bh' := RecolourColors(nodes, colors, z), RecolourBh(nodes, bh, z);
      colors := colors[u := Black];
      colors := colors[zp := Black];
      colors := colors[g := Red];
      bh := bh[g := bh[g] + 1];
      assert colors == colors' && bh == bh';
      z' := g;
    }

    /** Cases 2 and 3 of fixInsert when z's parent is a right child and z's
        uncle is black: an inner z is first rotated into the outer position,
        then the parent is painted black, the grandparent red and rotated
        down; z's parent is black afterwards. */
    method RotateFixRight(z: int) returns (z': int)
      requires FixInsInv(nodes, colors, root, L, bh, z) && IsRed(colors, nodes[z].parent)
      requires var zp := nodes[z].parent;
        (0 <= zp < |nodes| && 0 <= nodes[zp].parent < |nodes| && zp == nodes[nodes[zp].parent].right &&
         !IsRed(colors, nodes[nodes[zp].parent].left))
      modifies this
      ensures FixInsInv(nodes, colors, root, L, bh, z') && IsBlack(colors, nodes[z'].parent)
      ensures L.order == old(L.order) && |nodes| == old(|nodes|) && size == old(size)
      ensures forall i | 0 <= i < |nodes| :: nodes[i].key == old(nodes[i].key)
    {
      z' := z;
      if z' == nodes[nodes[z'].parent].left {
        z' := InnerRightRotate(z);
      } else {
        assert OuterRight(nodes, colors, root, L, bh, z') by {
          Family(nodes, colors, root, L, bh, z);
        }
      }
      OuterRightRotate(z');
    }

    /** The inner case: rotate z's parent so that the outer case applies to it. */
    method InnerRightRotate(z: int) returns (z': int)
      requires InnerRight(nodes, colors, root, L, bh, z)
      modifies this
      ensures OuterRight(nodes, colors, root, L, bh, z') && z' == old(nodes[z].parent)
      ensures L.order == old(L.order) && |nodes| == old(|nodes|) && size == old(size) && colors == old(colors)
      ensures forall i | 0 <= i < |nodes| :: nodes[i].key == old(nodes[i].key)
    {
      ghost var nodes0, root0, L0 := nodes, root, L;
      z' := nodes[z].parent;
      assert Live(nodes, L, z') && nodes[z'].left != NIL by {
        Family(nodes, colors, root, L, bh, z);
      }
      RightRotate(z');
      InnerRightFix(nodes0, colors, root0, L0, bh, z, nodes, root, L);
    }

    /** The outer case: paint the parent black and the grandparent red,
        then rotate the grandparent; the tree is red-black again. */
    method OuterRightRotate(z: int)
      requires OuterRight(nodes, colors, root, L, bh, z)
      modifies this
      ensures FixInsInv(nodes, colors, root, L, bh, z) && IsBlack(colors, nodes[z].parent)
      ensures L.order == old(L.order) && |nodes| == old(|nodes|) && size == old(size)
      ensures forall i | 0 <= i < |nodes| :: nodes[i].key == old(nodes[i].key)
    {
      ghost var nodes1, colors1, root1, L1 := nodes, colors, root, L;
      var p := nodes[z].parent;
      var gp := nodes[p].parent;
      assert 0 <= p < |colors| && Live(nodes, L, gp) && gp < |colors| && nodes[gp].right != NIL by {
        Family(nodes, colors, root, L, bh, z);
      }
      colors := colors[p := Black];
      colors := colors[gp := Red];
      LeftRotate(gp);
      OuterRightFix(nodes1, colors1, root1, L1, bh, z, nodes, colors, root, L);
    }

    /** One round of fixInsert when z's parent is the left child of z's
        grandparent g: with a red uncle, recolour and continue from g;
        otherwise rotate, which ends the loop. */
    method FixInsertLeft(z: int) returns (z': int)
      requires FixInsInv(nodes, colors, root, L, bh, z) && IsRed(colors, nodes[z].parent)
      requires var zp := nodes[z].parent;
        (0 <= zp < |nodes| && 0 <= nodes[zp].parent < |nodes| && zp == nodes[nodes[zp].parent].left)
      modifies this
      ensures Shape(nodes, root, NULL, L) && Sentinel(nodes, colors, bh) && Live(nodes, L, z')
      ensures ColoursExcept(nodes, colors, L, bh, NULL, NULL, z')
      ensures z' != root ==> FixInsInv(nodes, colors, root, L, bh, z')
      ensures z' != root ==> !IsRed(colors, nodes[z'].parent) || L.hi[z'] - L.lo[z'] > old(L.hi[z] - L.lo[z])
      ensures L.order == old(L.order) && |nodes| == old(|nodes|) && size == old(size)
      ensures forall i | 0 <= i < |nodes| :: nodes[i].key == old(nodes[i].key)
    {
      var zp := nodes[z].parent;
      var g := nodes[zp].parent;
      var u := nodes[g].right;
      assert 0 <= u < |colors| by {
        Family(nodes, colors, root, L, bh, z);
      }
      if colors[u] == Red {
        z' := RecolourUp(z);
      } else {
        z' := RotateFixLeft(z);
      }
    }

    /** Cases 2 and 3 of fixInsert when z's parent is a left child and z's
        uncle is black: an inner z is first rotated into the outer position,
        then the parent is painted black, the grandparent red and rotated
        down; z's parent is black afterwards. */
    method RotateFixLeft(z: int) returns (z': int)
      requires FixInsInv(nodes, colors, root, L, bh, z) && IsRed(colors, nodes[z].parent)
      requires var zp := nodes[z].parent;
        (0 <= zp < |nodes| && 0 <= nodes[zp].parent < |nodes| && zp == nodes[nodes[zp].parent].left &&
         !IsRed(colors, nodes[nodes[zp].parent].right))
      modifies this
      ensures FixInsInv(nodes, colors, root, L, bh, z') && IsBlack(colors, nodes[z'].parent)
      ensures L.order == old(L.order) && |nodes| == old(|nodes|) && size == old(size)
      ensures forall i | 0 <= i < |nodes| :: nodes[i].key == old(nodes[i].key)
    {
      z' := z;
      if z' == nodes[nodes[z'].parent].right {
        z' := InnerLeftRotate(z);
      } else {
        assert OuterLeft(nodes, colors, root, L, bh, z') by {
          Family(nodes, colors, root, L, bh, z);
        }
      }
      OuterLeftRotate(z');
    }

    /** The inner case: rotate z's parent so that the outer case applies to it. */
    method InnerLeftRotate(z: int) returns (z': int)
      requires InnerLeft(nodes, colors, root, L, bh, z)
      modifies this
      ensures OuterLeft(nodes, colors, root, L, bh, z') && z' == old(nodes[z].parent)
      ensures L.order == old(L.order) && |nodes| == old(|nodes|) && size == old(size) && colors == old(colors)
      ensures forall i | 0 <= i < |nodes| :: nodes[i].key == old(nodes[i].key)
    {
      ghost var nodes0, root0, L0 := nodes, root, L;
      z' := nodes[z].parent;
      assert Live(nodes, L, z') && nodes[z'].right != NIL by {
        Family(nodes, colors, root, L, bh, z);
      }
      LeftRotate(z');
      InnerLeftFix(nodes0, colors, root0, L0, bh, z, nodes, root, L);
    }

    /** The outer case: paint the parent black and the grandparent red,
        then rotate the grandparent; the tree is red-black again. */
    method OuterLeftRotate(z: int)
      requires OuterLeft(nodes, colors, root, L, bh, z)
      modifies this
      ensures FixInsInv(nodes, colors, root, L, bh, z) && IsBlack(colors, nodes[z].parent)
      ensures L.order == old(L.order) && |nodes| == old(|nodes|) && size == old(size)
      ensures forall i | 0 <= i < |nodes| :: nodes[i].key == old(nodes[i].key)
    {
      ghost var nodes1, colors1, root1, L1 := nodes, colors, root, L;
      var p := nodes[z].parent;
      var gp := nodes[p].parent;
      assert 0 <= p < |colors| && Live(nodes, L, gp) && gp < |colors| && nodes[gp].left != NIL by {
        Family(nodes, colors, root, L, bh, z);
      }
      colors := colors[p := Black];
      colors := colors[gp := Red];
      RightRotate(gp);
      OuterLeftFix(nodes1, colors1, root1, L1, bh, z, nodes, colors, root, L);
    }

    /** rbTransplant: u's parent (or the root pointer, when u is the root)
        now refers to v, and v's parent becomes u's parent, even when v is
        the sentinel. */
    method RbTransplant(u: int, v: int)
      requires 0 <= u < |nodes| && 0 <= v < |nodes|
      requires nodes[u].parent == NULL || 0 <= nodes[u].parent < |nodes|
      modifies this`nodes, this`root
      ensures nodes == TransplantNodes(old(nodes), u, v) && root == TransplantRoot(old(nodes), old(root), u, v)
    {
      var p := nodes[u].parent;
      if p == NULL {
        root := v;
      } else if u == nodes[p].left {
        nodes := nodes[p := nodes[p].(left := v)];
      } else {
        nodes := nodes[p := nodes[p].(right := v)];
      }
      nodes := nodes[v := nodes[v].(parent := p)];
    }

    /** deleteNodeHelper: removes the node holding k and reports whether
        there was one. A node with at most one child is spliced out; a node
        with two children is replaced by its successor, which takes its
        colour. When the node removed from its place was black, fixDelete
        restores the colour rules. */
    method DeleteNodeHelper(k: int) returns (found: bool)
      requires Valid()
      modifies this
      ensures Valid()
      ensures found <==> k in old(Contents())
      ensures Contents() == Remove(old(Contents()), k)
      ensures size == old(size) - (if found then 1 else 0)
      ensures !found ==> unchanged(this)
      ensures forall n | old(Live(nodes, L, n)) && old(nodes[n].key) != k ::
        Live(nodes, L, n) && nodes[n].key == old(nodes[n].key)
    {
      var z := SearchTree(k);
      if z == NIL {
        RemoveAbsent(Contents(), k);
        return false;
      }
      ghost var nodes0, L0 := nodes, L;
      RemoveNode(z);
      Survivors(nodes0, L0, k, nodes, root, L, L0.pos[z]);
      found := true;
    }

    /** The body of deleteNodeHelper once z, the node holding the key, is
        found: z leaves the in-order sequence, every slot keeps its key,
        the size drops by one and the tree is valid again. */
    method RemoveNode(z: int)
      requires Valid() && Live(nodes, L, z)
      modifies this
      ensures Valid()
      ensures Contents() == Remove(old(Contents()), old(nodes[z].key)) && size == old(size) - 1
      ensures L.order == old(L.order[..L.pos[z]] + L.order[L.pos[z] + 1..]) && KeyArray(nodes) == old(KeyArray(nodes))
    {
      var x: int;
      var y := z;
      var yOgColor := colors[y];
      if nodes[z].left == NIL {
        x := nodes[z].right;
        SpliceOut(z, x);
      } else if nodes[z].right == NIL {
        x := nodes[z].left;
        SpliceOut(z, x);
      } else {
        x, y, yOgColor := ReplaceBySuccessor(z);
      }
      size := size - 1;
      if yOgColor == Black {
        ghost var nodes1, L1 := nodes, L;
        FixDelete(x);
        assert Keys(nodes, L) == Keys(nodes1, L1) && Sorted(nodes, L) by {
          KeyArrayKeys(nodes1, nodes);
          KeysFrame(nodes1, L1, nodes, L);
        }
      }
    }

    /** The one-child branches of deleteNodeHelper: transplant(z, x) splices
        z out, and its key leaves the in-order sequence. A red z leaves a
        red-black tree; a black z leaves x's side one black short. */
    method SpliceOut(z: int, x: int)
      requires Valid() && Live(nodes, L, z)
      requires (nodes[z].left == NIL && x == nodes[z].right) || (nodes[z].right == NIL && x == nodes[z].left)
      modifies this`nodes, this`root, this`L
      ensures Shape(nodes, root, NULL, L) && Sorted(nodes, L)
      ensures Contents() == Remove(old(Contents()), old(nodes[z].key)) && |L.order| == old(|L.order|) - 1
      ensures colors[z] == Red ==> RedBlack(nodes, colors, root, L, bh)
      ensures colors[z] == Black ==> Deficit(nodes, colors, root, L, bh, x)
      ensures L.order == old(L.order[..L.pos[z]] + L.order[L.pos[z] + 1..]) && KeyArray(nodes) == old(KeyArray(nodes))
    {
      ghost var nodes0, root0, L0 := nodes, root, L;
      DeleteOne(nodes, colors, root, L, bh, z, x);
      TransplantKeys(nodes, z, x);
      RbTransplant(z, x);
      L := SpliceLayout(L0, L0.pos[z]);
      assert nodes == TransplantNodes(nodes0, z, x) && root == TransplantRoot(nodes0, root0, z, x);
    }

    /** The two-children branch of deleteNodeHelper: y, the minimum of z's
        right subtree, is spliced out of its place (unless it is z's right
        child) and takes z's place and colour. Returns y's right child x,
        y and y's colour before the move. */
    method ReplaceBySuccessor(z: int) returns (x: int, y: int, yOgColor: Color)
      requires Valid() && Live(nodes, L, z) && nodes[z].left != NIL && nodes[z].right != NIL
      modifies this`nodes, this`colors, this`root, this`L, this`bh
      ensures Shape(nodes, root, NULL, L) && Sorted(nodes, L)
      ensures Contents() == Remove(old(Contents()), old(nodes[z].key)) && |L.order| == old(|L.order|) - 1
      ensures yOgColor == Red ==> RedBlack(nodes, colors, root, L, bh)
      ensures yOgColor == Black ==> Deficit(nodes, colors, root, L, bh, x)
      ensures L.order == old(L.order[..L.pos[z]] + L.order[L.pos[z] + 1..]) && KeyArray(nodes) == old(KeyArray(nodes))
    {
      ghost var nodes0, colors0, root0, L0, bh0 := nodes, colors, root, L, bh;
      assert Live(nodes, L, nodes[z].right) && L.lo[nodes[z].right] == L.pos[z] + 1 by {
        NodeAt(nodes, root, NULL, L, z);
        NodeAt(nodes, root, NULL, L, nodes[z].right);
      }
      y := MinimumFrom(nodes[z].right);
      yOgColor := colors[y];
      x := nodes[y].right;
      SuccSteps(nodes, root, L, z, y);
      MoveSuccessor(z, y);
      colors := colors[y := colors[z]];
      L := SuccessorLayout(nodes0, root0, L0, z, y);
      bh := bh[y := bh[z]];
      DeleteTwo(nodes0, colors0, root0, L0, bh0, z, y, nodes, colors, root, L, bh);
      SuccessorKeys(nodes0, z, y);
    }

    /** The pointer writes of the two-children branch: unless y is z's right
        child, transplant(y, y.right) and y adopts z's right child; then
        transplant(z, y) and y adopts z's left child. */
    method MoveSuccessor(z: int, y: int)
      requires SuccCtx(nodes, root, L, z, y)
      modifies this`nodes, this`root
      ensures SuccWf(old(nodes), z, y)
      ensures nodes == SuccessorNodes(old(nodes), z, y) && root == TransplantRoot(old(nodes), old(root), z, y)
    {
      ghost var nodes0, root0 := nodes, root;
      SuccSteps(nodes, root, L, z, y);
      var x := nodes[y].right;
      var zl, zr := nodes[z].left, nodes[z].right;
      if nodes[y].parent == z {
        nodes := nodes[x := nodes[x].(parent := y)];
      } else {
        RbTransplant(y, x);
        nodes := nodes[y := nodes[y].(right := zr)];
        nodes := nodes[zr := nodes[zr].(parent := y)];
        assert nodes == AdoptRight(TransplantNodes(nodes0, y, x), y, zr) && root == root0;
      }
      ghost var nodes1 := nodes;
      assert nodes1[z] == nodes0[z];
      RbTransplant(z, y);
      nodes := nodes[y := nodes[y].(left := zl)];
      nodes := nodes[zl := nodes[zl].(parent := y)];
      assert nodes == AdoptLeft(TransplantNodes(nodes1, z, y), y, zl);
    }

    /** fixDelete: while x is a black non-root node whose side of its
        parent is one black short, recolour and rotate around x's parent;
        finally paint x black. The tree is red-black again, with the same
        in-order sequence and keys. */
    method FixDelete(x0: int)
      requires Deficit(nodes, colors, root, L, bh, x0)
      modifies this
      ensures Shape(nodes, root, NULL, L) && RedBlack(nodes, colors, root, L, bh)
      ensures L.order == old(L.order) && |nodes| == old(|nodes|) && size == old(size)
      ensures KeyArray(nodes) == old(KeyArray(nodes))
    {
      var x := x0;
      while x != root && colors[x] == Black
        invariant Deficit(nodes, colors, root, L, bh, x)
        invariant L.order == old(L.order) && |nodes| == old(|nodes|) && size == old(size)
        invariant KeyArray(nodes) == old(KeyArray(nodes))
        decreases |L.order| - Span(L, x)
      {
        SpanBound(nodes, colors, root, L, bh, x);
        if x == nodes[nodes[x].parent].left {
          x := FixDeleteLeft(x);
        } else {
          x := FixDeleteRight(x);
        }
        SpanBound(nodes, colors, root, L, bh, x);
      }
      DeficitDone(nodes, colors, root, L, bh, x);
      colors := colors[x := Black];
    }

    /** One round of fixDelete when x is its parent's left child; the
        deficit moves up (x's span grows) or is removed (x becomes the root).
        A red sibling is first made black by case 1. */
    method FixDeleteLeft(x: int) returns (x': int)
      requires DefLeft(nodes, colors, root, L, bh, x)
      modifies this
      ensures Deficit(nodes, colors, root, L, bh, x') && Span(L, x') > old(Span(L, x))
      ensures L.order == old(L.order) && |nodes| == old(|nodes|) && size == old(size)
      ensures KeyArray(nodes) == old(KeyArray(nodes))
    {
      SiblingRanges(nodes, colors, root, L, bh, x);
      var w := nodes[nodes[x].parent].right;
      if colors[w] == Red {
        RedSiblingLeft(x);
      }
      x' := BlackSiblingLeft(x);
    }

    /** The rest of a round, x a left child with a black sibling w: case 2
        when both of w's children are black, otherwise case 4, preceded by
        case 3 when w's right child is black. */
    method BlackSiblingLeft(x: int) returns (x': int)
      requires DefLeft(nodes, colors, root, L, bh, x) && IsBlack(colors, nodes[nodes[x].parent].right)
      modifies this
      ensures Deficit(nodes, colors, root, L, bh, x') && Span(L, x') > old(Span(L, x))
      ensures L.order == old(L.order) && |nodes| == old(|nodes|) && size == old(size)
      ensures KeyArray(nodes) == old(KeyArray(nodes))
    {
      SpanBound(nodes, colors, root, L, bh, x);
      SiblingRanges(nodes, colors, root, L, bh, x);
      var w := nodes[nodes[x].parent].right;
      if colors[nodes[w].left] == Black && colors[nodes[w].right] == Black {
        x' := BlackSiblingUp(x);
      } else {
        if colors[nodes[w].right] == Black {
          NearRedLeft(x);
        }
        FarRedLeft(x);
        x' := root;
        RedBlackDeficit(nodes, colors, root, L, bh);
        SpanBound(nodes, colors, root, L, bh, x');
      }
    }

    /** One round of fixDelete when x is its parent's right child: the
        mirror image of FixDeleteLeft. */
    method FixDeleteRight(x: int) returns (x': int)
      requires DefRight(nodes, colors, root, L, bh, x)
      modifies this
      ensures Deficit(nodes, colors, root, L, bh, x') && Span(L, x') > old(Span(L, x))
      ensures L.order == old(L.order) && |nodes| == old(|nodes|) && size == old(size)
      ensures KeyArray(nodes) == old(KeyArray(nodes))
    {
      SiblingRanges(nodes, colors, root, L, bh, x);
      var w := nodes[nodes[x].parent].left;
      if colors[w] == Red {
        RedSiblingRight(x);
      }
      x' := BlackSiblingRight(x);
    }

    /** The mirror image of BlackSiblingLeft. */
    method BlackSiblingRight(x: int) returns (x': int)
      requires DefRight(nodes, colors, root, L, bh, x) && IsBlack(colors, nodes[nodes[x].parent].left)
      modifies this
      ensures Deficit(nodes, colors, root, L, bh, x') && Span(L, x') > old(Span(L, x))
      ensures L.order == old(L.order) && |nodes| == old(|nodes|) && size == old(size)
      ensures KeyArray(nodes) == old(KeyArray(nodes))
    {
      SpanBound(nodes, colors, root, L, bh, x);
      SiblingRanges(nodes, colors, root, L, bh, x);
      var w := nodes[nodes[x].parent].left;
      if colors[nodes[w].right] == Black && colors[nodes[w].left] == Black {
        x' := BlackSiblingUp(x);
      } else {
        if colors[nodes[w].left] == Black {
          NearRedRight(x);
        }
        FarRedRight(x);
        x' := root;
        RedBlackDeficit(nodes, colors, root, L, bh);
        SpanBound(nodes, colors, root, L, bh, x');
      }
    }

    /** Case 2 (either side): x's sibling and both its children are black;
        the sibling turns red and the deficit moves up to x's parent. */
    method BlackSiblingUp(x: int) returns (x': int)
      requires DefBelow(nodes, colors, root, L, bh, x)
      requires var w := Sibling(nodes, nodes[x].parent, x);
        (0 <= w < |nodes| && IsBlack(colors, w) && IsBlack(colors, nodes[w].left) && IsBlack(colors, nodes[w].right))
      modifies this`colors, this`bh
      ensures Deficit(nodes, colors, root, L, bh, x') && x' == nodes[x].parent && Span(L, x') > Span(L, x)
    {
      SiblingRanges(nodes, colors, root, L, bh, x);
      var p := nodes[x].parent;
      var w := if x == nodes[p].left then nodes[p].right else nodes[p].left;
      Case2Fix(nodes, colors, root, L, bh, x, colors[w := Red], bh[p := bh[p] - 1]);
      colors := colors[w := Red];
      bh := bh[p := bh[p] - 1];
      x' := p;
    }

    /** Case 1, x a left child: the red sibling w turns black, the parent
        red, and the parent is rotated left; x's new sibling is black. */
    method RedSiblingLeft(x: int)
      requires DefLeft(nodes, colors, root, L, bh, x) && IsRed(colors, nodes[nodes[x].parent].right)
      modifies this
      ensures DefLeft(nodes, colors, root, L, bh, x) && Span(L, x) == old(Span(L, x))
      ensures IsBlack(colors, nodes[nodes[x].parent].right)
      ensures L.order == old(L.order) && |nodes| == old(|nodes|) && size == old(size)
      ensures KeyArray(nodes) == old(KeyArray(nodes))
    {
      ghost var nodes1, colors1, root1, L1 := nodes, colors, root, L;
      SiblingRanges(nodes, colors, root, L, bh, x);
      var p := nodes[x].parent;
      var w := nodes[p].right;
      colors := colors[w := Black];
      colors := colors[p := Red];
      LeftRotate(p);
      Case1LeftFix(nodes1, colors1, root1, L1, bh, x, nodes, colors, root, L);
    }

    /** Case 3, x a left child: w is black with a red left child c and a
        black right child; c turns black, w red, and w is rotated right. */
    method NearRedLeft(x: int)
      requires DefLeft(nodes, colors, root, L, bh, x)
      requires var w := nodes[nodes[x].parent].right;
        (0 <= w < |nodes| && IsBlack(colors, w) && 0 <= nodes[w].left < |nodes| &&
         IsRed(colors, nodes[w].left) && IsBlack(colors, nodes[w].right))
      modifies this
      ensures DefLeft(nodes, colors, root, L, bh, x) && Span(L, x) == old(Span(L, x))
      ensures var w := nodes[nodes[x].parent].right;
        IsBlack(colors, w) && 0 <= nodes[w].right < |nodes| && IsRed(colors, nodes[w].right)
      ensures L.order == old(L.order) && |nodes| == old(|nodes|) && size == old(size)
      ensures KeyArray(nodes) == old(KeyArray(nodes))
    {
      ghost var nodes1, colors1, root1, L1 := nodes, colors, root, L;
      SiblingRanges(nodes, colors, root, L, bh, x);
      var w := nodes[nodes[x].parent].right;
      var c := nodes[w].left;
      colors := colors[c := Black];
      colors := colors[w := Red];
      RightRotate(w);
      Case3LeftFix(nodes1, colors1, root1, L1, bh, x, nodes, colors, root, L);
    }

    /** Case 4, x a left child: w is black with a red right child d; w takes
        the parent's colour, the parent and d turn black, and the parent is
        rotated left. The tree is red-black again. */
    method FarRedLeft(x: int)
      requires DefLeft(nodes, colors, root, L, bh, x)
      requires var w := nodes[nodes[x].parent].right;
        (0 <= w < |nodes| && IsBlack(colors, w) && 0 <= nodes[w].right < |nodes| && IsRed(colors, nodes[w].right))
      modifies this
      ensures Shape(nodes, root, NULL, L) && RedBlack(nodes, colors, root, L, bh)
      ensures L.order == old(L.order) && |nodes| == old(|nodes|) && size == old(size)
      ensures KeyArray(nodes) == old(KeyArray(nodes))
    {
      ghost var nodes1, colors1, root1, L1, bh1 := nodes, colors, root, L, bh;
      SiblingRanges(nodes, colors, root, L, bh, x);
      var p := nodes[x].parent;
      var w := nodes[p].right;
      colors := colors[w := colors[p]];
      colors := colors[p := Black];
      colors := colors[nodes[w].right := Black];
      bh := bh[p := bh[p] - 1][w := bh[p]];
      LeftRotate(p);
      Case4LeftFix(nodes1, colors1, root1, L1, bh1, x, nodes, colors, root, L, bh);
    }

    /** Case 1, x a right child: the mirror image of RedSiblingLeft. */
    method RedSiblingRight(x: int)
      requires DefRight(nodes, colors, root, L, bh, x) && IsRed(colors, nodes[nodes[x].parent].left)
      modifies this
      ensures DefRight(nodes, colors, root, L, bh, x) && Span(L, x) == old(Span(L, x))
      ensures IsBlack(colors, nodes[nodes[x].parent].left)
      ensures L.order == old(L.order) && |nodes| == old(|nodes|) && size == old(size)
      ensures KeyArray(nodes) == old(KeyArray(nodes))
    {
      ghost var nodes1, colors1, root1, L1 := nodes, colors, root, L;
      SiblingRanges(nodes, colors, root, L, bh, x);
      var p := nodes[x].parent;
      var w := nodes[p].left;
      colors := colors[w := Black];
      colors := colors[p := Red];
      RightRotate(p);
      Case1RightFix(nodes1, colors1, root1, L1, bh, x, nodes, colors, root, L);
    }

    /** Case 3, x a right child: the mirror image of NearRedLeft. */
    method NearRedRight(x: int)
      requires DefRight(nodes, colors, root, L, bh, x)
      requires var w := nodes[nodes[x].parent].left;
        (0 <= w < |nodes| && IsBlack(colors, w) && 0 <= nodes[w].right < |nodes| &&
         IsRed(colors, nodes[w].right) && IsBlack(colors, nodes[w].left))
      modifies this
      ensures DefRight(nodes, colors, root, L, bh, x) && Span(L, x) == old(Span(L, x))
      ensures var w := nodes[nodes[x].parent].left;
        IsBlack(colors, w) && 0 <= nodes[w].left < |nodes| && IsRed(colors, nodes[w].left)
      ensures L.order == old(L.order) && |nodes| == old(|nodes|) && size == old(size)
      ensures KeyArray(nodes) == old(KeyArray(nodes))
    {
      ghost var nodes1, colors1, root1, L1 := nodes, colors, root, L;
      SiblingRanges(nodes, colors, root, L, bh, x);
      var w := nodes[nodes[x].parent].left;
      var c := nodes[w].right;
      colors := colors[c := Black];
      colors := colors[w := Red];
      LeftRotate(w);
      Case3RightFix(nodes1, colors1, root1, L1, bh, x, nodes, colors, root, L);
    }

    /** Case 4, x a right child: the mirror image of FarRedLeft. */
    method FarRedRight(x: int)
      requires DefRight(nodes, colors, root, L, bh, x)
      requires var w := nodes[nodes[x].parent].left;
        (0 <= w < |nodes| && IsBlack(colors, w) && 0 <= nodes[w].left < |nodes| && IsRed(colors, nodes[w].left))
      modifies this
      ensures Shape(nodes, root, NULL, L) && RedBlack(nodes, colors, root, L, bh)
      ensures L.order == old(L.order) && |nodes| == old(|nodes|) && size == old(size)
      ensures KeyArray(nodes) == old(KeyArray(nodes))
    {
      ghost var nodes1, colors1, root1, L1, bh1 := nodes, colors, root, L, bh;
      SiblingRanges(nodes, colors, root, L, bh, x);
      var p := nodes[x].parent;
      var w := nodes[p].left;
      colors := colors[w := colors[p]];
      colors := colors[p := Black];
      colors := colors[nodes[w].left := Black];
      bh := bh[p := bh[p] - 1][w := bh[p]];
      RightRotate(p);
      Case4RightFix(nodes1, colors1, root1, L1, bh1, x, nodes, colors, root, L, bh);
    }

    /** deleteNode: deleteNodeHelper on the key. */
    method DeleteNode(k: int) returns (found: bool)
      requires Valid()
      modifies this
      ensures Valid()
      ensures found <==> k in old(Contents())
      ensures Contents() == Remove(old(Contents()), k)
      ensures size == old(size) - (if found then 1 else 0)
      ensures !found ==> unchanged(this)
      ensures forall n | old(Live(nodes, L, n)) && old(nodes[n].key) != k ::
        Live(nodes, L, n) && nodes[n].key == old(nodes[n].key)
    {
      found := DeleteNodeHelper(k);
    }

    /** clear_helper: frees the subtree of x, post-order, taking one off the
        size per node. Freed slots are simply no longer reached. */
    method ClearHelper(x: int)
      requires Shape(nodes, root, NULL, L) && (x == NIL || Live(nodes, L, x))
      requires size >= Span(L, x)
      modifies this`size
      ensures size == old(size) - Span(L, x)
      decreases Span(L, x)
    {
      if x == NIL {
        return;
      }
      NodeAt(nodes, root, NULL, L, x);
      ClearHelper(nodes[x].left);
      ClearHelper(nodes[x].right);
      size := size - 1;
    }

    /** clear_h: frees the subtree of x and empties the tree. Cleared from
        the root, the tree is valid, empty and of size 0. */
    method ClearH(x: int)
      requires Valid() && (x == NIL || Live(nodes, L, x))
      modifies this`size, this`root, this`L
      ensures root == NIL && size == old(size) - old(Span(L, x))
      ensures x == old(root) ==> Valid() && Contents() == [] && size == 0
    {
      assert size >= Span(L, x) by {
        if x != NIL {
          NodeAt(nodes, root, NULL, L, x);
        }
      }
      ClearHelper(x);
      root := NIL;
      L := L.(order := []);
    }

    /** swap: exchanges the root, the sentinel (with the arena it anchors)
        and the size with another tree. */
    method Swap(other: RBTree)
      requires Valid() && other.Valid()
      modifies this, other
      ensures Valid() && other.Valid()
      ensures Contents() == old(other.Contents()) && other.Contents() == old(Contents())
      ensures size == old(other.size) && other.size == old(size)
    {
      var tmpRoot := root;
      root := other.root;
      other.root := tmpRoot;

      var tmpNodes, tmpColors := nodes, colors;
      nodes, colors := other.nodes, other.colors;
      other.nodes, other.colors := tmpNodes, tmpColors;
      ghost var tmpL, tmpBh := L, bh;
      L, bh := other.L, other.bh;
      other.L, other.bh := tmpL, tmpBh;

      var tmpSize := size;
      size := other.size;
      other.size := tmpSize;
    }

    /** The `->_color == red` test of fixInsert's loop: it agrees with the
        colour predicate of the invariants, is false of NULL, and in a valid
        tree is false of the sentinel and the root, which are black. */
    function IsRedNode(c: int): (b: bool)
      reads this
      ensures b <==> IsRed(colors, c)
      ensures c == NULL ==> !b
      ensures Valid() && b ==> c != NIL && c != root
    {
      0 <= c < |colors| && colors[c] == Red
    }
  }
}
