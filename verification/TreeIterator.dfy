/** bidirectional_iterator of inc/bidirectional_iterator.hpp: an in-order
    iterator over an RBTree, holding the current node `ptr`, the root it was
    made from, and (through `tree`) the sentinel NIL. The end iterator holds
    the sentinel. */
module BidirectionalIterator {
  import opened Arena
  import opened RedBlackTree

  class TreeIterator {
    var ptr: int
    var root: int
    const tree: RBTree

    constructor (ptr: int, root: int, tree: RBTree)
      ensures this.ptr == ptr && this.root == root && this.tree == tree
    {
      this.ptr := ptr;
      this.root := root;
      this.tree := tree;
    }

    /** The iterator denotes a node of a valid tree, or is the end. */
    ghost predicate Valid()
      reads this, tree
    {
      tree.Valid() && (ptr == NIL || Live(tree.nodes, tree.L, ptr))
    }

    /** The in-order position denoted: the node's position, or the number
        of elements for the end iterator. */
    ghost function Position(): int
      reads this, tree
      requires Valid()
    {
      if ptr == NIL then |tree.L.order| else tree.L.pos[ptr]
    }

    /** operator*: the key of the current node, which is the element at
        the iterator's position. The end iterator has none. */
    function Deref(): (v: int)
      reads this, tree
      requires Valid() && ptr != NIL
      ensures v == tree.Contents()[Position()]
    {
      tree.nodes[ptr].key
    }

    /** operator== compares only the node pointers: two iterators over one
        tree are equal exactly when they are at the same in-order position. */
    function Equals(other: TreeIterator): (b: bool)
      reads this, other, tree, other.tree
      ensures Valid() && other.Valid() && tree == other.tree ==> (b <==> Position() == other.Position())
    {
      ptr == other.ptr
    }

    /** operator!=: the negation of ==. */
    function NotEquals(other: TreeIterator): (b: bool)
      reads this, other, tree, other.tree
      ensures b <==> !Equals(other)
    {
      ptr != other.ptr
    }

    /** Prefix ++: the end stays the end; otherwise the next node in order,
        or the end after the last. */
    method Increment()
      requires Valid()
      modifies this
      ensures Valid() && root == old(root)
      ensures old(Position()) == |tree.L.order| ==> Position() == |tree.L.order|
      ensures old(Position()) < |tree.L.order| ==> Position() == old(Position()) + 1
    {
      if ptr != NIL {
        ptr := Successor(ptr);
      }
    }

    /** Postfix ++: advances as prefix ++ does and returns a copy of the old
        iterator. */
    method PostIncrement() returns (tmp: TreeIterator)
      requires Valid()
      modifies this
      ensures fresh(tmp) && tmp.ptr == old(ptr) && tmp.root == old(root) && tmp.tree == tree
      ensures tmp.Valid() && tmp.Position() == old(Position())
      ensures Valid() && root == old(root)
      ensures old(Position()) == |tree.L.order| ==> Position() == |tree.L.order|
      ensures old(Position()) < |tree.L.order| ==> Position() == old(Position()) + 1
    {
      tmp := new TreeIterator(ptr, root, tree);
      Increment();
    }

    /** Prefix --: from the end, the node of the greatest key (found from
        the stored root); otherwise the previous node in order, or NULL
        before the first. The end of an empty tree has no greatest node:
        the source reads through the sentinel's NULL right link. */
    method Decrement()
      requires Valid() && root == tree.root && (ptr != NIL || root != NIL)
      modifies this
      ensures root == old(root)
      ensures old(Position()) > 0 ==> Valid() && Position() == old(Position()) - 1
      ensures old(Position()) == 0 ==> ptr == NULL
    {
      if ptr == NIL {
        ptr := Maximum(root);
      } else {
        ptr := Predecessor(ptr);
      }
    }

    /** Postfix --. */
    method PostDecrement() returns (tmp: TreeIterator)
      requires Valid() && root == tree.root && (ptr != NIL || root != NIL)
      modifies this
      ensures fresh(tmp) && tmp.ptr == old(ptr) && tmp.root == old(root) && tmp.tree == tree
      ensures tmp.Valid() && tmp.Position() == old(Position())
      ensures root == old(root)
      ensures old(Position()) > 0 ==> Valid() && Position() == old(Position()) - 1
      ensures old(Position()) == 0 ==> ptr == NULL
    {
      tmp := new TreeIterator(ptr, root, tree);
      Decrement();
    }

    /** minimum(node): the leftmost node of node's subtree. */
    method Minimum(node: int) returns (r: int)
      requires tree.Valid() && Live(tree.nodes, tree.L, node)
      ensures Live(tree.nodes, tree.L, r) && tree.L.pos[r] == tree.L.lo[node]
    {
      var nodes := tree.nodes;
      ghost var L, root := tree.L, tree.root;
      r := node;
      NodeAt(nodes, root, NULL, L, r);
      while nodes[r].left != NIL
        invariant Live(nodes, L, r) && L.lo[r] == L.lo[node] && NodeOk(nodes, root, NULL, L, r)
        decreases L.hi[r] - L.lo[r]
      {
        r := nodes[r].left;
        NodeAt(nodes, root, NULL, L, r);
      }
    }

    /** maximum(node): the rightmost node of node's subtree. */
    method Maximum(node: int) returns (r: int)
      requires tree.Valid() && Live(tree.nodes, tree.L, node)
      ensures Live(tree.nodes, tree.L, r) && tree.L.pos[r] == tree.L.hi[node] - 1
    {
      var nodes := tree.nodes;
      ghost var L, root := tree.L, tree.root;
      r := node;
      NodeAt(nodes, root, NULL, L, r);
      while nodes[r].right != NIL
        invariant Live(nodes, L, r) && L.hi[r] == L.hi[node] && NodeOk(nodes, root, NULL, L, r)
        decreases L.hi[r] - L.lo[r]
      {
        r := nodes[r].right;
        NodeAt(nodes, root, NULL, L, r);
      }
    }

    /** successor(x): the next node in order; past the greatest key the
        climb ends at NULL, which is returned as the sentinel (end). */
    method Successor(x: int) returns (y: int)
      requires tree.Valid() && Live(tree.nodes, tree.L, x)
      ensures tree.L.pos[x] + 1 < |tree.L.order| ==>
        y == tree.L.order[tree.L.pos[x] + 1] && Live(tree.nodes, tree.L, y) &&
        tree.L.pos[y] == tree.L.pos[x] + 1
      ensures tree.L.pos[x] + 1 == |tree.L.order| ==> y == NIL
    {
      var nodes := tree.nodes;
      ghost var L, root := tree.L, tree.root;
      NodeAt(nodes, root, NULL, L, x);
      if nodes[x].right != NIL {
        y := Minimum(nodes[x].right);
        return;
      }
      var c := x;
      y := nodes[c].parent;
      while y != NULL && c == nodes[y].right
        invariant Live(nodes, L, c) && NodeOk(nodes, root, NULL, L, c)
        invariant L.hi[c] == L.pos[x] + 1 && y == nodes[c].parent
        decreases |L.order| - (L.hi[c] - L.lo[c])
      {
        NodeAt(nodes, root, NULL, L, y);
        c := y;
        y := nodes[y].parent;
      }
      if y == NULL {
        return NIL;
      }
      NodeAt(nodes, root, NULL, L, y);
    }

    /** predecessor(x): the previous node in order; before the least key
        it returns NULL, not the sentinel. */
    method Predecessor(x: int) returns (y: int)
      requires tree.Valid() && Live(tree.nodes, tree.L, x)
      ensures tree.L.pos[x] > 0 ==>
        y == tree.L.order[tree.L.pos[x] - 1] && Live(tree.nodes, tree.L, y) &&
        tree.L.pos[y] == tree.L.pos[x] - 1
      ensures tree.L.pos[x] == 0 ==> y == NULL
    {
      var nodes := tree.nodes;
      ghost var L, root := tree.L, tree.root;
      NodeAt(nodes, root, NULL, L, x);
      if nodes[x].left != NIL {
        y := Maximum(nodes[x].left);
        return;
      }
      var c := x;
      y := nodes[c].parent;
      while y != NULL && c == nodes[y].left
        invariant Live(nodes, L, c) && NodeOk(nodes, root, NULL, L, c)
        invariant L.lo[c] == L.pos[x] && y == nodes[c].parent
        decreases |L.order| - (L.hi[c] - L.lo[c])
      {
        NodeAt(nodes, root, NULL, L, y);
        c := y;
        y := nodes[y].parent;
      }
      if y != NULL {
        NodeAt(nodes, root, NULL, L, y);
      }
    }
  }
}
