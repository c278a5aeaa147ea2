/** ft::set of inc/set.hpp: an ordered set of ints kept in a red-black
    tree, with tree iterators, the scans lower_bound/upper_bound/count,
    range insertion and erasure, assignment and the set comparisons. */
module FtSet {
  import opened Arena
  import opened SortedSeq
  import opened RedBlackTree
  import opened BidirectionalIterator
  import opened Utility
  import opened Algorithm

  /** s after inserting the elements of xs one by one, in order: what a
      range insert does to the set's element sequence. */
  ghost function InsertAll(s: seq<int>, xs: seq<int>): seq<int>
    decreases |xs|
  {
    if xs == [] then s else Insert(InsertAll(s, xs[..|xs| - 1]), xs[|xs| - 1])
  }

  lemma {:induction false} InsertAllElems(s: seq<int>, xs: seq<int>)
    ensures forall x :: x in InsertAll(s, xs) <==> x in s || x in xs
    decreases |xs|
  {
    if xs != [] {
      var init := xs[..|xs| - 1];
      InsertAllElems(s, init);
      InsertElems(InsertAll(s, init), xs[|xs| - 1]);
      assert xs == init + [xs[|xs| - 1]];
    }
  }

  lemma {:induction false} InsertAllIncreasing(s: seq<int>, xs: seq<int>)
    requires Increasing(s)
    ensures Increasing(InsertAll(s, xs))
    decreases |xs|
  {
    if xs != [] {
      InsertAllIncreasing(s, xs[..|xs| - 1]);
      InsertIncreasing(InsertAll(s, xs[..|xs| - 1]), xs[|xs| - 1]);
    }
  }

  /** One more element of a range insert. */
  lemma InsertAllSnoc(s: seq<int>, xs: seq<int>, x: int)
    ensures InsertAll(s, xs + [x]) == Insert(InsertAll(s, xs), x)
  {
    assert (xs + [x])[..|xs|] == xs;
  }

  /** A slice grown by one position. */
  lemma SliceSnoc(s: seq<int>, lo: int, p: int)
    requires 0 <= lo <= p < |s|
    ensures s[lo..p + 1] == s[lo..p] + [s[p]]
  {
  }

  /** Inserting an increasing sequence into an empty set rebuilds it:
      assignment and copying reproduce the source set. */
  lemma {:induction false} InsertAllIntoEmpty(xs: seq<int>)
    requires Increasing(xs)
    ensures InsertAll([], xs) == xs
    decreases |xs|
  {
    if xs != [] {
      var init := xs[..|xs| - 1];
      InsertAllIntoEmpty(init);
      InsertAt(init, xs[|xs| - 1], |init|);
      assert init + [xs[|xs| - 1]] == xs;
    }
  }

  /** The half-open range of positions [lo, hi) that lower_bound and
      upper_bound delimit in an increasing sequence holds exactly the
      elements equal to k: one position when k is present, none otherwise. */
  lemma EqualRangeIsKey(s: seq<int>, k: int, lo: int, hi: int)
    requires Increasing(s) && 0 <= lo <= |s| && 0 <= hi <= |s|
    requires forall q | 0 <= q < lo :: s[q] < k
    requires lo < |s| ==> !(s[lo] < k)
    requires forall q | 0 <= q < hi :: !(k < s[q])
    requires hi < |s| ==> k < s[hi]
    ensures forall q | 0 <= q < |s| :: (lo <= q < hi <==> s[q] == k)
    ensures hi - lo == if k in s then 1 else 0
  {
    forall i | 0 <= i < |s|
      ensures lo <= i < hi <==> s[i] == k
    {
      if hi <= i {
        if hi < i {
          assert s[hi] < s[i];
        }
      }
    }
    if k in s {
      var q :| 0 <= q < |s| && s[q] == k;
      IncreasingUnique(s, lo, q);
      IncreasingUnique(s, hi - 1, q);
    }
  }

  /** Strictly increasing sequences hold each value at one position. */
  lemma IncreasingUnique(s: seq<int>, i: int, j: int)
    requires Increasing(s) && 0 <= i < |s| && 0 <= j < |s| && s[i] == s[j]
    ensures i == j
  {
  }

  /** Element j of E0, j >= q, sits at position p0 + (j - q) once
      E0[p0..q] is cut out. */
  lemma AtCut(E0: seq<int>, p0: int, q: int, j: int)
    requires 0 <= p0 <= q <= j < |E0|
    ensures p0 + (j - q) < |E0[..p0] + E0[q..]| && (E0[..p0] + E0[q..])[p0 + (j - q)] == E0[j]
  {
  }

  /** Removing E0[q] from E0[..p0] + E0[q..] cuts one more element. */
  lemma CutOne(E0: seq<int>, p0: int, q: int, E': seq<int>)
    requires Increasing(E0) && 0 <= p0 <= q < |E0| && E' == Remove(E0[..p0] + E0[q..], E0[q])
    ensures E' == E0[..p0] + E0[q + 1..]
  {
    var E := E0[..p0] + E0[q..];
    CutIncreasing(E0, p0, q);
    RemoveAt(E, p0);
    assert E[p0] == E0[q];
    assert E[..p0] == E0[..p0];
    assert E[p0 + 1..] == E0[q + 1..];
  }

  /** Cutting out a slice keeps a sequence increasing. */
  lemma CutIncreasing(E0: seq<int>, p0: int, q: int)
    requires Increasing(E0) && 0 <= p0 <= q <= |E0|
    ensures Increasing(E0[..p0] + E0[q..])
  {
    var E := E0[..p0] + E0[q..];
    forall a, b | 0 <= a < b < |E| ensures E[a] < E[b] {
      var a', b' := if a < p0 then a else a + (q - p0), if b < p0 then b else b + (q - p0);
      assert E[a] == E0[a'] && E[b] == E0[b'];
    }
  }

  /** Every node of (n0, L0) whose key is not k is still live in
      (n1, L1) with the same key: erasing k leaves other elements where
      they are, so iterators to them stay usable. */
  ghost predicate KeptExcept(n0: seq<Node>, L0: Layout, n1: seq<Node>, L1: Layout, k: int) {
    forall m | Live(n0, L0, m) && n0[m].key != k :: Live(n1, L1, m) && n1[m].key == n0[m].key
  }

  /** An iterator at position p0 + (j - q) of E0[..p0] + E0[q..]
      denotes E0[j], or is the end iterator when j == |E0|. */
  lemma IteratorAtCut(t: TreeIterator, E0: seq<int>, p0: int, q: int, j: int)
    requires 0 <= p0 <= q <= j <= |E0|
    requires t.Valid() && t.tree.Contents() == E0[..p0] + E0[q..] && t.Position() == p0 + (j - q)
    ensures t.ptr != NIL ==> j < |E0| && t.tree.nodes[t.ptr].key == E0[j]
    ensures t.ptr == NIL ==> j == |E0|
  {
    if t.ptr != NIL {
      assert t.tree.Contents()[t.Position()] == t.Deref();
      AtCut(E0, p0, q, j);
    }
  }

  /** After E0[q] is erased from E0[..p0] + E0[q..], iterators to
      E0[q + 1] and E0[q0] (or the end) move one position down. */
  lemma SurvivorPositions(it: TreeIterator, last: TreeIterator, n0: seq<Node>, L0: Layout,
                          E0: seq<int>, p0: int, q: int, q0: int)
    requires it.tree == last.tree && it.tree.Valid()
    requires Increasing(E0) && 0 <= p0 <= q < q0 <= |E0|
    requires KeptExcept(n0, L0, it.tree.nodes, it.tree.L, E0[q])
    requires it.tree.Contents() == E0[..p0] + E0[q + 1..]
    requires it.ptr == NIL || (Live(n0, L0, it.ptr) && q + 1 < |E0| && n0[it.ptr].key == E0[q + 1])
    requires it.ptr != NIL || q + 1 == |E0|
    requires last.ptr == NIL || (Live(n0, L0, last.ptr) && q0 < |E0| && n0[last.ptr].key == E0[q0])
    requires last.ptr != NIL || q0 == |E0|
    ensures it.Valid() && last.Valid()
    ensures it.Position() == p0 && last.Position() == p0 + (q0 - q - 1)
  {
    if it.ptr != NIL {
      AtCut(E0, p0, q + 1, q + 1);
      SurvivorPosition(it, n0, L0, E0[q], p0);
    }
    if last.ptr != NIL {
      AtCut(E0, p0, q + 1, q0);
      SurvivorPosition(last, n0, L0, E0[q], p0 + (q0 - q - 1));
    }
  }

  /** An iterator to a node that survived the erasure of k stays valid
      and sits where its key now is. */
  lemma SurvivorPosition(t: TreeIterator, n0: seq<Node>, L0: Layout, k: int, i: int)
    requires t.tree.Valid() && KeptExcept(n0, L0, t.tree.nodes, t.tree.L, k)
    requires t.ptr != NIL && Live(n0, L0, t.ptr) && n0[t.ptr].key != k
    requires 0 <= i < |t.tree.Contents()| && t.tree.Contents()[i] == n0[t.ptr].key
    ensures t.Valid() && t.Position() == i
  {
    assert Live(t.tree.nodes, t.tree.L, t.ptr) && t.tree.nodes[t.ptr].key == n0[t.ptr].key;
    PositionOfKey(t, i);
  }

  /** A live iterator denotes the one position that holds its node's key. */
  lemma PositionOfKey(t: TreeIterator, i: int)
    requires t.Valid() && t.ptr != NIL && 0 <= i < |t.tree.Contents()|
    requires t.tree.Contents()[i] == t.tree.nodes[t.ptr].key
    ensures t.Position() == i
  {
    SortedKeys(t.tree.nodes, t.tree.L);
    assert t.tree.Contents()[t.Position()] == t.Deref();
    IncreasingUnique(t.tree.Contents(), t.Position(), i);
  }

  /** [it, last) over another tree whose elements are src: it has moved
      from position lo towards last, which is at hi. */
  ghost predicate SourceRange(it: TreeIterator, last: TreeIterator, src: seq<int>, lo: int, hi: int)
    reads it, it.tree, last, last.tree
  {
    it.Valid() && last.Valid() && it.tree == last.tree && it != last &&
    it.tree.Contents() == src && last.Position() == hi && 0 <= lo <= it.Position() <= hi
  }

  class Set {
    const tree: RBTree

    ghost predicate Valid()
      reads tree
    {
      tree.Valid()
    }

    /** The elements in iteration order. */
    ghost function Elements(): seq<int>
      reads tree
    {
      tree.Contents()
    }

    /** The default constructor: an empty set. */
    constructor ()
      ensures Valid() && Elements() == [] && fresh(tree)
    {
      tree := new RBTree();
    }

    /** The range constructor: the elements of [first, last) of another
        set, inserted one by one. */
    constructor FromRange(first: TreeIterator, last: TreeIterator)
      requires first.Valid() && last.Valid() && first.tree == last.tree
      requires first.Position() <= last.Position()
      ensures Valid() && fresh(tree)
      ensures Elements() == InsertAll([], first.tree.Contents()[first.Position()..last.Position()])
    {
      tree := new RBTree();
      new;
      InsertRange(first, last);
    }

    /** The copy constructor: the elements of x. */
    constructor Copy(x: Set)
      requires x.Valid()
      ensures Valid() && fresh(tree) && Elements() == x.Elements()
    {
      tree := new RBTree();
      new;
      var b := x.Begin();
      var e := x.End();
      InsertRange(b, e);
      SortedKeys(x.tree.nodes, x.tree.L);
      InsertAllIntoEmpty(x.Elements());
      assert x.Elements()[0..|x.Elements()|] == x.Elements();
    }

    /** begin(): the iterator at the least element (the end of an empty set). */
    method Begin() returns (it: TreeIterator)
      requires Valid()
      ensures fresh(it) && it.tree == tree && it.root == tree.root
      ensures it.Valid() && it.Position() == 0
    {
      var m := tree.MinimumFrom(tree.root);
      it := new TreeIterator(m, tree.root, tree);
      if tree.root != NIL {
        NodeAt(tree.nodes, tree.root, NULL, tree.L, tree.root);
      }
    }

    /** end(): the iterator past the greatest element. */
    method End() returns (it: TreeIterator)
      requires Valid()
      ensures fresh(it) && it.tree == tree && it.root == tree.root
      ensures it.Valid() && it.Position() == |Elements()|
    {
      it := new TreeIterator(NIL, tree.root, tree);
    }

    method IsEmpty() returns (b: bool)
      requires Valid()
      ensures b <==> Elements() == []
    {
      b := tree.size == 0;
    }

    method Size() returns (n: nat)
      requires Valid()
      ensures n == |Elements()|
    {
      n := tree.size;
    }

    /** find(k): the iterator at k, or end() when k is absent. */
    method Find(k: int) returns (it: TreeIterator)
      requires Valid()
      ensures fresh(it) && it.tree == tree && it.root == tree.root && it.Valid()
      ensures k in Elements() ==> it.Position() < |Elements()| && Elements()[it.Position()] == k
      ensures k !in Elements() ==> it.Position() == |Elements()|
    {
      var t := tree.SearchTree(k);
      if t == NIL {
        it := End();
      } else {
        it := new TreeIterator(t, tree.root, tree);
      }
    }

    /** insert(v): a present v gives (find(v), false) and leaves the set
        alone; otherwise v is inserted and (find(v), true) is returned. */
    method Insert(v: int) returns (p: Pair<TreeIterator, bool>)
      requires Valid()
      modifies tree
      ensures Valid() && Elements() == SortedSeq.Insert(old(Elements()), v)
      ensures p.second <==> v !in old(Elements())
      ensures !p.second ==> Elements() == old(Elements()) && unchanged(tree)
      ensures forall n | old(Live(tree.nodes, tree.L, n)) ::
        Live(tree.nodes, tree.L, n) && tree.nodes[n].key == old(tree.nodes[n].key)
      ensures fresh(p.first) && p.first.tree == tree && p.first.Valid()
      ensures p.first.Position() < |Elements()| && Elements()[p.first.Position()] == v
    {
      var it := Find(v);
      var e := End();
      if it.NotEquals(e) {
        SortedKeys(tree.nodes, tree.L);
        InsertPresent(Elements(), v);
        return Pair(it, false);
      }
      var _ := tree.InsertNode(v);
      InsertElems(old(Elements()), v);
      it := Find(v);
      p := Pair(it, true);
    }

    /** insert(position, v): the hint is ignored. */
    method InsertHint(position: TreeIterator, v: int) returns (it: TreeIterator)
      requires Valid()
      modifies tree
      ensures Valid() && Elements() == SortedSeq.Insert(old(Elements()), v)
      ensures v in old(Elements()) ==> unchanged(tree)
      ensures forall n | old(Live(tree.nodes, tree.L, n)) ::
        Live(tree.nodes, tree.L, n) && tree.nodes[n].key == old(tree.nodes[n].key)
      ensures fresh(it) && it.tree == tree && it.Valid()
      ensures it.Position() < |Elements()| && Elements()[it.Position()] == v
    {
      var p := Insert(v);
      it := p.first;
    }

    /** insert(first, last): inserts the elements of [first, last) of
        another set in order. The iterators are taken by value: the
        caller's first is not advanced. */
    method InsertRange(first: TreeIterator, last: TreeIterator)
      requires Valid() && first.Valid() && last.Valid()
      requires first.tree == last.tree && first.tree != tree
      requires first.Position() <= last.Position()
      modifies tree
      ensures Valid()
      ensures Elements() == InsertAll(old(Elements()), first.tree.Contents()[first.Position()..last.Position()])
    {
      ghost var src, E0 := first.tree.Contents(), Elements();
      ghost var lo, hi := first.Position(), last.Position();
      var it := new TreeIterator(first.ptr, first.root, first.tree);
      while it.NotEquals(last)
        invariant InsertingRange(it, last, src, lo, hi, E0)
        decreases hi - it.Position()
      {
        InsertNext(it, last, src, lo, hi, E0);
      }
    }

    /** The state of insert(first, last) over src, the elements of
        another set, into a set that held E0: it has moved from lo towards
        last, at hi, and what it passed has been inserted in order. */
    ghost predicate InsertingRange(it: TreeIterator, last: TreeIterator, src: seq<int>, lo: int, hi: int, E0: seq<int>)
      reads tree, it, it.tree, last, last.tree
    {
      SourceRange(it, last, src, lo, hi) && it.tree != tree && Valid() &&
      Elements() == InsertAll(E0, src[lo..it.Position()])
    }

    /** One pass of insert(first, last): insert(*(first++)). */
    method InsertNext(it: TreeIterator, last: TreeIterator, ghost src: seq<int>, ghost lo: int, ghost hi: int,
                      ghost E0: seq<int>)
      requires InsertingRange(it, last, src, lo, hi, E0) && it.Position() < hi
      modifies tree, it
      ensures InsertingRange(it, last, src, lo, hi, E0)
      ensures it.Position() == old(it.Position()) + 1
      ensures Elements() == SortedSeq.Insert(old(Elements()), src[old(it.Position())])
    {
      ghost var p, done := it.Position(), src[lo..it.Position()];
      var v := NextSource(it, last, src, lo, hi);
      SliceSnoc(src, lo, p);
      InsertAllSnoc(E0, done, v);
      InsertSource(it, last, src, lo, hi, E0, done, v);
    }

    /** insert(v) of the range insert, for v the element just passed: the
        source range is untouched and the passed prefix grows by v. */
    method InsertSource(it: TreeIterator, last: TreeIterator, ghost src: seq<int>, ghost lo: int, ghost hi: int,
                        ghost E0: seq<int>, ghost done: seq<int>, v: int)
      requires SourceRange(it, last, src, lo, hi) && it.tree != tree && Valid()
      requires Elements() == InsertAll(E0, done) && done + [v] == src[lo..it.Position()]
      requires InsertAll(E0, done + [v]) == SortedSeq.Insert(InsertAll(E0, done), v)
      modifies tree
      ensures InsertingRange(it, last, src, lo, hi, E0)
      ensures Elements() == SortedSeq.Insert(old(Elements()), v)
    {
      var _ := Insert(v);
      assert unchanged(it, last, it.tree);
      InsertedRange(it, last, src, lo, hi, E0, done + [v]);
    }

    /** The range-insert state, from its parts. */
    lemma InsertedRange(it: TreeIterator, last: TreeIterator, src: seq<int>, lo: int, hi: int, E0: seq<int>,
                        done: seq<int>)
      requires SourceRange(it, last, src, lo, hi) && it.tree != tree && Valid()
      requires done == src[lo..it.Position()] && Elements() == InsertAll(E0, done)
      ensures InsertingRange(it, last, src, lo, hi, E0)
    {
    }

    /** *(first++) within [first, last): the element at position p of the
        source, after which first is at p + 1. */
    static method NextSource(it: TreeIterator, last: TreeIterator, ghost src: seq<int>, ghost lo: int,
                             ghost hi: int) returns (v: int)
      requires SourceRange(it, last, src, lo, hi) && it.Position() < hi
      modifies it
      ensures SourceRange(it, last, src, lo, hi) && it.Position() == old(it.Position()) + 1
      ensures v == src[old(it.Position())]
    {
      v := Advance(it);
    }

    /** *(first++): the element at the iterator, which then moves on. */
    static method Advance(it: TreeIterator) returns (v: int)
      requires it.Valid() && it.ptr != NIL
      modifies it
      ensures it.Valid() && it.Position() == old(it.Position()) + 1
      ensures v == it.tree.Contents()[old(it.Position())]
    {
      v := it.Deref();
      it.Increment();
    }

    /** erase(k): 1 when deleteNode found k, 0 otherwise. Every other
        node of the tree survives with its key, so iterators to other
        elements stay usable. */
    method Erase(k: int) returns (n: nat)
      requires Valid()
      modifies tree
      ensures Valid() && Elements() == Remove(old(Elements()), k)
      ensures n == if k in old(Elements()) then 1 else 0
      ensures KeptExcept(old(tree.nodes), old(tree.L), tree.nodes, tree.L, k)
    {
      var found := tree.DeleteNode(k);
      if found {
        return 1;
      }
      return 0;
    }

    /** erase(position): erases the element the iterator denotes. At end()
        the iterator reads the sentinel's value, and that key is erased if
        the set holds it. */
    method ErasePosition(position: TreeIterator)
      requires Valid() && position.Valid() && position.tree == tree
      modifies tree
      ensures Valid()
      ensures position.ptr != NIL ==>
        Elements() == old(Elements()[..position.Position()] + Elements()[position.Position() + 1..])
      ensures position.ptr == NIL ==> Elements() == Remove(old(Elements()), old(tree.nodes[NIL].key))
    {
      if position.ptr == NIL {
        var _ := Erase(tree.nodes[NIL].key);
      } else {
        ghost var E, q := Elements(), position.Position();
        SortedKeys(tree.nodes, tree.L);
        RemoveAt(E, q);
        var _ := Erase(position.Deref());
      }
    }

    /** erase(first, last): erases the elements of [first, last), each
        after the iterator has moved past it. */
    method EraseRange(first: TreeIterator, last: TreeIterator)
      requires Valid() && first.Valid() && last.Valid() && first.tree == tree && last.tree == tree
      requires first.Position() <= last.Position()
      modifies tree
      ensures Valid()
      ensures Elements() == old(Elements()[..first.Position()] + Elements()[last.Position()..])
    {
      ghost var E0, p0, q0 := Elements(), first.Position(), last.Position();
      var it := new TreeIterator(first.ptr, first.root, first.tree);
      ghost var q := p0;
      SortedKeys(tree.nodes, tree.L);
      assert E0[..p0] + E0[p0..] == E0;
      while it.NotEquals(last)
        invariant ErasingRange(it, last, E0, p0, q, q0)
        invariant it.Equals(last) <==> q == q0
        decreases q0 - q
      {
        EraseNext(it, last, E0, p0, q, q0);
        q := q + 1;
      }
    }

    /** The state of erase(first, last) on a set that held E0: the
        elements from p0 up to q are gone, it is at p0 and last still
        denotes E0[q0]. */
    ghost predicate ErasingRange(it: TreeIterator, last: TreeIterator, E0: seq<int>, p0: int, q: int, q0: int)
      reads tree, it, last
    {
      it.tree == tree && last.tree == tree && Valid() && it.Valid() && last.Valid() &&
      Increasing(E0) && 0 <= p0 <= q <= q0 <= |E0| && Elements() == E0[..p0] + E0[q..] &&
      it.Position() == p0 && last.Position() == p0 + (q0 - q)
    }

    /** One pass of erase(first, last): erase(*(first++)). */
    method EraseNext(it: TreeIterator, last: TreeIterator, ghost E0: seq<int>, ghost p0: int,
                     ghost q: int, ghost q0: int)
      requires ErasingRange(it, last, E0, p0, q, q0) && q < q0
      modifies tree, it
      ensures ErasingRange(it, last, E0, p0, q + 1, q0)
      ensures it.Equals(last) <==> q + 1 == q0
    {
      var v := it.Deref();
      it.Increment();
      EraseStep(it, last, E0, p0, q, q0, v);
    }

    /** Erasing v, the element at position p0 (E0[q]), once it has moved
        one step on: it and last keep denoting E0[q + 1] and E0[q0], now
        one position earlier. */
    method EraseStep(it: TreeIterator, last: TreeIterator, ghost E0: seq<int>, ghost p0: int,
                     ghost q: int, ghost q0: int, v: int)
      requires Valid() && it.Valid() && last.Valid() && it.tree == tree && last.tree == tree
      requires Increasing(E0) && 0 <= p0 <= q < q0 <= |E0|
      requires Elements() == E0[..p0] + E0[q..] && v == E0[q]
      requires it.Position() == p0 + 1 && last.Position() == p0 + (q0 - q)
      modifies tree
      ensures Valid() && it.Valid() && last.Valid()
      ensures Elements() == E0[..p0] + E0[q + 1..]
      ensures it.Position() == p0 && last.Position() == p0 + (q0 - q - 1)
    {
      ghost var n0, L0 := tree.nodes, tree.L;
      IteratorAtCut(it, E0, p0, q, q + 1);
      IteratorAtCut(last, E0, p0, q, q0);
      var _ := Erase(v);
      CutOne(E0, p0, q, Elements());
      SurvivorPositions(it, last, n0, L0, E0, p0, q, q0);
    }

    /** count(k): scans the elements in order for one equal to k. */
    method Count(k: int) returns (c: nat)
      requires Valid()
      ensures c == if k in Elements() then 1 else 0
    {
      var beg := Begin();
      var end := End();
      while beg.NotEquals(end)
        invariant beg.Valid() && end.Valid() && beg.tree == tree && end.tree == tree
        invariant beg.Position() <= end.Position() == |Elements()|
        invariant k !in Elements()[..beg.Position()]
        decreases |Elements()| - beg.Position()
      {
        var at := beg.PostIncrement();
        if at.Deref() == k {
          return 1;
        }
        assert Elements()[..beg.Position()] == Elements()[..at.Position()] + [at.Deref()];
      }
      assert Elements()[..beg.Position()] == Elements();
      return 0;
    }

    /** lower_bound(k): a linear scan for the first element that is not
        less than k. */
    method LowerBound(k: int) returns (it: TreeIterator)
      requires Valid()
      ensures fresh(it) && it.tree == tree && it.Valid()
      ensures forall q | 0 <= q < it.Position() :: Elements()[q] < k
      ensures it.Position() < |Elements()| ==> !(Elements()[it.Position()] < k)
    {
      it := Begin();
      var end := End();
      while it.NotEquals(end)
        invariant it.Valid() && end.Valid() && it.tree == tree && end.tree == tree && fresh(it)
        invariant it.Position() <= end.Position() == |Elements()|
        invariant forall q | 0 <= q < it.Position() :: Elements()[q] < k
        decreases |Elements()| - it.Position()
      {
        if !(it.Deref() < k) {
          break;
        }
        it.Increment();
      }
    }

    /** upper_bound(k): a linear scan for the first element greater than k. */
    method UpperBound(k: int) returns (it: TreeIterator)
      requires Valid()
      ensures fresh(it) && it.tree == tree && it.Valid()
      ensures forall q | 0 <= q < it.Position() :: !(k < Elements()[q])
      ensures it.Position() < |Elements()| ==> k < Elements()[it.Position()]
    {
      it := Begin();
      var end := End();
      while it.NotEquals(end)
        invariant it.Valid() && end.Valid() && it.tree == tree && end.tree == tree && fresh(it)
        invariant it.Position() <= end.Position() == |Elements()|
        invariant forall q | 0 <= q < it.Position() :: !(k < Elements()[q])
        decreases |Elements()| - it.Position()
      {
        if k < it.Deref() {
          break;
        }
        it.Increment();
      }
    }

    /** equal_range(k): (lower_bound(k), upper_bound(k)), which delimit
        exactly the positions holding k. */
    method EqualRange(k: int) returns (r: Pair<TreeIterator, TreeIterator>)
      requires Valid()
      ensures r.first.Valid() && r.second.Valid() && r.first.tree == tree && r.second.tree == tree
      ensures forall q | 0 <= q < |Elements()| ::
        (r.first.Position() <= q < r.second.Position() <==> Elements()[q] == k)
      ensures r.second.Position() - r.first.Position() == if k in Elements() then 1 else 0
    {
      var lo := LowerBound(k);
      var hi := UpperBound(k);
      SortedKeys(tree.nodes, tree.L);
      EqualRangeIsKey(Elements(), k, lo.Position(), hi.Position());
      r := MakePair(lo, hi);
    }

    /** clear(): clear_h from the root. */
    method Clear()
      requires Valid()
      modifies tree
      ensures Valid() && Elements() == []
    {
      tree.ClearH(tree.root);
    }

    /** operator=: assigning a set to itself changes nothing; otherwise a
        non-empty target is cleared and the elements of x are inserted. */
    method Assign(x: Set)
      requires Valid() && x.Valid() && (x == this || x.tree != tree)
      modifies tree
      ensures Valid() && Elements() == old(x.Elements())
    {
      if this == x {
        return;
      }
      if tree.root != NIL {
        Clear();
      }
      assert Elements() == [] by {
        if old(tree.root) == NIL {
          assert old(tree.L.order) == [];
        }
      }
      var b := x.Begin();
      var e := x.End();
      InsertRange(b, e);
      SortedKeys(x.tree.nodes, x.tree.L);
      InsertAllIntoEmpty(x.Elements());
      assert x.Elements()[0..|x.Elements()|] == x.Elements();
    }

    /** swap(x): the two sets exchange their contents; swapping a set with
        itself leaves it as it was. */
    method Swap(x: Set)
      requires Valid() && x.Valid()
      modifies tree, x.tree
      ensures Valid() && x.Valid()
      ensures Elements() == old(x.Elements()) && x.Elements() == old(Elements())
    {
      tree.Swap(x.tree);
    }

    /** The range [begin(), end()) as a non-member algorithm reads it. */
    method Items() returns (r: seq<int>)
      requires Valid()
      ensures r == Elements()
    {
      var beg := Begin();
      var end := End();
      r := [];
      while beg.NotEquals(end)
        invariant beg.Valid() && end.Valid() && beg.tree == tree && end.tree == tree
        invariant beg.Position() <= end.Position() == |Elements()|
        invariant r == Elements()[..beg.Position()]
        decreases |Elements()| - beg.Position()
      {
        r := r + [beg.Deref()];
        beg.Increment();
      }
    }
  }

  /** operator==: sets of different sizes differ; otherwise ft::equal
      over their ranges. */
  method SetEqual(lhs: Set, rhs: Set) returns (r: bool)
    requires lhs.Valid() && rhs.Valid()
    ensures r <==> lhs.Elements() == rhs.Elements()
  {
    var n1 := lhs.Size();
    var n2 := rhs.Size();
    if n1 != n2 {
      return false;
    }
    var a := lhs.Items();
    var b := rhs.Items();
    r := Equal(a, 0, |a|, b, 0);
    assert a[0..|a|] == a && b[0..|a|] == b;
  }

  /** operator!=: !(rhs == lhs). */
  method SetNotEqual(lhs: Set, rhs: Set) returns (r: bool)
    requires lhs.Valid() && rhs.Valid()
    ensures r <==> lhs.Elements() != rhs.Elements()
  {
    var e := SetEqual(rhs, lhs);
    r := !e;
  }

  /** operator<: ft::lexicographical_compare over the two ranges. */
  method SetLess(lhs: Set, rhs: Set) returns (r: bool)
    requires lhs.Valid() && rhs.Valid()
    ensures r == LexLess(lhs.Elements(), rhs.Elements())
  {
    var a := lhs.Items();
    var b := rhs.Items();
    r := LexicographicalCompare(a, 0, |a|, b, 0, |b|);
    assert a[0..|a|] == a && b[0..|b|] == b;
  }

  /** operator>: rhs < lhs. */
  method SetGreater(lhs: Set, rhs: Set) returns (r: bool)
    requires lhs.Valid() && rhs.Valid()
    ensures r == LexLess(rhs.Elements(), lhs.Elements())
  {
    r := SetLess(rhs, lhs);
  }

  /** operator<=: !(rhs < lhs). */
  method SetLessEq(lhs: Set, rhs: Set) returns (r: bool)
    requires lhs.Valid() && rhs.Valid()
    ensures r <==> LexLess(lhs.Elements(), rhs.Elements()) || lhs.Elements() == rhs.Elements()
  {
    var g := SetLess(rhs, lhs);
    r := !g;
    LexLessTrichotomy(lhs.Elements(), rhs.Elements());
    LexLessIrreflexive(lhs.Elements());
  }

  /** operator>=: !(lhs < rhs). */
  method SetGreaterEq(lhs: Set, rhs: Set) returns (r: bool)
    requires lhs.Valid() && rhs.Valid()
    ensures r <==> LexLess(rhs.Elements(), lhs.Elements()) || lhs.Elements() == rhs.Elements()
  {
    var l := SetLess(lhs, rhs);
    r := !l;
    LexLessTrichotomy(lhs.Elements(), rhs.Elements());
    LexLessIrreflexive(lhs.Elements());
  }
}
