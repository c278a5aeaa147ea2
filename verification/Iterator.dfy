/** reverse_iterator, random_access_iterator and distance of
    inc/iterator.hpp. A random-access iterator is a position (the pointer)
    into a buffer of ints; a reverse iterator holds the position of its base
    iterator. Dereferencing takes the buffer as a parameter. */
module Iterator {

  /** random_access_iterator: a pointer that moves by whole elements. */
  class RandomAccessIterator {
    var ptr: int

    constructor (p: int)
      ensures ptr == p
    {
      ptr := p;
    }

    /** operator*: the element at the pointer, which is operator[](0). */
    function Deref(buf: seq<int>): (v: int)
      reads this
      requires 0 <= ptr < |buf|
      ensures v == At(buf, 0)
    {
      buf[ptr]
    }

    /** operator[](n): the element n places after the pointer, or -n
        places before it when n is negative. */
    function At(buf: seq<int>, n: int): (v: int)
      reads this
      requires 0 <= ptr + n < |buf|
      ensures 0 <= ptr <= |buf| && 0 <= n ==> v == buf[ptr..][n]
      ensures 0 <= ptr <= |buf| && n < 0 ==> v == buf[..ptr][ptr + n]
    {
      buf[ptr + n]
    }

    /** Prefix ++. */
    method Increment()
      modifies this
      ensures ptr == old(ptr) + 1
    {
      ptr := ptr + 1;
    }

    /** Prefix --. */
    method Decrement()
      modifies this
      ensures ptr == old(ptr) - 1
    {
      ptr := ptr - 1;
    }

    /** Postfix ++: advances, and returns a copy of the old position. */
    method PostIncrement() returns (tmp: RandomAccessIterator)
      modifies this
      ensures fresh(tmp) && tmp.ptr == old(ptr) && ptr == old(ptr) + 1
    {
      tmp := new RandomAccessIterator(ptr);
      ptr := ptr + 1;
    }

    /** Postfix --. */
    method PostDecrement() returns (tmp: RandomAccessIterator)
      modifies this
      ensures fresh(tmp) && tmp.ptr == old(ptr) && ptr == old(ptr) - 1
    {
      tmp := new RandomAccessIterator(ptr);
      ptr := ptr - 1;
    }

    /** operator+=(n). */
    method AddAssign(n: int)
      modifies this
      ensures ptr == old(ptr) + n
    {
      ptr := ptr + n;
    }

    /** operator-=(n). */
    method SubAssign(n: int)
      modifies this
      ensures ptr == old(ptr) - n
    {
      ptr := ptr - n;
    }

    /** operator+(n): a new iterator n places further on. */
    method Plus(n: int) returns (r: RandomAccessIterator)
      ensures fresh(r) && r.ptr == ptr + n
    {
      r := new RandomAccessIterator(ptr + n);
    }

    /** operator-(n): a new iterator n places back. */
    method Minus(n: int) returns (r: RandomAccessIterator)
      ensures fresh(r) && r.ptr == ptr - n
    {
      r := new RandomAccessIterator(ptr - n);
    }
  }

  /** operator-(lhs, rhs) on random-access iterators: the number of
      places rhs must move forward to reach lhs. */
  function Difference(lhs: RandomAccessIterator, rhs: RandomAccessIterator): (d: int)
    reads lhs, rhs
    ensures rhs.ptr + d == lhs.ptr
  {
    lhs.ptr - rhs.ptr
  }

  /** operator< on random-access iterators: lhs is below rhs exactly when
      their difference is negative; !=, <=, >, >= compare the pointers the
      same way. */
  function Less(lhs: RandomAccessIterator, rhs: RandomAccessIterator): (b: bool)
    reads lhs, rhs
    ensures b <==> Difference(lhs, rhs) < 0
  {
    lhs.ptr < rhs.ptr
  }

  /** operator==: the two iterators are at zero distance. */
  function Same(lhs: RandomAccessIterator, rhs: RandomAccessIterator): (b: bool)
    reads lhs, rhs
    ensures b <==> Difference(lhs, rhs) == 0
  {
    lhs.ptr == rhs.ptr
  }

  /** n steps of ++ from a position land at the position n further on, and
      the element found there is operator[](n) of the start. */
  lemma AtIsAdvancedDeref(buf: seq<int>, it: RandomAccessIterator, moved: RandomAccessIterator, n: int)
    requires moved.ptr == it.ptr + n && 0 <= it.ptr + n < |buf|
    ensures moved.Deref(buf) == it.At(buf, n) && Difference(moved, it) == n
  {
  }

  /** distance(first, last): the number of ++ steps from first until it
      equals last. The loop ends only when last is reachable from first. */
  method Distance(first: RandomAccessIterator, last: RandomAccessIterator) returns (dist: int)
    requires first.ptr <= last.ptr
    ensures dist == Difference(last, first)
  {
    var it := new RandomAccessIterator(first.ptr);
    dist := 0;
    while !Same(it, last)
      invariant it.ptr == first.ptr + dist && it.ptr <= last.ptr
      decreases last.ptr - it.ptr
    {
      dist := dist + 1;
      it.Increment();
    }
  }

  /** reverse_iterator over a random-access iterator: `base` is the position
      of the underlying iterator, one past the element it denotes. */
  class ReverseIterator {
    var base: int

    /** reverse_iterator(x): wraps the position x. */
    constructor (x: int)
      ensures base == x
    {
      base := x;
    }

    /** operator*: the element one before the base, which is operator[](0).
        An iterator k steps from rbegin (whose base is the end of the
        buffer) reads the k-th element of the buffer taken back to front. */
    function Deref(buf: seq<int>): (v: int)
      reads this
      requires 0 < base <= |buf|
      ensures v == At(buf, 0)
      ensures v == Reversed(buf)[|buf| - base]
    {
      ReversedAt(buf, |buf| - base);
      buf[base - 1]
    }

    /** operator[](n), base[-n-1]: the element n steps further along the
        buffer taken back to front. */
    function At(buf: seq<int>, n: int): (v: int)
      reads this
      requires 0 <= base - n - 1 < |buf|
      ensures v == Reversed(buf)[|buf| - base + n]
    {
      ReversedAt(buf, |buf| - base + n);
      buf[base - n - 1]
    }

    /** Prefix ++ moves the base back. */
    method Increment()
      modifies this
      ensures base == old(base) - 1
    {
      base := base - 1;
    }

    /** Prefix -- moves the base forward. */
    method Decrement()
      modifies this
      ensures base == old(base) + 1
    {
      base := base + 1;
    }

    /** Postfix ++: returns a copy of the old iterator. */
    method PostIncrement() returns (tmp: ReverseIterator)
      modifies this
      ensures fresh(tmp) && tmp.base == old(base) && base == old(base) - 1
    {
      tmp := new ReverseIterator(base);
      base := base - 1;
    }

    /** Postfix --. */
    method PostDecrement() returns (tmp: ReverseIterator)
      modifies this
      ensures fresh(tmp) && tmp.base == old(base) && base == old(base) + 1
    {
      tmp := new ReverseIterator(base);
      base := base + 1;
    }

    /** operator+=(n) moves the base n back. */
    method AddAssign(n: int)
      modifies this
      ensures base == old(base) - n
    {
      base := base - n;
    }

    /** operator-=(n) moves the base n forward. */
    method SubAssign(n: int)
      modifies this
      ensures base == old(base) + n
    {
      base := base + n;
    }

    /** operator+(n): reverse_iterator(base - n); the free operator+(n, it)
        is the same. */
    method Plus(n: int) returns (r: ReverseIterator)
      ensures fresh(r) && r.base == base - n
    {
      r := new ReverseIterator(base - n);
    }

    /** operator-(n): reverse_iterator(base + n). */
    method Minus(n: int) returns (r: ReverseIterator)
      ensures fresh(r) && r.base == base + n
    {
      r := new ReverseIterator(base + n);
    }
  }

  /** operator-(lhs, rhs) on reverse iterators: the number of ++ steps
      (each moving the base back by one) that take rhs to lhs. */
  function ReverseDifference(lhs: ReverseIterator, rhs: ReverseIterator): (d: int)
    reads lhs, rhs
    ensures lhs.base == rhs.base - d
  {
    rhs.base - lhs.base
  }

  /** operator< on reverse iterators, lhs.base() > rhs.base(): lhs comes
      first in reverse order exactly when lhs - rhs is negative; <=, >, >=
      invert the base comparison the same way. */
  function ReverseLess(lhs: ReverseIterator, rhs: ReverseIterator): (b: bool)
    reads lhs, rhs
    ensures b <==> ReverseDifference(lhs, rhs) < 0
  {
    lhs.base > rhs.base
  }

  /** operator== on reverse iterators: equal bases, so zero distance; !=
      is its negation. */
  function ReverseSame(lhs: ReverseIterator, rhs: ReverseIterator): (b: bool)
    reads lhs, rhs
    ensures b <==> ReverseDifference(lhs, rhs) == 0
  {
    lhs.base == rhs.base
  }

  /** The buffer read back to front. */
  ghost function Reversed(buf: seq<int>): (r: seq<int>)
    ensures |r| == |buf|
  {
    if buf == [] then [] else Reversed(buf[1..]) + [buf[0]]
  }

  lemma {:induction false} ReversedAt(buf: seq<int>, k: int)
    requires 0 <= k < |buf|
    ensures Reversed(buf)[k] == buf[|buf| - 1 - k]
  {
    if k < |buf| - 1 {
      ReversedAt(buf[1..], k);
    }
  }
}
