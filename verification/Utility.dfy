/** ft::pair and make_pair of inc/utility.hpp, with the comparison
    operators on pairs of ints. */
module Utility {
  import opened Algorithm

  /** A pair: `first` and `second`, stored as given. Copying (the copy
      constructor and operator=) is the value semantics of a datatype. */
  datatype Pair<A, B> = Pair(first: A, second: B)

  /** make_pair(x, y) builds the pair whose components are x and y. */
  function MakePair<A, B>(x: A, y: B): (p: Pair<A, B>)
    ensures p.first == x && p.second == y
  {
    Pair(x, y)
  }

  /** Building a pair from its own components gives it back: make_pair is
      the two-argument constructor. */
  lemma MakePairComponents<A, B>(p: Pair<A, B>)
    ensures MakePair(p.first, p.second) == p
  {
  }

  /** operator==: both components equal, which is equality of the pairs. */
  function Eq(lhs: Pair<int, int>, rhs: Pair<int, int>): (b: bool)
    ensures b <==> lhs == rhs
  {
    lhs.first == rhs.first && lhs.second == rhs.second
  }

  /** operator!=: the negation of ==, so inequality of the pairs. */
  function Ne(lhs: Pair<int, int>, rhs: Pair<int, int>): (b: bool)
    ensures b <==> lhs != rhs
  {
    !Eq(lhs, rhs)
  }

  /** operator<: `first` decides; when neither `first` is less, `second`
      breaks the tie. This is the lexicographic order of the two-element
      sequences [first, second] (section 20.2.2 of ISO/IEC 14882:1998). */
  function Less(lhs: Pair<int, int>, rhs: Pair<int, int>): (b: bool)
    ensures b <==> LexLess([lhs.first, lhs.second], [rhs.first, rhs.second])
  {
    LexLessOfTwo(lhs.first, lhs.second, rhs.first, rhs.second);
    lhs.first < rhs.first || (!(rhs.first < lhs.first) && lhs.second < rhs.second)
  }

  /** LexLess on two-element sequences, unfolded. */
  lemma LexLessOfTwo(a1: int, a2: int, b1: int, b2: int)
    ensures LexLess([a1, a2], [b1, b2]) <==> a1 < b1 || (!(b1 < a1) && a2 < b2)
  {
    assert [a1, a2][1..] == [a2] && [b1, b2][1..] == [b2];
    assert LexLess([a2], [b2]) == (a2 < b2) by {
      assert [a2][1..] == [] && [b2][1..] == [];
    }
  }

  /** operator<=, operator> and operator>=, from < by swapping and
      negation; each means what its name says. */
  function LessEq(lhs: Pair<int, int>, rhs: Pair<int, int>): (b: bool)
    ensures b <==> Less(lhs, rhs) || lhs == rhs
  {
    !Less(rhs, lhs)
  }

  function Greater(lhs: Pair<int, int>, rhs: Pair<int, int>): (b: bool)
    ensures b <==> !Less(lhs, rhs) && lhs != rhs
  {
    Less(rhs, lhs)
  }

  function GreaterEq(lhs: Pair<int, int>, rhs: Pair<int, int>): (b: bool)
    ensures b <==> Less(rhs, lhs) || lhs == rhs
  {
    !Less(lhs, rhs)
  }

  /** < is a strict total order: irreflexive, transitive, and exactly one
      of lhs < rhs, lhs == rhs, rhs < lhs holds. */
  lemma LessStrictTotal(a: Pair<int, int>, b: Pair<int, int>, c: Pair<int, int>)
    ensures !Less(a, a)
    ensures Less(a, b) && Less(b, c) ==> Less(a, c)
    ensures Less(a, b) || Eq(a, b) || Less(b, a)
    ensures !(Less(a, b) && Less(b, a)) && !(Less(a, b) && Eq(a, b))
  {
  }
}
