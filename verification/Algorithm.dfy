/** ft::equal and ft::lexicographical_compare of inc/algorithm.hpp. An
    iterator range [first, last) is a pair of indices into a sequence; each
    algorithm is its source loop, advancing the two indices together, proved
    against a recursive specification over the two ranges. */
module Algorithm {

  /** The lexicographic "less than" of section 25.3.8 of ISO/IEC 14882:1998:
      the first position that differs decides, and when none does the
      shorter range is the lesser one. */
  ghost function LexLess(a: seq<int>, b: seq<int>): bool {
    if a == [] || b == [] then a == [] && b != []
    else if a[0] < b[0] then true
    else if b[0] < a[0] then false
    else LexLess(a[1..], b[1..])
  }

  /** The same order under a caller-supplied comparison. */
  ghost function LexLessBy<T>(a: seq<T>, b: seq<T>, comp: (T, T) -> bool): bool {
    if a == [] || b == [] then a == [] && b != []
    else if comp(a[0], b[0]) then true
    else if comp(b[0], a[0]) then false
    else LexLessBy(a[1..], b[1..], comp)
  }

  /** equal(first1, last1, first2): every position of [first1, last1)
      equals the corresponding position from first2. The second range must
      be at least as long as the first. */
  method Equal<T(==)>(s1: seq<T>, first1: nat, last1: nat, s2: seq<T>, first2: nat) returns (r: bool)
    requires first1 <= last1 <= |s1| && first2 + (last1 - first1) <= |s2|
    ensures r <==> s1[first1..last1] == s2[first2..first2 + (last1 - first1)]
  {
    var i1, i2 := first1, first2;
    while i1 != last1
      invariant first1 <= i1 <= last1 && i2 == first2 + (i1 - first1)
      invariant s1[first1..i1] == s2[first2..i2]
    {
      if !(s1[i1] == s2[i2]) {
        assert s1[first1..last1][i1 - first1] != s2[first2..first2 + (last1 - first1)][i1 - first1];
        return false;
      }
      assert s1[first1..i1 + 1] == s1[first1..i1] + [s1[i1]];
      assert s2[first2..i2 + 1] == s2[first2..i2] + [s2[i2]];
      i1, i2 := i1 + 1, i2 + 1;
    }
    return true;
  }

  /** equal(first1, last1, first2, p): p holds of every pair of
      corresponding positions. */
  method EqualBy<T>(s1: seq<T>, first1: nat, last1: nat, s2: seq<T>, first2: nat, p: (T, T) -> bool) returns (r: bool)
    requires first1 <= last1 <= |s1| && first2 + (last1 - first1) <= |s2|
    ensures r <==> forall j | first1 <= j < last1 :: p(s1[j], s2[first2 + (j - first1)])
  {
    var i1, i2 := first1, first2;
    while i1 != last1
      invariant first1 <= i1 <= last1 && i2 == first2 + (i1 - first1)
      invariant forall j | first1 <= j < i1 :: p(s1[j], s2[first2 + (j - first1)])
    {
      if !p(s1[i1], s2[i2]) {
        return false;
      }
      i1, i2 := i1 + 1, i2 + 1;
    }
    return true;
  }

  /** lexicographical_compare(first1, last1, first2, last2). */
  method LexicographicalCompare(s1: seq<int>, first1: nat, last1: nat, s2: seq<int>, first2: nat, last2: nat) returns (r: bool)
    requires first1 <= last1 <= |s1| && first2 <= last2 <= |s2|
    ensures r == LexLess(s1[first1..last1], s2[first2..last2])
  {
    var i1, i2 := first1, first2;
    while i1 != last1 && i2 != last2
      invariant first1 <= i1 <= last1 && first2 <= i2 <= last2 && i1 - first1 == i2 - first2
      invariant LexLess(s1[first1..last1], s2[first2..last2]) == LexLess(s1[i1..last1], s2[i2..last2])
    {
      assert s1[i1..last1][1..] == s1[i1 + 1..last1] && s2[i2..last2][1..] == s2[i2 + 1..last2];
      if s1[i1] < s2[i2] {
        return true;
      }
      if s2[i2] < s1[i1] {
        return false;
      }
      i1, i2 := i1 + 1, i2 + 1;
    }
    return i1 == last1 && i2 != last2;
  }

  /** lexicographical_compare(first1, last1, first2, last2, comp). */
  method LexicographicalCompareBy<T>(s1: seq<T>, first1: nat, last1: nat, s2: seq<T>, first2: nat, last2: nat,
                                     comp: (T, T) -> bool) returns (r: bool)
    requires first1 <= last1 <= |s1| && first2 <= last2 <= |s2|
    ensures r == LexLessBy(s1[first1..last1], s2[first2..last2], comp)
  {
    var i1, i2 := first1, first2;
    while i1 != last1 && i2 != last2
      invariant first1 <= i1 <= last1 && first2 <= i2 <= last2 && i1 - first1 == i2 - first2
      invariant LexLessBy(s1[first1..last1], s2[first2..last2], comp) == LexLessBy(s1[i1..last1], s2[i2..last2], comp)
    {
      assert s1[i1..last1][1..] == s1[i1 + 1..last1] && s2[i2..last2][1..] == s2[i2 + 1..last2];
      if comp(s1[i1], s2[i2]) {
        return true;
      }
      if comp(s2[i2], s1[i1]) {
        return false;
      }
      i1, i2 := i1 + 1, i2 + 1;
    }
    return i1 == last1 && i2 != last2;
  }

  /** The comparator overload with `<` is the plain one. */
  lemma {:induction false} LexLessByLess(a: seq<int>, b: seq<int>)
    ensures LexLessBy(a, b, (x: int, y: int) => x < y) == LexLess(a, b)
  {
    if a != [] && b != [] && a[0] == b[0] {
      LexLessByLess(a[1..], b[1..]);
    }
  }

  /** The first position where the ranges differ decides; when none does,
      a is less exactly when it is a proper prefix of b. */
  lemma {:induction false} LexLessFirstDifference(a: seq<int>, b: seq<int>)
    ensures LexLess(a, b) <==>
      (exists i | 0 <= i < |a| && i < |b| :: a[..i] == b[..i] && a[i] < b[i]) ||
      (|a| < |b| && a == b[..|a|])
  {
    if a == [] || b == [] {
    } else if a[0] < b[0] {
      assert a[..0] == b[..0];
    } else if b[0] < a[0] {
    } else {
      LexLessFirstDifference(a[1..], b[1..]);
      if LexLess(a, b) {
        if exists i | 0 <= i < |a[1..]| && i < |b[1..]| :: a[1..][..i] == b[1..][..i] && a[1..][i] < b[1..][i] {
          var i :| 0 <= i < |a[1..]| && i < |b[1..]| && a[1..][..i] == b[1..][..i] && a[1..][i] < b[1..][i];
          assert a[..i + 1] == [a[0]] + a[1..][..i] && b[..i + 1] == [b[0]] + b[1..][..i];
        } else {
          assert a == [a[0]] + a[1..] && b[..|a|] == [b[0]] + b[1..][..|a[1..]|];
        }
      } else {
        forall i | 0 <= i < |a| && i < |b| && a[..i] == b[..i]
          ensures !(a[i] < b[i])
        {
          if i > 0 {
            assert a[1..][..i - 1] == a[..i][1..] && b[1..][..i - 1] == b[..i][1..];
            assert a[1..][i - 1] == a[i] && b[1..][i - 1] == b[i];
          }
        }
      }
    }
  }

  /** Comparing a range with itself yields false. */
  lemma {:induction false} LexLessIrreflexive(a: seq<int>)
    ensures !LexLess(a, a)
  {
    if a != [] {
      LexLessIrreflexive(a[1..]);
    }
  }

  /** Exactly one of a < b, a == b, b < a: the order is total and
      asymmetric. */
  lemma {:induction false} LexLessTrichotomy(a: seq<int>, b: seq<int>)
    ensures LexLess(a, b) || a == b || LexLess(b, a)
    ensures !(LexLess(a, b) && LexLess(b, a))
  {
    if a != [] && b != [] && a[0] == b[0] {
      LexLessTrichotomy(a[1..], b[1..]);
      if a[1..] == b[1..] {
        assert a == [a[0]] + a[1..] && b == [b[0]] + b[1..];
      }
    }
  }

  /** The order is transitive. */
  lemma {:induction false} LexLessTransitive(a: seq<int>, b: seq<int>, c: seq<int>)
    requires LexLess(a, b) && LexLess(b, c)
    ensures LexLess(a, c)
  {
    if a != [] && b != [] && c != [] && a[0] == b[0] && b[0] == c[0] {
      LexLessTransitive(a[1..], b[1..], c[1..]);
    }
  }
}
