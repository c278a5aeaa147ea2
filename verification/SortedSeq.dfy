/** The key sequence of an ordered set: a strictly increasing sequence,
    and what insertion and removal of one key do to it. These are the
    reference definitions the tree operations are proved against. */
module SortedSeq {

  ghost predicate Increasing(s: seq<int>) {
    forall a, b | 0 <= a < b < |s| :: s[a] < s[b]
  }

  /** s with k added in order; s itself when k is already there. */
  ghost function Insert(s: seq<int>, k: int): seq<int> {
    if s == [] then [k]
    else if k < s[0] then [k] + s
    else if k == s[0] then s
    else [s[0]] + Insert(s[1..], k)
  }

  /** s without k; s itself when k is not there. */
  ghost function Remove(s: seq<int>, k: int): seq<int> {
    if s == [] then []
    else if s[0] == k then s[1..]
    else [s[0]] + Remove(s[1..], k)
  }

  lemma {:induction false} InsertElems(s: seq<int>, k: int)
    ensures forall x :: x in Insert(s, k) <==> x in s || x == k
  {
    if s != [] && s[0] < k {
      InsertElems(s[1..], k);
      assert s == [s[0]] + s[1..];
    }
  }

  lemma {:induction false} InsertIncreasing(s: seq<int>, k: int)
    requires Increasing(s)
    ensures Increasing(Insert(s, k))
  {
    if s != [] && s[0] < k {
      InsertIncreasing(s[1..], k);
      InsertElems(s[1..], k);
      var r := Insert(s, k);
      forall a, b | 0 <= a < b < |r| ensures r[a] < r[b] {
        if a == 0 {
          assert r[b] in Insert(s[1..], k);
        }
      }
    }
  }

  lemma {:induction false} InsertPresent(s: seq<int>, k: int)
    requires Increasing(s) && k in s
    ensures Insert(s, k) == s
  {
    if s[0] != k {
      var q :| 0 <= q < |s| && s[q] == k;
      assert s[0] < s[q];
      InsertPresent(s[1..], k);
      assert s == [s[0]] + s[1..];
    }
  }

  /** In an increasing sequence, k goes right after the keys below it. */
  lemma {:induction false} InsertAt(s: seq<int>, k: int, p: int)
    requires 0 <= p <= |s|
    requires forall q | 0 <= q < p :: s[q] < k
    requires forall q | p <= q < |s| :: k < s[q]
    ensures Insert(s, k) == s[..p] + [k] + s[p..]
  {
    if s == [] {
    } else if p == 0 {
      assert k < s[0];
    } else {
      InsertAt(s[1..], k, p - 1);
      assert s[1..][..p - 1] == s[1..p];
      assert s[1..][p - 1..] == s[p..];
      assert s[..p] == [s[0]] + s[1..p];
    }
  }

  lemma {:induction false} RemoveElems(s: seq<int>, k: int)
    requires Increasing(s)
    ensures forall x :: x in Remove(s, k) <==> x in s && x != k
  {
    if s != [] {
      if s[0] == k {
        assert forall x | x in s[1..] :: s[0] < x;
      } else {
        RemoveElems(s[1..], k);
        assert s == [s[0]] + s[1..];
      }
    }
  }

  lemma {:induction false} RemoveIncreasing(s: seq<int>, k: int)
    requires Increasing(s)
    ensures Increasing(Remove(s, k))
  {
    if s != [] && s[0] != k {
      RemoveIncreasing(s[1..], k);
      RemoveElems(s[1..], k);
      var r := Remove(s, k);
      forall a, b | 0 <= a < b < |r| ensures r[a] < r[b] {
        if a == 0 {
          assert r[b] in Remove(s[1..], k);
        }
      }
    }
  }

  lemma {:induction false} RemoveAbsent(s: seq<int>, k: int)
    requires k !in s
    ensures Remove(s, k) == s
  {
    if s != [] {
      RemoveAbsent(s[1..], k);
      assert s == [s[0]] + s[1..];
    }
  }

  /** Removing the key at position q of an increasing sequence cuts it out. */
  lemma {:induction false} RemoveAt(s: seq<int>, q: int)
    requires Increasing(s) && 0 <= q < |s|
    ensures Remove(s, s[q]) == s[..q] + s[q + 1..]
  {
    if q > 0 {
      assert s[0] < s[q];
      RemoveAt(s[1..], q - 1);
      assert s[1..][..q - 1] == s[1..q];
      assert s[1..][q..] == s[q + 1..];
      assert s[..q] == [s[0]] + s[1..q];
    }
  }
}
