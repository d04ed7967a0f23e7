/** Small list helpers shared by the models. */
module Lists {
  function Filter<T(!new)>(s: seq<T>, keep: T -> bool): (r: seq<T>)
    ensures forall x :: x in r <==> x in s && keep(x)
  {
    if s == [] then []
    else
      assert s == s[..|s| - 1] + [s[|s| - 1]];
      Filter(s[..|s| - 1], keep) + (if keep(s[|s| - 1]) then [s[|s| - 1]] else [])
  }

  predicate Distinct<T(==)>(s: seq<T>) {
    forall i, j :: 0 <= i < j < |s| ==> s[i] != s[j]
  }

  lemma {:induction false} DistinctCounts<T>(s: seq<T>, x: T)
    requires Distinct(s)
    ensures multiset(s)[x] == if x in s then 1 else 0
  {
    if s != [] {
      var n := |s| - 1;
      DistinctCounts(s[..n], x);
      assert s == s[..n] + [s[n]];
      assert s[n] == x ==> x !in s[..n];
    }
  }

  lemma CountedOnceIsDistinct<T(!new)>(s: seq<T>)
    requires forall x :: multiset(s)[x] <= 1
    ensures Distinct(s)
  {
    forall i, j | 0 <= i < j < |s|
      ensures s[i] != s[j]
    {
      var a, b := s[..j], s[j..];
      assert s == a + b && a[i] == s[i] && b[0] == s[j];
      assert s[i] in multiset(a) && s[j] in multiset(b);
      assert multiset(s)[s[i]] == multiset(a)[s[i]] + multiset(b)[s[i]];
    }
  }

  lemma SameSetSameCounts<T(!new)>(a: seq<T>, b: seq<T>)
    requires Distinct(a) && Distinct(b) && forall x :: x in a <==> x in b
    ensures multiset(a) == multiset(b)
  {
    forall x
      ensures multiset(a)[x] == multiset(b)[x]
    {
      DistinctCounts(a, x);
      DistinctCounts(b, x);
    }
  }

  lemma {:induction false} FilterDistinct<T(!new)>(s: seq<T>, keep: T -> bool)
    requires Distinct(s)
    ensures Distinct(Filter(s, keep))
  {
    if s != [] {
      var n := |s| - 1;
      FilterDistinct(s[..n], keep);
      assert forall x :: x in Filter(s[..n], keep) ==> x in s[..n];
    }
  }

  lemma LastSplit<T>(s: seq<T>)
    requires s != []
    ensures s == s[..|s| - 1] + [s[|s| - 1]]
  {
  }

  lemma MovedLast<T>(s: seq<T>, k: nat)
    requires k < |s|
    ensures multiset(s[..k] + s[k + 1..] + [s[k]]) == multiset(s)
  {
    assert s == s[..k] + [s[k]] + s[k + 1..];
  }

  /** Slices of a list seen from behind its first element. */
  lemma SliceBehind<T>(s: seq<T>, n: nat)
    requires 1 <= n <= |s|
    ensures s[1..n] == s[1..][..n - 1] && s[n..] == s[1..][n - 1..]
    ensures s[..n] == [s[0]] + s[1..][..n - 1]
  {
  }
}
