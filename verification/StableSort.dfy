/** The stable sort of the original's lists by a comparison, and what it promises. */
module StableSort {
  import opened Lists

  /** An element goes behind those it does not come before. */
  function Insert<T>(s: seq<T>, x: T, before: (T, T) -> bool): (r: seq<T>)
    ensures |r| == |s| + 1
  {
    if s != [] && before(x, s[|s| - 1]) then Insert(s[..|s| - 1], x, before) + [s[|s| - 1]] else s + [x]
  }

  function Sorted<T>(s: seq<T>, before: (T, T) -> bool): (r: seq<T>)
    ensures |r| == |s|
  {
    if s == [] then [] else Insert(Sorted(s[..|s| - 1], before), s[|s| - 1], before)
  }

  /** Ties are allowed: elements neither of which comes before the other. */
  ghost predicate WeakOrder<T(!new)>(before: (T, T) -> bool) {
    && (forall a, b :: before(a, b) ==> !before(b, a))
    && (forall a, b, c :: !before(b, a) && !before(c, b) ==> !before(c, a))
  }

  predicate InOrder<T>(s: seq<T>, before: (T, T) -> bool) {
    forall i, j :: 0 <= i < j < |s| ==> !before(s[j], s[i])
  }

  /** The elements that tie with `x`. */
  function Ties<T>(s: seq<T>, x: T, before: (T, T) -> bool): seq<T> {
    if s == [] then []
    else
      var last := s[|s| - 1];
      Ties(s[..|s| - 1], x, before) + (if !before(x, last) && !before(last, x) then [last] else [])
  }

  /** The result is in order, has the same elements, and keeps tied elements as they were: that
      says which list it is. */
  lemma {:induction false} SortedHolds<T(!new)>(s: seq<T>, before: (T, T) -> bool, x: T)
    requires WeakOrder(before)
    ensures InOrder(Sorted(s, before), before) && multiset(Sorted(s, before)) == multiset(s)
    ensures Ties(Sorted(s, before), x, before) == Ties(s, x, before)
  {
    if s == [] {
      assert Sorted(s, before) == s;
    } else {
      var n := |s| - 1;
      SortedHolds(s[..n], before, x);
      assert s == s[..n] + [s[n]];
      var front := Sorted(s[..n], before);
      assert Sorted(s, before) == Insert(front, s[n], before);
      InsertAdds(front, s[n], before);
      InsertOrders(front, s[n], before);
      InsertIsStable(front, s[n], before, x);
      TiesGrow(s[..n], s[n], before, x);
      hide *;
    }
  }

  lemma {:induction false} InsertAdds<T>(s: seq<T>, x: T, before: (T, T) -> bool)
    ensures multiset(Insert(s, x, before)) == multiset(s) + multiset{x}
  {
    if s != [] && before(x, s[|s| - 1]) {
      InsertAdds(s[..|s| - 1], x, before);
      assert s == s[..|s| - 1] + [s[|s| - 1]];
    }
  }

  lemma {:induction false} InsertOrders<T(!new)>(s: seq<T>, x: T, before: (T, T) -> bool)
    requires WeakOrder(before) && InOrder(s, before)
    ensures InOrder(Insert(s, x, before), before)
  {
    if s != [] && before(x, s[|s| - 1]) {
      var n := |s| - 1;
      var front := Insert(s[..n], x, before);
      InsertOrders(s[..n], x, before);
      InsertAdds(s[..n], x, before);
      forall i | 0 <= i < |front|
        ensures !before(s[n], front[i])
      {
        hide Insert;
        assert front[i] in multiset(front);
        assert front[i] in s[..n] || front[i] == x;
      }
    }
  }

  lemma TiesGrow<T>(s: seq<T>, last: T, before: (T, T) -> bool, x: T)
    ensures Ties(s + [last], x, before) ==
      Ties(s, x, before) + (if !before(x, last) && !before(last, x) then [last] else [])
  {
    assert (s + [last])[..|s|] == s;
  }

  lemma {:induction false} InsertIsStable<T(!new)>(s: seq<T>, y: T, before: (T, T) -> bool, x: T)
    requires WeakOrder(before) && InOrder(s, before)
    ensures Ties(Insert(s, y, before), x, before) ==
      Ties(s, x, before) + (if !before(x, y) && !before(y, x) then [y] else [])
  {
    if s != [] && before(y, s[|s| - 1]) {
      var n := |s| - 1;
      InsertIsStable(s[..n], y, before, x);
      assert Insert(s, y, before) == Insert(s[..n], y, before) + [s[n]];
      TiesGrow(Insert(s[..n], y, before), s[n], before, x);
      assert s == s[..n] + [s[n]];
      TiesGrow(s[..n], s[n], before, x);
      hide Insert, Ties, InOrder;
    } else {
      TiesGrow(s, y, before, x);
    }
  }

  lemma SameElements<T(!new)>(s: seq<T>, before: (T, T) -> bool)
    requires WeakOrder(before)
    ensures forall x :: x in Sorted(s, before) <==> x in s
  {
    forall x
      ensures x in Sorted(s, before) <==> x in s
    {
      SortedHolds(s, before, x);
      hide *;
      assert x in s <==> x in multiset(s);
      assert x in Sorted(s, before) <==> x in multiset(Sorted(s, before));
    }
  }

  lemma LastIsLatest<T(!new)>(s: seq<T>, before: (T, T) -> bool, x: T)
    requires WeakOrder(before) && InOrder(s, before) && x in s
    ensures !before(s[|s| - 1], x)
  {
    var i :| 0 <= i < |s| && s[i] == x;
  }

  ghost predicate NoTies<T(!new)>(s: seq<T>, before: (T, T) -> bool) {
    forall x, y :: x in s && y in s && !before(x, y) && !before(y, x) ==> x == y
  }

  /** Without ties among them, the same elements have only one order. */
  lemma {:induction false} OneOrder<T(!new)>(a: seq<T>, b: seq<T>, before: (T, T) -> bool)
    requires WeakOrder(before) && InOrder(a, before) && InOrder(b, before) && multiset(a) == multiset(b)
    requires NoTies(a, before)
    ensures a == b
  {
    assert |a| == |multiset(a)| == |multiset(b)| == |b|;
    if a != [] {
      var n := |a| - 1;
      SameLast(a, b, before);
      assert a == a[..n] + [a[n]] && b == b[..n] + [b[n]];
      assert NoTies(a[..n], before) by {
        assert forall x :: x in a[..n] ==> x in a;
      }
      InOrderShrinks(a, before);
      InOrderShrinks(b, before);
      hide *;
      OneOrder(a[..n], b[..n], before);
    }
  }

  lemma SameLast<T(!new)>(a: seq<T>, b: seq<T>, before: (T, T) -> bool)
    requires WeakOrder(before) && InOrder(a, before) && InOrder(b, before) && multiset(a) == multiset(b)
    requires NoTies(a, before)
    requires a != [] && |a| == |b|
    ensures a[|a| - 1] == b[|a| - 1] && multiset(a[..|a| - 1]) == multiset(b[..|a| - 1])
  {
    hide *;
    SplitLast(a, b);
    SplitLast(b, a);
    LastIsLatest(a, before, b[|b| - 1]);
    LastIsLatest(b, before, a[|a| - 1]);
    TieIsEqual(a, before, a[|a| - 1], b[|b| - 1]);
  }

  lemma SplitLast<T>(s: seq<T>, t: seq<T>)
    requires s != [] && multiset(t) == multiset(s)
    ensures multiset(s[..|s| - 1]) == multiset(s) - multiset{s[|s| - 1]}
    ensures s[|s| - 1] in t
  {
    var n := |s| - 1;
    assert s == s[..n] + [s[n]];
    assert s[n] in multiset(t);
  }

  lemma TieIsEqual<T(!new)>(s: seq<T>, before: (T, T) -> bool, x: T, y: T)
    requires NoTies(s, before) && x in s && y in s && !before(x, y) && !before(y, x)
    ensures x == y
  {
  }

  lemma InOrderShrinks<T>(s: seq<T>, before: (T, T) -> bool)
    requires s != [] && InOrder(s, before)
    ensures InOrder(s[..|s| - 1], before)
  {
  }

  /** Sorting lists of the same distinct elements gives the same list. */
  lemma SortedBySet<T(!new)>(a: seq<T>, b: seq<T>, before: (T, T) -> bool)
    requires WeakOrder(before) && Distinct(a) && Distinct(b) && NoTies(a, before)
    requires forall x :: x in a <==> x in b
    ensures Sorted(a, before) == Sorted(b, before)
  {
    SameSetSameCounts(a, b);
    assert |a| == |multiset(a)| == |multiset(b)| == |b|;
    if a != [] {
      SortedHolds(a, before, a[0]);
      SortedHolds(b, before, a[0]);
      SameElements(a, before);
      assert NoTies(Sorted(a, before), before);
      hide *;
      OneOrder(Sorted(a, before), Sorted(b, before), before);
    }
  }
}
