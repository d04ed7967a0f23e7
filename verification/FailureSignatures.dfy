/** What the key of a repeating failure tells: the signature that two rounds are compared by. */
module FailureSignatures {
  import opened Options
  import opened Strings
  import opened Lists
  import opened NameOrder
  import opened CiGates
  import opened Supervision

  const REVIEW_FAILED := "review:fail"

  ghost predicate IsFailing(ci: Option<seq<Check>>, name: string) {
    ci.Some? && exists c :: IsNewest(ci.value, c) && c.name == name && ClassOf(c) == Fails
  }

  lemma FailingNamesHold(ci: Option<seq<Check>>, name: string)
    ensures name in FailingNames(ci) <==> IsFailing(ci, name)
  {
    if ci.Some? {
      var failing := Filter(NewestRuns(ci.value), (c: Check) => ClassOf(c) == Fails);
      hide NewestRuns, IsNewest, ClassOf;
      if name in FailingNames(ci) {
        var i :| 0 <= i < |failing| && Names(failing)[i] == name;
        assert failing[i] in failing;
        NewestRunsHold(ci.value, failing[i]);
      }
      if IsFailing(ci, name) {
        var c :| IsNewest(ci.value, c) && c.name == name && ClassOf(c) == Fails;
        NewestRunsHold(ci.value, c);
        var i :| 0 <= i < |failing| && failing[i] == c;
        assert Names(failing)[i] == name;
      }
    }
  }

  lemma {:induction false} FilterKeepsDistinct(s: seq<Check>, keep: Check -> bool)
    requires Distinct(Names(s))
    ensures Distinct(Names(Filter(s, keep)))
  {
    if s != [] {
      var n := |s| - 1;
      assert forall i :: 0 <= i < n ==> Names(s[..n])[i] == Names(s)[i];
      FilterKeepsDistinct(s[..n], keep);
      var front := Filter(s[..n], keep);
      forall i | 0 <= i < |front|
        ensures front[i].name != s[n].name
      {
        assert front[i] in s[..n];
        var k :| 0 <= k < n && s[..n][k] == front[i];
        assert Names(s)[k] == front[i].name && Names(s)[n] == s[n].name;
      }
    }
  }

  lemma FailingNamesAreDistinct(ci: Option<seq<Check>>)
    ensures Distinct(FailingNames(ci))
  {
    if ci.Some? {
      var newest := NewestRuns(ci.value);
      GroupsHold(ci.value);
      forall i | 0 <= i < |newest|
        ensures newest[i].name == Groups(ci.value)[i].name
      {
        GroupMeans(ci.value, i);
      }
      FilterKeepsDistinct(newest, (c: Check) => ClassOf(c) == Fails);
    }
  }

  // -- the exact law ------------------------------------------------------

  /** What a signature is joined from. */
  function Parts(r: Round): seq<string> {
    SortedNames(FailingNames(r.ci)) + (if r.verdict == Some(false) then [REVIEW_FAILED] else [])
  }

  /** The pieces of the parts at their commas; no part at all reads as one empty piece. */
  function Pieces(parts: seq<string>): seq<string> {
    if parts == [] then [""]
    else if |parts| == 1 then Split(parts[0], ',')
    else Split(parts[0], ',') + Pieces(parts[1..])
  }

  lemma {:induction false} JoinAppends(a: seq<string>, b: seq<string>, c: char)
    requires |a| > 0 && |b| > 0
    ensures Join(a + b, [c]) == Join(a, [c]) + [c] + Join(b, [c])
  {
    if |a| == 1 {
      assert (a + b)[1..] == b;
    } else {
      assert (a + b)[1..] == a[1..] + b;
      JoinAppends(a[1..], b, c);
      Regrouped(a[0], [c], Join(a[1..], [c]), [c], Join(b, [c]));
    }
  }

  lemma Regrouped(u: string, v: string, w: string, x: string, y: string)
    ensures u + v + (w + x + y) == (u + v + w) + x + y
  {
  }

  lemma SplitAppends(a: string, b: string, c: char)
    ensures Split(a + [c] + b, c) == Split(a, c) + Split(b, c)
  {
    hide Split, Join;
    JoinAppends(Split(a, c), Split(b, c), c);
    SplitOfJoin(Split(a, c) + Split(b, c), c);
  }

  lemma {:induction false} SplitOfParts(parts: seq<string>)
    ensures Split(Join(parts, ","), ',') == Pieces(parts)
  {
    hide Split;
    if parts == [] {
      SplitOfJoin([""], ',');
    } else if |parts| > 1 {
      SplitOfParts(parts[1..]);
      SplitAppends(parts[0], Join(parts[1..], ","), ',');
    }
  }

  /** Two rounds have the same signature exactly when their sorted names, with the review's word, have
      the same comma pieces. */
  lemma SignatureIff(a: Round, b: Round)
    ensures Signature(a) == Signature(b) <==> Pieces(Parts(a)) == Pieces(Parts(b))
  {
    hide FailingNames, SortedNames, Split, Join, Pieces;
    SplitOfParts(Parts(a));
    SplitOfParts(Parts(b));
  }

  // -- when it tells the failures -----------------------------------------

  predicate BeginsWith(s: string, part: string) {
    |s| >= |part| && s[..|part|] == part
  }

  /** Two names that a signature keeps apart, or the same name. */
  predicate StandApart(x: string, y: string) {
    x != "" && y != "" && (x == y || (!BeginsWith(x, y + ",") && !BeginsWith(y, x + ",")))
  }

  lemma JoinBegins(parts: seq<string>)
    requires parts != []
    ensures BeginsWith(Join(parts, ","), parts[0])
    ensures |parts| > 1 ==> BeginsWith(Join(parts, ","), parts[0] + ",")
    ensures |parts| == 1 ==> Join(parts, ",") == parts[0]
  {
    if |parts| > 1 {
      var s := Join(parts, ",");
      assert s == (parts[0] + ",") + Join(parts[1..], ",");
      assert s == parts[0] + ("," + Join(parts[1..], ","));
    }
  }

  lemma JoinShows(parts: seq<string>)
    ensures parts != [] && parts[0] != "" ==> Join(parts, ",") != ""
  {
  }

  lemma LongerBegins(s: string, x: string, y: string)
    requires BeginsWith(s, x) && BeginsWith(s, y) && |x| < |y| && BeginsWith(s, x + ",")
    ensures BeginsWith(y, x + ",")
  {
    assert y == s[..|y|] && (x + ",") == s[..|x| + 1];
  }

  lemma HeadsAgree(a: seq<string>, b: seq<string>)
    requires a != [] && b != [] && Join(a, ",") == Join(b, ",") && StandApart(a[0], b[0])
    ensures a[0] == b[0] && (|a| == 1 <==> |b| == 1)
  {
    hide Join;
    JoinBegins(a);
    JoinBegins(b);
    var s := Join(a, ",");
    if |a[0]| < |b[0]| {
      LongerBegins(s, a[0], b[0]);
    } else if |b[0]| < |a[0]| {
      LongerBegins(s, b[0], a[0]);
    }
  }

  lemma {:induction false} PartsAreRead(a: seq<string>, b: seq<string>)
    requires forall x, y :: (x in a || x in b) && (y in a || y in b) ==> StandApart(x, y)
    requires Join(a, ",") == Join(b, ",")
    ensures a == b
  {
    assert (a != [] ==> a[0] in a) && (b != [] ==> b[0] in b);
    if a == [] || b == [] {
      JoinShows(a);
      JoinShows(b);
    } else {
      HeadsAgree(a, b);
      if |a| > 1 {
        assert Join(a, ",")[|a[0]| + 1..] == Join(a[1..], ",") && Join(b, ",")[|b[0]| + 1..] == Join(b[1..], ",");
        PartsAreRead(a[1..], b[1..]);
      }
      assert a == [a[0]] + a[1..] && b == [b[0]] + b[1..];
    }
  }

  lemma EndsTell(a: seq<string>, b: seq<string>, reviewA: bool, reviewB: bool)
    requires forall name :: name in a || name in b ==> name != REVIEW_FAILED
    requires a + (if reviewA then [REVIEW_FAILED] else []) == b + (if reviewB then [REVIEW_FAILED] else [])
    ensures a == b && reviewA == reviewB
  {
    var pa, pb := a + (if reviewA then [REVIEW_FAILED] else []), b + (if reviewB then [REVIEW_FAILED] else []);
    assert reviewA ==> pa[|pa| - 1] == REVIEW_FAILED;
    assert reviewB ==> pb[|pb| - 1] == REVIEW_FAILED;
    assert !reviewA && a != [] ==> pa[|pa| - 1] in a;
    assert !reviewB && b != [] ==> pb[|pb| - 1] in b;
    assert a == pa[..|a|] && b == pb[..|b|];
  }

  lemma PartsTell(a: Round, b: Round)
    requires forall name :: name in FailingNames(a.ci) || name in FailingNames(b.ci) ==> name != REVIEW_FAILED
    ensures Parts(a) == Parts(b) <==>
      && (forall name :: name in FailingNames(a.ci) <==> name in FailingNames(b.ci))
      && (a.verdict == Some(false) <==> b.verdict == Some(false))
  {
    hide FailingNames, SortedNames;
    var fa, fb := FailingNames(a.ci), FailingNames(b.ci);
    FailingNamesAreDistinct(a.ci);
    FailingNamesAreDistinct(b.ci);
    SortingKeepsNames(fa);
    SortingKeepsNames(fb);
    SortedNamesTell(fa, fb);
    if Parts(a) == Parts(b) {
      EndsTell(SortedNames(fa), SortedNames(fb), a.verdict == Some(false), b.verdict == Some(false));
    }
  }

  ghost predicate Compared(a: Round, b: Round, name: string) {
    IsFailing(a.ci, name) || IsFailing(b.ci, name) || name == REVIEW_FAILED
  }

  /** Two rounds have the same signature exactly when the same checks fail in both and the review fails in
      both or neither, where no failing name is empty or the review's word, and no two names, that word
      with them, are such that one goes on behind the other with a comma. */
  lemma SignatureTells(a: Round, b: Round)
    requires !IsFailing(a.ci, REVIEW_FAILED) && !IsFailing(b.ci, REVIEW_FAILED)
    requires forall x, y :: Compared(a, b, x) && Compared(a, b, y) ==> StandApart(x, y)
    ensures Signature(a) == Signature(b) <==>
      && (forall name :: IsFailing(a.ci, name) <==> IsFailing(b.ci, name))
      && (a.verdict == Some(false) <==> b.verdict == Some(false))
  {
    forall name
      ensures name in FailingNames(a.ci) <==> IsFailing(a.ci, name)
      ensures name in FailingNames(b.ci) <==> IsFailing(b.ci, name)
    {
      FailingNamesHold(a.ci, name);
      FailingNamesHold(b.ci, name);
    }
    hide FailingNames, IsFailing, StandApart, SortedNames;
    SortingKeepsNames(FailingNames(a.ci));
    SortingKeepsNames(FailingNames(b.ci));
    PartsTell(a, b);
    if Signature(a) == Signature(b) {
      forall x, y | (x in Parts(a) || x in Parts(b)) && (y in Parts(a) || y in Parts(b))
        ensures StandApart(x, y)
      {
        assert Compared(a, b, x) && Compared(a, b, y);
      }
      PartsAreRead(Parts(a), Parts(b));
    }
  }

  lemma HoldsComma(s: string, part: string)
    requires BeginsWith(s, part + ",")
    ensures ',' in s
  {
    assert s[|part|] == (part + ",")[|part|];
  }

  /** Names without commas stand apart. */
  lemma PlainNamesStandApart(x: string, y: string)
    requires x != "" && y != "" && ',' !in x && ',' !in y
    ensures StandApart(x, y)
  {
    if BeginsWith(y, x + ",") {
      HoldsComma(y, x);
    } else if BeginsWith(x, y + ",") {
      HoldsComma(x, y);
    }
  }

  // -- rounds it confuses -------------------------------------------------

  function FailedRun(name: string): Check {
    Check(name, CheckRun, "failure", None, None, Some(0), Some(0))
  }

  /** A failed round in which the runs of these names failed. */
  function FailedRound(number: int, names: seq<string>, verdict: Option<bool>): Round {
    Round("round", number, Some(RoundFail), Some(0), None,
      Some(seq(|names|, i requires 0 <= i < |names| => FailedRun(names[i]))), None, verdict, Some(0))
  }

  lemma FailedRoundFails(number: int, names: seq<string>, verdict: Option<bool>, name: string)
    requires Distinct(names)
    ensures IsFailing(FailedRound(number, names, verdict).ci, name) <==> name in names
  {
    var checks := FailedRound(number, names, verdict).ci.value;
    if name in names {
      var k :| 0 <= k < |names| && names[k] == name;
      assert checks[k] == FailedRun(name);
      assert IsNewestAt(checks, k);
      assert Lower("failure") == "failure";
      assert ClassOf(checks[k]) == Fails;
    }
  }

  lemma PartsOfFailed(number: int, names: seq<string>, verdict: Option<bool>)
    requires Distinct(names)
    ensures Parts(FailedRound(number, names, verdict)) ==
      SortedNames(names) + (if verdict == Some(false) then [REVIEW_FAILED] else [])
  {
    var r := FailedRound(number, names, verdict);
    forall name
      ensures name in FailingNames(r.ci) <==> name in names
    {
      FailedRoundFails(number, names, verdict, name);
      FailingNamesHold(r.ci, name);
    }
    FailingNamesAreDistinct(r.ci);
    hide FailingNames, SortedNames;
    SortedNamesTell(FailingNames(r.ci), names);
  }

  lemma SignatureOfOne(number: int, name: string)
    ensures Signature(FailedRound(number, [name], None)) == name
    ensures IsFailing(FailedRound(number, [name], None).ci, name)
  {
    FailedRoundFails(number, [name], None, name);
    PartsOfFailed(number, [name], None);
    SortedOne(name);
    hide SortedNames, FailingNames, IsFailing;
    assert [name] + [] == [name];
  }

  lemma JoinOfTwo(x: string, y: string)
    ensures Join([x, y], ",") == x + "," + y
  {
    assert [x, y][1..] == [y];
  }

  lemma TwoFail(number: int, x: string, y: string, name: string)
    requires x != y
    ensures IsFailing(FailedRound(number, [x, y], None).ci, name) <==> name == x || name == y
  {
    hide IsFailing, FailedRound;
    FailedRoundFails(number, [x, y], None, name);
  }

  lemma SignatureOfTwo(number: int, x: string, y: string)
    requires x != y && !Less(y, x)
    ensures Signature(FailedRound(number, [x, y], None)) == x + "," + y
  {
    hide SortedNames, FailingNames, IsFailing, FailedRound, Join, Less;
    PartsOfFailed(number, [x, y], None);
    SortedTwo(x, y);
    JoinOfTwo(x, y);
    assert [x, y] + [] == [x, y];
  }

  lemma SignatureOfReview(number: int)
    ensures Signature(FailedRound(number, [], Some(false))) == REVIEW_FAILED
    ensures forall name :: !IsFailing(FailedRound(number, [], Some(false)).ci, name)
  {
    forall name
      ensures !IsFailing(FailedRound(number, [], Some(false)).ci, name)
    {
      FailedRoundFails(number, [], Some(false), name);
    }
    PartsOfFailed(number, [], Some(false));
    assert SortedNames([]) == [];
    hide SortedNames, FailingNames, IsFailing;
    assert [] + [REVIEW_FAILED] == [REVIEW_FAILED];
  }

  /** Other names confuse rounds: one check with two names in its own fails like those two, and one that
      carries the review's word fails like the review. */
  lemma SignatureConfuses(m: int, n: int, x: string, y: string)
    requires x != y && !Less(y, x)
    ensures var a, b := FailedRound(m, [x + "," + y], None), FailedRound(n, [x, y], None);
      Signature(a) == Signature(b) && IsFailing(a.ci, x + "," + y) && !IsFailing(b.ci, x + "," + y)
    ensures var a, b := FailedRound(m, [REVIEW_FAILED], None), FailedRound(n, [], Some(false));
      Signature(a) == Signature(b) && IsFailing(a.ci, REVIEW_FAILED) && !IsFailing(b.ci, REVIEW_FAILED)
  {
    hide *;
    SignatureOfOne(m, x + "," + y);
    SignatureOfTwo(n, x, y);
    TwoFail(n, x, y, x + "," + y);
    SignatureOfOne(m, REVIEW_FAILED);
    SignatureOfReview(n);
    assert |x + "," + y| > |x| && |x + "," + y| > |y|;
  }

  lemma SortedOne(x: string)
    ensures SortedNames([x]) == [x]
  {
    var s := [x];
    assert s[..|s| - 1] == [];
  }

  lemma SortedTwo(x: string, y: string)
    requires !Less(y, x)
    ensures SortedNames([x, y]) == [x, y]
  {
    var s := [x, y];
    assert s[..|s| - 1] == [x];
    SortedOne(x);
  }
}
