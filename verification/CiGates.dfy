/** The CI gate of a round: the newest run of each check decides, with one rerun of failures. */
module CiGates {
  import opened Options
  import opened Lists
  import StableSort

  const CI_MISSING_AFTER_MS := 30 * 60 * 1000
  const CI_TIMEOUT_MS := 3 * 60 * 60 * 1000

  datatype Source = Actions | CheckRun | CommitStatus

  datatype Check = Check(
    name: string, source: Source, conclusion: string, link: Option<string>, runId: Option<int>,
    startedAt: Option<int>, completedAt: Option<int>)

  datatype CiClass = Passes | Waits | Fails

  function Lower(s: string): string {
    seq(|s|, i requires 0 <= i < |s| => if 'A' <= s[i] <= 'Z' then (s[i] as int + 32) as char else s[i])
  }

  function ClassOf(c: Check): CiClass {
    var value := Lower(c.conclusion);
    if value in {"success", "neutral", "skipped"} then Passes
    else if value in {"queued", "in_progress", "waiting", "requested", "pending"} then Waits
    else Fails
  }

  predicate Rerunnable(c: Check) {
    c.source == Actions && c.runId.Some?
  }

  /** A time not known yet is later than every time. */
  predicate Sooner(a: Option<int>, b: Option<int>) {
    a.Some? && (b.None? || a.value < b.value)
  }

  // -- runs by name -------------------------------------------------------

  predicate StartsSooner(a: Check, b: Check) {
    Sooner(a.startedAt, b.startedAt)
  }

  function Sorted(runs: seq<Check>): (r: seq<Check>)
    ensures |r| == |runs|
  {
    StableSort.Sorted(runs, StartsSooner)
  }

  datatype Group = Group(name: string, runs: seq<Check>)

  function Find(groups: seq<Group>, name: string): (k: int)
    ensures -1 <= k < |groups|
    ensures k >= 0 ==> groups[k].name == name
    ensures k == -1 ==> forall i :: 0 <= i < |groups| ==> groups[i].name != name
  {
    if groups == [] then -1
    else if groups[|groups| - 1].name == name then |groups| - 1
    else Find(groups[..|groups| - 1], name)
  }

  function Grouped(groups: seq<Group>, c: Check): seq<Group> {
    var k := Find(groups, c.name);
    if k == -1 then groups + [Group(c.name, [c])] else groups[k := Group(c.name, groups[k].runs + [c])]
  }

  function Groups(checks: seq<Check>): seq<Group> {
    if checks == [] then [] else Grouped(Groups(checks[..|checks| - 1]), checks[|checks| - 1])
  }

  function SortedGroups(checks: seq<Check>): seq<Group> {
    var groups := Groups(checks);
    seq(|groups|, i requires 0 <= i < |groups| => Group(groups[i].name, Sorted(groups[i].runs)))
  }

  method RunsByName(checks: seq<Check>) returns (groups: seq<Group>)
    ensures groups == SortedGroups(checks)
  {
    hide Grouped, Sorted;
    groups := [];
    for i := 0 to |checks|
      invariant groups == Groups(checks[..i])
    {
      assert checks[..i + 1][..i] == checks[..i];
      groups := Grouped(groups, checks[i]);
    }
    assert checks[..|checks|] == checks;
    for i := 0 to |groups|
      invariant |groups| == |Groups(checks)|
      invariant groups[..i] == SortedGroups(checks)[..i] && groups[i..] == Groups(checks)[i..]
    {
      groups := groups[i := Group(groups[i].name, Sorted(groups[i].runs))];
    }
  }

  /** The runs of one name, as reported. */
  function OfName(checks: seq<Check>, name: string): (r: seq<Check>)
    ensures forall c :: c in r <==> c in checks && c.name == name
  {
    if checks == [] then []
    else
      var c := checks[|checks| - 1];
      assert checks == checks[..|checks| - 1] + [c];
      OfName(checks[..|checks| - 1], name) + (if c.name == name then [c] else [])
  }

  predicate DistinctNames(groups: seq<Group>) {
    forall i, j :: 0 <= i < j < |groups| ==> groups[i].name != groups[j].name
  }

  /** Each name has one group, of exactly its runs in the order reported. */
  predicate OneGroupEach(groups: seq<Group>, checks: seq<Check>) {
    && DistinctNames(groups)
    && (forall i :: 0 <= i < |groups| ==> groups[i].runs != [] && groups[i].runs == OfName(checks, groups[i].name))
    && (forall c :: c in checks ==> Find(groups, c.name) != -1)
  }

  lemma {:induction false} GroupsHold(checks: seq<Check>)
    ensures OneGroupEach(Groups(checks), checks)
  {
    hide *;
    if checks == [] {
      NoGroups();
    } else {
      GroupsHold(checks[..|checks| - 1]);
      GroupsStep(checks);
      LastSplit(checks);
      GroupedHolds(Groups(checks[..|checks| - 1]), checks[..|checks| - 1], checks[|checks| - 1]);
    }
  }

  lemma NoGroups()
    ensures OneGroupEach(Groups([]), [])
  {
  }

  lemma GroupsStep(checks: seq<Check>)
    requires checks != []
    ensures Groups(checks) == Grouped(Groups(checks[..|checks| - 1]), checks[|checks| - 1])
  {
    hide Grouped;
  }

  /** One more run joins the group of its name, or makes a new one. */
  lemma JoinedAt(groups: seq<Group>, c: Check) returns (m: nat)
    requires DistinctNames(groups)
    ensures m <= |groups| <= |Grouped(groups, c)| && m < |Grouped(groups, c)| && DistinctNames(Grouped(groups, c))
    ensures Grouped(groups, c)[m] == Group(c.name, (if m < |groups| then groups[m].runs else []) + [c])
    ensures forall i :: 0 <= i < |Grouped(groups, c)| && i != m ==>
      i < |groups| && Grouped(groups, c)[i] == groups[i] && groups[i].name != c.name
    ensures if m < |groups| then groups[m].name == c.name else Find(groups, c.name) == -1
  {
    var k := Find(groups, c.name);
    m := if k == -1 then |groups| else k;
  }

  lemma GroupedHolds(groups: seq<Group>, checks: seq<Check>, c: Check)
    requires OneGroupEach(groups, checks)
    ensures OneGroupEach(Grouped(groups, c), checks + [c])
  {
    hide Grouped, Find, OfName, DistinctNames;
    var t := Grouped(groups, c);
    var m := JoinedAt(groups, c);
    forall i | 0 <= i < |t|
      ensures t[i].runs != [] && t[i].runs == OfName(checks + [c], t[i].name)
    {
      OfNameGrows(checks, c, t[i].name);
      if i == m == |groups| {
        NoneOfName(checks, c.name);
      }
    }
    forall d | d in checks + [c]
      ensures Find(t, d.name) != -1
    {
      assert d in checks || d == c;
      var i := if d.name == c.name then m else Find(groups, d.name);
      assert t[i].name == d.name;
    }
  }

  lemma NoneOfName(checks: seq<Check>, name: string)
    requires forall d :: d in checks ==> d.name != name
    ensures OfName(checks, name) == []
  {
    assert forall d :: d !in OfName(checks, name);
  }

  lemma OfNameGrows(checks: seq<Check>, c: Check, name: string)
    ensures OfName(checks + [c], name) == if c.name == name then OfName(checks, name) + [c] else OfName(checks, name)
  {
    assert (checks + [c])[..|checks|] == checks;
    assert OfName(checks, name) + [] == OfName(checks, name);
  }

  /** A name's runs come sorted by start, none lost; runs of equal start stay as reported. */
  lemma SortedHolds(runs: seq<Check>, c: Check)
    ensures StableSort.InOrder(Sorted(runs), StartsSooner) && multiset(Sorted(runs)) == multiset(runs)
    ensures StableSort.Ties(Sorted(runs), c, StartsSooner) == StableSort.Ties(runs, c, StartsSooner)
  {
    StableSort.SortedHolds(runs, StartsSooner, c);
  }

  // -- the newest run of a name -------------------------------------------

  /** No run of the name started later, and those reported after it started sooner. */
  ghost predicate IsNewestAt(checks: seq<Check>, k: int) {
    && 0 <= k < |checks|
    && forall i :: 0 <= i < |checks| && checks[i].name == checks[k].name ==>
        && !Sooner(checks[k].startedAt, checks[i].startedAt)
        && (i > k ==> Sooner(checks[i].startedAt, checks[k].startedAt))
  }

  ghost predicate IsNewest(checks: seq<Check>, c: Check) {
    exists k :: IsNewestAt(checks, k) && checks[k] == c
  }

  function NewestRuns(checks: seq<Check>): (r: seq<Check>) {
    var groups := SortedGroups(checks);
    NoGroupIsEmpty(checks);
    seq(|groups|, i requires 0 <= i < |groups| => LastOf(groups[i].runs))
  }

  lemma NoGroupIsEmpty(checks: seq<Check>)
    ensures forall i :: 0 <= i < |SortedGroups(checks)| ==> SortedGroups(checks)[i].runs != []
  {
    GroupsHold(checks);
    hide Sorted;
  }

  function LastOf(runs: seq<Check>): Check
    requires runs != []
  {
    runs[|runs| - 1]
  }

  lemma LastOfSorted(runs: seq<Check>)
    requires |runs| > 1
    ensures var n := |runs| - 1;
      var before := LastOf(Sorted(runs[..n]));
      LastOf(Sorted(runs)) == if Sooner(runs[n].startedAt, before.startedAt) then before else runs[n]
  {
    var n := |runs| - 1;
    assert Sorted(runs) == StableSort.Insert(Sorted(runs[..n]), runs[n], StartsSooner);
  }

  lemma {:induction false} LastIsNewest(runs: seq<Check>, name: string)
    requires runs != [] && forall c :: c in runs ==> c.name == name
    ensures IsNewest(runs, LastOf(Sorted(runs)))
  {
    var n := |runs| - 1;
    assert runs == runs[..n] + [runs[n]];
    if n > 0 {
      LastIsNewest(runs[..n], name);
      LastOfSorted(runs);
      hide Sorted;
      NewestGrows(runs[..n], runs[n], LastOf(Sorted(runs)));
    } else {
      assert IsNewestAt(runs, 0);
    }
  }

  /** A run of a name is its newest among its own runs exactly when it is among all reported. */
  lemma {:induction false} NewestOfName(checks: seq<Check>, c: Check)
    ensures IsNewest(checks, c) <==> IsNewest(OfName(checks, c.name), c)
  {
    if checks != [] {
      var n := |checks| - 1;
      var last := checks[n];
      NewestOfName(checks[..n], c);
      assert checks == checks[..n] + [last];
      OfNameGrows(checks[..n], last, c.name);
      NewestGrows(checks[..n], last, c);
      NewestGrows(OfName(checks[..n], c.name), last, c);
      hide *;
    }
  }

  /** How one more report changes which run is the newest. */
  lemma NewestGrows(checks: seq<Check>, last: Check, c: Check)
    ensures IsNewest(checks + [last], c) <==>
      || (c == last && forall d :: d in checks && d.name == c.name ==> !Sooner(c.startedAt, d.startedAt))
      || (IsNewest(checks, c) && (last.name == c.name ==> Sooner(last.startedAt, c.startedAt)))
  {
    var all := checks + [last];
    var n := |checks|;
    if k :| IsNewestAt(all, k) && all[k] == c {
      if k < n {
        assert IsNewestAt(checks, k) by {
          assert forall i :: 0 <= i < n ==> checks[i] == all[i];
        }
        assert all[n] == last;
      } else {
        forall d | d in checks && d.name == c.name
          ensures !Sooner(c.startedAt, d.startedAt)
        {
          var i :| 0 <= i < n && checks[i] == d;
          assert all[i] == d;
        }
      }
    }
    if c == last && forall d :: d in checks && d.name == c.name ==> !Sooner(c.startedAt, d.startedAt) {
      forall i | 0 <= i < |all| && all[i].name == c.name
        ensures !Sooner(c.startedAt, all[i].startedAt)
      {
        assert i < n ==> all[i] in checks;
      }
      assert IsNewestAt(all, n);
    }
    if IsNewest(checks, c) && (last.name == c.name ==> Sooner(last.startedAt, c.startedAt)) {
      var k :| IsNewestAt(checks, k) && checks[k] == c;
      assert all[k] == c;
      assert IsNewestAt(all, k);
    }
  }

  /** The runs that decide are the newest of each name. */
  lemma NewestRunsHold(checks: seq<Check>, c: Check)
    ensures c in NewestRuns(checks) <==> IsNewest(checks, c)
  {
    NewestOfName(checks, c);
    if c in NewestRuns(checks) {
      NewestRunIsNewest(checks, c);
    }
    if IsNewest(checks, c) {
      NewestIsNewestRun(checks, c);
    }
  }

  lemma NewestRunAt(checks: seq<Check>, i: nat)
    requires i < |Groups(checks)|
    ensures var g := Groups(checks)[i];
      && |NewestRuns(checks)| == |Groups(checks)|
      && g.runs != [] && g.runs == OfName(checks, g.name) && NewestRuns(checks)[i] == LastOf(Sorted(g.runs))
  {
    hide Groups, Sorted, OfName;
    GroupsHold(checks);
  }

  lemma NewestRunIsNewest(checks: seq<Check>, c: Check)
    requires c in NewestRuns(checks)
    ensures IsNewest(OfName(checks, c.name), c)
  {
    assert |NewestRuns(checks)| == |Groups(checks)|;
    hide *;
    var i :| 0 <= i < |Groups(checks)| && NewestRuns(checks)[i] == c;
    NewestRunAt(checks, i);
    var g := Groups(checks)[i];
    LastIsNewest(g.runs, g.name);
    LastIsOne(g.runs);
  }

  lemma LastIsOne(runs: seq<Check>)
    requires runs != []
    ensures LastOf(Sorted(runs)) in runs
  {
    StableSort.SameElements(runs, StartsSooner);
  }

  lemma NewestIsNewestRun(checks: seq<Check>, c: Check)
    requires IsNewest(OfName(checks, c.name), c)
    ensures c in NewestRuns(checks)
  {
    GroupsHold(checks);
    var groups := Groups(checks);
    assert c in OfName(checks, c.name);
    var i := Find(groups, c.name);
    assert NewestRuns(checks)[i] == LastOf(Sorted(groups[i].runs));
    hide Groups, Sorted, OfName, NewestRuns;
    LastIsNewest(groups[i].runs, c.name);
    assert LastOf(Sorted(groups[i].runs)) in groups[i].runs;
    OneNewest(groups[i].runs, c, LastOf(Sorted(groups[i].runs)));
  }

  lemma OneNewest(checks: seq<Check>, c: Check, d: Check)
    requires IsNewest(checks, c) && IsNewest(checks, d) && c.name == d.name
    ensures c == d
  {
    var k :| IsNewestAt(checks, k) && checks[k] == c;
    var m :| IsNewestAt(checks, m) && checks[m] == d;
  }

  // -- the verdict --------------------------------------------------------

  datatype Rerun = Rerun(at: int, runIds: seq<int>)

  datatype Timing = Timing(windowFrom: int, now: int, rerun: Option<Rerun>)

  /** A floor check, and the names that cover it. */
  datatype Floor = Floor(key: string, names: seq<string>)

  datatype StopReason = CiMissing | CiTimeout

  datatype Evaluation =
    | Pending(pending: seq<string>)
    | Pass(flaky: seq<string>)
    | Fail(checks: seq<Check>)
    | AskRerun(runIds: seq<int>)
    | Stop(reason: StopReason, names: seq<string>)

  function Names(checks: seq<Check>): (r: seq<string>)
    ensures |r| == |checks| && forall i :: 0 <= i < |r| ==> r[i] == checks[i].name
  {
    seq(|checks|, i requires 0 <= i < |checks| => checks[i].name)
  }

  /** The run ids of some runs, each once, in the order they first come. */
  function RunIds(checks: seq<Check>): (r: seq<int>)
    ensures forall id :: id in r <==> exists c :: c in checks && c.runId == Some(id)
    ensures forall i, j :: 0 <= i < j < |r| ==> r[i] != r[j]
  {
    if checks == [] then []
    else
      var before := RunIds(checks[..|checks| - 1]);
      var c := checks[|checks| - 1];
      assert checks == checks[..|checks| - 1] + [c];
      if c.runId == None || c.runId.value in before then before else before + [c.runId.value]
  }

  /** A run of a workflow rerun, completed before the rerun: its new run is still to come. */
  predicate AwaitsRerun(rerun: Option<Rerun>, c: Check) {
    rerun.Some? && Rerunnable(c) && c.runId.value in rerun.value.runIds && Sooner(c.completedAt, Some(rerun.value.at))
  }

  predicate Failed(rerun: Option<Rerun>, c: Check) {
    ClassOf(c) == Fails && !AwaitsRerun(rerun, c)
  }

  predicate Final(rerun: Option<Rerun>, c: Check) {
    Failed(rerun, c) && (rerun.Some? || !Rerunnable(c))
  }

  predicate Unfinished(rerun: Option<Rerun>, c: Check) {
    ClassOf(c) == Waits || AwaitsRerun(rerun, c)
  }

  function History(checks: seq<Check>, of: seq<Check>): seq<Check> {
    if of == [] then []
    else History(checks, of[..|of| - 1]) + Sorted(OfName(checks, of[|of| - 1].name))
  }

  predicate IsFlaky(g: Group) {
    |g.runs| > 1 && (exists c :: c in g.runs && ClassOf(c) == Fails) && ClassOf(g.runs[|g.runs| - 1]) == Passes
  }

  function FlakyChecks(checks: seq<Check>): seq<string> {
    var flaky := Filter(SortedGroups(checks), IsFlaky);
    seq(|flaky|, i requires 0 <= i < |flaky| => flaky[i].name)
  }

  function Uncovered(newest: seq<Check>, floors: seq<Floor>): seq<string> {
    var passing := Names(Filter(newest, (c: Check) => ClassOf(c) == Passes));
    var uncovered := Filter(floors, (f: Floor) => !exists name :: name in f.names && name in passing);
    seq(|uncovered|, i requires 0 <= i < |uncovered| => uncovered[i].key)
  }

  function EvaluateCi(checks: seq<Check>, floors: seq<Floor>, timing: Timing): Evaluation {
    var elapsed := timing.now - timing.windowFrom;
    if checks == [] then
      if elapsed >= CI_MISSING_AFTER_MS then Stop(CiMissing, []) else Pending([])
    else
      var rerun := timing.rerun;
      var newest := NewestRuns(checks);
      var failed := Filter(newest, (c: Check) => Failed(rerun, c));
      var final := Filter(failed, (c: Check) => rerun.Some? || !Rerunnable(c));
      if |final| > 0 then Fail(History(checks, final))
      else
        var pending := Filter(newest, (c: Check) => Unfinished(rerun, c));
        if |pending| > 0 then
          if elapsed >= CI_TIMEOUT_MS then Stop(CiTimeout, Names(pending)) else Pending(Names(pending))
        else if |failed| > 0 then AskRerun(RunIds(failed))
        else
          var uncovered := Uncovered(newest, floors);
          if |uncovered| > 0 then Stop(CiMissing, uncovered) else Pass(FlakyChecks(checks))
  }

  // -- what the verdict means ---------------------------------------------

  /** Some newest run of a name is one the test picks. */
  ghost predicate SomeNewest(checks: seq<Check>, test: Check -> bool) {
    exists c :: IsNewest(checks, c) && test(c)
  }

  /** Some name of the floor has passed on its newest run. */
  ghost predicate Covered(checks: seq<Check>, floor: Floor) {
    exists c :: IsNewest(checks, c) && ClassOf(c) == Passes && c.name in floor.names
  }

  lemma SomeNewestKept(checks: seq<Check>, test: Check -> bool)
    ensures Filter(NewestRuns(checks), test) != [] <==> SomeNewest(checks, test)
  {
    var kept := Filter(NewestRuns(checks), test);
    if kept != [] {
      assert kept[0] in kept;
      NewestRunsHold(checks, kept[0]);
    }
    if SomeNewest(checks, test) {
      var c :| IsNewest(checks, c) && test(c);
      NewestRunsHold(checks, c);
      assert c in kept;
    }
  }

  lemma UncoveredMeans(checks: seq<Check>, floors: seq<Floor>)
    ensures Uncovered(NewestRuns(checks), floors) == [] <==> forall f :: f in floors ==> Covered(checks, f)
  {
    var newest := NewestRuns(checks);
    var passed := Filter(newest, (c: Check) => ClassOf(c) == Passes);
    var passing := Names(passed);
    forall f: Floor
      ensures (exists name :: name in f.names && name in passing) <==> Covered(checks, f)
    {
      if name :| name in f.names && name in passing {
        var i :| 0 <= i < |passing| && passing[i] == name;
        assert passed[i] in passed;
        NewestRunsHold(checks, passed[i]);
      }
      if Covered(checks, f) {
        var c :| IsNewest(checks, c) && ClassOf(c) == Passes && c.name in f.names;
        NewestRunsHold(checks, c);
        var i :| 0 <= i < |passed| && passed[i] == c;
        assert passing[i] == c.name;
      }
    }
    var uncovered := Filter(floors, (f: Floor) => !exists name :: name in f.names && name in passing);
    assert Uncovered(newest, floors) == [] <==> uncovered == [];
    assert uncovered != [] ==> uncovered[0] in uncovered;
  }

  /** The kind of the verdict, from the newest runs alone. */
  ghost function KindOf(checks: seq<Check>, floors: seq<Floor>, timing: Timing): Kind {
    var elapsed, rerun := timing.now - timing.windowFrom, timing.rerun;
    if checks == [] then (if elapsed >= CI_MISSING_AFTER_MS then IsMissing else IsPending)
    else if SomeNewest(checks, c => Final(rerun, c)) then IsFail
    else if SomeNewest(checks, c => Unfinished(rerun, c)) then
      (if elapsed >= CI_TIMEOUT_MS then IsTimeout else IsPending)
    else if SomeNewest(checks, c => Failed(rerun, c)) then IsRerun
    else if forall f :: f in floors ==> Covered(checks, f) then IsPass
    else IsMissing
  }

  datatype Kind = IsPending | IsPass | IsFail | IsRerun | IsMissing | IsTimeout

  function Verdict(e: Evaluation): Kind {
    match e
    case Pending(_) => IsPending
    case Pass(_) => IsPass
    case Fail(_) => IsFail
    case AskRerun(_) => IsRerun
    case Stop(reason, _) => if reason == CiMissing then IsMissing else IsTimeout
  }

  lemma VerdictIsKind(checks: seq<Check>, floors: seq<Floor>, timing: Timing)
    ensures Verdict(EvaluateCi(checks, floors, timing)) == KindOf(checks, floors, timing)
  {
    hide NewestRuns, FlakyChecks, History, RunIds, Uncovered, IsNewest, Covered, Filter, ClassOf, AwaitsRerun,
      Unfinished;
    var rerun := timing.rerun;
    var newest := NewestRuns(checks);
    var failed := Filter(newest, (c: Check) => Failed(rerun, c));
    var final := Filter(failed, (c: Check) => rerun.Some? || !Rerunnable(c));
    var pending := Filter(newest, (c: Check) => Unfinished(rerun, c));
    var isFinal := (c: Check) => Final(rerun, c);
    SomeNewestKept(checks, (c: Check) => Failed(rerun, c));
    SomeNewestKept(checks, isFinal);
    SomeNewestKept(checks, (c: Check) => Unfinished(rerun, c));
    UncoveredMeans(checks, floors);
    var finals := Filter(newest, isFinal);
    assert forall c :: c in final <==> c in finals;
    assert final != [] ==> final[0] in finals;
    assert finals != [] ==> finals[0] in final;
  }

  /** It passes exactly when checks were reported, each name's newest run passes, none waits for the
      rerun, and each floor check is covered. */
  lemma PassIff(checks: seq<Check>, floors: seq<Floor>, timing: Timing)
    ensures EvaluateCi(checks, floors, timing).Pass? <==>
      && checks != []
      && (forall c :: IsNewest(checks, c) ==> ClassOf(c) == Passes && !AwaitsRerun(timing.rerun, c))
      && (forall f :: f in floors ==> Covered(checks, f))
  {
    VerdictIsKind(checks, floors, timing);
    var rerun := timing.rerun;
    hide EvaluateCi, Covered, IsNewest;
    if forall c :: IsNewest(checks, c) ==> ClassOf(c) == Passes && !AwaitsRerun(rerun, c) {
      assert !SomeNewest(checks, c => Final(rerun, c));
      assert !SomeNewest(checks, c => Unfinished(rerun, c));
      assert !SomeNewest(checks, c => Failed(rerun, c));
    } else {
      var c :| IsNewest(checks, c) && !(ClassOf(c) == Passes && !AwaitsRerun(rerun, c));
      if Unfinished(rerun, c) {
        assert (d => Unfinished(rerun, d))(c);
      } else {
        assert (d => Failed(rerun, d))(c);
      }
    }
  }

  /** The rerun is asked for only when none was made, everything has finished, and every failure can be
      rerun; it covers exactly the failures' workflow runs. */
  lemma AskRerunMeans(checks: seq<Check>, floors: seq<Floor>, timing: Timing)
    requires EvaluateCi(checks, floors, timing).AskRerun?
    ensures timing.rerun == None
    ensures forall c :: IsNewest(checks, c) ==> ClassOf(c) != Waits && (ClassOf(c) == Fails ==> Rerunnable(c))
    ensures var ids := EvaluateCi(checks, floors, timing).runIds;
      && ids != []
      && (forall id :: id in ids <==> exists c :: IsNewest(checks, c) && ClassOf(c) == Fails && c.runId == Some(id))
  {
    hide FlakyChecks, History, Uncovered, NewestRuns, Filter, ClassOf, IsNewest, Covered, RunIds;
    VerdictIsKind(checks, floors, timing);
    var rerun := timing.rerun;
    var failed := Filter(NewestRuns(checks), (c: Check) => Failed(rerun, c));
    assert EvaluateCi(checks, floors, timing).runIds == RunIds(failed);
    assert failed[0] in failed;
    hide EvaluateCi;
    forall c
      ensures c in failed <==> IsNewest(checks, c) && Failed(rerun, c)
    {
      NewestRunsHold(checks, c);
    }
    assert rerun == None by {
      assert (d => Final(rerun, d))(failed[0]) <==> rerun.Some? || !Rerunnable(failed[0]);
    }
    forall c | IsNewest(checks, c)
      ensures ClassOf(c) != Waits && (ClassOf(c) == Fails ==> Rerunnable(c))
    {
      assert (d => Unfinished(rerun, d))(c) <==> ClassOf(c) == Waits;
      assert (d => Final(rerun, d))(c) <==> ClassOf(c) == Fails && !Rerunnable(c);
    }
    assert Rerunnable(failed[0]) && failed[0].runId.value in RunIds(failed);
  }

  /** A name is flaky when a run of it failed and its newest run passes; so on a passing verdict the
      flaky names are those with a failed run. */
  lemma FlakyMeans(checks: seq<Check>, name: string)
    ensures name in FlakyChecks(checks) <==> FailedAndPasses(checks, name)
  {
    hide IsFlaky, Sorted, Filter, ClassOf, IsNewest;
    assert FailedAndPasses(checks, name) ==> exists c :: c in checks && c.name == name;
    hide FailedAndPasses;
    var groups := SortedGroups(checks);
    var flaky := Filter(groups, IsFlaky);
    if name in FlakyChecks(checks) {
      var i :| 0 <= i < |flaky| && flaky[i].name == name;
      assert flaky[i] in flaky;
      var j :| 0 <= j < |groups| && groups[j] == flaky[i];
      GroupIsFlakyIff(checks, j);
    }
    if FailedAndPasses(checks, name) {
      GroupsHold(checks);
      var i := Find(Groups(checks), name);
      assert groups[i].name == name;
      GroupIsFlakyIff(checks, i);
      assert groups[i] in flaky;
      var j :| 0 <= j < |flaky| && flaky[j] == groups[i];
      assert FlakyChecks(checks)[j] == name;
    }
  }

  ghost predicate FailedAndPasses(checks: seq<Check>, name: string) {
    && (exists c :: c in checks && c.name == name && ClassOf(c) == Fails)
    && (exists c :: IsNewest(checks, c) && c.name == name && ClassOf(c) == Passes)
  }

  lemma GroupIsFlakyIff(checks: seq<Check>, i: nat)
    requires i < |SortedGroups(checks)|
    ensures IsFlaky(SortedGroups(checks)[i]) <==> FailedAndPasses(checks, SortedGroups(checks)[i].name)
  {
    GroupMeans(checks, i);
    var g := SortedGroups(checks)[i];
    var last := LastOf(g.runs);
    hide SortedGroups, IsNewest, ClassOf;
    if FailedAndPasses(checks, g.name) {
      var c, d :| (c in checks && c.name == g.name && ClassOf(c) == Fails)
        && (IsNewest(checks, d) && d.name == g.name && ClassOf(d) == Passes);
      OneNewest(checks, d, last);
      assert c in g.runs && d in g.runs;
      assert |g.runs| == 1 ==> c == d;
    }
  }

  lemma GroupMeans(checks: seq<Check>, i: nat)
    requires i < |SortedGroups(checks)|
    ensures var g := SortedGroups(checks)[i];
      && g.runs != [] && (forall c :: c in g.runs <==> c in checks && c.name == g.name)
      && IsNewest(checks, LastOf(g.runs)) && LastOf(g.runs).name == g.name
  {
    GroupsHold(checks);
    var g := SortedGroups(checks)[i];
    StableSort.SameElements(Groups(checks)[i].runs, StartsSooner);
    assert LastOf(g.runs) in g.runs;
    assert NewestRuns(checks)[i] == LastOf(g.runs);
    NewestRunsHold(checks, LastOf(g.runs));
  }

  // -- the order of the report --------------------------------------------

  /** What a newest run does to the verdict. */
  datatype Bearing = FailsIt | HoldsIt | NeedsRerun | LetsPass

  function BearingOf(rerun: Option<Rerun>, c: Check): Bearing {
    if Final(rerun, c) then FailsIt
    else if Unfinished(rerun, c) then HoldsIt
    else if Failed(rerun, c) then NeedsRerun
    else LetsPass
  }

  /** No run of its name started later; the runs of a name that are so are tied. */
  ghost predicate IsLatest(checks: seq<Check>, c: Check) {
    c in checks && forall d :: d in checks && d.name == c.name ==> !Sooner(c.startedAt, d.startedAt)
  }

  ghost predicate TiesAgree(checks: seq<Check>, rerun: Option<Rerun>) {
    forall c, d :: IsLatest(checks, c) && IsLatest(checks, d) && c.name == d.name ==>
      BearingOf(rerun, c) == BearingOf(rerun, d)
  }

  ghost predicate SomeBears(checks: seq<Check>, rerun: Option<Rerun>, bearing: Bearing) {
    exists c :: IsNewest(checks, c) && BearingOf(rerun, c) == bearing
  }

  ghost predicate PassesFor(checks: seq<Check>, rerun: Option<Rerun>, f: Floor) {
    exists c :: IsNewest(checks, c) && BearingOf(rerun, c) == LetsPass && c.name in f.names
  }

  lemma NewestIsLatest(checks: seq<Check>, c: Check)
    requires IsNewest(checks, c)
    ensures IsLatest(checks, c)
  {
    var k :| IsNewestAt(checks, k) && checks[k] == c;
  }

  lemma NewestExists(checks: seq<Check>, c: Check) returns (d: Check)
    requires c in checks
    ensures IsNewest(checks, d) && d.name == c.name
  {
    hide IsNewest, Groups, Sorted;
    GroupsHold(checks);
    var i := Find(Groups(checks), c.name);
    GroupMeans(checks, i);
    d := LastOf(SortedGroups(checks)[i].runs);
  }

  /** The verdict's kind, from what the newest runs bear. */
  lemma KindByBearing(checks: seq<Check>, floors: seq<Floor>, timing: Timing)
    requires checks != []
    ensures KindOf(checks, floors, timing) ==
      if SomeBears(checks, timing.rerun, FailsIt) then IsFail
      else if SomeBears(checks, timing.rerun, HoldsIt) then
        (if timing.now - timing.windowFrom >= CI_TIMEOUT_MS then IsTimeout else IsPending)
      else if SomeBears(checks, timing.rerun, NeedsRerun) then IsRerun
      else if forall f :: f in floors ==> PassesFor(checks, timing.rerun, f) then IsPass
      else IsMissing
  {
    var rerun := timing.rerun;
    assert forall c :: BearingOf(rerun, c) == LetsPass ==> ClassOf(c) == Passes;
    assert forall c :: ClassOf(c) == Passes ==> BearingOf(rerun, c) == LetsPass || BearingOf(rerun, c) == HoldsIt;
    hide IsNewest, ClassOf, AwaitsRerun, Rerunnable;
    var isFinal, isUnfinished, isFailed :=
      (c: Check) => Final(rerun, c), (c: Check) => Unfinished(rerun, c), (c: Check) => Failed(rerun, c);
    assert forall c :: isFinal(c) <==> BearingOf(rerun, c) == FailsIt;
    assert SomeNewest(checks, isFinal) <==> SomeBears(checks, rerun, FailsIt);
    assert SomeNewest(checks, isUnfinished) && !SomeBears(checks, rerun, FailsIt) <==>
           SomeBears(checks, rerun, HoldsIt) && !SomeBears(checks, rerun, FailsIt);
    if !SomeBears(checks, rerun, FailsIt) && !SomeBears(checks, rerun, HoldsIt) {
      assert SomeNewest(checks, isFailed) <==> SomeBears(checks, rerun, NeedsRerun);
      assert forall f :: Covered(checks, f) <==> PassesFor(checks, rerun, f);
    }
  }

  lemma SameLatest(a: seq<Check>, b: seq<Check>)
    requires multiset(a) == multiset(b)
    ensures |a| == |b| && forall c :: IsLatest(a, c) <==> IsLatest(b, c)
  {
    assert forall c :: (c in a <==> c in multiset(a)) && (c in b <==> c in multiset(b));
    assert |a| == |multiset(a)| == |b|;
  }

  /** Where ties agree, another order has a newest run of the same name that bears the same. */
  lemma NewestElsewhere(a: seq<Check>, b: seq<Check>, rerun: Option<Rerun>, c: Check) returns (d: Check)
    requires multiset(a) == multiset(b) && TiesAgree(a, rerun) && IsNewest(a, c)
    ensures IsNewest(b, d) && d.name == c.name && BearingOf(rerun, d) == BearingOf(rerun, c)
  {
    NewestIsLatest(a, c);
    SameLatest(a, b);
    assert c in b by {
      assert c in multiset(a);
    }
    hide IsNewest, BearingOf, IsLatest;
    d := NewestExists(b, c);
    NewestIsLatest(b, d);
  }

  lemma TiesAgreeAnywhere(a: seq<Check>, b: seq<Check>, rerun: Option<Rerun>)
    requires multiset(a) == multiset(b) && TiesAgree(a, rerun)
    ensures TiesAgree(b, rerun)
  {
    hide IsLatest, BearingOf;
    SameLatest(a, b);
  }

  lemma SameBearings(a: seq<Check>, b: seq<Check>, rerun: Option<Rerun>)
    requires multiset(a) == multiset(b) && TiesAgree(a, rerun)
    ensures forall bearing :: SomeBears(a, rerun, bearing) ==> SomeBears(b, rerun, bearing)
    ensures forall f :: PassesFor(a, rerun, f) ==> PassesFor(b, rerun, f)
  {
    hide IsNewest, BearingOf, TiesAgree;
    forall bearing | SomeBears(a, rerun, bearing)
      ensures SomeBears(b, rerun, bearing)
    {
      var c :| IsNewest(a, c) && BearingOf(rerun, c) == bearing;
      var d := NewestElsewhere(a, b, rerun, c);
    }
    forall f | PassesFor(a, rerun, f)
      ensures PassesFor(b, rerun, f)
    {
      var c :| IsNewest(a, c) && BearingOf(rerun, c) == LetsPass && c.name in f.names;
      var d := NewestElsewhere(a, b, rerun, c);
    }
  }

  /** When the runs of each name that are tied for the latest start bear the same, the verdict's kind
      does not depend on the order in which the checks are reported. */
  lemma OrderDoesNotDecide(a: seq<Check>, b: seq<Check>, floors: seq<Floor>, timing: Timing)
    requires multiset(a) == multiset(b) && TiesAgree(a, timing.rerun)
    ensures Verdict(EvaluateCi(a, floors, timing)) == Verdict(EvaluateCi(b, floors, timing))
  {
    hide *;
    VerdictIsKind(a, floors, timing);
    VerdictIsKind(b, floors, timing);
    SameLatest(a, b);
    if a != [] {
      KindByBearing(a, floors, timing);
      KindByBearing(b, floors, timing);
      TiesAgreeAnywhere(a, b, timing.rerun);
      SameBearings(a, b, timing.rerun);
      SameBearings(b, a, timing.rerun);
    }
  }

  function KindOfBearing(bearing: Bearing, timing: Timing): Kind {
    match bearing
    case FailsIt => IsFail
    case HoldsIt => if timing.now - timing.windowFrom >= CI_TIMEOUT_MS then IsTimeout else IsPending
    case NeedsRerun => IsRerun
    case LetsPass => IsPass
  }

  /** Every name but one is sure to pass. */
  ghost predicate OthersPass(checks: seq<Check>, name: string, rerun: Option<Rerun>) {
    forall c :: IsLatest(checks, c) && c.name != name ==> BearingOf(rerun, c) == LetsPass
  }

  lemma OneNewestBears(checks: seq<Check>, c: Check, timing: Timing)
    requires IsNewest(checks, c) && OthersPass(checks, c.name, timing.rerun)
    ensures KindOf(checks, [], timing) == KindOfBearing(BearingOf(timing.rerun, c), timing)
  {
    NewestIsLatest(checks, c);
    KindByBearing(checks, [], timing);
    hide KindOf, IsNewest, IsLatest, BearingOf;
    forall d | IsNewest(checks, d)
      ensures d == c || BearingOf(timing.rerun, d) == LetsPass
    {
      NewestIsLatest(checks, d);
      if d.name == c.name {
        OneNewest(checks, c, d);
      }
    }
  }

  /** The same report with one of the latest runs listed last, where it counts. */
  lemma ListedLast(checks: seq<Check>, c: Check) returns (a: seq<Check>)
    requires IsLatest(checks, c)
    ensures multiset(a) == multiset(checks) && IsNewest(a, c)
  {
    var k :| 0 <= k < |checks| && checks[k] == c;
    a := checks[..k] + checks[k + 1..] + [c];
    MovedLast(checks, k);
    SameLatest(a, checks);
    hide IsLatest;
    LatestAtEnd(a, c);
  }

  lemma LatestAtEnd(a: seq<Check>, c: Check)
    requires a != [] && a[|a| - 1] == c && IsLatest(a, c)
    ensures IsNewest(a, c)
  {
    forall i | 0 <= i < |a| && a[i].name == c.name
      ensures !Sooner(c.startedAt, a[i].startedAt)
    {
      assert a[i] in a;
    }
    assert IsNewestAt(a, |a| - 1);
  }

  ghost predicate OrderMatters(checks: seq<Check>, timing: Timing) {
    exists a, b, floors ::
      && multiset(a) == multiset(checks) && multiset(b) == multiset(checks)
      && Verdict(EvaluateCi(a, floors, timing)) != Verdict(EvaluateCi(b, floors, timing))
  }

  lemma ListedLastDecides(checks: seq<Check>, c: Check, timing: Timing) returns (a: seq<Check>)
    requires IsLatest(checks, c) && OthersPass(checks, c.name, timing.rerun)
    ensures multiset(a) == multiset(checks)
    ensures Verdict(EvaluateCi(a, [], timing)) == KindOfBearing(BearingOf(timing.rerun, c), timing)
  {
    a := ListedLast(checks, c);
    SameLatest(a, checks);
    hide IsLatest, BearingOf, EvaluateCi, KindOf, IsNewest, KindOfBearing;
    OneNewestBears(a, c, timing);
    VerdictIsKind(a, [], timing);
  }

  /** In a report of one name, or whose other names are sure to pass, the order decides exactly when
      runs tied for the latest start bear differently. */
  lemma OrderMattersIff(checks: seq<Check>, name: string, timing: Timing)
    requires OthersPass(checks, name, timing.rerun)
    ensures OrderMatters(checks, timing) <==> !TiesAgree(checks, timing.rerun)
  {
    hide EvaluateCi, Verdict, IsLatest, BearingOf;
    if OrderMatters(checks, timing) && TiesAgree(checks, timing.rerun) {
      var a, b, floors :|
        && multiset(a) == multiset(checks) && multiset(b) == multiset(checks)
        && Verdict(EvaluateCi(a, floors, timing)) != Verdict(EvaluateCi(b, floors, timing));
      OrderDoesNotDecide(checks, a, floors, timing);
      OrderDoesNotDecide(checks, b, floors, timing);
      assert false;
    }
    if !TiesAgree(checks, timing.rerun) {
      var c, d :| IsLatest(checks, c) && IsLatest(checks, d) && c.name == d.name
        && BearingOf(timing.rerun, c) != BearingOf(timing.rerun, d);
      assert c.name == name;
      var a := ListedLastDecides(checks, c, timing);
      var b := ListedLastDecides(checks, d, timing);
      assert Verdict(EvaluateCi(a, [], timing)) != Verdict(EvaluateCi(b, [], timing));
    }
  }

  // -- the polls of a round -----------------------------------------------

  /** The round's rerun effect: not asked for, under way, done, or failed. */
  datatype Effect = NotAsked | UnderWay(runIds: seq<int>) | Done(at: int, runIds: seq<int>) | EffectFailed

  datatype Event =
    | Poll(checks: seq<Check>, windowFrom: int, now: int)
    | Settled(ok: bool, at: int)

  function RerunOf(effect: Effect): Option<Rerun> {
    if effect.Done? then Some(Rerun(effect.at, effect.runIds)) else None
  }

  /** A poll decides nothing while the rerun is under way; asking starts the effect. */
  function AfterEvent(floors: seq<Floor>, effect: Effect, event: Event): (Effect, Option<Evaluation>) {
    match event
    case Settled(ok, at) =>
      if !effect.UnderWay? then (effect, None)
      else (if ok then Done(at, effect.runIds) else EffectFailed, None)
    case Poll(checks, windowFrom, now) =>
      if effect.UnderWay? then (effect, None)
      else
        var e := EvaluateCi(checks, floors, Timing(windowFrom, now, RerunOf(effect)));
        (if e.AskRerun? then UnderWay(e.runIds) else effect, Some(e))
  }

  datatype Tally = Tally(effect: Effect, asked: nat, failed: nat, done: nat)

  /** Counts of reruns asked for, failed and done over a round's events. */
  function Count(floors: seq<Floor>, events: seq<Event>): Tally {
    if events == [] then Tally(NotAsked, 0, 0, 0)
    else
      var t := Count(floors, events[..|events| - 1]);
      var (effect, e) := AfterEvent(floors, t.effect, events[|events| - 1]);
      Tally(effect,
        if e.Some? && e.value.AskRerun? then t.asked + 1 else t.asked,
        if t.effect.UnderWay? && effect.EffectFailed? then t.failed + 1 else t.failed,
        if t.effect.UnderWay? && effect.Done? then t.done + 1 else t.done)
  }

  /** Over any polls of a round at most one rerun is done, none is asked for after it or while one is
      under way, and a second is asked for only when the one before failed. */
  lemma {:induction false} AtMostOneRerun(floors: seq<Floor>, events: seq<Event>)
    ensures var t := Count(floors, events);
      && t.done <= 1 && (t.done == 1 <==> t.effect.Done?)
      && t.asked == t.failed + t.done + (if t.effect.UnderWay? then 1 else 0)
      && (t.failed == 0 ==> t.asked <= 1)
  {
    if events != [] {
      AtMostOneRerun(floors, events[..|events| - 1]);
      var t := Count(floors, events[..|events| - 1]);
      var event := events[|events| - 1];
      if event.Poll? && t.effect.Done? {
        NoSecondRerun(event.checks, floors, Timing(event.windowFrom, event.now, RerunOf(t.effect)));
      }
      hide EvaluateCi;
    }
  }

  lemma NoSecondRerun(checks: seq<Check>, floors: seq<Floor>, timing: Timing)
    requires timing.rerun.Some?
    ensures !EvaluateCi(checks, floors, timing).AskRerun?
  {
    if EvaluateCi(checks, floors, timing).AskRerun? {
      AskRerunMeans(checks, floors, timing);
      assert false;
    }
  }
}
