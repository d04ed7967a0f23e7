/** What the report of a plan's dependency cycles means: nothing exactly for an acyclic plan, a path
    for each dependency that closes a cycle in the order of the search, and every cycle where no
    two share such a dependency. */
module PlanCycles {
  import opened Lists
  import opened Strings
  import opened PlanDependencies

  ghost predicate SharesEdge(c: seq<string>, p: seq<string>) {
    exists i :: 0 <= i < |c| && HasStep(p, c[i], Next(c, i))
  }

  ghost predicate Represented(g: map<string, seq<string>>, order: seq<string>, cycles: seq<seq<string>>,
                              c: seq<string>) {
    exists w :: |w| > 0 && IsReportedPath(g, order, w) && SharesEdge(c, w) && KeyReported(cycles, w)
  }

  lemma ReportedIsCycle(g: map<string, seq<string>>, order: seq<string>, p: seq<string>)
    requires IsReportedPath(g, order, p)
    ensures |p| > 1 && p[0] == p[|p| - 1] && IsCycle(g, p[..|p| - 1])
  {
    var c := p[..|p| - 1];
    forall i | 0 <= i < |c|
      ensures HasEdge(g, c[i], Next(c, i))
    {
      assert EdgeAt(g, p, i);
    }
  }

  /** A cycle of finished nodes cannot only step to earlier-finished ones. */
  lemma {:induction false} DescentBound(g: map<string, seq<string>>, finish: map<string, nat>, c: seq<string>, i: nat)
    requires IsCycle(g, c) && i < |c|
    requires forall k :: 0 <= k < |c| ==> c[k] in finish && Next(c, k) in finish && finish[Next(c, k)] < finish[c[k]]
    ensures finish[c[i]] <= finish[c[0]]
  {
    if i > 0 {
      DescentBound(g, finish, c, i - 1);
      assert Next(c, i - 1) == c[i];
    }
  }

  /** A step that the search does not leave upwards goes down. */
  lemma StepDescends(content: seq<PlanChange>, finish: map<string, nat>, tree: map<string, nat>, u: string, v: string)
    requires Leaves(Edges(content), Names(content), finish, tree)
    requires HasEdge(Edges(content), u, v) && !Ascends(finish, u, v)
    ensures u in finish && v in finish && finish[v] < finish[u]
  {
  }

  /** Somewhere on a cycle the search leaves a change before the one it depends on. */
  lemma CycleAscends(content: seq<PlanChange>, finish: map<string, nat>, tree: map<string, nat>, c: seq<string>)
    requires Leaves(Edges(content), Names(content), finish, tree) && IsCycle(Edges(content), c)
    ensures exists i :: 0 <= i < |c| && Ascends(finish, c[i], Next(c, i))
  {
    hide Leaves, Edges, Ascends, HasEdge;
    if forall i :: 0 <= i < |c| ==> !Ascends(finish, c[i], Next(c, i)) {
      forall k | 0 <= k < |c|
        ensures c[k] in finish && Next(c, k) in finish && finish[Next(c, k)] < finish[c[k]]
      {
        StepDescends(content, finish, tree, c[k], Next(c, k));
      }
      DescentBound(Edges(content), finish, c, |c| - 1);
      assert false;
    }
  }

  /** Every cycle shares a dependency with a path whose key is reported. */
  lemma CyclesAreRepresented(content: seq<PlanChange>, cycles: seq<seq<string>>, c: seq<string>)
    requires IsCycleReport(content, cycles) && IsCycle(Edges(content), c)
    ensures Represented(Edges(content), Names(content), cycles, c)
  {
    hide Edges, Leaves, IsReportedPath, HasStep, Key;
    var g, order := Edges(content), Names(content);
    var finish, tree, closers :| Leaves(g, order, finish, tree) && ReportIn(g, order, finish, closers, cycles);
    CycleAscends(content, finish, tree, c);
    var i :| 0 <= i < |c| && Ascends(finish, c[i], Next(c, i));
    assert HasEdge(g, c[i], Next(c, i));
    assert Closes(g, order, finish, cycles, c[i], Next(c, i));
    var w :| ClosedBy(g, order, finish, w, c[i], Next(c, i)) && KeyReported(cycles, w);
    assert SharesEdge(c, w);
  }

  lemma ReportsPaths(content: seq<PlanChange>, cycles: seq<seq<string>>)
    requires IsCycleReport(content, cycles)
    ensures forall k :: 0 <= k < |cycles| ==>
      |cycles[k]| > 0 && IsReportedPath(Edges(content), Names(content), cycles[k])
    ensures forall i, j :: 0 <= i < j < |cycles| ==>
      |cycles[i]| > 0 && |cycles[j]| > 0 && Key(cycles[i]) != Key(cycles[j])
  {
    hide Edges, Leaves, IsReportedPath, HasStep, Key;
  }

  /** Nothing is reported exactly when the plan has no dependency cycle, whatever the names. */
  lemma EmptyIffAcyclic(content: seq<PlanChange>, cycles: seq<seq<string>>)
    requires IsCycleReport(content, cycles)
    ensures cycles == [] <==> forall c :: !IsCycle(Edges(content), c)
  {
    hide *;
    ReportsPaths(content, cycles);
    if cycles != [] {
      ReportedIsCycle(Edges(content), Names(content), cycles[0]);
      assert IsCycle(Edges(content), cycles[0][..|cycles[0]| - 1]);
    } else {
      forall c | IsCycle(Edges(content), c)
        ensures false
      {
        CyclesAreRepresented(content, cycles, c);
        NoneRepresented(Edges(content), Names(content), c);
      }
    }
  }

  lemma NoneRepresented(g: map<string, seq<string>>, order: seq<string>, c: seq<string>)
    ensures !Represented(g, order, [], c)
  {
  }

  // -- which cycles are listed --------------------------------------------

  ghost predicate SameKey(content: seq<PlanChange>, p: seq<string>, q: seq<string>) {
    && |p| > 0 && IsReportedPath(Edges(content), Names(content), p)
    && |q| > 0 && IsReportedPath(Edges(content), Names(content), q)
    && Key(p) == Key(q)
  }

  /** No two paths of the plan have one key. */
  ghost predicate KeysTell(content: seq<PlanChange>) {
    forall p, q :: SameKey(content, p, q) ==> p == q
  }

  /** Where keys tell the paths apart, every cycle shares a dependency with a reported path. */
  lemma CyclesAreCovered(content: seq<PlanChange>, cycles: seq<seq<string>>, c: seq<string>)
    requires IsCycleReport(content, cycles) && KeysTell(content)
    requires IsCycle(Edges(content), c)
    ensures exists k :: 0 <= k < |cycles| && SharesEdge(c, cycles[k])
  {
    hide Key, SharesEdge, IsCycle, IsReportedPath, Edges, IsCycleReport;
    var g, order := Edges(content), Names(content);
    CyclesAreRepresented(content, cycles, c);
    ReportsPaths(content, cycles);
    var w :| |w| > 0 && IsReportedPath(g, order, w) && SharesEdge(c, w) && KeyReported(cycles, w);
    var k :| 0 <= k < |cycles| && |cycles[k]| > 0 && Key(cycles[k]) == Key(w);
    assert SameKey(content, cycles[k], w);
  }

  /** Two paths of the plan with a dependency in common. */
  ghost predicate Meet(g: map<string, seq<string>>, order: seq<string>, p: seq<string>, q: seq<string>, u: string,
                       v: string) {
    IsReportedPath(g, order, p) && IsReportedPath(g, order, q) && HasStep(p, u, v) && HasStep(q, u, v)
  }

  /** Each dependency lies on at most one simple cycle. */
  ghost predicate CyclesApart(g: map<string, seq<string>>, order: seq<string>) {
    forall u, v, p, q :: Meet(g, order, p, q, u, v) ==> p == q
  }

  /** No two paths share a step of which the search leaves the first change before the second. */
  ghost predicate ClosedOnce(g: map<string, seq<string>>, order: seq<string>, finish: map<string, nat>) {
    forall u, v, p, q :: Ascends(finish, u, v) && Meet(g, order, p, q, u, v) ==> p == q
  }

  /** Every path of the plan is reported exactly when no two are closed by one dependency. */
  lemma AllListedIff(content: seq<PlanChange>, cycles: seq<seq<string>>, finish: map<string, nat>,
                     tree: map<string, nat>,
                     closers: seq<(string, string)>)
    requires Leaves(Edges(content), Names(content), finish, tree)
    requires ReportIn(Edges(content), Names(content), finish, closers, cycles) && KeysTell(content)
    ensures (forall p :: IsReportedPath(Edges(content), Names(content), p) ==> p in cycles)
      <==> ClosedOnce(Edges(content), Names(content), finish)
  {
    hide IsReportedPath, HasStep, Key, Edges, Leaves, KeysTell, ClosedBy, Ascends;
    var g, order := Edges(content), Names(content);
    if forall p :: IsReportedPath(g, order, p) ==> p in cycles {
      forall u, v, p, q | Ascends(finish, u, v) && Meet(g, order, p, q, u, v)
        ensures p == q
      {
        var i :| 0 <= i < |cycles| && cycles[i] == p;
        var j :| 0 <= j < |cycles| && cycles[j] == q;
        OneCloser(g, order, finish, p, closers[i], u, v);
        OneCloser(g, order, finish, q, closers[j], u, v);
      }
    }
    if ClosedOnce(g, order, finish) {
      forall p | IsReportedPath(g, order, p)
        ensures p in cycles
      {
        ListedIfClosedOnce(content, cycles, finish, tree, closers, p);
      }
    }
  }

  lemma OneCloser(g: map<string, seq<string>>, order: seq<string>, finish: map<string, nat>, w: seq<string>,
                  closer: (string, string), u: string, v: string)
    requires ClosedBy(g, order, finish, w, closer.0, closer.1) && HasStep(w, u, v) && Ascends(finish, u, v)
    ensures closer == (u, v)
  {
    hide IsReportedPath, HasStep;
  }

  lemma StepsOfPath(p: seq<string>, i: nat)
    requires |p| > 1 && p[0] == p[|p| - 1] && i < |p| - 1
    ensures HasStep(p, p[..|p| - 1][i], Next(p[..|p| - 1], i))
  {
    assert StepAt(p, i, p[i], p[i + 1]);
  }

  lemma ListedIfClosedOnce(content: seq<PlanChange>, cycles: seq<seq<string>>, finish: map<string, nat>,
                           tree: map<string, nat>,
                           closers: seq<(string, string)>, p: seq<string>)
    requires Leaves(Edges(content), Names(content), finish, tree)
    requires ReportIn(Edges(content), Names(content), finish, closers, cycles) && KeysTell(content)
    requires ClosedOnce(Edges(content), Names(content), finish)
    requires IsReportedPath(Edges(content), Names(content), p)
    ensures p in cycles
  {
    hide IsReportedPath, HasStep, Key, Edges, Leaves, IsCycle, Ascends;
    var g, order := Edges(content), Names(content);
    ReportedIsCycle(g, order, p);
    var c := p[..|p| - 1];
    CycleAscends(content, finish, tree, c);
    var i :| 0 <= i < |c| && Ascends(finish, c[i], Next(c, i));
    StepsOfPath(p, i);
    CycleEdge(g, c, i);
    assert Closes(g, order, finish, cycles, c[i], Next(c, i));
    var w :| ClosedBy(g, order, finish, w, c[i], Next(c, i)) && KeyReported(cycles, w);
    assert Meet(g, order, w, p, c[i], Next(c, i));
    var k :| 0 <= k < |cycles| && |cycles[k]| > 0 && Key(cycles[k]) == Key(w);
    assert SameKey(content, cycles[k], p);
  }

  lemma CycleEdge(g: map<string, seq<string>>, c: seq<string>, i: nat)
    requires IsCycle(g, c) && i < |c|
    ensures HasEdge(g, c[i], Next(c, i))
  {
  }

  /** Where each dependency lies on at most one simple cycle, every simple cycle is reported,
      written from its earliest change. */
  lemma EveryCycleIsListed(content: seq<PlanChange>, cycles: seq<seq<string>>, c: seq<string>)
    requires IsCycleReport(content, cycles) && KeysTell(content)
    requires CyclesApart(Edges(content), Names(content))
    requires IsCycle(Edges(content), c) && Distinct(c)
    ensures |c| > 0 && Closed(Names(content), c) in cycles
  {
    var g, order := Edges(content), Names(content);
    assert HasEdge(g, c[0], Next(c, 0));
    hide *;
    ClosedIsReportedPath(g, order, c);
    ListedWhereApart(content, cycles, Closed(order, c));
  }

  lemma ListedWhereApart(content: seq<PlanChange>, cycles: seq<seq<string>>, w: seq<string>)
    requires IsCycleReport(content, cycles) && KeysTell(content)
    requires CyclesApart(Edges(content), Names(content))
    requires IsReportedPath(Edges(content), Names(content), w)
    ensures w in cycles
  {
    hide IsReportedPath, HasStep, Key, Edges, Leaves, KeysTell, ReportIn, Ascends;
    var finish, tree, closers :| Leaves(Edges(content), Names(content), finish, tree)
      && ReportIn(Edges(content), Names(content), finish, closers, cycles);
    AllListedIff(content, cycles, finish, tree, closers);
  }

  // -- names without NUL ---------------------------------------------------

  predicate NulFree(parts: seq<string>) {
    forall i :: 0 <= i < |parts| ==> '\0' !in parts[i]
  }

  /** Names without NUL make the key of a path its own. */
  lemma NulFreeKeysTell(content: seq<PlanChange>)
    requires NulFree(Names(content))
    ensures KeysTell(content)
  {
    hide Key, IsReportedPath, Edges, NulFree;
    forall p, q | SameKey(content, p, q)
      ensures p == q
    {
      SameKeySamePath(content, p, q);
    }
  }

  lemma SameKeySamePath(content: seq<PlanChange>, w: seq<string>, p: seq<string>)
    requires NulFree(Names(content))
    requires IsReportedPath(Edges(content), Names(content), w) && IsReportedPath(Edges(content), Names(content), p)
    requires Key(w) == Key(p)
    ensures w == p
  {
    hide *;
    ReportedIsCycle(Edges(content), Names(content), w);
    ReportedIsCycle(Edges(content), Names(content), p);
    OnCycleIsNamed(content, w[..|w| - 1]);
    OnCycleIsNamed(content, p[..|p| - 1]);
    KeyTells(w, p);
  }

  lemma KeyTells(w: seq<string>, p: seq<string>)
    requires |w| > 1 && |p| > 1 && w[0] == w[|w| - 1] && p[0] == p[|p| - 1]
    requires NulFree(w[..|w| - 1]) && NulFree(p[..|p| - 1]) && Key(w) == Key(p)
    ensures w == p
  {
    hide Join;
    var w', p' := w[..|w| - 1], p[..|p| - 1];
    JoinInjective(w', p', '\0');
    assert w == w' + [w'[0]] && p == p' + [p'[0]];
  }

  lemma OnCycleIsNamed(content: seq<PlanChange>, c: seq<string>)
    requires IsCycle(Edges(content), c) && NulFree(Names(content))
    ensures NulFree(c)
  {
    forall i | 0 <= i < |c|
      ensures '\0' !in c[i]
    {
      assert HasEdge(Edges(content), c[i], Next(c, i));
      assert c[i] in Names(content);
    }
  }

  /** Two cycles with no change in common whose keys are the same text. */
  function Clashing(): seq<PlanChange> {
    [PlanChange("a", ["b\0c"]), PlanChange("b\0c", ["a"]), PlanChange("a\0b", ["c"]), PlanChange("c", ["a\0b"])]
  }

  lemma {:induction false} StaysInPair(g: map<string, seq<string>>, p: seq<string>, x: string, y: string, from: nat,
                                       to: nat)
    requires from <= to < |p| && forall i :: 0 <= i < |p| - 1 ==> EdgeAt(g, p, i)
    requires x in g && y in g && g[x] == [y] && g[y] == [x]
    requires p[from] == x || p[from] == y
    ensures p[to] == x || p[to] == y
  {
    if from < to {
      StaysInPair(g, p, x, y, from, to - 1);
      assert EdgeAt(g, p, to - 1);
    }
  }

  lemma ClosesInPair(g: map<string, seq<string>>, p: seq<string>, x: string, y: string)
    requires |p| > 0 && forall i :: 0 <= i < |p| - 1 ==> EdgeAt(g, p, i)
    requires x in g && y in g && g[x] == [y] && g[y] == [x] && SharesEdge([x, y], p)
    ensures p[|p| - 1] == x || p[|p| - 1] == y
  {
    var i :| 0 <= i < 2 && HasStep(p, [x, y][i], Next([x, y], i));
    var j :| StepAt(p, j, [x, y][i], Next([x, y], i));
    StaysInPair(g, p, x, y, j, |p| - 1);
  }

  lemma OnlyPathOfPair(g: map<string, seq<string>>, order: seq<string>, p: seq<string>, x: string, y: string)
    requires IsReportedPath(g, order, p) && SharesEdge([x, y], p)
    requires x != y && x in g && y in g && g[x] == [y] && g[y] == [x]
    requires IndexOf(order, x) < IndexOf(order, y)
    ensures p == [x, y, x]
  {
    hide SharesEdge;
    assert |p| > 3 ==> p[..|p| - 1][0] != p[..|p| - 1][2];
    assert EdgeAt(g, p, 0) && EdgeAt(g, p, 1);
    ClosesInPair(g, p, x, y);
    assert IndexOf(order, p[0]) <= IndexOf(order, p[1]);
  }

  lemma {:induction false} NoneWithout(deps: seq<string>, name: string)
    requires name !in deps
    ensures Without(deps, name) == deps
  {
    if deps != [] {
      NoneWithout(deps[1..], name);
    }
  }

  lemma EdgesOfOneMore(content: seq<PlanChange>, last: PlanChange)
    requires last.name !in last.dependsOn
    ensures Edges(content + [last]) == Edges(content)[last.name := last.dependsOn]
  {
    var all := content + [last];
    assert all[..|all| - 1] == content;
    NoneWithout(last.dependsOn, last.name);
  }

  lemma NoEdges()
    ensures Edges([]) == map[]
  {
  }

  /** A plan of four changes lists its own graph. */
  lemma FourChanges(a: PlanChange, b: PlanChange, c: PlanChange, d: PlanChange)
    requires a.name !in a.dependsOn && b.name !in b.dependsOn && c.name !in c.dependsOn && d.name !in d.dependsOn
    ensures Edges([a, b, c, d]) ==
      map[][a.name := a.dependsOn][b.name := b.dependsOn][c.name := c.dependsOn][d.name := d.dependsOn]
  {
    NoEdges();
    EdgesOfOneMore([], a);
    EdgesOfOneMore([a], b);
    EdgesOfOneMore([a, b], c);
    EdgesOfOneMore([a, b, c], d);
    hide Edges;
    assert [] + [a] == [a] && [a] + [b] == [a, b] && [a, b] + [c] == [a, b, c] && [a, b, c] + [d] == [a, b, c, d];
  }

  lemma ClashingGraph()
    ensures Names(Clashing()) == ["a", "b\0c", "a\0b", "c"]
    ensures Edges(Clashing()) == map["a" := ["b\0c"], "b\0c" := ["a"], "a\0b" := ["c"], "c" := ["a\0b"]]
  {
    var c := Clashing();
    FourChanges(c[0], c[1], c[2], c[3]);
    hide Edges;
    assert c == [c[0], c[1], c[2], c[3]];
  }

  lemma KeyOfPair(x: string, y: string)
    ensures Key([x, y, x]) == x + ['\0'] + y
  {
    assert [x, y, x][..2] == [x, y] && [x, y][1..] == [y];
    assert Join([x, y], ['\0']) == x + ['\0'] + Join([y], ['\0']);
  }

  lemma ClashingCycles()
    ensures IsCycle(Edges(Clashing()), ["a", "b\0c"]) && IsCycle(Edges(Clashing()), ["a\0b", "c"])
  {
    ClashingGraph();
    hide Edges;
  }

  lemma ClashingPaths(p: seq<string>, q: seq<string>)
    requires IsReportedPath(Edges(Clashing()), Names(Clashing()), p) && SharesEdge(["a", "b\0c"], p)
    requires IsReportedPath(Edges(Clashing()), Names(Clashing()), q) && SharesEdge(["a\0b", "c"], q)
    ensures |p| > 0 && |q| > 0 && p != q && Key(p) == Key(q)
  {
    ClashingGraph();
    hide Edges, SharesEdge, IsReportedPath;
    OnlyPathOfPair(Edges(Clashing()), Names(Clashing()), p, "a", "b\0c");
    OnlyPathOfPair(Edges(Clashing()), Names(Clashing()), q, "a\0b", "c");
    KeyOfPair("a", "b\0c");
    KeyOfPair("a\0b", "c");
    assert "a" + ['\0'] + "b\0c" == "a\0b" + ['\0'] + "c";
    assert p[0] != q[0];
  }

  /** With a NUL in a name the two keys clash, and a report cannot hold both cycles. */
  lemma NulNamesCanHideACycle(cycles: seq<seq<string>>)
    requires IsCycleReport(Clashing(), cycles)
    ensures exists c :: IsCycle(Edges(Clashing()), c) && forall k :: 0 <= k < |cycles| ==> !SharesEdge(c, cycles[k])
  {
    hide *;
    ClashingCycles();
    ReportsPaths(Clashing(), cycles);
    if k, l :|
      && 0 <= k < |cycles| && SharesEdge(["a", "b\0c"], cycles[k])
      && 0 <= l < |cycles| && SharesEdge(["a\0b", "c"], cycles[l])
    {
      ClashingPaths(cycles[k], cycles[l]);
      assert false;
    }
  }

  // -- a cycle that is not listed ------------------------------------------

  /** Two ways from "a" to "d", and one dependency back. */
  function Diamond(): seq<PlanChange> {
    [PlanChange("a", ["b", "c"]), PlanChange("b", ["d"]), PlanChange("c", ["d"]), PlanChange("d", ["a"])]
  }

  lemma DiamondGraph()
    ensures Names(Diamond()) == ["a", "b", "c", "d"]
    ensures Edges(Diamond()) == map["a" := ["b", "c"], "b" := ["d"], "c" := ["d"], "d" := ["a"]]
  {
    var c := Diamond();
    FourChanges(c[0], c[1], c[2], c[3]);
    hide Edges;
    assert c == [c[0], c[1], c[2], c[3]];
  }

  lemma DiamondOrder()
    ensures IndexOf(["a", "b", "c", "d"], "a") == 0 && IndexOf(["a", "b", "c", "d"], "b") == 1
    ensures IndexOf(["a", "b", "c", "d"], "c") == 2 && IndexOf(["a", "b", "c", "d"], "d") == 3
  {
  }

  lemma InnerApart(p: seq<string>, i: nat, j: nat)
    requires i < j < |p| - 1 && Distinct(p[..|p| - 1])
    ensures p[i] != p[j]
  {
    assert p[..|p| - 1][i] == p[i] && p[..|p| - 1][j] == p[j];
  }

  lemma TwoApart(closers: seq<(string, string)>)
    requires Distinct(closers) && |closers| > 1
    ensures closers[0] != closers[1]
  {
  }

  lemma DiamondSteps(u: string, v: string)
    ensures HasEdge(Edges(Diamond()), u, v) <==>
      (u == "a" && v == "b") || (u == "a" && v == "c") || (u == "b" && v == "d") || (u == "c" && v == "d")
        || (u == "d" && v == "a")
  {
    DiamondGraph();
    hide Edges, Diamond;
  }

  lemma DiamondPath(x: string)
    requires x == "b" || x == "c"
    ensures IsReportedPath(Edges(Diamond()), Names(Diamond()), ["a", x, "d", "a"])
  {
    var g, order, p := Edges(Diamond()), Names(Diamond()), ["a", x, "d", "a"];
    DiamondGraph();
    DiamondOrder();
    DiamondSteps("a", x);
    DiamondSteps(x, "d");
    DiamondSteps("d", "a");
    hide Edges, IndexOf, Diamond, HasEdge;
    assert p[..3] == ["a", x, "d"];
    assert EdgeAt(g, p, 0) && EdgeAt(g, p, 1) && EdgeAt(g, p, 2);
    assert forall i :: 0 <= i < |p| - 1 ==> EdgeAt(g, p, i);
  }

  lemma DiamondPaths(p: seq<string>)
    ensures IsReportedPath(Edges(Diamond()), Names(Diamond()), p) <==>
      p == ["a", "b", "d", "a"] || p == ["a", "c", "d", "a"]
  {
    DiamondPath("b");
    DiamondPath("c");
    if IsReportedPath(Edges(Diamond()), Names(Diamond()), p) {
      DiamondPathsOnly(p);
    }
  }

  lemma DiamondStart(p: seq<string>)
    requires IsReportedPath(Edges(Diamond()), Names(Diamond()), p)
    ensures |p| > 3 && p[0] == "a" && (p[1] == "b" || p[1] == "c") && p[2] == "d" && p[3] == "a"
  {
    var g, order := Edges(Diamond()), Names(Diamond());
    assert EdgeAt(g, p, 0) && EdgeAt(g, p, 1);
    assert IndexOf(order, p[0]) <= IndexOf(order, p[1]) && IndexOf(order, p[0]) <= IndexOf(order, p[2]);
    assert |p| > 3 ==> EdgeAt(g, p, 2);
    DiamondGraph();
    DiamondOrder();
    DiamondSteps(p[0], p[1]);
    DiamondSteps(p[1], p[2]);
    if |p| > 3 {
      DiamondSteps(p[2], p[3]);
    }
    hide IsReportedPath, Edges, IndexOf, Diamond, HasEdge;
  }

  lemma FourLong(p: seq<string>)
    requires |p| > 3 && Distinct(p[..|p| - 1]) && p[0] == p[3]
    ensures p == [p[0], p[1], p[2], p[3]]
  {
    if |p| > 4 {
      InnerApart(p, 0, 3);
    }
  }

  lemma PathIsSimple(g: map<string, seq<string>>, order: seq<string>, p: seq<string>)
    requires IsReportedPath(g, order, p)
    ensures |p| > 0 && Distinct(p[..|p| - 1])
  {
  }

  lemma DiamondPathsOnly(p: seq<string>)
    requires IsReportedPath(Edges(Diamond()), Names(Diamond()), p)
    ensures p == ["a", "b", "d", "a"] || p == ["a", "c", "d", "a"]
  {
    hide *;
    DiamondStart(p);
    PathIsSimple(Edges(Diamond()), Names(Diamond()), p);
    FourLong(p);
  }

  /** The search takes "a" first and leaves it last, so the dependency of "d" on "a" closes both
      cycles, and one of them is not reported. */
  lemma DiamondHidesACycle(cycles: seq<seq<string>>)
    requires IsCycleReport(Diamond(), cycles)
    ensures IsReportedPath(Edges(Diamond()), Names(Diamond()), ["a", "b", "d", "a"])
    ensures IsReportedPath(Edges(Diamond()), Names(Diamond()), ["a", "c", "d", "a"])
    ensures cycles == [["a", "b", "d", "a"]] || cycles == [["a", "c", "d", "a"]]
  {
    DiamondPaths(["a", "b", "d", "a"]);
    DiamondPaths(["a", "c", "d", "a"]);
    hide Edges, IsReportedPath, Diamond, Key, Leaves, Ascends, ClosedBy, IsCycle;
    var g, order := Edges(Diamond()), Names(Diamond());
    ReportedIsCycle(g, order, ["a", "b", "d", "a"]);
    EmptyIffAcyclic(Diamond(), cycles);
    ReportsPaths(Diamond(), cycles);
    var finish, tree, closers :| Leaves(g, order, finish, tree) && ReportIn(g, order, finish, closers, cycles);
    DiamondAscends(finish, tree);
    forall k | 0 <= k < |cycles|
      ensures closers[k] == ("d", "a") && (cycles[k] == ["a", "b", "d", "a"] || cycles[k] == ["a", "c", "d", "a"])
    {
      DiamondPaths(cycles[k]);
      assert StepAt(cycles[k], 2, "d", "a");
      OneCloser(g, order, finish, cycles[k], closers[k], "d", "a");
    }
    if |closers| > 1 {
      TwoApart(closers);
    }
    assert cycles == [cycles[0]];
  }

  lemma DiamondAscends(finish: map<string, nat>, tree: map<string, nat>)
    requires Leaves(Edges(Diamond()), Names(Diamond()), finish, tree)
    ensures Ascends(finish, "d", "a")
  {
    DiamondGraph();
    hide Edges, Diamond, Leaves, Ascends;
    LeftLast(Edges(Diamond()), Names(Diamond()), finish, tree, "a", "b", "d");
  }

  lemma FirstTree(g: map<string, seq<string>>, order: seq<string>, finish: map<string, nat>, tree: map<string, nat>,
                  n: string)
    requires Leaves(g, order, finish, tree) && |order| > 0 && n in tree && tree[n] == 0 && n != order[0]
    ensures Ascends(finish, n, order[0])
  {
    hide FoundWith, HasEdge, Tried;
    assert Bounded(order, finish, tree, n);
  }

  lemma FoundAlong(g: map<string, seq<string>>, order: seq<string>, finish: map<string, nat>, tree: map<string, nat>,
                   m: string, n: string)
    requires Leaves(g, order, finish, tree) && HasEdge(g, m, n)
    ensures FoundWith(tree, m, n)
  {
    hide FoundWith, HasEdge, Tried, Bounded;
  }

  lemma FirstTried(g: map<string, seq<string>>, order: seq<string>, finish: map<string, nat>, tree: map<string, nat>)
    requires Leaves(g, order, finish, tree) && |order| > 0
    ensures order[0] in tree && tree[order[0]] == 0
  {
    hide FoundWith, HasEdge, Bounded;
    assert Tried(order, tree, 0);
  }

  /** A change that the first root depends on through another is left before that root. */
  lemma LeftLast(g: map<string, seq<string>>, order: seq<string>, finish: map<string, nat>, tree: map<string, nat>,
                 root: string, m: string, n: string)
    requires Leaves(g, order, finish, tree) && |order| > 0 && order[0] == root && n != root
    requires HasEdge(g, root, m) && HasEdge(g, m, n)
    ensures Ascends(finish, n, root)
  {
    hide Leaves, Ascends, HasEdge;
    FirstTried(g, order, finish, tree);
    FoundAlong(g, order, finish, tree, root, m);
    FoundAlong(g, order, finish, tree, m, n);
    FirstTree(g, order, finish, tree, n);
  }
}
