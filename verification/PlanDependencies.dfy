/** The dependency graph of a plan: cycle reporting by depth-first search with an
    explicit stack, as every save of a plan runs it. */
module PlanDependencies {
  import opened Lists
  import opened Strings

  datatype PlanChange = PlanChange(name: string, dependsOn: seq<string>)

  datatype Mark = Visiting | Done

  datatype Frame = Frame(node: string, next: nat)

  function Names(content: seq<PlanChange>): seq<string> {
    seq(|content|, i requires 0 <= i < |content| => content[i].name)
  }

  function Without(deps: seq<string>, self: string): (r: seq<string>)
    ensures forall d :: d in r <==> d in deps && d != self
  {
    if deps == [] then []
    else (if deps[0] == self then [] else [deps[0]]) + Without(deps[1..], self)
  }

  /** Dependencies by name without self-edges; a later entry of the same name wins. */
  function Edges(content: seq<PlanChange>): (g: map<string, seq<string>>)
    ensures forall n :: n in g <==> n in Names(content)
    ensures forall n :: n in g ==> n !in g[n]
  {
    if content == [] then map[]
    else
      var k := |content| - 1;
      assert Names(content) == Names(content[..k]) + [content[k].name];
      Edges(content[..k])[content[k].name := Without(content[k].dependsOn, content[k].name)]
  }

  /** A dependency the search follows: names the plan does not list are dropped. */
  predicate HasEdge(g: map<string, seq<string>>, u: string, v: string) {
    u in g && v in g && v in g[u]
  }

  /** The last entry of that name. */
  ghost predicate LastEntry(content: seq<PlanChange>, i: int, name: string) {
    0 <= i < |content| && content[i].name == name && forall j :: i < j < |content| ==> content[j].name != name
  }

  /** The search follows exactly the listed dependencies on other changes of the plan, those of
      the last entry where a name is listed twice. */
  lemma {:induction false} EdgesAreDependencies(content: seq<PlanChange>, u: string, v: string)
    ensures HasEdge(Edges(content), u, v) <==>
      u != v && v in Names(content) && exists i :: LastEntry(content, i, u) && v in content[i].dependsOn
  {
    EdgesFromEntry(content, u, v);
  }

  lemma {:induction false} EdgesFromEntry(content: seq<PlanChange>, u: string, v: string)
    ensures u in Edges(content) && v in Edges(content)[u] <==>
      u != v && exists i :: LastEntry(content, i, u) && v in content[i].dependsOn
  {
    hide Without, LastEntry;
    if content != [] {
      var k := |content| - 1;
      EdgesFromEntry(content[..k], u, v);
      LastEntryOfMore(content, u);
      assert content[k].name == u ==> LastEntry(content, k, u);
      LastEntryIsEntry(content[..k], u);
    } else {
      NoEntry(u);
    }
  }

  lemma NoEntry(u: string)
    ensures forall i :: !LastEntry([], i, u)
  {
  }

  lemma LastEntryIsEntry(content: seq<PlanChange>, u: string)
    ensures forall i :: LastEntry(content, i, u) ==> 0 <= i < |content|
  {
  }

  lemma LastEntryOfMore(content: seq<PlanChange>, u: string)
    requires content != []
    ensures content[|content| - 1].name == u ==> forall i :: LastEntry(content, i, u) <==> i == |content| - 1
    ensures content[|content| - 1].name != u ==>
      forall i :: LastEntry(content, i, u) <==> 0 <= i < |content| - 1 && LastEntry(content[..|content| - 1], i, u)
  {
  }

  /** The first position of `x` in `s`, or -1. */
  function IndexOf(s: seq<string>, x: string): (k: int)
    ensures -1 <= k < |s|
    ensures k >= 0 ==> s[k] == x && forall i :: 0 <= i < k ==> s[i] != x
    ensures k == -1 ==> x !in s
  {
    if s == [] then -1
    else if s[0] == x then 0
    else
      var k := IndexOf(s[1..], x);
      if k == -1 then -1 else k + 1
  }

  /** The member of `cycle` listed first in `order`. */
  function Earliest(order: seq<string>, cycle: seq<string>): (best: string)
    requires |cycle| > 0
    ensures best in cycle
    ensures forall n :: n in cycle ==> IndexOf(order, best) <= IndexOf(order, n)
  {
    if |cycle| == 1 then cycle[0]
    else
      var k := |cycle| - 1;
      var best := Earliest(order, cycle[..k]);
      assert cycle == cycle[..k] + [cycle[k]];
      if IndexOf(order, cycle[k]) < IndexOf(order, best) then cycle[k] else best
  }

  function Next(c: seq<string>, i: nat): string
    requires i < |c|
  {
    if i + 1 < |c| then c[i + 1] else c[0]
  }

  /** `c` names the nodes of a closed walk: each depends on the next, the last on the first. */
  ghost predicate IsCycle(g: map<string, seq<string>>, c: seq<string>) {
    |c| > 0 && forall i :: 0 <= i < |c| ==> HasEdge(g, c[i], Next(c, i))
  }

  ghost predicate StepAt(p: seq<string>, j: int, u: string, v: string) {
    0 <= j < |p| - 1 && p[j] == u && p[j + 1] == v
  }

  ghost predicate HasStep(p: seq<string>, u: string, v: string) {
    exists j :: StepAt(p, j, u, v)
  }

  ghost predicate EdgeAt(g: map<string, seq<string>>, p: seq<string>, i: nat)
    requires i < |p| - 1
  {
    HasEdge(g, p[i], p[i + 1])
  }

  /** What one reported path is: a simple closed walk of real dependencies, written
      from the change on it that the plan lists first back to that change. */
  ghost predicate IsReportedPath(g: map<string, seq<string>>, order: seq<string>, p: seq<string>) {
    && |p| >= 3
    && p[0] == p[|p| - 1]
    && Distinct(p[..|p| - 1])
    && (forall i :: 0 <= i < |p| - 1 ==> EdgeAt(g, p, i))
    && (forall i :: 0 <= i < |p| ==> IndexOf(order, p[0]) <= IndexOf(order, p[i]))
  }

  /** The text that stands for a path when repeats are dropped. */
  function Key(p: seq<string>): string
    requires |p| > 0
  {
    Join(p[..|p| - 1], ['\0'])
  }

  /** `w` or a path with its key is among `cycles`. */
  ghost predicate KeyReported(cycles: seq<seq<string>>, w: seq<string>)
    requires |w| > 0
  {
    exists k :: 0 <= k < |cycles| && |cycles[k]| > 0 && Key(cycles[k]) == Key(w)
  }

  /** `n` is not left after the root that found it. */
  ghost predicate Bounded(order: seq<string>, finish: map<string, nat>, tree: map<string, nat>, n: string) {
    n in finish && n in tree && tree[n] < |order| && order[tree[n]] in finish && finish[n] <= finish[order[tree[n]]]
  }

  /** The search that takes its roots in plan order found the change at `i` from there or before. */
  ghost predicate Tried(order: seq<string>, tree: map<string, nat>, i: nat)
    requires i < |order|
  {
    order[i] in tree && tree[order[i]] <= i
  }

  /** No later root found `n` than the one that found `m`. */
  ghost predicate FoundWith(tree: map<string, nat>, m: string, n: string) {
    m in tree && n in tree && tree[n] <= tree[m]
  }

  /** The order in which a search that takes its roots in plan order leaves the changes:
      `finish` numbers them, and `tree` is the plan position of the root that found each.
      No change is found later than a change that depends on it, and the root is left last. */
  ghost predicate Leaves(g: map<string, seq<string>>, order: seq<string>, finish: map<string, nat>,
                         tree: map<string, nat>) {
    && finish.Keys == g.Keys && tree.Keys == g.Keys
    && (forall m, n :: m in finish && n in finish && m != n ==> finish[m] != finish[n])
    && (forall n :: n in tree ==> Bounded(order, finish, tree, n))
    && (forall i :: 0 <= i < |order| ==> Tried(order, tree, i))
    && (forall m, n :: HasEdge(g, m, n) ==> FoundWith(tree, m, n))
  }

  /** The search leaves `u` before `v`. */
  ghost predicate Ascends(finish: map<string, nat>, u: string, v: string) {
    u in finish && v in finish && finish[u] < finish[v]
  }

  /** `w` is a reported path whose only step to a change left later is from `u` to `v`. */
  ghost predicate ClosedBy(g: map<string, seq<string>>, order: seq<string>, finish: map<string, nat>,
                           w: seq<string>, u: string, v: string) {
    && |w| > 0 && IsReportedPath(g, order, w) && HasStep(w, u, v) && Ascends(finish, u, v)
    && forall x, y :: HasStep(w, x, y) && (x, y) != (u, v) ==> Ascends(finish, y, x)
  }

  ghost predicate Closes(g: map<string, seq<string>>, order: seq<string>, finish: map<string, nat>,
                         cycles: seq<seq<string>>, u: string, v: string) {
    exists w :: ClosedBy(g, order, finish, w, u, v) && KeyReported(cycles, w)
  }

  /** One path is reported for each dependency that closes a cycle in this order, unless its key
      was seen; each reported path belongs to a closing dependency of its own. */
  ghost predicate ReportIn(g: map<string, seq<string>>, order: seq<string>, finish: map<string, nat>,
                           closers: seq<(string, string)>, cycles: seq<seq<string>>) {
    && |closers| == |cycles| && Distinct(closers)
    && (forall k :: 0 <= k < |cycles| ==> ClosedBy(g, order, finish, cycles[k], closers[k].0, closers[k].1))
    && (forall i, j :: 0 <= i < j < |cycles| ==> Key(cycles[i]) != Key(cycles[j]))
    && (forall u, v :: HasEdge(g, u, v) && Ascends(finish, u, v) ==> Closes(g, order, finish, cycles, u, v))
  }

  /** The contract of the search. */
  ghost predicate IsCycleReport(content: seq<PlanChange>, cycles: seq<seq<string>>) {
    exists finish, tree, closers ::
      Leaves(Edges(content), Names(content), finish, tree)
      && ReportIn(Edges(content), Names(content), finish, closers, cycles)
  }

  /** `cycle` rotated to start at its earliest change, closed again at that change. */
  function Closed(order: seq<string>, cycle: seq<string>): (r: seq<string>)
    requires |cycle| > 0
    ensures |r| > 0
  {
    var start := Earliest(order, cycle);
    var k := IndexOf(cycle, start);
    cycle[k..] + cycle[..k] + [start]
  }

  lemma ClosedAt(order: seq<string>, cycle: seq<string>, i: nat)
    requires 0 <= i < |cycle|
    ensures var k := IndexOf(cycle, Earliest(order, cycle));
      var at := if i < |cycle| - k then k + i else i - (|cycle| - k);
      |Closed(order, cycle)| == |cycle| + 1 && 0 <= k < |cycle| && 0 <= at < |cycle| &&
      Closed(order, cycle)[i] == cycle[at] && Closed(order, cycle)[i + 1] == Next(cycle, at)
  {
    hide Earliest;
  }

  lemma ClosedIsWalk(g: map<string, seq<string>>, order: seq<string>, cycle: seq<string>)
    requires |cycle| >= 2 && IsCycle(g, cycle)
    ensures forall i :: 0 <= i < |cycle| ==> EdgeAt(g, Closed(order, cycle), i)
    ensures HasStep(Closed(order, cycle), cycle[|cycle| - 1], cycle[0])
  {
    var p := Closed(order, cycle);
    forall i | 0 <= i < |cycle|
      ensures EdgeAt(g, p, i)
    {
      ClosedAt(order, cycle, i);
    }
    var k := IndexOf(cycle, Earliest(order, cycle));
    ClosedAt(order, cycle, |cycle| - 1 - k);
    assert StepAt(p, |cycle| - 1 - k, cycle[|cycle| - 1], cycle[0]);
  }

  lemma ClosedIsReportedPath(g: map<string, seq<string>>, order: seq<string>, cycle: seq<string>)
    requires |cycle| >= 2 && Distinct(cycle) && IsCycle(g, cycle)
    ensures IsReportedPath(g, order, Closed(order, cycle))
    ensures HasStep(Closed(order, cycle), cycle[|cycle| - 1], cycle[0])
  {
    hide EdgeAt, IsCycle, HasStep;
    var k := IndexOf(cycle, Earliest(order, cycle));
    var p := Closed(order, cycle);
    ClosedIsWalk(g, order, cycle);
    assert p[..|cycle|] == cycle[k..] + cycle[..k];
    assert forall i :: 0 <= i < |p| ==> p[i] in cycle;
  }

  // -- the search ---------------------------------------------------------

  /** Every edge out of a finished node goes to a node that finished earlier, or closed a reported cycle. */
  ghost predicate Settled(g: map<string, seq<string>>, finish: map<string, nat>,
                          back: map<(string, string), seq<string>>) {
    forall u, v :: u in finish && HasEdge(g, u, v) ==> (u, v) in back || (v in finish && finish[v] < finish[u])
  }

  ghost predicate Witnessed(g: map<string, seq<string>>, order: seq<string>, back: map<(string, string), seq<string>>,
                            seen: set<string>) {
    forall u, v :: (u, v) in back ==>
      var w := back[(u, v)];
      |w| > 0 && IsReportedPath(g, order, w) && HasStep(w, u, v) && Key(w) in seen
  }

  ghost predicate Listed(g: map<string, seq<string>>, order: seq<string>, cycles: seq<seq<string>>, seen: set<string>) {
    && (forall k :: 0 <= k < |cycles| ==>
       |cycles[k]| > 0 && IsReportedPath(g, order, cycles[k]) && Key(cycles[k]) in seen)
    && (forall s :: s in seen ==> exists k :: 0 <= k < |cycles| && |cycles[k]| > 0 && Key(cycles[k]) == s)
    && (forall i, j :: 0 <= i < j < |cycles| ==> Key(cycles[i]) != Key(cycles[j]))
  }

  /** The path is the stack's nodes, each entered from the one below it. */
  ghost predicate OnPath(g: map<string, seq<string>>, stack: seq<Frame>, path: seq<string>) {
    && |path| == |stack|
    && Distinct(path)
    && (forall i :: 0 <= i < |stack| ==> stack[i].node == path[i] && path[i] in g && stack[i].next <= |g[path[i]]|)
    && (forall i :: 0 <= i < |stack| - 1 ==> Entered(g, stack, path, i))
  }

  ghost predicate Entered(g: map<string, seq<string>>, stack: seq<Frame>, path: seq<string>, i: nat) {
    && i + 1 < |path| == |stack| && path[i] in g
    && 0 < stack[i].next <= |g[path[i]]| && g[path[i]][stack[i].next - 1] == path[i + 1]
  }

  /** A dependency already looked at from the stack is unknown, closed a cycle, is finished, or is the
      next on the path. */
  ghost predicate Looked(g: map<string, seq<string>>, stack: seq<Frame>, path: seq<string>,
                         finish: map<string, nat>, back: map<(string, string), seq<string>>, i: nat, k: nat)
    requires i < |stack| == |path| && path[i] in g && k < |g[path[i]]|
  {
    var v := g[path[i]][k];
    v !in g || (path[i], v) in back || v in finish || (i + 1 < |path| && k == stack[i].next - 1)
  }

  ghost predicate Explored(g: map<string, seq<string>>, stack: seq<Frame>, path: seq<string>,
                           finish: map<string, nat>, back: map<(string, string), seq<string>>)
    requires OnPath(g, stack, path)
  {
    forall i, k :: 0 <= i < |stack| && 0 <= k < stack[i].next ==> Looked(g, stack, path, finish, back, i, k)
  }

  ghost predicate Coloured(g: map<string, seq<string>>, path: seq<string>, state: map<string, Mark>,
                           finish: map<string, nat>, clock: nat) {
    && state.Keys <= g.Keys
    && (forall n :: n in state && state[n] == Visiting <==> n in path)
    && (forall n :: n in state && state[n] == Done <==> n in finish)
    && (forall n :: n in finish ==> finish[n] < clock)
  }

  lemma PathIsCycle(g: map<string, seq<string>>, stack: seq<Frame>, path: seq<string>, k: nat)
    requires OnPath(g, stack, path) && k < |path|
    requires HasEdge(g, path[|path| - 1], path[k])
    ensures IsCycle(g, path[k..])
    ensures Distinct(path[k..])
  {
    var c := path[k..];
    forall i | 0 <= i < |c|
      ensures HasEdge(g, c[i], Next(c, i))
    {
      if i + 1 < |c| {
        assert Entered(g, stack, path, k + i);
      }
    }
  }

  lemma FinishTopSettles(g: map<string, seq<string>>, stack: seq<Frame>, path: seq<string>,
                         finish: map<string, nat>, back: map<(string, string), seq<string>>, clock: nat)
    requires |stack| > 0 && OnPath(g, stack, path) && Explored(g, stack, path, finish, back)
    requires Settled(g, finish, back) && (forall n :: n in finish ==> finish[n] < clock)
    requires path[|path| - 1] !in finish
    requires stack[|stack| - 1].next == |g[path[|path| - 1]]|
    ensures Settled(g, finish[path[|path| - 1] := clock], back)
  {
    var top := |path| - 1;
    forall v | HasEdge(g, path[top], v)
      ensures (path[top], v) in back || v in finish
    {
      var k :| 0 <= k < |g[path[top]]| && g[path[top]][k] == v;
      assert Looked(g, stack, path, finish, back, top, k);
    }
  }

  ghost predicate Searching(g: map<string, seq<string>>, stack: seq<Frame>, path: seq<string>, state: map<string, Mark>,
                            finish: map<string, nat>, back: map<(string, string), seq<string>>, clock: nat) {
    && OnPath(g, stack, path)
    && Explored(g, stack, path, finish, back)
    && Coloured(g, path, state, finish, clock)
    && Settled(g, finish, back)
  }

  lemma FinishTopColours(g: map<string, seq<string>>, path: seq<string>, state: map<string, Mark>,
                         finish: map<string, nat>, clock: nat)
    requires Coloured(g, path, state, finish, clock) && |path| > 0 && Distinct(path)
    ensures path[|path| - 1] !in finish
    ensures var u := path[|path| - 1];
      Coloured(g, path[..|path| - 1], state[u := Done], finish[u := clock], clock + 1)
  {
    var u := path[|path| - 1];
    assert u in path;
    assert forall n :: n in path[..|path| - 1] <==> n in path && n != u;
  }

  /** A frame with nothing left to look at finishes its node. */
  lemma PopKeepsSearching(g: map<string, seq<string>>, stack: seq<Frame>, path: seq<string>, state: map<string, Mark>,
                          finish: map<string, nat>, back: map<(string, string), seq<string>>, clock: nat)
    requires Searching(g, stack, path, state, finish, back, clock) && |stack| > 0
    requires stack[|stack| - 1].next == |g[path[|path| - 1]]|
    ensures var top := |stack| - 1;
      Searching(g, stack[..top], path[..top], state[path[top] := Done], finish[path[top] := clock], back, clock + 1)
  {
    var top := |stack| - 1;
    var stack', path', finish' := stack[..top], path[..top], finish[path[top] := clock];
    FinishTopColours(g, path, state, finish, clock);
    FinishTopSettles(g, stack, path, finish, back, clock);
    hide Coloured, Settled;
    forall i | 0 <= i < top
      ensures i < top - 1 ==> Entered(g, stack', path', i)
      ensures forall k :: 0 <= k < stack'[i].next ==> Looked(g, stack', path', finish', back, i, k)
    {
      assert Entered(g, stack, path, i);
      forall k | 0 <= k < stack'[i].next
        ensures Looked(g, stack', path', finish', back, i, k)
      {
        assert Looked(g, stack, path, finish, back, i, k);
      }
    }
  }

  /** Looking at one more dependency of the top frame, when it needs no push. */
  lemma LookKeepsSearching(g: map<string, seq<string>>, stack: seq<Frame>, path: seq<string>, state: map<string, Mark>,
                           finish: map<string, nat>, back: map<(string, string), seq<string>>, clock: nat)
    requires Searching(g, stack, path, state, finish, back, clock) && |stack| > 0
    requires stack[|stack| - 1].next < |g[path[|path| - 1]]|
    requires var u := path[|path| - 1];
      var v := g[u][stack[|stack| - 1].next];
      v !in g || v in finish || (u, v) in back
    ensures var top := |stack| - 1;
      Searching(g, stack[top := Frame(path[top], stack[top].next + 1)], path, state, finish, back, clock)
  {
    var top := |stack| - 1;
    var stack' := stack[top := Frame(path[top], stack[top].next + 1)];
    forall i | 0 <= i <= top
      ensures i < top ==> Entered(g, stack', path, i)
      ensures forall k :: 0 <= k < stack'[i].next ==> Looked(g, stack', path, finish, back, i, k)
    {
      assert i < top ==> Entered(g, stack, path, i);
      forall k | 0 <= k < stack'[i].next
        ensures Looked(g, stack', path, finish, back, i, k)
      {
        assert k < stack[i].next ==> Looked(g, stack, path, finish, back, i, k);
      }
    }
  }

  lemma BackKeepsSearching(g: map<string, seq<string>>, stack: seq<Frame>, path: seq<string>, state: map<string, Mark>,
                           finish: map<string, nat>, back: map<(string, string), seq<string>>, clock: nat,
                           u: string, v: string, w: seq<string>)
    requires Searching(g, stack, path, state, finish, back, clock)
    ensures Searching(g, stack, path, state, finish, back[(u, v) := w], clock)
  {
    var back' := back[(u, v) := w];
    forall i, k | 0 <= i < |stack| && 0 <= k < stack[i].next
      ensures Looked(g, stack, path, finish, back', i, k)
    {
      assert Looked(g, stack, path, finish, back, i, k);
    }
  }

  /** Entering an unseen dependency. */
  lemma PushColours(g: map<string, seq<string>>, path: seq<string>, state: map<string, Mark>, finish: map<string, nat>,
                    clock: nat, v: string)
    requires Coloured(g, path, state, finish, clock) && v in g && v !in state
    ensures v !in path && v !in finish
    ensures Coloured(g, path + [v], state[v := Visiting], finish, clock)
  {
    assert v !in path && v !in finish;
    assert forall n :: n in path + [v] <==> n in path || n == v;
  }

  lemma PushKeepsSearching(g: map<string, seq<string>>, stack: seq<Frame>, path: seq<string>, state: map<string, Mark>,
                           finish: map<string, nat>, back: map<(string, string), seq<string>>, clock: nat)
    requires Searching(g, stack, path, state, finish, back, clock) && |stack| > 0
    requires stack[|stack| - 1].next < |g[path[|path| - 1]]|
    requires var v := g[path[|path| - 1]][stack[|stack| - 1].next]; v in g && v !in state
    ensures var top := |stack| - 1;
      var v := g[path[top]][stack[top].next];
      Searching(g, stack[top := Frame(path[top], stack[top].next + 1)] + [Frame(v, 0)], path + [v],
                state[v := Visiting], finish, back, clock)
  {
    var top := |stack| - 1;
    var v := g[path[top]][stack[top].next];
    var stack', path' := stack[top := Frame(path[top], stack[top].next + 1)] + [Frame(v, 0)], path + [v];
    hide Settled;
    PushColours(g, path, state, finish, clock, v);
    assert v !in path;
    hide Coloured;
    forall i | 0 <= i <= top
      ensures Entered(g, stack', path', i)
      ensures forall k :: 0 <= k < stack'[i].next ==> Looked(g, stack', path', finish, back, i, k)
    {
      assert i < top ==> Entered(g, stack, path, i);
      forall k | 0 <= k < stack'[i].next
        ensures Looked(g, stack', path', finish, back, i, k)
      {
        assert k < stack[i].next ==> Looked(g, stack, path, finish, back, i, k);
      }
    }
  }

  lemma RootStartsSearching(g: map<string, seq<string>>, state: map<string, Mark>, finish: map<string, nat>,
                            back: map<(string, string), seq<string>>, clock: nat, root: string)
    requires Searching(g, [], [], state, finish, back, clock) && root in g && root !in state
    ensures Searching(g, [Frame(root, 0)], [root], state[root := Visiting], finish, back, clock)
  {
  }

  ghost predicate Reporting(g: map<string, seq<string>>, order: seq<string>, cycles: seq<seq<string>>,
                            seen: set<string>,
                            back: map<(string, string), seq<string>>) {
    Witnessed(g, order, back, seen) && Listed(g, order, cycles, seen)
  }

  lemma ReportKeepsListed(g: map<string, seq<string>>, order: seq<string>, cycles: seq<seq<string>>, seen: set<string>,
                          w: seq<string>)
    requires Listed(g, order, cycles, seen) && IsReportedPath(g, order, w) && |w| > 0
    ensures Listed(g, order, if Key(w) in seen then cycles else cycles + [w], seen + {Key(w)})
  {
    hide IsReportedPath, Key;
    if Key(w) in seen {
      assert seen + {Key(w)} == seen;
    } else {
      var next := cycles + [w];
      assert next[|cycles|] == w;
      forall s | s in seen + {Key(w)}
        ensures exists k :: 0 <= k < |next| && |next[k]| > 0 && Key(next[k]) == s
      {
        if s in seen {
          var k :| 0 <= k < |cycles| && |cycles[k]| > 0 && Key(cycles[k]) == s;
          assert next[k] == cycles[k];
        }
      }
    }
  }

  /** Closing a cycle on the path: it is reported unless its key was seen. */
  lemma ReportKeepsReporting(g: map<string, seq<string>>, order: seq<string>, cycles: seq<seq<string>>,
                             seen: set<string>,
                             back: map<(string, string), seq<string>>, u: string, v: string, w: seq<string>)
    requires Reporting(g, order, cycles, seen, back)
    requires IsReportedPath(g, order, w) && HasStep(w, u, v) && |w| > 0
    ensures Reporting(g, order, if Key(w) in seen then cycles else cycles + [w], seen + {Key(w)}, back[(u, v) := w])
  {
    ReportKeepsListed(g, order, cycles, seen, w);
    hide Listed, Key, HasStep;
  }

  lemma NothingSearched(g: map<string, seq<string>>, order: seq<string>)
    ensures Searching(g, [], [], map[], map[], map[], 0)
    ensures Told(g, order, [], {}, [], map[])
    ensures Ordered(g, order, [], map[], map[], map[], map[], 0)
  {
  }

  lemma AllFinished(g: map<string, seq<string>>, state: map<string, Mark>,
                    finish: map<string, nat>, back: map<(string, string), seq<string>>, clock: nat)
    requires Searching(g, [], [], state, finish, back, clock)
    requires forall n :: n in g ==> n in state
    ensures finish.Keys == g.Keys == state.Keys
    ensures Settled(g, finish, back)
  {
    assert forall n :: n in state ==> state[n] == Done || n in [];
  }

  /** What the loop needs to know to read its top frame. */
  lemma TopFrame(g: map<string, seq<string>>, stack: seq<Frame>, path: seq<string>, state: map<string, Mark>,
                 finish: map<string, nat>, back: map<(string, string), seq<string>>, clock: nat)
    requires Searching(g, stack, path, state, finish, back, clock)
    ensures |path| == |stack| && Distinct(path) && state.Keys <= g.Keys
    ensures |stack| > 0 ==>
      var top := |stack| - 1;
      stack[top].node == path[top] && path[top] in g && path[top] in state && stack[top].next <= |g[path[top]]|
    ensures forall n :: n in state && state[n] == Visiting <==> n in path
    ensures forall n :: n in state && state[n] == Done ==> n in finish
    ensures Open(path, finish, clock)
  {
    assert |stack| > 0 ==> path[|stack| - 1] in path;
  }

  /** The cycle that a dependency on a visiting node closes. */
  lemma CycleOnPath(g: map<string, seq<string>>, stack: seq<Frame>, path: seq<string>, state: map<string, Mark>,
                    finish: map<string, nat>, back: map<(string, string), seq<string>>, clock: nat,
                    order: seq<string>, dep: string)
    requires Searching(g, stack, path, state, finish, back, clock) && |path| > 0
    requires path[|path| - 1] in g && dep in g && dep in g[path[|path| - 1]] && dep in path && dep != path[|path| - 1]
    ensures 0 <= IndexOf(path, dep) < |path|
    ensures |Closed(order, path[IndexOf(path, dep)..])| > 0
    ensures IsReportedPath(g, order, Closed(order, path[IndexOf(path, dep)..]))
    ensures HasStep(Closed(order, path[IndexOf(path, dep)..]), path[|path| - 1], dep)
  {
    hide IsReportedPath, HasStep, OnPath, Explored, Coloured, Settled, Closed, Earliest;
    PathIsCycle(g, stack, path, IndexOf(path, dep));
    hide Searching, IsCycle;
    ClosedIsReportedPath(g, order, path[IndexOf(path, dep)..]);
  }

  // -- which dependency closes which path ---------------------------------

  /** A step of the path, or one to a change that is left before the change it starts from. */
  ghost predicate Below(path: seq<string>, finish: map<string, nat>, x: string, y: string) {
    HasStep(path, x, y) || (y in finish && (x in finish ==> finish[y] < finish[x]))
  }

  /** `w` is the cycle that a dependency of `u` on `v` closes while `u` is on the path. */
  ghost predicate ClosesOn(order: seq<string>, path: seq<string>, w: seq<string>, u: string, v: string, i: int) {
    0 <= i < |path| && path[i] == u && v in path[..i + 1]
      && w == Closed(order, path[..i + 1][IndexOf(path[..i + 1], v)..])
  }

  ghost predicate ClosedAlong(order: seq<string>, path: seq<string>, finish: map<string, nat>, w: seq<string>,
                              u: string, v: string) {
    && u != v
    && (u in finish || exists i :: ClosesOn(order, path, w, u, v, i))
    && (v in finish || v in path)
    && (v in finish ==> u in finish && finish[u] < finish[v])
    && forall x, y :: HasStep(w, x, y) && (x, y) != (u, v) ==> Below(path, finish, x, y)
  }

  ghost predicate Closing(order: seq<string>, path: seq<string>, finish: map<string, nat>,
                          back: map<(string, string), seq<string>>) {
    forall u, v :: (u, v) in back ==> ClosedAlong(order, path, finish, back[(u, v)], u, v)
  }

  /** The path holds changes not yet left. */
  ghost predicate Open(path: seq<string>, finish: map<string, nat>, clock: nat) {
    && Distinct(path)
    && (forall n :: n in path ==> n !in finish)
    && (forall n :: n in finish ==> finish[n] < clock)
  }

  lemma PopKeepsBelow(path: seq<string>, finish: map<string, nat>, clock: nat, x: string, y: string)
    requires |path| > 0 && Open(path, finish, clock) && Below(path, finish, x, y)
    ensures Below(path[..|path| - 1], finish[path[|path| - 1] := clock], x, y)
  {
    var top := |path| - 1;
    if j :| StepAt(path, j, x, y) {
      assert j + 1 < top ==> StepAt(path[..top], j, x, y);
    }
  }

  lemma PopKeepsCloser(order: seq<string>, path: seq<string>, w: seq<string>, u: string, v: string, i: int)
    requires |path| > 0 && ClosesOn(order, path, w, u, v, i) && i < |path| - 1
    ensures ClosesOn(order, path[..|path| - 1], w, u, v, i)
  {
    hide Closed;
    assert path[..|path| - 1][..i + 1] == path[..i + 1];
  }

  lemma PopKeepsClosed(order: seq<string>, path: seq<string>, finish: map<string, nat>, clock: nat,
                       w: seq<string>, u: string, v: string)
    requires |path| > 0 && Open(path, finish, clock) && ClosedAlong(order, path, finish, w, u, v)
    ensures ClosedAlong(order, path[..|path| - 1], finish[path[|path| - 1] := clock], w, u, v)
  {
    hide Closed, Below, HasStep;
    var top := |path| - 1;
    forall x, y | HasStep(w, x, y) && (x, y) != (u, v)
      ensures Below(path[..top], finish[path[top] := clock], x, y)
    {
      PopKeepsBelow(path, finish, clock, x, y);
    }
    if u !in finish {
      var i :| ClosesOn(order, path, w, u, v, i);
      if i < top {
        PopKeepsCloser(order, path, w, u, v, i);
      }
    }
  }

  lemma PushKeepsClosed(order: seq<string>, path: seq<string>, finish: map<string, nat>, n: string,
                        w: seq<string>, u: string, v: string)
    requires ClosedAlong(order, path, finish, w, u, v)
    ensures ClosedAlong(order, path + [n], finish, w, u, v)
  {
    hide Closed;
    forall x, y | HasStep(w, x, y) && (x, y) != (u, v)
      ensures Below(path + [n], finish, x, y)
    {
      if j :| StepAt(path, j, x, y) {
        assert StepAt(path + [n], j, x, y);
      }
    }
    if u !in finish {
      var i :| ClosesOn(order, path, w, u, v, i);
      assert (path + [n])[..i + 1] == path[..i + 1];
      assert ClosesOn(order, path + [n], w, u, v, i);
    }
  }

  lemma PopKeepsClosing(order: seq<string>, path: seq<string>, finish: map<string, nat>,
                        back: map<(string, string), seq<string>>, clock: nat)
    requires |path| > 0 && Open(path, finish, clock) && Closing(order, path, finish, back)
    ensures Closing(order, path[..|path| - 1], finish[path[|path| - 1] := clock], back)
  {
    hide ClosedAlong;
    forall u, v | (u, v) in back
      ensures ClosedAlong(order, path[..|path| - 1], finish[path[|path| - 1] := clock], back[(u, v)], u, v)
    {
      PopKeepsClosed(order, path, finish, clock, back[(u, v)], u, v);
    }
  }

  lemma PushKeepsClosing(order: seq<string>, path: seq<string>, finish: map<string, nat>,
                         back: map<(string, string), seq<string>>, n: string)
    requires Closing(order, path, finish, back)
    ensures Closing(order, path + [n], finish, back)
  {
    hide ClosedAlong;
    forall u, v | (u, v) in back
      ensures ClosedAlong(order, path + [n], finish, back[(u, v)], u, v)
    {
      PushKeepsClosed(order, path, finish, n, back[(u, v)], u, v);
    }
  }

  /** Every step of a cycle closed at the top but the closing one is a step of the path. */
  lemma ClosedSteps(order: seq<string>, path: seq<string>, k: nat, x: string, y: string)
    requires k < |path| && HasStep(Closed(order, path[k..]), x, y)
    ensures HasStep(path, x, y) || (x, y) == (path[|path| - 1], path[k])
  {
    hide Closed, Earliest;
    var c := path[k..];
    ClosedAt(order, c, 0);
    var j :| StepAt(Closed(order, c), j, x, y);
    ClosedAt(order, c, j);
    var turn := IndexOf(c, Earliest(order, c));
    var at := if j < |c| - turn then turn + j else j - (|c| - turn);
    assert x == c[at] && y == Next(c, at);
    assert at + 1 < |c| ==> StepAt(path, k + at, x, y);
  }

  lemma BackClosesOn(order: seq<string>, path: seq<string>, v: string)
    requires |path| > 0 && v in path
    ensures 0 <= IndexOf(path, v)
    ensures ClosesOn(order, path, Closed(order, path[IndexOf(path, v)..]), path[|path| - 1], v, |path| - 1)
  {
    hide Closed;
    assert path[..|path| - 1 + 1] == path;
  }

  lemma BackIsClosed(order: seq<string>, path: seq<string>, finish: map<string, nat>, clock: nat, v: string,
                     w: seq<string>)
    requires |path| > 0 && Open(path, finish, clock) && v in path && v != path[|path| - 1]
    requires w == Closed(order, path[IndexOf(path, v)..])
    ensures ClosedAlong(order, path, finish, w, path[|path| - 1], v)
  {
    hide Closed, IndexOf, ClosesOn, HasStep;
    var u := path[|path| - 1];
    BackClosesOn(order, path, v);
    forall x, y | HasStep(w, x, y) && (x, y) != (u, v)
      ensures Below(path, finish, x, y)
    {
      ClosedSteps(order, path, IndexOf(path, v), x, y);
    }
    assert u in path;
  }

  lemma ClosedBefore(order: seq<string>, path: seq<string>, finish: map<string, nat>, clock: nat, w: seq<string>,
                     v: string)
    requires |path| > 0 && Open(path, finish, clock) && ClosedAlong(order, path, finish, w, path[|path| - 1], v)
    ensures v in path && w == Closed(order, path[IndexOf(path, v)..])
  {
    hide Closed, Below, HasStep, IndexOf;
    var u := path[|path| - 1];
    assert u in path;
    var i :| ClosesOn(order, path, w, u, v, i);
    assert i == |path| - 1;
    assert path[..i + 1] == path;
  }

  lemma BackKeepsClosing(order: seq<string>, path: seq<string>, finish: map<string, nat>,
                         back: map<(string, string), seq<string>>, clock: nat, v: string)
    requires |path| > 0 && Open(path, finish, clock) && Closing(order, path, finish, back)
    requires v in path && v != path[|path| - 1]
    ensures 0 <= IndexOf(path, v)
    ensures var u := path[|path| - 1];
      var w := Closed(order, path[IndexOf(path, v)..]);
      ((u, v) in back ==> back[(u, v)] == w) && Closing(order, path, finish, back[(u, v) := w])
  {
    hide Closed, ClosedAlong, IndexOf;
    BackIsClosed(order, path, finish, clock, v, Closed(order, path[IndexOf(path, v)..]));
    if (path[|path| - 1], v) in back {
      ClosedBefore(order, path, finish, clock, back[(path[|path| - 1], v)], v);
    }
    hide Open;
  }

  /** Each listed path is the one that a dependency of its own closed. */
  ghost predicate Owned(cycles: seq<seq<string>>, closers: seq<(string, string)>,
                        back: map<(string, string), seq<string>>) {
    && |closers| == |cycles| && Distinct(closers)
    && forall k :: 0 <= k < |cycles| ==> closers[k] in back && back[closers[k]] == cycles[k]
  }

  /** What the loop keeps about the report. */
  ghost predicate Told(g: map<string, seq<string>>, order: seq<string>, cycles: seq<seq<string>>, seen: set<string>,
                       closers: seq<(string, string)>, back: map<(string, string), seq<string>>) {
    Reporting(g, order, cycles, seen, back) && Owned(cycles, closers, back)
  }

  lemma ReportKeepsTold(g: map<string, seq<string>>, order: seq<string>, cycles: seq<seq<string>>, seen: set<string>,
                        closers: seq<(string, string)>, back: map<(string, string), seq<string>>,
                        u: string, v: string, w: seq<string>)
    requires Told(g, order, cycles, seen, closers, back)
    requires IsReportedPath(g, order, w) && HasStep(w, u, v) && |w| > 0
    requires (u, v) in back ==> back[(u, v)] == w
    ensures var more := Key(w) !in seen;
      Told(g, order, if more then cycles + [w] else cycles, seen + {Key(w)},
           if more then closers + [(u, v)] else closers, back[(u, v) := w])
  {
    hide IsReportedPath, HasStep, Key, Reporting, Owned;
    ReportKeepsReporting(g, order, cycles, seen, back, u, v, w);
    ReportKeepsOwned(g, order, cycles, seen, closers, back, u, v, w);
  }

  lemma ReportKeepsOwned(g: map<string, seq<string>>, order: seq<string>, cycles: seq<seq<string>>, seen: set<string>,
                         closers: seq<(string, string)>, back: map<(string, string), seq<string>>,
                         u: string, v: string, w: seq<string>)
    requires Reporting(g, order, cycles, seen, back) && Owned(cycles, closers, back) && |w| > 0
    requires (u, v) in back ==> back[(u, v)] == w
    ensures Owned(cycles, closers, back[(u, v) := w])
    ensures Key(w) !in seen ==> Owned(cycles + [w], closers + [(u, v)], back[(u, v) := w])
  {
    hide IsReportedPath, HasStep, Key, Listed;
    if Key(w) !in seen {
      assert (u, v) !in back;
      assert forall k :: 0 <= k < |closers| ==> closers[k] in back;
    }
  }

  // -- in which order the changes are left --------------------------------

  /** `tried` roots were taken; the path belongs to the last of them. */
  ghost predicate Rooted(g: map<string, seq<string>>, order: seq<string>, path: seq<string>,
                         finish: map<string, nat>, tree: map<string, nat>, tried: nat) {
    && tried <= |order| && finish.Keys <= tree.Keys
    && (|path| > 0 ==> tried > 0 && path[0] == order[tried - 1])
    && (forall n :: n in path ==> n in tree && tree[n] == tried - 1)
    && (forall n :: n in tree ==> tree[n] < tried)
    && (forall n :: n in finish && (path == [] || tree[n] < tried - 1) ==> Bounded(order, finish, tree, n))
    && (forall i :: 0 <= i < tried ==> Tried(order, tree, i))
    && (forall m, n :: m in finish && HasEdge(g, m, n) ==> FoundWith(tree, m, n))
    && (forall m, n :: m in finish && n in finish && m != n ==> finish[m] != finish[n])
  }

  ghost predicate Extends(tree: map<string, nat>, tree': map<string, nat>) {
    forall n :: n in tree ==> n in tree' && tree'[n] == tree[n]
  }

  /** Noting the tree of a new change keeps what is known of the others. */
  lemma NewInTree(g: map<string, seq<string>>, order: seq<string>, path: seq<string>, finish: map<string, nat>,
                  tree: map<string, nat>, tried: nat, tree': map<string, nat>)
    requires Rooted(g, order, path, finish, tree, tried) && Extends(tree, tree')
    ensures forall n :: Bounded(order, finish, tree, n) ==> Bounded(order, finish, tree', n)
    ensures forall i :: 0 <= i < tried ==> Tried(order, tree', i)
    ensures forall m, n :: m in finish && HasEdge(g, m, n) ==> FoundWith(tree', m, n)
  {
    hide HasEdge;
    assert forall n :: Bounded(order, finish, tree, n) ==> Bounded(order, finish, tree', n) by {
      hide Rooted;
    }
    forall i | 0 <= i < tried
      ensures Tried(order, tree', i)
    {
      hide Bounded, FoundWith;
      assert Tried(order, tree, i);
    }
    forall m, n | m in finish && HasEdge(g, m, n)
      ensures FoundWith(tree', m, n)
    {
      hide Bounded, Tried;
      assert FoundWith(tree, m, n);
    }
  }

  lemma RootKeepsRooted(g: map<string, seq<string>>, order: seq<string>, finish: map<string, nat>,
                        tree: map<string, nat>, tried: nat)
    requires Rooted(g, order, [], finish, tree, tried) && tried < |order|
    ensures order[tried] in tree ==> Rooted(g, order, [], finish, tree, tried + 1)
    ensures order[tried] !in tree ==> Rooted(g, order, [order[tried]], finish, tree[order[tried] := tried], tried + 1)
  {
    hide HasEdge, Bounded, FoundWith;
    if order[tried] !in tree {
      var tree' := tree[order[tried] := tried];
      NewInTree(g, order, [], finish, tree, tried, tree');
      assert Tried(order, tree', tried);
      hide Tried;
      assert Rooted(g, order, [order[tried]], finish, tree', tried + 1);
    } else {
      assert Tried(order, tree, tried);
    }
  }

  lemma PushKeepsRooted(g: map<string, seq<string>>, order: seq<string>, path: seq<string>,
                        finish: map<string, nat>, tree: map<string, nat>, tried: nat, v: string)
    requires Rooted(g, order, path, finish, tree, tried) && |path| > 0 && v !in tree
    ensures tried > 0 && Rooted(g, order, path + [v], finish, tree[v := tried - 1], tried)
  {
    hide HasEdge, Bounded, Tried, FoundWith;
    NewInTree(g, order, path, finish, tree, tried, tree[v := tried - 1]);
  }

  lemma PopKeepsRooted(g: map<string, seq<string>>, order: seq<string>, path: seq<string>,
                       finish: map<string, nat>, tree: map<string, nat>, tried: nat, clock: nat)
    requires Rooted(g, order, path, finish, tree, tried) && |path| > 0 && Open(path, finish, clock)
    requires forall n :: HasEdge(g, path[|path| - 1], n) ==> n in tree
    ensures Rooted(g, order, path[..|path| - 1], finish[path[|path| - 1] := clock], tree, tried)
  {
    var u := path[|path| - 1];
    assert u in path;
    var path', finish' := path[..|path| - 1], finish[u := clock];
    forall n | n in finish' && (path' == [] || tree[n] < tried - 1)
      ensures Bounded(order, finish', tree, n)
    {
      if tree[n] < tried - 1 {
        assert Bounded(order, finish, tree, n);
      }
    }
  }

  /** A frame with nothing left to look at has met every change its change depends on. */
  lemma TopMet(g: map<string, seq<string>>, stack: seq<Frame>, path: seq<string>, state: map<string, Mark>,
               finish: map<string, nat>, back: map<(string, string), seq<string>>, clock: nat, order: seq<string>,
               n: string)
    requires Searching(g, stack, path, state, finish, back, clock) && |stack| > 0 && Closing(order, path, finish, back)
    requires stack[|stack| - 1].next == |g[path[|path| - 1]]|
    requires HasEdge(g, path[|path| - 1], n)
    ensures n in state
  {
    hide Settled;
    var u := path[|path| - 1];
    var k :| 0 <= k < |g[u]| && g[u][k] == n;
    assert Looked(g, stack, path, finish, back, |path| - 1, k);
    if (u, n) in back {
      assert ClosedAlong(order, path, finish, back[(u, n)], u, n);
    }
  }

  /** What the loop keeps about the order of the search. */
  ghost predicate Ordered(g: map<string, seq<string>>, order: seq<string>, path: seq<string>, state: map<string, Mark>,
                          finish: map<string, nat>, back: map<(string, string), seq<string>>,
                          tree: map<string, nat>, tried: nat) {
    tree.Keys == state.Keys && Closing(order, path, finish, back) && Rooted(g, order, path, finish, tree, tried)
  }

  lemma PopKeepsOrdered(g: map<string, seq<string>>, stack: seq<Frame>, path: seq<string>, state: map<string, Mark>,
                        finish: map<string, nat>, back: map<(string, string), seq<string>>, clock: nat,
                        order: seq<string>, tree: map<string, nat>, tried: nat)
    requires Searching(g, stack, path, state, finish, back, clock) && |stack| > 0
    requires Ordered(g, order, path, state, finish, back, tree, tried)
    requires stack[|stack| - 1].next == |g[path[|path| - 1]]|
    ensures var u := path[|path| - 1];
      Ordered(g, order, path[..|path| - 1], state[u := Done], finish[u := clock], back, tree, tried)
  {
    hide Explored, Settled, Closing, Rooted;
    TopFrame(g, stack, path, state, finish, back, clock);
    forall n | HasEdge(g, path[|path| - 1], n)
      ensures n in tree
    {
      TopMet(g, stack, path, state, finish, back, clock, order, n);
    }
    PopKeepsClosing(order, path, finish, back, clock);
    PopKeepsRooted(g, order, path, finish, tree, tried, clock);
  }

  lemma PushKeepsOrdered(g: map<string, seq<string>>, order: seq<string>, path: seq<string>, state: map<string, Mark>,
                         finish: map<string, nat>, back: map<(string, string), seq<string>>, tree: map<string, nat>,
                         tried: nat, v: string)
    requires Ordered(g, order, path, state, finish, back, tree, tried) && |path| > 0 && v !in state
    ensures tried > 0 && Ordered(g, order, path + [v], state[v := Visiting], finish, back, tree[v := tried - 1], tried)
  {
    PushKeepsClosing(order, path, finish, back, v);
    PushKeepsRooted(g, order, path, finish, tree, tried, v);
    hide Closing;
  }

  lemma RootKeepsOrdered(g: map<string, seq<string>>, order: seq<string>, state: map<string, Mark>,
                         finish: map<string, nat>, back: map<(string, string), seq<string>>, tree: map<string, nat>,
                         tried: nat)
    requires Ordered(g, order, [], state, finish, back, tree, tried) && tried < |order|
    ensures order[tried] in state ==> Ordered(g, order, [], state, finish, back, tree, tried + 1)
    ensures order[tried] !in state ==>
      Ordered(g, order, [order[tried]], state[order[tried] := Visiting], finish, back, tree[order[tried] := tried],
        tried + 1)
  {
    RootKeepsRooted(g, order, finish, tree, tried);
    PushKeepsClosing(order, [], finish, back, order[tried]);
    assert [] + [order[tried]] == [order[tried]];
    hide Closing, Rooted;
  }

  lemma BackKeepsOrdered(g: map<string, seq<string>>, stack: seq<Frame>, path: seq<string>, state: map<string, Mark>,
                         finish: map<string, nat>, back: map<(string, string), seq<string>>, clock: nat,
                         order: seq<string>, tree: map<string, nat>, tried: nat, v: string)
    requires Searching(g, stack, path, state, finish, back, clock) && |path| > 0
    requires Ordered(g, order, path, state, finish, back, tree, tried)
    requires v in path && v != path[|path| - 1]
    ensures 0 <= IndexOf(path, v) < |path|
    ensures var u := path[|path| - 1];
      var w := Closed(order, path[IndexOf(path, v)..]);
      ((u, v) in back ==> back[(u, v)] == w) && Ordered(g, order, path, state, finish, back[(u, v) := w], tree, tried)
  {
    hide Explored, Settled, Closing, Rooted;
    TopFrame(g, stack, path, state, finish, back, clock);
    BackKeepsClosing(order, path, finish, back, clock, v);
  }

  lemma ClosesInOrder(g: map<string, seq<string>>, order: seq<string>, cycles: seq<seq<string>>, seen: set<string>,
                      finish: map<string, nat>, back: map<(string, string), seq<string>>, u: string, v: string)
    requires finish.Keys == g.Keys
    requires Reporting(g, order, cycles, seen, back) && Closing(order, [], finish, back) && (u, v) in back
    ensures ClosedBy(g, order, finish, back[(u, v)], u, v)
  {
    var w := back[(u, v)];
    assert ClosedAlong(order, [], finish, w, u, v);
    forall x, y | HasStep(w, x, y)
      ensures x in g
    {
      var j :| StepAt(w, j, x, y);
      assert EdgeAt(g, w, j);
    }
    assert forall x, y :: !HasStep([], x, y);
  }

  lemma OrderedAtEnd(content: seq<PlanChange>, state: map<string, Mark>,
                     finish: map<string, nat>, back: map<(string, string), seq<string>>, tree: map<string, nat>)
    requires Ordered(Edges(content), Names(content), [], state, finish, back, tree, |Names(content)|)
    ensures tree.Keys == state.Keys && Closing(Names(content), [], finish, back)
    ensures Rooted(Edges(content), Names(content), [], finish, tree, |Names(content)|)
    ensures forall n :: n in Edges(content) ==> n in state
  {
    forall n | n in Edges(content)
      ensures n in state
    {
      var i :| 0 <= i < |Names(content)| && Names(content)[i] == n;
      assert Tried(Names(content), tree, i);
    }
    hide Edges, Closing, Rooted;
  }

  lemma LeavesInOrder(g: map<string, seq<string>>, order: seq<string>, finish: map<string, nat>, tree: map<string, nat>)
    requires finish.Keys == g.Keys == tree.Keys && Rooted(g, order, [], finish, tree, |order|)
    ensures Leaves(g, order, finish, tree)
  {
    hide Bounded, Tried;
    forall n | n in tree
      ensures Bounded(order, finish, tree, n)
    {
      assert n in finish;
    }
    hide FoundWith;
  }

  lemma ReportedInOrder(g: map<string, seq<string>>, order: seq<string>, cycles: seq<seq<string>>, seen: set<string>,
                        closers: seq<(string, string)>, finish: map<string, nat>,
                        back: map<(string, string), seq<string>>)
    requires finish.Keys == g.Keys && Settled(g, finish, back) && Closing(order, [], finish, back)
    requires Told(g, order, cycles, seen, closers, back)
    ensures ReportIn(g, order, finish, closers, cycles)
  {
    hide IsReportedPath, Key, HasStep, Closing;
    forall u, v | (u, v) in back
      ensures ClosedBy(g, order, finish, back[(u, v)], u, v)
    {
      hide *;
      ClosesInOrder(g, order, cycles, seen, finish, back, u, v);
    }
    hide ClosedBy;
    forall u, v | HasEdge(g, u, v) && Ascends(finish, u, v)
      ensures Closes(g, order, finish, cycles, u, v)
    {
      assert (u, v) in back;
      assert KeyReported(cycles, back[(u, v)]);
    }
    hide Settled, Witnessed, Closes;
  }

  lemma SearchedReports(content: seq<PlanChange>, cycles: seq<seq<string>>, seen: set<string>,
                        closers: seq<(string, string)>,
                        finish: map<string, nat>, back: map<(string, string), seq<string>>, tree: map<string, nat>)
    requires finish.Keys == Edges(content).Keys == tree.Keys
    requires Settled(Edges(content), finish, back)
    requires Closing(Names(content), [], finish, back)
    requires Rooted(Edges(content), Names(content), [], finish, tree, |Names(content)|)
    requires Told(Edges(content), Names(content), cycles, seen, closers, back)
    ensures IsCycleReport(content, cycles)
  {
    hide Leaves, ReportIn, Rooted, Closing, Settled, Told, Edges;
    LeavesInOrder(Edges(content), Names(content), finish, tree);
    ReportedInOrder(Edges(content), Names(content), cycles, seen, closers, finish, back);
  }

  method DependencyCycles(content: seq<PlanChange>) returns (cycles: seq<seq<string>>)
    ensures IsCycleReport(content, cycles)
  {
    hide *;
    var edges := Edges(content);
    var order := Names(content);
    var state: map<string, Mark> := map[];
    var seen: set<string> := {};
    cycles := [];
    ghost var finish: map<string, nat> := map[];
    ghost var back: map<(string, string), seq<string>> := map[];
    ghost var clock: nat := 0;
    ghost var tree: map<string, nat> := map[];
    ghost var closers: seq<(string, string)> := [];
    NothingSearched(edges, order);
    for r := 0 to |order|
      invariant Searching(edges, [], [], state, finish, back, clock)
      invariant Ordered(edges, order, [], state, finish, back, tree, r)
      invariant Told(edges, order, cycles, seen, closers, back)
    {
      var root := order[r];
      RootKeepsOrdered(edges, order, state, finish, back, tree, r);
      if root in state {
        continue;
      }
      RootStartsSearching(edges, state, finish, back, clock, root);
      var path := [root];
      var stack := [Frame(root, 0)];
      state := state[root := Visiting];
      tree := tree[root := r];
      ghost var unseen := edges.Keys - state.Keys;
      TopFrame(edges, stack, path, state, finish, back, clock);
      while |stack| > 0
        invariant Searching(edges, stack, path, state, finish, back, clock)
        invariant |path| == |stack| && (|stack| > 0 ==> path[|stack| - 1] in edges)
        invariant Ordered(edges, order, path, state, finish, back, tree, r + 1)
        invariant Told(edges, order, cycles, seen, closers, back)
        invariant unseen == edges.Keys - state.Keys
        decreases unseen, |stack|, if |stack| > 0 then |edges[path[|path| - 1]]| - stack[|stack| - 1].next else 0
      {
        TopFrame(edges, stack, path, state, finish, back, clock);
        var top := |stack| - 1;
        var frame := stack[top];
        var deps := edges[frame.node];
        if frame.next >= |deps| {
          PopKeepsOrdered(edges, stack, path, state, finish, back, clock, order, tree, r + 1);
          PopKeepsSearching(edges, stack, path, state, finish, back, clock);
          state := state[frame.node := Done];
          finish := finish[frame.node := clock];
          clock := clock + 1;
          stack := stack[..top];
          path := path[..top];
          TopFrame(edges, stack, path, state, finish, back, clock);
          continue;
        }
        var dep := deps[frame.next];
        var looked := stack[top := Frame(frame.node, frame.next + 1)];
        if dep !in edges {
          LookKeepsSearching(edges, stack, path, state, finish, back, clock);
          stack := looked;
        } else if dep in state && state[dep] == Visiting {
          CycleOnPath(edges, stack, path, state, finish, back, clock, order, dep);
          var cycle := path[IndexOf(path, dep)..];
          var closed := Closed(order, cycle);
          BackKeepsOrdered(edges, stack, path, state, finish, back, clock, order, tree, r + 1, dep);
          ReportKeepsTold(edges, order, cycles, seen, closers, back, frame.node, dep, closed);
          BackKeepsSearching(edges, stack, path, state, finish, back, clock, frame.node, dep, closed);
          back := back[(frame.node, dep) := closed];
          LookKeepsSearching(edges, stack, path, state, finish, back, clock);
          stack := looked;
          if Key(closed) !in seen {
            cycles := cycles + [closed];
            closers := closers + [(frame.node, dep)];
          }
          seen := seen + {Key(closed)};
        } else if dep in state {
          LookKeepsSearching(edges, stack, path, state, finish, back, clock);
          stack := looked;
        } else {
          PushKeepsSearching(edges, stack, path, state, finish, back, clock);
          PushKeepsOrdered(edges, order, path, state, finish, back, tree, r + 1, dep);
          state := state[dep := Visiting];
          tree := tree[dep := r];
          unseen := unseen - {dep};
          path := path + [dep];
          stack := looked + [Frame(dep, 0)];
        }
      }
    }
    OrderedAtEnd(content, state, finish, back, tree);
    AllFinished(edges, state, finish, back, clock);
    SearchedReports(content, cycles, seen, closers, finish, back, tree);
  }
}
