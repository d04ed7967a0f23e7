/** The "what stopped and why" report's reach: which unlanded changes a stopped change holds up. */
module PlanReport {
  import opened Lists
  import opened PlanDependencies

  /** An unlanded change that lists the other as a dependency. */
  ghost predicate Link(content: seq<PlanChange>, landed: set<string>, u: string, v: string) {
    u !in landed && exists k :: 0 <= k < |content| && content[k].name == u && v in content[k].dependsOn
  }

  /** `c` is a chain of changes, each depending on the next; every change on it but the last is unlanded. */
  ghost predicate IsChain(content: seq<PlanChange>, landed: set<string>, c: seq<string>) {
    |c| >= 2 && forall i :: 0 <= i < |c| - 1 ==> LinkAt(content, landed, c, i)
  }

  ghost predicate LinkAt(content: seq<PlanChange>, landed: set<string>, c: seq<string>, i: nat)
    requires i < |c| - 1
  {
    Link(content, landed, c[i], c[i + 1])
  }

  /** `name` waits for `change`, directly or through other unlanded changes. */
  ghost predicate Waits(content: seq<PlanChange>, landed: set<string>, name: string, change: string) {
    exists c :: IsChain(content, landed, c) && c[0] == name && c[|c| - 1] == change
  }

  /** The members of `names` that are in `kept`, in their order. */
  function KeptIn(names: seq<string>, kept: set<string>): (r: seq<string>)
    ensures forall n :: n in r <==> n in names && n in kept
  {
    Filter(names, (n: string) => n in kept)
  }

  lemma LinkWaits(content: seq<PlanChange>, landed: set<string>, u: string, v: string)
    requires Link(content, landed, u, v)
    ensures Waits(content, landed, u, v)
  {
    var c := [u, v];
    assert LinkAt(content, landed, c, 0);
    assert IsChain(content, landed, c);
  }

  lemma LinkThenWaits(content: seq<PlanChange>, landed: set<string>, u: string, v: string, change: string)
    requires Link(content, landed, u, v) && Waits(content, landed, v, change)
    ensures Waits(content, landed, u, change)
  {
    var c :| IsChain(content, landed, c) && c[0] == v && c[|c| - 1] == change;
    var d := [u] + c;
    forall i | 0 <= i < |d| - 1
      ensures LinkAt(content, landed, d, i)
    {
      assert i > 0 ==> LinkAt(content, landed, c, i - 1);
    }
    assert IsChain(content, landed, d) && d[0] == u && d[|d| - 1] == change;
  }

  /** Every change that links to `from` is in `blocked`. */
  ghost predicate Expanded(content: seq<PlanChange>, landed: set<string>, blocked: set<string>, from: string) {
    forall u :: Link(content, landed, u, from) ==> u in blocked
  }

  /** A set that takes in every link to `change` and to its own members holds every waiting change. */
  lemma {:induction false} ClosedHoldsWaiting(content: seq<PlanChange>, landed: set<string>, closed: set<string>,
                                              change: string, c: seq<string>)
    requires forall v :: v == change || v in closed ==> Expanded(content, landed, closed, v)
    requires IsChain(content, landed, c) && c[|c| - 1] == change
    ensures c[0] in closed
  {
    assert LinkAt(content, landed, c, 0);
    assert |c| == 2 ==> Expanded(content, landed, closed, c[1]);
    if |c| > 2 {
      var d := c[1..];
      forall i | 0 <= i < |d| - 1
        ensures LinkAt(content, landed, d, i)
      {
        assert LinkAt(content, landed, c, i + 1);
      }
      ClosedHoldsWaiting(content, landed, closed, change, d);
      assert Expanded(content, landed, closed, d[0]);
    }
  }

  lemma LinkReaches(content: seq<PlanChange>, landed: set<string>, k: nat, current: string, change: string)
    requires k < |content| && content[k].name !in landed && current in content[k].dependsOn
    requires current == change || Waits(content, landed, current, change)
    ensures Waits(content, landed, content[k].name, change)
    ensures content[k].name in Names(content)
  {
    assert Link(content, landed, content[k].name, current);
    if current == change {
      LinkWaits(content, landed, content[k].name, change);
    }
    if Waits(content, landed, current, change) {
      LinkThenWaits(content, landed, content[k].name, current, change);
    }
    assert Names(content)[k] == content[k].name;
  }

  method BlockedDependents(content: seq<PlanChange>, change: string, landed: set<string>) returns (r: seq<string>)
    ensures r == KeptIn(Names(content), set n | n in Names(content) && Waits(content, landed, n, change))
  {
    var blocked: set<string> := {};
    var queue := [change];
    ghost var names := set n | n in Names(content);
    while |queue| > 0
      invariant blocked <= names
      invariant forall n :: n in blocked ==> Waits(content, landed, n, change)
      invariant forall n :: n in queue ==> n == change || n in blocked
      invariant forall n :: n == change || n in blocked ==> n in queue || Expanded(content, landed, blocked, n)
      decreases names - blocked, |queue|
    {
      var current := queue[0];
      ghost var before := blocked;
      queue := queue[1..];
      ghost var rest := queue;
      for k := 0 to |content|
        invariant before <= blocked <= names
        invariant forall n :: n in blocked ==> Waits(content, landed, n, change)
        invariant forall n :: n in queue ==> n == change || n in blocked
        invariant forall n :: n == change || n in blocked ==>
          n == current || n in queue || Expanded(content, landed, blocked, n)
        invariant forall j :: 0 <= j < k && content[j].name !in landed && current in content[j].dependsOn ==>
          content[j].name in blocked
        invariant blocked == before ==> queue == rest
      {
        var entry := content[k];
        if entry.name in blocked || entry.name in landed || current !in entry.dependsOn {
          continue;
        }
        LinkReaches(content, landed, k, current, change);
        blocked := blocked + {entry.name};
        queue := queue + [entry.name];
      }
    }
    forall n | n in names && Waits(content, landed, n, change)
      ensures n in blocked
    {
      var c :| IsChain(content, landed, c) && c[0] == n && c[|c| - 1] == change;
      ClosedHoldsWaiting(content, landed, blocked, change, c);
    }
    assert blocked == set n | n in Names(content) && Waits(content, landed, n, change);
    r := KeptIn(Names(content), blocked);
  }
}
