/** The debounced watcher of log files, on a clock, with timers that may be late. */
module LogWatching {
  import opened Options
  import opened Strings

  /** The quiet period, and how long a first path waits before the next event flushes. */
  datatype Limits = Limits(debounceMs: nat, maxWaitMs: nat)

  datatype Batch = Batch(paths: seq<string>, at: int)

  function Added(pending: seq<string>, path: string): seq<string> {
    if path in pending then pending else pending + [path]
  }

  // -- specification ------------------------------------------------------

  /** `timer` is when the armed timer is due. */
  datatype State = State(pending: seq<string>, firstEventTime: Option<int>, timer: Option<int>)

  const IDLE := State([], None, None)

  datatype Step = Arrive(path: string) | Fire | Stop

  datatype Timed = Timed(at: int, step: Step)

  function Flushed(s: State, now: int): (State, seq<Batch>) {
    (IDLE, if s.pending == [] then [] else [Batch(s.pending, now)])
  }

  function After(limits: Limits, s: State, t: Timed): (State, seq<Batch>) {
    match t.step
    case Fire => Flushed(s, t.at)
    case Stop => Flushed(s, t.at)
    case Arrive(path) =>
      if !EndsWith(path, ".jsonl") then (s, [])
      else
        var first := if s.firstEventTime.Some? then s.firstEventTime.value else t.at;
        var pending := Added(s.pending, path);
        if t.at - first >= limits.maxWaitMs then Flushed(State(pending, Some(first), s.timer), t.at)
        else (State(pending, Some(first), Some(t.at + limits.debounceMs)), [])
  }

  function Run(limits: Limits, steps: seq<Timed>): (State, seq<Batch>) {
    if steps == [] then (IDLE, [])
    else
      var (s, batches) := Run(limits, steps[..|steps| - 1]);
      var (t, more) := After(limits, s, steps[|steps| - 1]);
      (t, batches + more)
  }

  // -- the watcher --------------------------------------------------------

  class LogWatcher {
    const limits: Limits
    var pending: seq<string>
    var firstEventTime: Option<int>
    var debounceTimer: Option<int>
    var batches: seq<Batch>

    constructor (limits: Limits)
      ensures this.limits == limits && Abs() == IDLE && batches == []
    {
      this.limits := limits;
      pending, firstEventTime, debounceTimer, batches := [], None, None, [];
    }

    function Abs(): State
      reads this
    {
      State(pending, firstEventTime, debounceTimer)
    }

    method HandleEvent(path: string, now: int)
      modifies this
      ensures var (s, more) := After(limits, old(Abs()), Timed(now, Arrive(path)));
        Abs() == s && batches == old(batches) + more
    {
      assert batches == batches + [];
      if !EndsWith(path, ".jsonl") {
        return;
      }
      pending := Added(pending, path);
      if firstEventTime == None {
        firstEventTime := Some(now);
      }
      if now - firstEventTime.value >= limits.maxWaitMs {
        Flush(now);
        return;
      }
      debounceTimer := Some(now + limits.debounceMs);
    }

    method Flush(now: int)
      modifies this
      ensures var (s, more) := Flushed(old(Abs()), now); Abs() == s && batches == old(batches) + more
    {
      assert batches == batches + [];
      debounceTimer := None;
      firstEventTime := None;
      if pending == [] {
        return;
      }
      var paths := pending;
      pending := [];
      batches := batches + [Batch(paths, now)];
    }
  }

  // -- what was given, and how it is grouped ------------------------------

  datatype Arrival = Arrival(path: string, at: int)

  /** The log files the watcher was told of, in order. */
  function Given(steps: seq<Timed>): seq<Arrival> {
    if steps == [] then []
    else
      var t := steps[|steps| - 1];
      Given(steps[..|steps| - 1])
        + (if t.step.Arrive? && EndsWith(t.step.path, ".jsonl") then [Arrival(t.step.path, t.at)] else [])
  }

  /** The paths of some arrivals, each once, in the order they first came. */
  function Deduplicated(arrivals: seq<Arrival>): seq<string> {
    if arrivals == [] then [] else Added(Deduplicated(arrivals[..|arrivals| - 1]), arrivals[|arrivals| - 1].path)
  }

  lemma {:induction false} DeduplicatedHolds(arrivals: seq<Arrival>)
    ensures forall path :: path in Deduplicated(arrivals) <==>
      exists i :: 0 <= i < |arrivals| && arrivals[i].path == path
    ensures forall i, j :: 0 <= i < j < |Deduplicated(arrivals)| ==>
      Deduplicated(arrivals)[i] != Deduplicated(arrivals)[j]
  {
    if arrivals != [] {
      var n := |arrivals| - 1;
      DeduplicatedHolds(arrivals[..n]);
      forall path
        ensures path in Deduplicated(arrivals) <==> exists i :: 0 <= i < |arrivals| && arrivals[i].path == path
      {
        if path in Deduplicated(arrivals[..n]) {
          var i :| 0 <= i < n && arrivals[..n][i].path == path;
          assert arrivals[i].path == path;
        }
        if i :| 0 <= i < n && arrivals[i].path == path {
          assert arrivals[..n][i].path == path;
        }
      }
    }
  }

  function Concat(groups: seq<seq<Arrival>>): seq<Arrival> {
    if groups == [] then [] else Concat(groups[..|groups| - 1]) + groups[|groups| - 1]
  }

  // -- runs on a clock ----------------------------------------------------

  /** Time does not go back, a timer fires only when due, and nothing happens when an armed
      timer is overdue by more than `late`. */
  ghost predicate Legal(limits: Limits, late: nat, steps: seq<Timed>) {
    steps != [] ==>
      var n := |steps| - 1;
      && Legal(limits, late, steps[..n])
      && (n > 0 ==> steps[n - 1].at <= steps[n].at)
      && var timer := Run(limits, steps[..n]).0.timer;
      && (steps[n].step.Fire? ==> timer.Some? && timer.value <= steps[n].at)
      && (timer.Some? ==> steps[n].at <= timer.value + late)
  }

  /** How soon a group must be told, counted from its first arrival. */
  predicate InTime(limits: Limits, late: nat, first: int, at: int) {
    first <= at && (at == first || at < first + limits.maxWaitMs + limits.debounceMs + late)
  }

  /** A batch tells exactly its group, in time. */
  predicate Tells(limits: Limits, late: nat, batch: Batch, group: seq<Arrival>) {
    && group != [] && batch.paths == Deduplicated(group)
    && InTime(limits, late, group[0].at, batch.at)
    && (forall i :: 0 <= i < |group| ==> group[0].at <= group[i].at <= batch.at)
  }

  /** How the waiting paths, their first time and the timer stand to the arrivals not yet told. */
  ghost predicate Waits(limits: Limits, s: State, waiting: seq<Arrival>, now: int) {
    && s.pending == Deduplicated(waiting)
    && (s.firstEventTime.Some? <==> waiting != []) && (s.timer.Some? <==> waiting != [])
    && (waiting != [] ==>
        && s.firstEventTime.value == waiting[0].at
        && s.timer.value < waiting[0].at + limits.maxWaitMs + limits.debounceMs)
    && (forall i :: 0 <= i < |waiting| ==> waiting[0].at <= waiting[i].at <= now)
  }

  predicate Soon(limits: Limits, late: nat, waiting: seq<Arrival>, t: Timed) {
    waiting != [] ==> !t.step.Stop? && InTime(limits, late, waiting[0].at, t.at)
  }

  ghost predicate Grouped(limits: Limits, late: nat, steps: seq<Timed>, groups: seq<seq<Arrival>>, rest: seq<Arrival>) {
    var batches := Run(limits, steps).1;
    && Given(steps) == Concat(groups) + rest
    && |batches| == |groups|
    && forall i :: 0 <= i < |groups| ==> Tells(limits, late, batches[i], groups[i])
  }

  lemma {:induction false} NoneGivenNoneWaits(arrivals: seq<Arrival>)
    ensures Deduplicated(arrivals) == [] <==> arrivals == []
  {
    if arrivals != [] {
      assert Added(Deduplicated(arrivals[..|arrivals| - 1]), arrivals[|arrivals| - 1].path) != [];
    }
  }

  /** One step either adds to what waits, or tells all of it in time. */
  lemma StepTells(limits: Limits, late: nat, s: State, waiting: seq<Arrival>, before: int, t: Timed)
      returns (given: seq<Arrival>)
    requires Waits(limits, s, waiting, before)
    requires waiting != [] ==> before <= t.at
    requires t.step.Fire? ==> s.timer.Some?
    requires s.timer.Some? ==> t.at <= s.timer.value + late
    ensures given == if t.step.Arrive? && EndsWith(t.step.path, ".jsonl") then [Arrival(t.step.path, t.at)] else []
    ensures var (u, more) := After(limits, s, t);
      || (more == [] && Waits(limits, u, waiting + given, t.at) && Soon(limits, late, waiting + given, t))
      || (|more| == 1 && u == IDLE && Tells(limits, late, more[0], waiting + given))
  {
    given := if t.step.Arrive? && EndsWith(t.step.path, ".jsonl") then [Arrival(t.step.path, t.at)] else [];
    NoneGivenNoneWaits(waiting + given);
    if given == [] {
      assert waiting + given == waiting;
    } else {
      assert (waiting + given)[..|waiting|] == waiting;
      assert Deduplicated(waiting + given) == Added(Deduplicated(waiting), t.step.path);
    }
  }

  /** Every given path is in exactly one batch, or still waits: the given arrivals fall into
      consecutive groups, one for each batch, which tells its paths once and in time; what waits
      is the rest, and waits no longer than that. */
  lemma {:induction false} EveryPathIsTold(limits: Limits, late: nat,
                                           steps: seq<Timed>) returns (groups: seq<seq<Arrival>>, rest: seq<Arrival>)
    requires Legal(limits, late, steps)
    ensures Grouped(limits, late, steps, groups, rest)
    ensures Waits(limits, Run(limits, steps).0, rest, if steps == [] then 0 else steps[|steps| - 1].at)
    ensures steps == [] ==> rest == []
    ensures steps != [] ==> Soon(limits, late, rest, steps[|steps| - 1])
  {
    if steps == [] {
      groups, rest := [], [];
    } else {
      var n := |steps| - 1;
      var g, r := EveryPathIsTold(limits, late, steps[..n]);
      var (s, batches) := Run(limits, steps[..n]);
      var before := if n == 0 then 0 else steps[n - 1].at;
      assert steps[..n] != [] ==> steps[..n][n - 1] == steps[n - 1];
      assert (s.timer.Some? <==> r != []);
      var given := StepTells(limits, late, s, r, before, steps[n]);
      var (u, more) := After(limits, s, steps[n]);
      if more == [] {
        groups, rest := g, r + given;
      } else {
        groups, rest := g + [r + given], [];
      }
      GroupsGrow(limits, late, steps, g, r, given);
    }
  }

  lemma GroupsGrow(limits: Limits, late: nat, steps: seq<Timed>, g: seq<seq<Arrival>>, r: seq<Arrival>,
                   given: seq<Arrival>)
    requires steps != [] && Grouped(limits, late, steps[..|steps| - 1], g, r)
    requires Given(steps) == Given(steps[..|steps| - 1]) + given
    requires var n := |steps| - 1;
      var more := After(limits, Run(limits, steps[..n]).0, steps[n]).1;
      more == [] || (|more| == 1 && Tells(limits, late, more[0], r + given))
    ensures var n := |steps| - 1;
      var more := After(limits, Run(limits, steps[..n]).0, steps[n]).1;
      if more == [] then Grouped(limits, late, steps, g, r + given)
      else Grouped(limits, late, steps, g + [r + given], [])
  {
    hide After, Deduplicated, Tells, Given;
    var n := |steps| - 1;
    var (s, batches) := Run(limits, steps[..n]);
    var more := After(limits, s, steps[n]).1;
    assert Run(limits, steps).1 == batches + more;
    assert (Concat(g) + r) + given == Concat(g) + (r + given);
    var longer := g + [r + given];
    assert longer[..|g|] == g;
    assert Concat(longer) + [] == Concat(longer) == Concat(g) + (r + given);
  }

  // -- the bound cannot be lowered ----------------------------------------

  /** The same path again every millisecond. */
  function Ticks(path: string, k: nat): seq<Timed> {
    if k == 0 then [] else Ticks(path, k - 1) + [Timed(k - 1, Arrive(path))]
  }

  lemma {:induction false} TicksWait(limits: Limits, late: nat, path: string, k: nat)
    requires EndsWith(path, ".jsonl") && 1 <= k <= limits.maxWaitMs && limits.debounceMs >= 1
    ensures |Ticks(path, k)| == k && Ticks(path, k)[k - 1].at == k - 1 && Ticks(path, k)[0] == Timed(0, Arrive(path))
    ensures Run(limits, Ticks(path, k)) == (State([path], Some(0), Some(k - 1 + limits.debounceMs)), [])
    ensures Legal(limits, late, Ticks(path, k))
  {
    hide *;
    LastTick(path, k);
    var steps := Ticks(path, k);
    if k == 1 {
      FirstTick(limits, late, path, steps);
    } else {
      TicksWait(limits, late, path, k - 1);
      NextTick(limits, late, path, steps, k);
    }
  }

  lemma LastTick(path: string, k: nat)
    requires k >= 1
    ensures var before := Ticks(path, k - 1);
      && |Ticks(path, k)| == |before| + 1
      && Ticks(path, k)[..|before|] == before
      && Ticks(path, k)[|before|] == Timed(k - 1, Arrive(path))
      && (k == 1 ==> before == [])
      && forall i :: 0 <= i < |before| ==> Ticks(path, k)[i] == before[i]
  {
  }

  lemma NextTick(limits: Limits, late: nat, path: string, steps: seq<Timed>, k: nat)
    requires EndsWith(path, ".jsonl") && 2 <= k <= limits.maxWaitMs && limits.debounceMs >= 1 && |steps| == k
    requires Legal(limits, late, steps[..k - 1]) && steps[k - 2].at == k - 2
      && steps[k - 1] == Timed(k - 1, Arrive(path))
    requires Run(limits, steps[..k - 1]) == (State([path], Some(0), Some(k - 2 + limits.debounceMs)), [])
    ensures Run(limits, steps) == (State([path], Some(0), Some(k - 1 + limits.debounceMs)), [])
    ensures Legal(limits, late, steps)
  {
    var before := State([path], Some(0), Some(k - 2 + limits.debounceMs));
    var after := State([path], Some(0), Some(k - 1 + limits.debounceMs));
    assert After(limits, before, steps[k - 1]) == (after, []);
    hide After;
  }

  lemma FirstTick(limits: Limits, late: nat, path: string, steps: seq<Timed>)
    requires EndsWith(path, ".jsonl") && limits.maxWaitMs >= 1
    requires |steps| == 1 && steps[0] == Timed(0, Arrive(path))
    ensures Run(limits, steps) == (State([path], Some(0), Some(limits.debounceMs)), [])
    ensures Legal(limits, late, steps)
  {
    var none := steps[..|steps| - 1];
    assert none == [];
    assert Run(limits, none) == (IDLE, []) && Legal(limits, late, none);
    assert Added([], path) == [path];
    var u := State([path], Some(0), Some(limits.debounceMs));
    assert After(limits, IDLE, steps[0]) == (u, []);
    assert Run(limits, steps).0 == u;
    assert Run(limits, steps).1 == Run(limits, none).1 + After(limits, IDLE, steps[0]).1 == [];
    assert Run(limits, steps) == (u, []);
  }

  /** The maximum wait alone is no bound: it is looked at only when an event comes, so a path can
      wait one millisecond less than the maximum wait, the quiet period and the lateness together. */
  lemma TheBoundIsReached(limits: Limits, late: nat, path: string) returns (steps: seq<Timed>)
    requires EndsWith(path, ".jsonl") && limits.maxWaitMs >= 1 && limits.debounceMs >= 1
    ensures Legal(limits, late, steps)
    ensures steps != [] && steps[0] == Timed(0, Arrive(path))
    ensures Run(limits, steps) == (IDLE, [Batch([path], limits.maxWaitMs + limits.debounceMs + late - 1)])
  {
    var k := limits.maxWaitMs;
    TicksWait(limits, late, path, k);
    var last := Timed(k - 1 + limits.debounceMs + late, Fire);
    steps := Ticks(path, k) + [last];
    hide Ticks, EndsWith;
    FireEnds(limits, late, steps, path, last);
  }

  lemma FireEnds(limits: Limits, late: nat, steps: seq<Timed>, path: string, last: Timed)
    requires |steps| > 1 && steps[|steps| - 1] == last && last.step == Fire && steps[|steps| - 2].at <= last.at
    requires var (s, batches) := Run(limits, steps[..|steps| - 1]);
      s.pending == [path] && batches == [] && s.timer.Some? && s.timer.value <= last.at <= s.timer.value + late
    requires Legal(limits, late, steps[..|steps| - 1])
    ensures Legal(limits, late, steps) && Run(limits, steps) == (IDLE, [Batch([path], last.at)])
  {
    assert [] + [Batch([path], last.at)] == [Batch([path], last.at)];
  }
}
