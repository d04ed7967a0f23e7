/** The queue of changed paths before the one poll in flight: calls, worker replies and queued
    drains in any order. */
module PollQueue {
  import opened Lists

  // -- specification ------------------------------------------------------

  /** `awaiting` counts polls whose worker has not replied; `sent` and `dropped` are the history:
      batches given to the worker, and paths taken from the queue that never got there. */
  datatype State = State(
    pending: seq<string>, inFlight: bool, queuedDrains: nat, worker: bool, awaiting: nat,
    sent: seq<seq<string>>, dropped: seq<string>)

  /** `ok` says that reading the snapshot for the worker does not throw. */
  datatype Step =
    | Changed(paths: seq<string>, ok: bool)
    | Drain(ok: bool)
    | PollOnce(ok: bool)
    | Settle
    | Stop

  function AddAll(pending: seq<string>, paths: seq<string>): seq<string> {
    if paths == [] then pending
    else
      var before := AddAll(pending, paths[..|paths| - 1]);
      var path := paths[|paths| - 1];
      if path in before then before else before + [path]
  }

  function Without(pending: seq<string>, path: string): seq<string> {
    if pending == [] then [] else if pending[0] == path then pending[1..]
    else [pending[0]] + Without(pending[1..], path)
  }

  function Settled(s: State): State {
    s.(inFlight := false, queuedDrains := if s.pending == [] then s.queuedDrains else s.queuedDrains + 1)
  }

  function Min(a: nat, b: nat): nat {
    if a <= b then a else b
  }

  /** A poll of the first pending paths, unless one is in flight or nothing waits. */
  function Taken(max: nat, s: State, ok: bool): State {
    if s.inFlight || s.pending == [] then s
    else
      var k := Min(max, |s.pending|);
      var t := s.(pending := s.pending[k..]);
      if s.worker && ok then t.(inFlight := true, awaiting := s.awaiting + 1, sent := s.sent + [s.pending[..k]])
      else Settled(t.(dropped := s.dropped + s.pending[..k]))
  }

  predicate Enabled(s: State, step: Step) {
    (step.Drain? ==> s.queuedDrains > 0) && (step.Settle? ==> s.awaiting > 0)
  }

  function After(max: nat, s: State, step: Step): State
    requires Enabled(s, step)
  {
    match step
    case Changed(paths, ok) => Taken(max, s.(pending := AddAll(s.pending, paths)), ok)
    case Drain(ok) => Taken(max, s.(queuedDrains := s.queuedDrains - 1), ok)
    case PollOnce(ok) =>
      if s.inFlight then s
      else if s.worker && ok then s.(inFlight := true, awaiting := s.awaiting + 1)
      else Settled(s)
    case Settle => Settled(s.(awaiting := s.awaiting - 1))
    case Stop => s.(worker := false)
  }

  // -- the poller ---------------------------------------------------------

  class LogPoller {
    const maxLogsPerPoll: nat
    var pendingChangedPaths: seq<string>
    var pollInFlight: bool
    var queuedDrains: nat
    var matchWorker: bool
    var awaiting: nat
    var sent: seq<seq<string>>
    var dropped: seq<string>

    constructor (limit: int, matchWorker: bool)
      ensures maxLogsPerPoll >= 1 && maxLogsPerPoll >= limit && maxLogsPerPoll in {1, limit}
      ensures Abs() == State([], false, 0, matchWorker, 0, [], [])
    {
      maxLogsPerPoll := if limit < 1 then 1 else limit;
      pendingChangedPaths, pollInFlight, queuedDrains, this.matchWorker, awaiting, sent, dropped :=
        [], false, 0, matchWorker, 0, [], [];
    }

    function Abs(): State
      reads this
    {
      State(pendingChangedPaths, pollInFlight, queuedDrains, matchWorker, awaiting, sent, dropped)
    }

    /** The call up to where it waits for the worker. */
    method PollChanged(changedPaths: seq<string>, ok: bool)
      modifies this
      ensures Abs() == After(maxLogsPerPoll, old(Abs()), Changed(changedPaths, ok))
    {
      for i := 0 to |changedPaths|
        invariant Abs() == old(Abs()).(pending := AddAll(old(pendingChangedPaths), changedPaths[..i]))
      {
        assert changedPaths[..i + 1][..i] == changedPaths[..i];
        if changedPaths[i] !in pendingChangedPaths {
          pendingChangedPaths := pendingChangedPaths + [changedPaths[i]];
        }
      }
      assert changedPaths[..|changedPaths|] == changedPaths;
      if pollInFlight || |pendingChangedPaths| == 0 {
        return;
      }
      ghost var all := pendingChangedPaths;
      var pathsToPoll := pendingChangedPaths[..Min(maxLogsPerPoll, |pendingChangedPaths|)];
      for i := 0 to |pathsToPoll|
        invariant pendingChangedPaths == all[i..]
        invariant Abs() == old(Abs()).(pending := pendingChangedPaths)
      {
        pendingChangedPaths := Without(pendingChangedPaths, pathsToPoll[i]);
      }
      pollInFlight := true;
      if !matchWorker || !ok {
        dropped := dropped + pathsToPoll;
        Settle();
        return;
      }
      sent := sent + [pathsToPoll];
      awaiting := awaiting + 1;
    }

    method RunDrain(ok: bool)
      requires queuedDrains > 0
      modifies this
      ensures Abs() == After(maxLogsPerPoll, old(Abs()), Drain(ok))
    {
      queuedDrains := queuedDrains - 1;
      PollChanged([], ok);
    }

    method BeginPollOnce(ok: bool)
      modifies this
      ensures Abs() == After(maxLogsPerPoll, old(Abs()), PollOnce(ok))
    {
      if pollInFlight {
        return;
      }
      pollInFlight := true;
      if !matchWorker || !ok {
        Settle();
        return;
      }
      awaiting := awaiting + 1;
    }

    /** A worker reply, or its failure, ends the poll that waited for it. */
    method Reply()
      requires awaiting > 0
      modifies this
      ensures Abs() == After(maxLogsPerPoll, old(Abs()), Step.Settle)
    {
      awaiting := awaiting - 1;
      Settle();
    }

    method Settle()
      modifies this
      ensures Abs() == Settled(old(Abs()))
    {
      pollInFlight := false;
      if |pendingChangedPaths| != 0 {
        queuedDrains := queuedDrains + 1;
      }
    }

    method Dispose()
      modifies this
      ensures Abs() == After(maxLogsPerPoll, old(Abs()), Stop)
    {
      matchWorker := false;
    }
  }

  // -- what every run keeps -----------------------------------------------

  /** At most one poll waits for the worker, and waiting paths have somebody coming for them. */
  predicate Inv(max: nat, s: State) {
    && s.awaiting == (if s.inFlight then 1 else 0)
    && (s.pending != [] ==> s.inFlight || s.queuedDrains > 0)
    && Distinct(s.pending)
    && (forall i :: 0 <= i < |s.sent| ==> 1 <= |s.sent[i]| <= max && Distinct(s.sent[i]))
  }

  lemma {:induction false} AddAllHolds(pending: seq<string>, paths: seq<string>)
    requires Distinct(pending)
    ensures Distinct(AddAll(pending, paths))
    ensures pending <= AddAll(pending, paths)
    ensures forall path :: path in AddAll(pending, paths) <==> path in pending || path in paths
  {
    if paths != [] {
      var n := |paths| - 1;
      AddAllHolds(pending, paths[..n]);
      assert paths == paths[..n] + [paths[n]];
    }
  }

  lemma TakenKeepsInv(max: nat, s: State, ok: bool)
    requires max >= 1 && Distinct(s.pending) && s.awaiting == (if s.inFlight then 1 else 0)
    requires forall i :: 0 <= i < |s.sent| ==> 1 <= |s.sent[i]| <= max && Distinct(s.sent[i])
    ensures Inv(max, Taken(max, s, ok))
  {
  }

  lemma StepKeepsInv(max: nat, s: State, step: Step)
    requires max >= 1 && Inv(max, s) && Enabled(s, step)
    ensures Inv(max, After(max, s, step))
  {
    match step
    case Changed(paths, ok) =>
      AddAllHolds(s.pending, paths);
      TakenKeepsInv(max, s.(pending := AddAll(s.pending, paths)), ok);
    case Drain(ok) => TakenKeepsInv(max, s.(queuedDrains := s.queuedDrains - 1), ok);
    case _ =>
  }

  // -- runs ---------------------------------------------------------------

  ghost predicate Possible(max: nat, s: State, steps: seq<Step>)
    decreases |steps|
  {
    steps == [] || (Enabled(s, steps[0]) && Possible(max, After(max, s, steps[0]), steps[1..]))
  }

  function Run(max: nat, s: State, steps: seq<Step>): State
    requires Possible(max, s, steps)
    decreases |steps|
  {
    if steps == [] then s else Run(max, After(max, s, steps[0]), steps[1..])
  }

  lemma {:induction false} RunKeepsInv(max: nat, s: State, steps: seq<Step>)
    requires max >= 1 && Inv(max, s) && Possible(max, s, steps)
    ensures Inv(max, Run(max, s, steps))
    decreases |steps|
  {
    if steps != [] {
      StepKeepsInv(max, s, steps[0]);
      RunKeepsInv(max, After(max, s, steps[0]), steps[1..]);
    }
  }

  // -- no path is lost ----------------------------------------------------

  /** Where a path can be, counting only batches and losses after the given lengths. */
  ghost predicate Accounted(s: State, path: string, sentBefore: nat, droppedBefore: nat) {
    || path in s.pending
    || (exists i :: sentBefore <= i < |s.sent| && path in s.sent[i])
    || (exists i :: droppedBefore <= i < |s.dropped| && path == s.dropped[i])
  }

  lemma TakenAccounts(max: nat, s: State, ok: bool, path: string, sentBefore: nat, droppedBefore: nat)
    requires Accounted(s, path, sentBefore, droppedBefore) && sentBefore <= |s.sent| && droppedBefore <= |s.dropped|
    ensures Accounted(Taken(max, s, ok), path, sentBefore, droppedBefore)
    ensures s.sent <= Taken(max, s, ok).sent && s.dropped <= Taken(max, s, ok).dropped
    ensures s.worker && ok ==> Taken(max, s, ok).dropped == s.dropped
  {
    var t := Taken(max, s, ok);
    var k := Min(max, |s.pending|);
    if path in s.pending && t != s {
      if path in s.pending[..k] {
        if s.worker && ok {
          assert path in t.sent[|s.sent|];
        } else {
          var j :| 0 <= j < k && s.pending[..k][j] == path;
          assert t.dropped[|s.dropped| + j] == path;
        }
      } else {
        assert s.pending == s.pending[..k] + s.pending[k..];
      }
    }
    if i :| sentBefore <= i < |s.sent| && path in s.sent[i] {
      assert path in t.sent[i];
    }
    if i :| droppedBefore <= i < |s.dropped| && path == s.dropped[i] {
      assert path == t.dropped[i];
    }
  }

  predicate Safe(s: State, step: Step) {
    s.worker && !step.Stop? && (step.Changed? || step.Drain? || step.PollOnce? ==> step.ok)
  }

  lemma StepAccounts(max: nat, s: State, step: Step, path: string, sentBefore: nat, droppedBefore: nat)
    requires Enabled(s, step) && Distinct(s.pending)
    requires sentBefore <= |s.sent| && droppedBefore <= |s.dropped|
    requires Accounted(s, path, sentBefore, droppedBefore) || (step.Changed? && path in step.paths)
    ensures Accounted(After(max, s, step), path, sentBefore, droppedBefore)
    ensures s.sent <= After(max, s, step).sent && s.dropped <= After(max, s, step).dropped
    ensures Safe(s, step) ==> After(max, s, step).dropped == s.dropped && After(max, s, step).worker
  {
    match step
    case Changed(paths, ok) =>
      AddAllHolds(s.pending, paths);
      TakenAccounts(max, s.(pending := AddAll(s.pending, paths)), ok, path, sentBefore, droppedBefore);
    case Drain(ok) => TakenAccounts(max, s.(queuedDrains := s.queuedDrains - 1), ok, path, sentBefore, droppedBefore);
    case _ =>
  }

  lemma {:induction false} RunAccounts(max: nat, s: State, steps: seq<Step>, path: string, sentBefore: nat,
                                       droppedBefore: nat)
    requires max >= 1 && Inv(max, s) && Possible(max, s, steps)
    requires sentBefore <= |s.sent| && droppedBefore <= |s.dropped|
    requires Accounted(s, path, sentBefore, droppedBefore)
    ensures Accounted(Run(max, s, steps), path, sentBefore, droppedBefore)
    decreases |steps|
  {
    if steps != [] {
      StepAccounts(max, s, steps[0], path, sentBefore, droppedBefore);
      StepKeepsInv(max, s, steps[0]);
      RunAccounts(max, After(max, s, steps[0]), steps[1..], path, sentBefore, droppedBefore);
    }
  }

  /** Nothing is dropped while the worker is there and snapshots are read. */
  lemma {:induction false} SafeRunDropsNothing(max: nat, s: State, steps: seq<Step>)
    requires max >= 1 && Possible(max, s, steps) && s.worker
    requires forall i :: 0 <= i < |steps| ==>
      !steps[i].Stop? && (steps[i].Changed? || steps[i].Drain? || steps[i].PollOnce? ==> steps[i].ok)
    ensures Run(max, s, steps).dropped == s.dropped
    decreases |steps|
  {
    if steps != [] {
      assert Safe(s, steps[0]);
      SafeRunDropsNothing(max, After(max, s, steps[0]), steps[1..]);
    }
  }

  /** A path given by the first call of a run without a stop or a throwing snapshot is, at its
      end, still pending or in a batch the worker was given since. */
  lemma NoChangedPathIsLost(max: nat, s: State, steps: seq<Step>, path: string)
    requires max >= 1 && Inv(max, s) && Possible(max, s, steps) && s.worker
    requires steps != [] && steps[0].Changed? && path in steps[0].paths
    requires forall i :: 0 <= i < |steps| ==>
      !steps[i].Stop? && (steps[i].Changed? || steps[i].Drain? || steps[i].PollOnce? ==> steps[i].ok)
    ensures var t := Run(max, s, steps);
      path in t.pending || exists i :: |s.sent| <= i < |t.sent| && path in t.sent[i]
  {
    StepAccounts(max, s, steps[0], path, |s.sent|, |s.dropped|);
    StepKeepsInv(max, s, steps[0]);
    SafeRunDropsNothing(max, s, steps);
    RunAccounts(max, After(max, s, steps[0]), steps[1..], path, |s.sent|, |s.dropped|);
  }

  /** What a call adds to before it takes a batch; nothing for other steps. */
  function Waiting(s: State, step: Step): seq<string> {
    if step.Changed? then AddAll(s.pending, step.paths) else if step.Drain? then s.pending else []
  }

  /** Paths are lost exactly when a batch is taken with the worker gone or a snapshot that throws. */
  lemma LossHasACause(max: nat, s: State, step: Step)
    requires max >= 1 && Enabled(s, step)
    ensures After(max, s, step).dropped != s.dropped <==>
      !s.inFlight && Waiting(s, step) != [] && !(s.worker && step.ok)
  {
    var pending := Waiting(s, step);
    if pending != [] {
      assert |s.dropped + pending[..Min(max, |pending|)]| > |s.dropped|;
    }
  }

  // -- draining -----------------------------------------------------------

  /** No new path comes: the queue's own drains, replies, and whole polls. */
  predicate Quiet(step: Step) {
    step.Settle? || ((step.Drain? || step.PollOnce?) && step.ok)
  }

  predicate AllQuiet(steps: seq<Step>) {
    forall i :: 0 <= i < |steps| ==> Quiet(steps[i])
  }

  function Concat(batches: seq<seq<string>>): seq<string> {
    if batches == [] then [] else batches[0] + Concat(batches[1..])
  }

  /** The batches are `all` cut into pieces of `max` from the front, all but `rest`. */
  predicate Cut(max: nat, all: seq<string>, batches: seq<seq<string>>, rest: seq<string>)
    decreases |batches|
  {
    if batches == [] then all == rest
    else
      var k := Min(max, |all|);
      k > 0 && batches[0] == all[..k] && Cut(max, all[k..], batches[1..], rest)
  }

  lemma {:induction false} CutCounts(max: nat, all: seq<string>, batches: seq<seq<string>>)
    requires max >= 1 && Cut(max, all, batches, [])
    ensures |batches| * max >= |all| > (|batches| - 1) * max || (all == [] && batches == [])
    ensures Concat(batches) == all
    decreases |batches|
  {
    if batches != [] {
      var k := Min(max, |all|);
      CutCounts(max, all[k..], batches[1..]);
      assert all == all[..k] + all[k..];
      if batches[1..] == [] {
        assert |batches| == 1;
      } else {
        assert k == max;
        assert |batches| * max == (|batches| - 1) * max + max;
      }
    }
  }

  /** In a quiet run the batches are the pending paths, in order, cut into full pieces. */
  lemma {:induction false} QuietRunCuts(max: nat, s: State, steps: seq<Step>)
    requires max >= 1 && Inv(max, s) && Possible(max, s, steps) && s.worker && AllQuiet(steps)
    ensures s.sent <= Run(max, s, steps).sent
    ensures Cut(max, s.pending, Run(max, s, steps).sent[|s.sent|..], Run(max, s, steps).pending)
    decreases |steps|
  {
    if steps != [] {
      var t := After(max, s, steps[0]);
      StepKeepsInv(max, s, steps[0]);
      assert Quiet(steps[0]);
      QuietRunCuts(max, t, steps[1..]);
      var u := Run(max, t, steps[1..]);
      if t.sent == s.sent {
        assert t.pending == s.pending;
      } else {
        var k := Min(max, |s.pending|);
        assert t.sent == s.sent + [s.pending[..k]] && t.pending == s.pending[k..];
        assert u.sent[|s.sent|] == t.sent[|s.sent|];
        assert u.sent[|s.sent|..][1..] == u.sent[|t.sent|..];
      }
    }
  }

  function Work(s: State): nat {
    3 * |s.pending| + 2 * s.awaiting + s.queuedDrains
  }

  /** With no new arrivals and no whole polls the queue comes to rest, and at rest the n pending
      paths went out, in order, in n / max batches, rounded up. */
  lemma {:induction false} QueueComesToRest(max: nat, s: State, steps: seq<Step>)
    requires max >= 1 && Inv(max, s) && Possible(max, s, steps) && s.worker && AllQuiet(steps)
    requires forall i :: 0 <= i < |steps| ==> !steps[i].PollOnce?
    ensures |steps| + Work(Run(max, s, steps)) <= Work(s)
    decreases |steps|
  {
    if steps != [] {
      StepKeepsInv(max, s, steps[0]);
      assert Quiet(steps[0]);
      var t := After(max, s, steps[0]);
      assert Work(t) < Work(s) && t.worker;
      QueueComesToRest(max, t, steps[1..]);
    }
  }

  lemma RestMeansDrained(max: nat, s: State, steps: seq<Step>)
    requires max >= 1 && Inv(max, s) && Possible(max, s, steps) && s.worker && AllQuiet(steps)
    requires forall step :: Enabled(Run(max, s, steps), step) ==> !step.Settle? && !step.Drain?
    ensures s.sent <= Run(max, s, steps).sent && Run(max, s, steps).pending == []
    ensures var batches := Run(max, s, steps).sent[|s.sent|..];
      && Concat(batches) == s.pending
      && (if s.pending == [] then batches == [] else (|batches| - 1) * max < |s.pending| <= |batches| * max)
  {
    var t := Run(max, s, steps);
    RunKeepsInv(max, s, steps);
    QuietRunCuts(max, s, steps);
    assert !Enabled(t, Settle) && !Enabled(t, Drain(true));
    CutCounts(max, s.pending, t.sent[|s.sent|..]);
  }
}
