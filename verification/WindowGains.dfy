/** Which session a poll gives a window, and what it writes of a log. */
module WindowGains {
  import opened Options
  import opened SessionTable
  import opened WindowOwnership

  ghost predicate OwnedBySome(t: Table, w: string) {
    exists i :: 0 <= i < |t| && t[i].window == Some(w)
  }

  // -- logs of known sessions ---------------------------------------------

  /** Row `k` is the session of the entry's log: the one with its path or, if no row has it, the one with its
      id, for an entry that is no subagent's and holds more than a log known to be empty. */
  ghost predicate IsKnown(t: Table, e: LogEntry, k: int) {
    && 0 <= k < |t|
    && (t[k].logPath == e.logPath
        || ((forall i :: 0 <= i < |t| ==> t[i].logPath != e.logPath)
            && !e.knownEmpty && e.agentType.Some? && !(e.agentType == Some("codex") && e.isCodexSubagent)
            && e.sessionId == Some(t[k].sessionId)))
  }

  lemma KnownStep(st: PollState, e: LogEntry, r: Response, k: int)
    requires Unique(st.rows) && IsKnown(st.rows, e, k)
    ensures EntryStep(st, e, r) == ExistingStep(st, k, e, r)
  {
    hide ExistingStep, NewStep;
  }

  ghost predicate HasGrown(row: Row, e: LogEntry) {
    if row.logSize.Some? then e.size > row.logSize.value else e.size > 0
  }

  /** A session that may wake: it does not hibernate, or its wake began at most ten minutes ago. */
  ghost predicate MayWake(row: Row, now: int) {
    row.pinned ==> row.wakeStartedAt.Some? && now <= row.wakeStartedAt.value + 600_000
  }

  /** More than a minute since the last attempt, or since the start of the clock if there was none. */
  ghost predicate CooledDown(st: PollState, id: string, now: int) {
    if id in st.attempts then now > st.attempts[id] + 60_000 else now > 60_000
  }

  /** The session of row `k` gets `w` from this entry. */
  ghost predicate Gains(st: PollState, e: LogEntry, r: Response, k: int, w: string)
    requires 0 <= k < |st.rows|
  {
    var row := st.rows[k];
    && row.window == None && MayWake(row, r.now)
    && (HasGrown(row, e) || e.logPath in r.eligible)
    && CooledDown(st, row.sessionId, r.now)
    && e.logPath in r.matches && r.matches[e.logPath].tmuxWindow == w
    && !OwnedBySome(st.rows, w)
  }

  lemma OwnedIff(t: Table, w: string)
    ensures OwnedBySome(t, w) <==> ByWindow(t, w) != -1
  {
  }

  lemma OwnId(t: Table, k: nat)
    requires Unique(t) && k < |t|
    ensures ById(t, t[k].sessionId) == k
  {
  }

  /** The log's own facts: a missing slug is filled in, activity moves only when the log has grown, the size
      is noted; nothing else of the row changes but by a window gained. */
  ghost predicate LogNoted(before: Row, e: LogEntry, after: Row) {
    && (before.slug != "" ==> after.slug == before.slug)
    && (before.slug == "" ==> after.slug == e.slug)
    && (HasGrown(before, e) ==> after.lastActivityAt == e.activityAt)
    && (!HasGrown(before, e) ==> after.lastActivityAt == before.lastActivityAt)
    && after.logSize == Some(e.size)
    && after.sessionId == before.sessionId && after.logPath == before.logPath && after.project == before.project
    && after.pinned == before.pinned
  }

  /** A claim by the window: the session takes its name and, if it has no launch command, its command, and
      its wake is over. */
  ghost predicate TakesOn(before: Row, w: Window, after: Row) {
    && after.window == Some(w.tmuxWindow) && after.displayName == w.name && after.wakeStartedAt == None
    && after.launchCommand == (if before.launchCommand != "" then before.launchCommand else w.command)
  }

  ghost predicate KeepsPlace(before: Row, after: Row) {
    && after.window == before.window && after.displayName == before.displayName
    && after.wakeStartedAt == before.wakeStartedAt && after.launchCommand == before.launchCommand
  }

  /** One entry of a known session: its row notes the log and gains exactly the window it may, which alone is
      announced; no other row changes. */
  lemma KnownEntryDoes(st: PollState, e: LogEntry, r: Response, k: int)
    requires Unique(st.rows) && IsKnown(st.rows, e, k)
    ensures var after := EntryStep(st, e, r);
      && |after.rows| == |st.rows|
      && (forall i :: 0 <= i < |st.rows| && i != k ==> after.rows[i] == st.rows[i])
      && LogNoted(st.rows[k], e, after.rows[k])
      && (if e.logPath in r.matches && Gains(st, e, r, k, r.matches[e.logPath].tmuxWindow) then
            TakesOn(st.rows[k], r.matches[e.logPath], after.rows[k])
            && after.notes == st.notes + [Activated(st.rows[k].sessionId, r.matches[e.logPath].tmuxWindow)]
          else KeepsPlace(st.rows[k], after.rows[k]) && after.notes == st.notes)
      && after.errors == st.errors
  {
    KnownStep(st, e, r, k);
    StepByGain(st, e, r, k);
    hide EntryStep, ExistingStep, Unique, IsKnown, Gains;
  }

  lemma NotedIsFree(t: Table, k: nat, row: Row, w: string)
    requires Unique(t) && k < |t| && t[k].window == None
    requires row.window == t[k].window && row.sessionId == t[k].sessionId && row.logPath == t[k].logPath
    ensures CanClaim(t[k := row], row.sessionId, w) <==> !OwnedBySome(t, w)
    ensures ById(t[k := row], row.sessionId) == k
  {
    var rows := t[k := row];
    assert Unique(rows);
    OwnId(rows, k);
    OwnedIff(rows, w);
    if i :| 0 <= i < |rows| && rows[i].window == Some(w) {
      assert t[i].window == Some(w);
    }
    if i :| 0 <= i < |rows| && t[i].window == Some(w) {
      assert rows[i].window == Some(w);
    }
  }

  /** What the step does, by whether the session gains its log's window. */
  lemma StepByGain(st: PollState, e: LogEntry, r: Response, k: nat)
    requires Unique(st.rows) && k < |st.rows|
    ensures var row := WithLogEntry(st.rows[k], e);
      var after := ExistingStep(st, k, e, r);
      && after.errors == st.errors
      && (if e.logPath in r.matches && Gains(st, e, r, k, r.matches[e.logPath].tmuxWindow) then
            var w := r.matches[e.logPath];
            var patch := PatchFor(st.rows[k], w);
            && after.notes == st.notes + [Activated(row.sessionId, w.tmuxWindow)]
            && after.rows == st.rows[k := row.(
                 window := Some(w.tmuxWindow), displayName := patch.displayName, wakeStartedAt := None,
                 launchCommand := if patch.launchCommand.Some? then patch.launchCommand.value else row.launchCommand)]
          else after.rows == st.rows[k := row] && after.notes == st.notes)
  {
    var row := st.rows[k];
    if e.logPath in r.matches && row.window == None {
      NotedIsFree(st.rows, k, WithLogEntry(row, e), r.matches[e.logPath].tmuxWindow);
    }
    hide ById, ByWindow, OwnedBySome, Unique, CanClaim, WithLogEntry, PatchFor;
  }

  /** A session newly owns a window after an entry of its log exactly when all of this holds: it had none, may
      wake, its log has grown or was eligible, the cooldown is over, and its log is matched to that
      window, which nobody owns. */
  lemma GainsIff(st: PollState, e: LogEntry, r: Response, k: int, w: string)
    requires Unique(st.rows) && IsKnown(st.rows, e, k)
    ensures Owns(EntryStep(st, e, r).rows, st.rows[k].sessionId, w) && !Owns(st.rows, st.rows[k].sessionId, w)
      <==> Gains(st, e, r, k, w)
  {
    KnownEntryDoes(st, e, r, k);
    EntryStepLawful(st, e, r);
    var after := EntryStep(st, e, r).rows;
    OwnsAtRow(st.rows, k, w);
    OwnsAtRow(after, k, w);
    hide EntryStep, Unique, IsKnown, Owns;
  }

  lemma OwnsAtRow(t: Table, k: nat, w: string)
    requires Unique(t) && k < |t|
    ensures Owns(t, t[k].sessionId, w) <==> t[k].window == Some(w)
  {
  }

  /** The cooldown starts anew with each attempt, whether or not it gains a window. */
  lemma AttemptIsNoted(st: PollState, e: LogEntry, r: Response, k: int)
    requires Unique(st.rows) && IsKnown(st.rows, e, k)
    ensures var row := st.rows[k];
      EntryStep(st, e, r).attempts ==
        if row.window == None && MayWake(row, r.now) && (HasGrown(row, e) || e.logPath in r.eligible)
           && CooledDown(st, row.sessionId, r.now)
        then st.attempts[row.sessionId := r.now] else st.attempts
  {
    KnownStep(st, e, r, k);
    hide EntryStep, Unique, IsKnown, Claimed, CanClaim;
  }

  // -- logs of new sessions -----------------------------------------------

  /** A log of a session that is not known and may be entered. */
  ghost predicate IsNew(t: Table, e: LogEntry) {
    && (forall i :: 0 <= i < |t| ==> t[i].logPath != e.logPath)
    && !e.knownEmpty && e.agentType.Some? && !(e.agentType == Some("codex") && e.isCodexSubagent)
    && e.sessionId.Some? && (forall i :: 0 <= i < |t| ==> Some(t[i].sessionId) != e.sessionId)
    && e.enoughTokens
  }

  lemma NewEntryStep(st: PollState, e: LogEntry, r: Response)
    requires IsNew(st.rows, e)
    ensures EntryStep(st, e, r) == NewStep(st, e.sessionId.value, e, r)
  {
    hide NewStep, ExistingStep;
    assert ByLogPath(st.rows, e.logPath) == -1;
    assert ById(st.rows, e.sessionId.value) == -1;
  }

  /** Entries that are not entered change nothing. */
  lemma OthersAreSkipped(st: PollState, e: LogEntry, r: Response)
    requires !IsNew(st.rows, e) && forall k :: !IsKnown(st.rows, e, k)
    ensures EntryStep(st, e, r) == st
  {
    KnownByKeys(st.rows, e);
    if e.sessionId.Some? {
      TooFewTokens(st, e, r);
    }
    hide ExistingStep, NewStep, IsKnown;
    assert ByLogPath(st.rows, e.logPath) == -1;
  }

  lemma TooFewTokens(st: PollState, e: LogEntry, r: Response)
    requires e.sessionId.Some?
    ensures !e.enoughTokens ==> NewStep(st, e.sessionId.value, e, r) == st
  {
  }

  lemma KnownByKeys(t: Table, e: LogEntry)
    ensures ByLogPath(t, e.logPath) != -1 ==> IsKnown(t, e, ByLogPath(t, e.logPath))
    ensures ByLogPath(t, e.logPath) == -1 && e.sessionId.Some? && ById(t, e.sessionId.value) != -1
      && !e.knownEmpty && e.agentType.Some? && !(e.agentType == Some("codex") && e.isCodexSubagent)
      ==> IsKnown(t, e, ById(t, e.sessionId.value))
  {
  }

  /** The session a new one supersedes: an owner of its slug and project, none of them active later. */
  ghost predicate IsPredecessor(t: Table, e: LogEntry, k: int) {
    && 0 <= k < |t| && e.slug != "" && Succeeds(t[k], e)
    && forall i :: 0 <= i < |t| && Succeeds(t[i], e) ==> t[i].lastActivityAt <= t[k].lastActivityAt
  }

  ghost predicate Succeeds(row: Row, e: LogEntry) {
    row.window.Some? && row.slug == e.slug && row.project == e.project
  }

  /** The row of a new session, but for its window, its pin, its name and its launch command. */
  ghost predicate IsEntered(row: Row, e: LogEntry) {
    && Some(row.sessionId) == e.sessionId && row.logPath == e.logPath && row.project == e.project
    && row.slug == e.slug && row.lastActivityAt == e.activityAt && row.logSize == Some(e.size)
    && row.wakeStartedAt == None
  }

  ghost predicate LaunchedBy(row: Row, e: LogEntry, r: Response) {
    row.launchCommand == if e.logPath in r.matches then r.matches[e.logPath].command else ""
  }

  /** A new session whose slug an owner in its project has takes over that owner's window, pin and name. */
  lemma NewSupersedes(st: PollState, e: LogEntry, r: Response)
    returns (k: int)
    requires Unique(st.rows) && IsNew(st.rows, e)
    requires e.slug != "" && exists i :: 0 <= i < |st.rows| && Succeeds(st.rows[i], e)
    ensures IsPredecessor(st.rows, e, k)
    ensures var after := EntryStep(st, e, r);
      && |after.rows| == |st.rows| + 1
      && (forall i :: 0 <= i < |st.rows| && i != k ==> after.rows[i] == st.rows[i])
      && after.rows[k] == st.rows[k].(window := None, pinned := false)
      && var row := after.rows[|st.rows|];
      && IsEntered(row, e) && LaunchedBy(row, e, r)
      && row.window == st.rows[k].window && row.pinned == st.rows[k].pinned
      && row.displayName == st.rows[k].displayName
      && after.notes == st.notes + [Orphaned(st.rows[k].sessionId, row.sessionId),
                                    Activated(row.sessionId, st.rows[k].window.value)]
      && after.attempts == st.attempts && after.errors == st.errors
  {
    k := ActiveBySlug(st.rows, e.slug, e.project);
    var id := e.sessionId.value;
    NewEntryStep(st, e, r);
    NewIsFree(st.rows, e);
    ReleasedWindowIsFree(st.rows, k);
    ReleaseKeepsKeys(st.rows, st.rows[k].sessionId, id, e.logPath);
    StepSupersedes(st, id, e, r, Successor(st.rows[k], id, e, r));
    hide EntryStep, NewStep, ActiveBySlug, Released, ById, ByLogPath, ByWindow, IsNew, Unique;
  }

  lemma NewIsFree(t: Table, e: LogEntry)
    requires IsNew(t, e)
    ensures ById(t, e.sessionId.value) == -1 && ByLogPath(t, e.logPath) == -1
  {
  }

  function Successor(loser: Row, id: string, e: LogEntry, r: Response): Row {
    Row(id, e.logPath, e.project, e.slug, loser.displayName, e.activityAt, loser.window, loser.pinned, None,
        Some(e.size), if e.logPath in r.matches then r.matches[e.logPath].command else "")
  }

  lemma StepSupersedes(st: PollState, id: string, e: LogEntry, r: Response, row: Row)
    requires e.enoughTokens && e.slug != "" && ActiveBySlug(st.rows, e.slug, e.project) != -1
    requires var k := ActiveBySlug(st.rows, e.slug, e.project);
      && st.rows[k].sessionId != id && row == Successor(st.rows[k], id, e, r)
      && CanInsert(Released(st.rows, st.rows[k].sessionId, false), row)
    ensures var loser := st.rows[ActiveBySlug(st.rows, e.slug, e.project)];
      NewStep(st, id, e, r) ==
        PollState(Released(st.rows, loser.sessionId, false) + [row], st.attempts,
          st.notes + [Orphaned(loser.sessionId, id)] + [Activated(id, loser.window.value)], st.errors)
  {
    hide ActiveBySlug, Released, ById, ByLogPath, ByWindow;
  }

  /** Without such an owner it is entered, not pinned, with its matched window if nobody owns that. Without
      a window it waits while one of its project may still be starting. */
  lemma NewIsEntered(st: PollState, e: LogEntry, r: Response)
    requires Unique(st.rows) && IsNew(st.rows, e)
    requires e.slug == "" || forall i :: 0 <= i < |st.rows| ==> !Succeeds(st.rows[i], e)
    ensures var after := EntryStep(st, e, r);
      var free := e.logPath in r.matches && !OwnedBySome(st.rows, r.matches[e.logPath].tmuxWindow);
      if !free && e.project != "" && e.booting then after == st
      else
        && |after.rows| == |st.rows| + 1
        && (forall i :: 0 <= i < |st.rows| ==> after.rows[i] == st.rows[i])
        && var row := after.rows[|st.rows|];
        && IsEntered(row, e) && LaunchedBy(row, e, r)
        && row.window == (if free then Some(r.matches[e.logPath].tmuxWindow) else None)
        && !row.pinned && row.displayName == e.freshName
        && after.notes ==
           (if free then st.notes + [Activated(row.sessionId, r.matches[e.logPath].tmuxWindow)] else st.notes)
        && after.attempts == st.attempts && after.errors == st.errors
  {
    NewEntryStep(st, e, r);
    assert e.slug == "" || ActiveBySlug(st.rows, e.slug, e.project) == -1;
    assert ById(st.rows, e.sessionId.value) == -1 && ByLogPath(st.rows, e.logPath) == -1;
    if e.logPath in r.matches {
      OwnedIff(st.rows, r.matches[e.logPath].tmuxWindow);
    }
    hide EntryStep, ActiveBySlug, ById, ByLogPath, ByWindow, IsNew, Unique, OwnedBySome;
  }

  // -- whole polls --------------------------------------------------------

  /** A session that hibernates and is not waking. */
  ghost predicate Sleeps(t: Table, i: int, id: string, now: int) {
    0 <= i < |t| && t[i].sessionId == id && t[i].pinned && t[i].window == None && !MayWake(t[i], now)
  }

  lemma EntryLetsSleep(st: PollState, e: LogEntry, r: Response, i: int, id: string)
    requires Unique(st.rows) && Sleeps(st.rows, i, id, r.now)
    ensures Sleeps(EntryStep(st, e, r).rows, i, id, r.now)
  {
    hide EntryStep, Unique, IsNew, IsKnown;
    if k :| IsKnown(st.rows, e, k) {
      KnownEntryDoes(st, e, r, k);
      if e.logPath in r.matches && k == i {
        assert !Gains(st, e, r, k, r.matches[e.logPath].tmuxWindow);
      }
    } else if IsNew(st.rows, e) {
      if e.slug != "" && exists j :: 0 <= j < |st.rows| && Succeeds(st.rows[j], e) {
        var k := NewSupersedes(st, e, r);
      } else {
        NewIsEntered(st, e, r);
      }
    } else {
      OthersAreSkipped(st, e, r);
    }
  }

  /** Over a whole poll a hibernating session whose wake has not begun lately gets no window. */
  lemma {:induction false} PollLetsSleep(st: PollState, entries: seq<LogEntry>, r: Response, i: int, id: string)
    requires Unique(st.rows) && Sleeps(st.rows, i, id, r.now)
    ensures Sleeps(Entries(st, entries, r).rows, i, id, r.now)
  {
    if entries != [] {
      var n := |entries| - 1;
      PollLetsSleep(st, entries[..n], r, i, id);
      PollLawful(st, entries[..n], r);
      EntryLetsSleep(Entries(st, entries[..n], r), entries[n], r, i, id);
    }
    hide EntryStep, Sleeps, Unique;
  }
}
