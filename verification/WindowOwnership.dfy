/** How log polls and the background orphan rematch hand windows to sessions. Both wait for
    a worker on a snapshot and then apply what it found to a table others changed meanwhile. */
module WindowOwnership {
  import opened Options
  import opened SessionTable

  const REMATCH_COOLDOWN_MS := 60 * 1000
  const WAKE_PENDING_REMATCH_TTL_MS := 10 * 60 * 1000

  datatype Window = Window(tmuxWindow: string, name: string, command: string, managed: bool)

  /** One log the worker read. `freshName` is the unused display name a new session gets,
      `booting` whether a window of its project may still be starting. */
  datatype LogEntry = LogEntry(
    logPath: string,
    sessionId: Option<string>,
    agentType: Option<string>,
    isCodexSubagent: bool,
    knownEmpty: bool,
    enoughTokens: bool,
    project: string,
    slug: string,
    size: nat,
    activityAt: int,
    booting: bool,
    freshName: string)

  /** What one poll applies: its clock, the windows the worker matched by log, and the logs
      whose match it considered. */
  datatype Response = Response(now: int, matches: map<string, Window>, eligible: set<string>)

  datatype Note = Activated(sessionId: string, window: string) | Orphaned(sessionId: string, supersededBy: string)

  /** The table, the rematch cooldowns, what was announced, and the entries that failed. */
  datatype PollState = PollState(rows: Table, attempts: map<string, int>, notes: seq<Note>, errors: nat)

  predicate HasRecoverableWake(row: Row, now: int) {
    row.wakeStartedAt.Some? && now - row.wakeStartedAt.value <= WAKE_PENDING_REMATCH_TTL_MS
  }

  predicate CanAttemptDormantRematch(row: Row, now: int) {
    !row.pinned || HasRecoverableWake(row, now)
  }

  function KnownSize(row: Row): nat {
    if row.logSize.Some? then row.logSize.value else 0
  }

  /** The row after its log was read: its window and pin are never touched. */
  function WithLogEntry(row: Row, e: LogEntry): (r: Row)
    ensures r.sessionId == row.sessionId && r.logPath == row.logPath && r.window == row.window && r.pinned == row.pinned
  {
    row.(
      slug := if row.slug == "" then e.slug else row.slug,
      lastActivityAt := if e.size > KnownSize(row) then e.activityAt else row.lastActivityAt,
      logSize := Some(e.size))
  }

  function PatchFor(row: Row, w: Window): ClaimPatch {
    ClaimPatch(w.name, if w.command != "" && row.launchCommand == "" then Some(w.command) else None)
  }

  /** A log whose session is known, by its path or by its session id. */
  function ExistingStep(st: PollState, k: nat, e: LogEntry, r: Response): PollState
    requires k < |st.rows|
  {
    var row := st.rows[k];
    var rows := st.rows[k := WithLogEntry(row, e)];
    var id := row.sessionId;
    var shouldAttempt :=
      CanAttemptDormantRematch(row, r.now) && row.window == None
        && (e.size > KnownSize(row) || e.logPath in r.eligible);
    var lastAttempt := if id in st.attempts then st.attempts[id] else 0;
    if !shouldAttempt || r.now - lastAttempt <= REMATCH_COOLDOWN_MS then
      st.(rows := rows)
    else
      var attempts := st.attempts[id := r.now];
      if e.logPath !in r.matches then
        st.(rows := rows, attempts := attempts)
      else
        var w := r.matches[e.logPath];
        st.(rows := Claimed(rows, id, w.tmuxWindow, PatchFor(row, w)), attempts := attempts,
            notes := if CanClaim(rows, id, w.tmuxWindow) then st.notes + [Activated(id, w.tmuxWindow)] else st.notes)
  }

  /** A log of a session the table does not know. */
  function NewStep(st: PollState, id: string, e: LogEntry, r: Response): PollState {
    if !e.enoughTokens then st
    else
      var k := if e.slug == "" then -1 else ActiveBySlug(st.rows, e.slug, e.project);
      var supersedes := k != -1 && st.rows[k].sessionId != id;
      var rows := if supersedes then Released(st.rows, st.rows[k].sessionId, false) else st.rows;
      var notes := if supersedes then st.notes + [Orphaned(st.rows[k].sessionId, id)] else st.notes;
      var exact := if e.logPath in r.matches then Some(r.matches[e.logPath]) else None;
      var wanted :=
        if supersedes then st.rows[k].window else if exact.Some? then Some(exact.value.tmuxWindow) else None;
      var claimed := wanted.Some? && ByWindow(rows, wanted.value) != -1
        && rows[ByWindow(rows, wanted.value)].sessionId != id;
      var window := if claimed then None else wanted;
      if window == None && e.project != "" && e.booting then
        st.(rows := rows, notes := notes)
      else
        var row := Row(id, e.logPath, e.project, e.slug,
                       if supersedes then st.rows[k].displayName else e.freshName,
                       e.activityAt, window, if supersedes then st.rows[k].pinned else false, None, Some(e.size),
                       if exact.Some? then exact.value.command else "");
        if CanInsert(rows, row) then
          PollState(rows + [row], st.attempts,
            if window.Some? then notes + [Activated(id, window.value)] else notes, st.errors)
        else
          PollState(rows, st.attempts, notes, st.errors + 1)
  }

  /** What applying one entry does. */
  function EntryStep(st: PollState, e: LogEntry, r: Response): PollState {
    var byLog := ByLogPath(st.rows, e.logPath);
    if byLog != -1 then ExistingStep(st, byLog, e, r)
    else if e.knownEmpty || e.agentType == None || (e.agentType == Some("codex") && e.isCodexSubagent)
      || e.sessionId == None then st
    else
      var byId := ById(st.rows, e.sessionId.value);
      if byId != -1 then ExistingStep(st, byId, e, r)
      else NewStep(st, e.sessionId.value, e, r)
  }

  function Entries(st: PollState, entries: seq<LogEntry>, r: Response): PollState {
    if entries == [] then st
    else EntryStep(Entries(st, entries[..|entries| - 1], r), entries[|entries| - 1], r)
  }

  // -- what one entry may do to ownership ---------------------------------

  /** The guard of the supersede: the new session names a slug, and the old one has that slug in
      the same project. */
  predicate SucceedsBySlug(loser: Row, next: Row) {
    next.slug != "" && loser.slug == next.slug && loser.project == next.project
  }

  /** `after` owns what `before` owned, but for at most one window that moved, with its pin,
      from the session a new one supersedes by slug and project to that new session. */
  ghost predicate Supersedes(before: Table, after: Table, loser: string, winner: string, w: string) {
    && Owns(before, loser, w) && Owns(after, winner, w)
    && !Known(before, winner)
    && (forall v :: !Owns(after, loser, v))
    && (exists i, j :: 0 <= i < |before| && 0 <= j < |after|
          && before[i].sessionId == loser && before[i].window == Some(w)
          && after[j].sessionId == winner && after[j].window == Some(w)
          && after[j].pinned == before[i].pinned && SucceedsBySlug(before[i], after[j]))
    && (forall s, v :: Owns(before, s, v) && s != loser ==> Owns(after, s, v))
  }

  ghost predicate Keeps(before: Table, after: Table) {
    forall s, v :: Owns(before, s, v) ==> Owns(after, s, v)
  }

  ghost predicate Lawful(before: Table, after: Table) {
    Keeps(before, after) || exists o, n, w :: Supersedes(before, after, o, n, w)
  }

  lemma UpdateOwns(t: Table, k: nat, row: Row, s: string, w: string)
    requires k < |t| && row.sessionId == t[k].sessionId && row.window == t[k].window
    ensures Owns(t[k := row], s, w) <==> Owns(t, s, w)
  {
    if i :| 0 <= i < |t| && t[i].sessionId == s && t[i].window == Some(w) {
      assert t[k := row][i].sessionId == s && t[k := row][i].window == Some(w);
    }
  }

  lemma ExistingStepLawful(st: PollState, k: nat, e: LogEntry, r: Response)
    requires Unique(st.rows) && k < |st.rows|
    ensures Unique(ExistingStep(st, k, e, r).rows)
    ensures Keeps(st.rows, ExistingStep(st, k, e, r).rows)
    ensures ExistingStep(st, k, e, r).errors == st.errors
  {
    var row := st.rows[k];
    var rows := st.rows[k := WithLogEntry(row, e)];
    var st' := ExistingStep(st, k, e, r);
    assert Unique(rows);
    forall s, v | Owns(st.rows, s, v)
      ensures Owns(st'.rows, s, v)
    {
      UpdateOwns(st.rows, k, WithLogEntry(row, e), s, v);
      if e.logPath in r.matches {
        var w := r.matches[e.logPath];
        ClaimTakesNothing(rows, row.sessionId, w.tmuxWindow, PatchFor(row, w), s, v);
      }
    }
    if e.logPath in r.matches {
      var w := r.matches[e.logPath];
      ClaimKeepsUnique(rows, row.sessionId, w.tmuxWindow, PatchFor(row, w));
    }
  }

  /** Once the superseded session has let go, nobody owns the window it had. */
  lemma ReleasedWindowIsFree(t: Table, k: nat)
    requires Unique(t) && k < |t| && t[k].window.Some?
    ensures ByWindow(Released(t, t[k].sessionId, false), t[k].window.value) == -1
    ensures Released(t, t[k].sessionId, false) == t[k := t[k].(window := None, pinned := false)]
  {
    assert ById(t, t[k].sessionId) == k;
  }

  lemma ReleaseKeepsKeys(t: Table, s: string, id: string, logPath: string)
    requires ById(t, id) == -1 && ByLogPath(t, logPath) == -1
    ensures ById(Released(t, s, false), id) == -1 && ByLogPath(Released(t, s, false), logPath) == -1
  {
  }

  /** A new session without a slug match: it is inserted with its exact match's window only if
      nobody owns it, and nothing else moves. */
  lemma FreshInsertLawful(t: Table, row: Row)
    requires Unique(t) && CanInsert(t, row)
    ensures Unique(t + [row]) && Keeps(t, t + [row])
  {
    InsertKeepsUnique(t, row);
    forall s, v | Owns(t, s, v)
      ensures Owns(t + [row], s, v)
    {
      InsertOnlyAdds(t, row, s, v);
    }
  }

  /** The slug supersede: the window and the pin go to the new session together. */
  lemma SupersedingInsertLawful(t: Table, k: nat, row: Row)
    requires Unique(t) && k < |t| && t[k].window.Some?
    requires ById(t, row.sessionId) == -1 && ByLogPath(t, row.logPath) == -1
    requires row.window == t[k].window && row.pinned == t[k].pinned && SucceedsBySlug(t[k], row)
    ensures var rows := Released(t, t[k].sessionId, false);
      && CanInsert(rows, row) && Unique(rows + [row])
      && Supersedes(t, rows + [row], t[k].sessionId, row.sessionId, t[k].window.value)
  {
    var rows := Released(t, t[k].sessionId, false);
    var after := rows + [row];
    var loser, w := t[k].sessionId, t[k].window.value;
    ReleasedWindowIsFree(t, k);
    ReleaseKeepsKeys(t, loser, row.sessionId, row.logPath);
    ReleaseKeepsUnique(t, loser, false);
    InsertKeepsUnique(rows, row);
    assert Owns(t, loser, w);
    InsertOnlyAdds(rows, row, row.sessionId, w);
    forall v
      ensures !Owns(after, loser, v)
    {
      ReleaseOnlyDrops(t, loser, false, loser, v);
      InsertOnlyAdds(rows, row, loser, v);
    }
    forall s, v | Owns(t, s, v) && s != loser
      ensures Owns(after, s, v)
    {
      ReleaseOnlyDrops(t, loser, false, s, v);
      InsertOnlyAdds(rows, row, s, v);
    }
    assert after[|rows|] == row;
  }

  lemma NewStepLawful(st: PollState, id: string, e: LogEntry, r: Response)
    requires Unique(st.rows) && ById(st.rows, id) == -1 && ByLogPath(st.rows, e.logPath) == -1
    ensures Unique(NewStep(st, id, e, r).rows)
    ensures Lawful(st.rows, NewStep(st, id, e, r).rows)
    ensures NewStep(st, id, e, r).errors == st.errors
  {
    var st' := NewStep(st, id, e, r);
    var k := if e.slug == "" then -1 else ActiveBySlug(st.rows, e.slug, e.project);
    if e.enoughTokens && k != -1 {
      var exact := if e.logPath in r.matches then Some(r.matches[e.logPath]) else None;
      var row := Row(id, e.logPath, e.project, e.slug, st.rows[k].displayName, e.activityAt, st.rows[k].window,
                     st.rows[k].pinned, None, Some(e.size), if exact.Some? then exact.value.command else "");
      SupersedingInsertLawful(st.rows, k, row);
      ReleasedWindowIsFree(st.rows, k);
      hide Unique, Supersedes, Owns, ById, ByLogPath, ByWindow, ActiveBySlug, CanInsert;
      assert st'.rows == Released(st.rows, st.rows[k].sessionId, false) + [row];
      assert Supersedes(st.rows, st'.rows, st.rows[k].sessionId, id, st.rows[k].window.value);
    } else if e.enoughTokens && |st'.rows| > |st.rows| {
      var row := st'.rows[|st.rows|];
      FreshInsertLawful(st.rows, row);
    }
  }

  /** One applied entry keeps the constraints, takes no window from its owner but by the slug
      supersede, and never trips a constraint. */
  lemma EntryStepLawful(st: PollState, e: LogEntry, r: Response)
    requires Unique(st.rows)
    ensures Unique(EntryStep(st, e, r).rows)
    ensures Lawful(st.rows, EntryStep(st, e, r).rows)
    ensures EntryStep(st, e, r).errors == st.errors
  {
    hide Unique, ExistingStep, NewStep;
    var byLog := ByLogPath(st.rows, e.logPath);
    if byLog != -1 {
      ExistingStepLawful(st, byLog, e, r);
    } else if e.sessionId.Some? {
      var byId := ById(st.rows, e.sessionId.value);
      if byId != -1 {
        ExistingStepLawful(st, byId, e, r);
      } else {
        NewStepLawful(st, e.sessionId.value, e, r);
      }
    }
  }

  // -- whole polls --------------------------------------------------------

  /** How the slugs and projects of a window's owners stand to each other over a whole poll: the
      project is the same, and so is the slug, but that a log can fill in one that was missing. */
  predicate SameWork(loser: Row, next: Row) {
    next.project == loser.project && (loser.slug == "" || next.slug == loser.slug)
  }

  /** The window a row owns is still owned, with the same pin, for the same work, by the same
      session or by one new to the table that names a slug. */
  ghost predicate Carried(before: Table, after: Table, i: nat)
    requires i < |before|
  {
    before[i].window.Some? ==> exists j :: CarriedTo(before, after, i, j)
  }

  ghost predicate CarriedTo(before: Table, after: Table, i: nat, j: int)
    requires i < |before|
  {
    && 0 <= j < |after|
    && after[j].window == before[i].window && after[j].pinned == before[i].pinned
    && SameWork(before[i], after[j])
    && (after[j].sessionId == before[i].sessionId || (!Known(before, after[j].sessionId) && after[j].slug != ""))
  }

  ghost predicate CarriesAll(before: Table, after: Table) {
    && (forall i :: 0 <= i < |before| ==> Carried(before, after, i))
    && (forall id :: Known(before, id) ==> Known(after, id))
  }

  /** Every row stays where it is, and one that owns a window keeps it, its pin and its work. */
  ghost predicate InPlace(before: Table, after: Table) {
    && |before| <= |after|
    && forall i :: 0 <= i < |before| ==>
         && after[i].sessionId == before[i].sessionId
         && (before[i].window.Some? ==>
               && after[i].window == before[i].window && after[i].pinned == before[i].pinned
               && SameWork(before[i], after[i]))
  }

  lemma InPlaceCarries(before: Table, after: Table)
    requires InPlace(before, after)
    ensures CarriesAll(before, after)
  {
    forall i | 0 <= i < |before| && before[i].window.Some?
      ensures exists j :: CarriedTo(before, after, i, j)
    {
      assert CarriedTo(before, after, i, i);
    }
    forall id | Known(before, id)
      ensures Known(after, id)
    {
      var k :| 0 <= k < |before| && before[k].sessionId == id;
      assert after[k].sessionId == id;
    }
  }

  lemma CarriesChain(a: Table, b: Table, c: Table)
    requires CarriesAll(a, b) && CarriesAll(b, c)
    ensures CarriesAll(a, c)
  {
    forall i | 0 <= i < |a| && a[i].window.Some?
      ensures exists k :: CarriedTo(a, c, i, k)
    {
      assert Carried(a, b, i);
      var j :| CarriedTo(a, b, i, j);
      assert Carried(b, c, j);
      var k :| CarriedTo(b, c, j, k);
      assert CarriedTo(a, c, i, k) by {
        assert Known(a, c[k].sessionId) ==> Known(b, c[k].sessionId);
        assert a[i].sessionId == a[i].sessionId && Known(a, a[i].sessionId);
      }
    }
  }

  lemma SupersedingInsertCarries(t: Table, k: nat, row: Row)
    requires Unique(t) && k < |t| && t[k].window.Some? && ById(t, row.sessionId) == -1
    requires row.window == t[k].window && row.pinned == t[k].pinned && SucceedsBySlug(t[k], row)
    ensures CarriesAll(t, Released(t, t[k].sessionId, false) + [row])
  {
    var after := Released(t, t[k].sessionId, false) + [row];
    assert ById(t, t[k].sessionId) == k;
    forall i | 0 <= i < |t| && t[i].window.Some?
      ensures exists j :: CarriedTo(t, after, i, j)
    {
      assert CarriedTo(t, after, i, if i == k then |t| else i);
    }
    forall id | Known(t, id)
      ensures Known(after, id)
    {
      var i :| 0 <= i < |t| && t[i].sessionId == id;
      assert after[i].sessionId == id;
    }
  }

  lemma NewStepCarries(st: PollState, id: string, e: LogEntry, r: Response)
    requires Unique(st.rows) && ById(st.rows, id) == -1 && ByLogPath(st.rows, e.logPath) == -1
    ensures CarriesAll(st.rows, NewStep(st, id, e, r).rows)
  {
    var st' := NewStep(st, id, e, r);
    var k := if e.slug == "" then -1 else ActiveBySlug(st.rows, e.slug, e.project);
    if e.enoughTokens && k != -1 {
      var exact := if e.logPath in r.matches then Some(r.matches[e.logPath]) else None;
      var row := Row(id, e.logPath, e.project, e.slug, st.rows[k].displayName, e.activityAt, st.rows[k].window,
                     st.rows[k].pinned, None, Some(e.size), if exact.Some? then exact.value.command else "");
      SupersedingInsertLawful(st.rows, k, row);
      SupersedingInsertCarries(st.rows, k, row);
      ReleasedWindowIsFree(st.rows, k);
      hide Unique, CarriesAll, Supersedes, Owns, ById, ByLogPath, ByWindow, ActiveBySlug, CanInsert;
      assert st'.rows == Released(st.rows, st.rows[k].sessionId, false) + [row];
    } else {
      InPlaceCarries(st.rows, st'.rows);
    }
  }

  lemma ExistingStepCarries(st: PollState, k: nat, e: LogEntry, r: Response)
    requires Unique(st.rows) && k < |st.rows|
    ensures CarriesAll(st.rows, ExistingStep(st, k, e, r).rows)
  {
    InPlaceCarries(st.rows, ExistingStep(st, k, e, r).rows);
  }

  lemma EntryStepCarries(st: PollState, e: LogEntry, r: Response)
    requires Unique(st.rows)
    ensures CarriesAll(st.rows, EntryStep(st, e, r).rows)
  {
    hide Unique, ExistingStep, NewStep, CarriesAll;
    InPlaceCarries(st.rows, st.rows);
    var byLog := ByLogPath(st.rows, e.logPath);
    if byLog != -1 {
      ExistingStepCarries(st, byLog, e, r);
    } else if e.sessionId.Some? {
      var byId := ById(st.rows, e.sessionId.value);
      if byId != -1 {
        ExistingStepCarries(st, byId, e, r);
      } else {
        NewStepCarries(st, e.sessionId.value, e, r);
      }
    }
  }

  /** Over a whole poll, in whatever state it finds the table: constraints kept, none tripped,
      and no window or pin lost. */
  lemma {:induction false} PollLawful(st: PollState, entries: seq<LogEntry>, r: Response)
    requires Unique(st.rows)
    ensures Unique(Entries(st, entries, r).rows)
    ensures Entries(st, entries, r).errors == st.errors
    ensures CarriesAll(st.rows, Entries(st, entries, r).rows)
  {
    hide Unique, EntryStep, CarriesAll;
    if entries == [] {
      InPlaceCarries(st.rows, st.rows);
    } else {
      var n := |entries| - 1;
      var mid := Entries(st, entries[..n], r);
      PollLawful(st, entries[..n], r);
      EntryStepLawful(mid, entries[n], r);
      EntryStepCarries(mid, entries[n], r);
      CarriesChain(st.rows, mid.rows, EntryStep(mid, entries[n], r).rows);
    }
  }

  // -- what was announced -------------------------------------------------

  /** A listener's view, window to session, after one notification. */
  function Heard(view: map<string, string>, note: Note): map<string, string> {
    match note
    case Activated(s, w) => view[w := s]
    case Orphaned(s, _) => map w | w in view && view[w] != s :: view[w]
  }

  function HeardAll(view: map<string, string>, notes: seq<Note>): map<string, string> {
    if notes == [] then view else Heard(HeardAll(view, notes[..|notes| - 1]), notes[|notes| - 1])
  }

  ghost predicate Agrees(view: map<string, string>, t: Table) {
    forall s, w :: Owns(t, s, w) <==> w in view && view[w] == s
  }

  lemma HeardOneMore(view: map<string, string>, notes: seq<Note>, note: Note)
    ensures HeardAll(view, notes + [note]) == Heard(HeardAll(view, notes), note)
  {
    assert (notes + [note])[..|notes|] == notes;
  }

  lemma ExistingStepAnnounces(st: PollState, k: nat, e: LogEntry, r: Response, view: map<string, string>)
    requires Unique(st.rows) && k < |st.rows| && Agrees(HeardAll(view, st.notes), st.rows)
    ensures Agrees(HeardAll(view, ExistingStep(st, k, e, r).notes), ExistingStep(st, k, e, r).rows)
  {
    var row := st.rows[k];
    var rows := st.rows[k := WithLogEntry(row, e)];
    var st' := ExistingStep(st, k, e, r);
    forall s, w
      ensures Owns(rows, s, w) <==> Owns(st.rows, s, w)
    {
      UpdateOwns(st.rows, k, WithLogEntry(row, e), s, w);
    }
    assert Unique(rows);
    if st'.rows != rows {
      var w := r.matches[e.logPath];
      HeardOneMore(view, st.notes, Activated(row.sessionId, w.tmuxWindow));
      ClaimAnnounced(rows, row.sessionId, w.tmuxWindow, PatchFor(row, w), HeardAll(view, st.notes));
    }
  }

  lemma ClaimAnnounced(t: Table, id: string, w: string, patch: ClaimPatch, view: map<string, string>)
    requires Unique(t) && Agrees(view, t) && CanClaim(t, id, w)
    ensures Agrees(Heard(view, Activated(id, w)), Claimed(t, id, w, patch))
  {
    forall s, v
      ensures Owns(Claimed(t, id, w, patch), s, v) <==>
        v in Heard(view, Activated(id, w)) && Heard(view, Activated(id, w))[v] == s
    {
      ClaimTakesNothing(t, id, w, patch, s, v);
    }
  }

  lemma ReleaseAnnounced(t: Table, id: string, winner: string, view: map<string, string>)
    requires Unique(t) && Agrees(view, t)
    ensures Agrees(Heard(view, Orphaned(id, winner)), Released(t, id, false))
  {
    forall s, v
      ensures Owns(Released(t, id, false), s, v) <==>
        v in Heard(view, Orphaned(id, winner)) && Heard(view, Orphaned(id, winner))[v] == s
    {
      ReleaseOnlyDrops(t, id, false, s, v);
    }
  }

  lemma InsertAnnounced(t: Table, row: Row, view: map<string, string>)
    requires Agrees(view, t) && CanInsert(t, row)
    ensures Agrees(
      if row.window.Some? then Heard(view, Activated(row.sessionId, row.window.value)) else view, t + [row])
  {
    var view' := if row.window.Some? then Heard(view, Activated(row.sessionId, row.window.value)) else view;
    forall s, v
      ensures Owns(t + [row], s, v) <==> v in view' && view'[v] == s
    {
      InsertOnlyAdds(t, row, s, v);
    }
  }

  lemma NewStepAnnounces(st: PollState, id: string, e: LogEntry, r: Response, view: map<string, string>)
    requires Unique(st.rows) && ById(st.rows, id) == -1 && ByLogPath(st.rows, e.logPath) == -1
    requires Agrees(HeardAll(view, st.notes), st.rows)
    ensures Agrees(HeardAll(view, NewStep(st, id, e, r).notes), NewStep(st, id, e, r).rows)
  {
    var st' := NewStep(st, id, e, r);
    var k := if e.slug == "" then -1 else ActiveBySlug(st.rows, e.slug, e.project);
    if e.enoughTokens && k != -1 {
      var exact := if e.logPath in r.matches then Some(r.matches[e.logPath]) else None;
      var loser := st.rows[k].sessionId;
      var row := Row(id, e.logPath, e.project, e.slug, st.rows[k].displayName, e.activityAt, st.rows[k].window,
                     st.rows[k].pinned, None, Some(e.size), if exact.Some? then exact.value.command else "");
      SupersedingInsertLawful(st.rows, k, row);
      ReleasedWindowIsFree(st.rows, k);
      ReleaseAnnounced(st.rows, loser, id, HeardAll(view, st.notes));
      HeardOneMore(view, st.notes, Orphaned(loser, id));
      InsertAnnounced(Released(st.rows, loser, false), row, HeardAll(view, st.notes + [Orphaned(loser, id)]));
      HeardOneMore(view, st.notes + [Orphaned(loser, id)], Activated(id, st.rows[k].window.value));
      hide Unique, Agrees, HeardAll, Heard, Supersedes, Owns, ById, ByLogPath, ByWindow, ActiveBySlug, CanInsert;
      assert st'.rows == Released(st.rows, loser, false) + [row];
    } else if |st'.rows| > |st.rows| {
      var row := st'.rows[|st.rows|];
      InsertAnnounced(st.rows, row, HeardAll(view, st.notes));
      if row.window.Some? {
        HeardOneMore(view, st.notes, Activated(id, row.window.value));
      }
      hide Agrees, HeardAll, Heard, Owns, ById, ByLogPath, ByWindow, ActiveBySlug;
    }
  }

  /** A listener that only hears the poll's notifications knows every owner afterwards. */
  lemma {:induction false} PollAnnouncesOwners(st: PollState, entries: seq<LogEntry>, r: Response,
                                               view: map<string, string>)
    requires Unique(st.rows) && Agrees(HeardAll(view, st.notes), st.rows)
    ensures Agrees(HeardAll(view, Entries(st, entries, r).notes), Entries(st, entries, r).rows)
  {
    hide Unique, ExistingStep, NewStep, CarriesAll, Agrees, HeardAll;
    if entries != [] {
      var n := |entries| - 1;
      var e := entries[n];
      var mid := Entries(st, entries[..n], r);
      PollLawful(st, entries[..n], r);
      PollAnnouncesOwners(st, entries[..n], r, view);
      var byLog := ByLogPath(mid.rows, e.logPath);
      if byLog != -1 {
        ExistingStepAnnounces(mid, byLog, e, r, view);
      } else if e.sessionId.Some? {
        var byId := ById(mid.rows, e.sessionId.value);
        if byId != -1 {
          ExistingStepAnnounces(mid, byId, e, r, view);
        } else {
          NewStepAnnounces(mid, e.sessionId.value, e, r, view);
        }
      }
    }
  }
}
