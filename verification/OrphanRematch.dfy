/** The poller as the object whose two activities share one table: polls, and the background
    rematch of sessions without a window. */
module OrphanRematch {
  import opened Options
  import opened SessionTable
  import opened WindowOwnership

  datatype OrphanMatch = OrphanMatch(logPath: string, tmuxWindow: string)

  datatype Candidate = Candidate(sessionId: string, logPath: string)

  /** While a rematch applies: the poll state, the windows it takes for claimed, and the
      sessions its content matches served. */
  datatype RematchState = RematchState(st: PollState, claimed: set<string>, matched: set<string>)

  /** The last window of the snapshot with this tmux name. */
  function WindowOf(windows: seq<Window>, tmuxWindow: string): Option<Window> {
    if windows == [] then None
    else if windows[|windows| - 1].tmuxWindow == tmuxWindow then Some(windows[|windows| - 1])
    else WindowOf(windows[..|windows| - 1], tmuxWindow)
  }

  function TryClaim(rs: RematchState, k: nat, w: Window, byContent: bool): RematchState
    requires k < |rs.st.rows|
  {
    var row := rs.st.rows[k];
    if !CanClaim(rs.st.rows, row.sessionId, w.tmuxWindow) then rs
    else
      RematchState(
        rs.st.(rows := Claimed(rs.st.rows, row.sessionId, w.tmuxWindow, PatchFor(row, w)),
               notes := rs.st.notes + [Activated(row.sessionId, w.tmuxWindow)]),
        rs.claimed + {w.tmuxWindow},
        if byContent then rs.matched + {row.sessionId} else rs.matched)
  }

  function ContentStep(rs: RematchState, m: OrphanMatch, windows: seq<Window>): RematchState {
    var w := WindowOf(windows, m.tmuxWindow);
    var k := ByLogPath(rs.st.rows, m.logPath);
    if w == None || k == -1 || rs.st.rows[k].window != None || m.tmuxWindow in rs.claimed then rs
    else TryClaim(rs, k, w.value, true)
  }

  function ContentMatches(rs: RematchState, matches: seq<OrphanMatch>, windows: seq<Window>): RematchState {
    if matches == [] then rs
    else ContentStep(ContentMatches(rs, matches[..|matches| - 1], windows), matches[|matches| - 1], windows)
  }

  /** A candidate left over after the content matches, by its display name. */
  function NameStep(rs: RematchState, byName: map<string, Window>, c: Candidate): (RematchState, map<string, Window>) {
    var k := ByLogPath(rs.st.rows, c.logPath);
    if k == -1 || rs.st.rows[k].window != None then (rs, byName)
    else
      var name := rs.st.rows[k].displayName;
      if name !in byName || !CanClaim(rs.st.rows, rs.st.rows[k].sessionId, byName[name].tmuxWindow) then (rs, byName)
      else (TryClaim(rs, k, byName[name], false), byName - {name})
  }

  function NameMatches(rs: RematchState, byName: map<string, Window>, left: seq<Candidate>):
    (RematchState, map<string, Window>)
  {
    if left == [] then (rs, byName)
    else
      var (rs', byName') := NameMatches(rs, byName, left[..|left| - 1]);
      NameStep(rs', byName', left[|left| - 1])
  }

  function Unmatched(candidates: seq<Candidate>, matched: set<string>): seq<Candidate> {
    if candidates == [] then []
    else
      var n := |candidates| - 1;
      Unmatched(candidates[..n], matched) + (if candidates[n].sessionId in matched then [] else [candidates[n]])
  }

  // -- unclaimed windows by a name that only one of them has --------------

  predicate Nameable(w: Window, claimed: set<string>, name: string) {
    w.managed && w.tmuxWindow !in claimed && w.name == name
  }

  function CountNamed(windows: seq<Window>, claimed: set<string>, name: string): nat {
    if windows == [] then 0
    else
      CountNamed(windows[..|windows| - 1], claimed, name)
      + (if Nameable(windows[|windows| - 1], claimed, name) then 1 else 0)
  }

  /** Each name of exactly one managed, unclaimed window, with that window. */
  ghost predicate ByUniqueName(windows: seq<Window>, claimed: set<string>, byName: map<string, Window>) {
    && (forall n :: n in byName <==> CountNamed(windows, claimed, n) == 1)
    && (forall n :: n in byName ==> byName[n] in windows && Nameable(byName[n], claimed, n))
  }

  lemma {:induction false} NamedIsCounted(windows: seq<Window>, claimed: set<string>, w: Window)
    requires w in windows && Nameable(w, claimed, w.name)
    ensures CountNamed(windows, claimed, w.name) >= 1
  {
    var n := |windows| - 1;
    assert windows == windows[..n] + [windows[n]];
    if w != windows[n] {
      NamedIsCounted(windows[..n], claimed, w);
    }
  }

  lemma {:induction false} OnlyOneNamed(windows: seq<Window>, claimed: set<string>, a: Window, b: Window)
    requires a in windows && Nameable(a, claimed, a.name) && b in windows && Nameable(b, claimed, a.name)
    requires CountNamed(windows, claimed, a.name) == 1
    ensures a == b
  {
    var n := |windows| - 1;
    assert windows == windows[..n] + [windows[n]];
    if a != windows[n] {
      NamedIsCounted(windows[..n], claimed, a);
    }
    if b != windows[n] {
      NamedIsCounted(windows[..n], claimed, b);
    }
    if a != windows[n] && b != windows[n] {
      OnlyOneNamed(windows[..n], claimed, a, b);
    }
  }

  /** The table of names is the only one of its kind. */
  lemma ByUniqueNameIsUnique(windows: seq<Window>, claimed: set<string>, a: map<string, Window>, b: map<string, Window>)
    requires ByUniqueName(windows, claimed, a) && ByUniqueName(windows, claimed, b)
    ensures a == b
  {
    assert a.Keys == b.Keys;
    forall n | n in a
      ensures a[n] == b[n]
    {
      OnlyOneNamed(windows, claimed, a[n], b[n]);
    }
  }

  method UnclaimedByName(windows: seq<Window>, claimed: set<string>) returns (byName: map<string, Window>)
    ensures ByUniqueName(windows, claimed, byName)
  {
    byName := map[];
    var ambiguous: set<string> := {};
    for k := 0 to |windows|
      invariant ByUniqueName(windows[..k], claimed, byName)
      invariant forall n :: n in ambiguous <==> CountNamed(windows[..k], claimed, n) >= 2
    {
      var w := windows[k];
      assert windows[..k + 1][..k] == windows[..k] && windows[..k + 1][k] == w;
      assert forall n ::
          CountNamed(windows[..k + 1], claimed, n) ==
            CountNamed(windows[..k], claimed, n) + (if Nameable(w, claimed, n) then 1 else 0);
      if !w.managed || w.tmuxWindow in claimed || w.name in ambiguous {
        continue;
      }
      if w.name in byName {
        byName := byName - {w.name};
        ambiguous := ambiguous + {w.name};
        continue;
      }
      byName := byName[w.name := w];
    }
    assert windows[..|windows|] == windows;
  }

  // -- what a rematch may do ----------------------------------------------

  /** The rematch keeps the constraints, every owner and every pin, and announces what it gives. */
  ghost predicate OnlyGives(before: PollState, after: PollState) {
    && Unique(after.rows)
    && Keeps(before.rows, after.rows)
    && InPlace(before.rows, after.rows)
    && after.errors == before.errors
    && (forall view :: Agrees(HeardAll(view, before.notes), before.rows) ==>
       Agrees(HeardAll(view, after.notes), after.rows))
  }

  lemma OnlyGivesChain(a: PollState, b: PollState, c: PollState)
    requires OnlyGives(a, b) && OnlyGives(b, c)
    ensures OnlyGives(a, c)
  {
    hide Unique, Agrees, HeardAll, Owns;
  }

  lemma TryClaimOnlyGives(rs: RematchState, k: nat, w: Window, byContent: bool)
    requires Unique(rs.st.rows) && k < |rs.st.rows|
    ensures OnlyGives(rs.st, TryClaim(rs, k, w, byContent).st)
  {
    var row := rs.st.rows[k];
    var rs' := TryClaim(rs, k, w, byContent);
    if CanClaim(rs.st.rows, row.sessionId, w.tmuxWindow) {
      ClaimKeepsUnique(rs.st.rows, row.sessionId, w.tmuxWindow, PatchFor(row, w));
      assert InPlace(rs.st.rows, rs'.st.rows);
      forall s, v | Owns(rs.st.rows, s, v)
        ensures Owns(rs'.st.rows, s, v)
      {
        ClaimTakesNothing(rs.st.rows, row.sessionId, w.tmuxWindow, PatchFor(row, w), s, v);
      }
      forall view | Agrees(HeardAll(view, rs.st.notes), rs.st.rows)
        ensures Agrees(HeardAll(view, rs'.st.notes), rs'.st.rows)
      {
        ClaimAnnounced(rs.st.rows, row.sessionId, w.tmuxWindow, PatchFor(row, w), HeardAll(view, rs.st.notes));
        HeardOneMore(view, rs.st.notes, Activated(row.sessionId, w.tmuxWindow));
      }
    }
  }

  lemma {:induction false} ContentMatchesOnlyGive(rs: RematchState, matches: seq<OrphanMatch>, windows: seq<Window>)
    requires Unique(rs.st.rows)
    ensures OnlyGives(rs.st, ContentMatches(rs, matches, windows).st)
  {
    hide OnlyGives, TryClaim, Unique;
    if matches == [] {
      SameOnlyGives(rs.st);
    } else {
      var n := |matches| - 1;
      var mid := ContentMatches(rs, matches[..n], windows);
      ContentMatchesOnlyGive(rs, matches[..n], windows);
      OnlyGivesUnique(rs.st, mid.st);
      SameOnlyGives(mid.st);
      var w := WindowOf(windows, matches[n].tmuxWindow);
      var k := ByLogPath(mid.st.rows, matches[n].logPath);
      if w.Some? && k != -1 {
        TryClaimOnlyGives(mid, k, w.value, true);
      }
      OnlyGivesChain(rs.st, mid.st, ContentStep(mid, matches[n], windows).st);
    }
  }

  lemma {:induction false} NameMatchesOnlyGive(rs: RematchState, byName: map<string, Window>, left: seq<Candidate>)
    requires Unique(rs.st.rows)
    ensures OnlyGives(rs.st, NameMatches(rs, byName, left).0.st)
  {
    hide OnlyGives, TryClaim, Unique;
    if left == [] {
      SameOnlyGives(rs.st);
    } else {
      var n := |left| - 1;
      var (mid, names) := NameMatches(rs, byName, left[..n]);
      NameMatchesOnlyGive(rs, byName, left[..n]);
      OnlyGivesUnique(rs.st, mid.st);
      SameOnlyGives(mid.st);
      var k := ByLogPath(mid.st.rows, left[n].logPath);
      if k != -1 && mid.st.rows[k].displayName in names {
        TryClaimOnlyGives(mid, k, names[mid.st.rows[k].displayName], false);
      }
      OnlyGivesChain(rs.st, mid.st, NameStep(mid, names, left[n]).0.st);
    }
  }

  lemma SameOnlyGives(st: PollState)
    requires Unique(st.rows)
    ensures OnlyGives(st, st)
  {
  }

  lemma OnlyGivesUnique(a: PollState, b: PollState)
    requires OnlyGives(a, b)
    ensures Unique(b.rows)
  {
  }

  /** The outcome of applying a rematch response to whatever the table holds by then. */
  ghost predicate Rematched(before: PollState, windows: seq<Window>, initiallyClaimed: set<string>,
                            matches: seq<OrphanMatch>, candidates: seq<Candidate>, after: PollState) {
    var rs := ContentMatches(RematchState(before, initiallyClaimed, {}), matches, windows);
    exists byName :: ByUniqueName(windows, rs.claimed, byName) &&
      after == NameMatches(rs, byName, Unmatched(candidates, rs.matched)).0.st
  }

  lemma RematchOnlyGives(before: PollState, windows: seq<Window>, initiallyClaimed: set<string>,
                         matches: seq<OrphanMatch>, candidates: seq<Candidate>, after: PollState)
    requires Unique(before.rows) && Rematched(before, windows, initiallyClaimed, matches, candidates, after)
    ensures OnlyGives(before, after)
  {
    var rs := ContentMatches(RematchState(before, initiallyClaimed, {}), matches, windows);
    var byName :| ByUniqueName(windows, rs.claimed, byName) &&
      after == NameMatches(rs, byName, Unmatched(candidates, rs.matched)).0.st;
    hide OnlyGives, Unique, ContentMatches, NameMatches;
    ContentMatchesOnlyGive(RematchState(before, initiallyClaimed, {}), matches, windows);
    OnlyGivesUnique(before, rs.st);
    NameMatchesOnlyGive(rs, byName, Unmatched(candidates, rs.matched));
    OnlyGivesChain(before, rs.st, after);
  }

  // -- the poller ---------------------------------------------------------

  class LogPoller {
    const db: SessionDatabase
    var attempts: map<string, int>
    var notes: seq<Note>
    var errors: nat

    constructor (db: SessionDatabase)
      ensures this.db == db && attempts == map[] && notes == [] && errors == 0
    {
      this.db := db;
      attempts, notes, errors := map[], [], 0;
    }

    function State(): PollState
      reads this, db
    {
      PollState(db.rows, attempts, notes, errors)
    }

    method ApplyToExisting(k: nat, e: LogEntry, r: Response)
      requires Unique(db.rows) && k < |db.rows|
      modifies this, db
      ensures State() == ExistingStep(old(State()), k, e, r)
    {
      var existing := db.rows[k];
      ghost var rows := db.rows[k := WithLogEntry(existing, e)];
      assert ById(db.rows, existing.sessionId) == k;
      db.UpdateRow(existing.sessionId, WithLogEntry(existing, e));
      var shouldAttemptRematch := CanAttemptDormantRematch(existing, r.now) && existing.window == None
        && (e.size > KnownSize(existing) || e.logPath in r.eligible);
      if shouldAttemptRematch {
        var lastAttempt := if existing.sessionId in attempts then attempts[existing.sessionId] else 0;
        if r.now - lastAttempt > REMATCH_COOLDOWN_MS {
          attempts := attempts[existing.sessionId := r.now];
          if e.logPath in r.matches {
            var exactMatch := r.matches[e.logPath];
            var claimed := db.ClaimCurrentWindow(existing.sessionId, exactMatch.tmuxWindow,
              PatchFor(existing, exactMatch));
            if claimed {
              notes := notes + [Activated(existing.sessionId, exactMatch.tmuxWindow)];
            }
          }
        }
      }
    }

    method ApplyToNew(id: string, e: LogEntry, r: Response)
      modifies this, db
      ensures State() == NewStep(old(State()), id, e, r)
    {
      hide Released, CanInsert, ByWindow, ActiveBySlug;
      if !e.enoughTokens {
        return;
      }
      var supersededWindow: Option<string> := None;
      var inheritPin, inheritName := false, e.freshName;
      if e.slug != "" {
        var k := ActiveBySlug(db.rows, e.slug, e.project);
        if k != -1 && db.rows[k].sessionId != id {
          var slugMatch := db.rows[k];
          supersededWindow, inheritPin, inheritName := slugMatch.window, slugMatch.pinned, slugMatch.displayName;
          db.ReleaseWindow(slugMatch.sessionId, false);
          notes := notes + [Orphaned(slugMatch.sessionId, id)];
        }
      }
      var exact := if e.logPath in r.matches then Some(r.matches[e.logPath]) else None;
      var currentWindow :=
        if supersededWindow.Some? then supersededWindow
        else if exact.Some? then Some(exact.value.tmuxWindow) else None;
      if currentWindow.Some? {
        var k := ByWindow(db.rows, currentWindow.value);
        if k != -1 && db.rows[k].sessionId != id {
          currentWindow := None;
        }
      }
      if currentWindow == None && e.project != "" && e.booting {
        return;
      }
      var row := Row(id, e.logPath, e.project, e.slug, inheritName, e.activityAt, currentWindow, inheritPin, None,
                     Some(e.size), if exact.Some? then exact.value.command else "");
      var ok := db.InsertSession(row);
      if !ok {
        errors := errors + 1;
      } else if currentWindow.Some? {
        notes := notes + [Activated(id, currentWindow.value)];
      }
    }

    method ProcessMatchResponse(entries: seq<LogEntry>, r: Response)
      requires Unique(db.rows)
      modifies this, db
      ensures State() == Entries(old(State()), entries, r)
      ensures Unique(db.rows)
    {
      ghost var before := State();
      for i := 0 to |entries|
        invariant State() == Entries(before, entries[..i], r)
        invariant Unique(db.rows)
      {
        assert entries[..i + 1][..i] == entries[..i];
        var e := entries[i];
        EntryStepLawful(State(), e, r);
        var byLog := ByLogPath(db.rows, e.logPath);
        if byLog != -1 {
          ApplyToExisting(byLog, e, r);
          continue;
        }
        if e.knownEmpty || e.agentType == None || (e.agentType == Some("codex") && e.isCodexSubagent)
          || e.sessionId == None {
          continue;
        }
        var byId := ById(db.rows, e.sessionId.value);
        if byId != -1 {
          ApplyToExisting(byId, e, r);
        } else {
          ApplyToNew(e.sessionId.value, e, r);
        }
      }
      assert entries[..|entries|] == entries;
    }

    /** The part of the background rematch after its worker answered. `windows` and
        `initiallyClaimed` are as old as its start. */
    method ApplyOrphanRematch(windows: seq<Window>, initiallyClaimed: set<string>, matches: seq<OrphanMatch>,
                              candidates: seq<Candidate>)
      modifies this, db
      ensures Rematched(old(State()), windows, initiallyClaimed, matches, candidates, State())
    {
      ghost var before := State();
      var claimedWindows := initiallyClaimed;
      var matchedIds: set<string> := {};
      for i := 0 to |matches|
        invariant RematchState(State(), claimedWindows, matchedIds) ==
          ContentMatches(RematchState(before, initiallyClaimed, {}), matches[..i], windows)
      {
        assert matches[..i + 1][..i] == matches[..i];
        var m := matches[i];
        var window := WindowOf(windows, m.tmuxWindow);
        var k := ByLogPath(db.rows, m.logPath);
        if window == None || k == -1 || db.rows[k].window != None || m.tmuxWindow in claimedWindows {
          continue;
        }
        var existing := db.rows[k];
        var claimed := db.ClaimCurrentWindow(existing.sessionId, window.value.tmuxWindow,
          PatchFor(existing, window.value));
        if claimed {
          claimedWindows := claimedWindows + {window.value.tmuxWindow};
          matchedIds := matchedIds + {existing.sessionId};
          notes := notes + [Activated(existing.sessionId, window.value.tmuxWindow)];
        }
      }
      assert matches[..|matches|] == matches;
      ghost var mid := RematchState(State(), claimedWindows, matchedIds);
      var unmatched := Unmatched(candidates, matchedIds);
      var names := UnclaimedByName(windows, claimedWindows);
      ghost var byName := names;
      for i := 0 to |unmatched|
        invariant (RematchState(State(), claimedWindows, matchedIds), names) == NameMatches(mid, byName, unmatched[..i])
      {
        assert unmatched[..i + 1][..i] == unmatched[..i];
        var k := ByLogPath(db.rows, unmatched[i].logPath);
        if k == -1 || db.rows[k].window != None {
          continue;
        }
        var existing := db.rows[k];
        if existing.displayName in names {
          var window := names[existing.displayName];
          var claimed := db.ClaimCurrentWindow(existing.sessionId, window.tmuxWindow, PatchFor(existing, window));
          if claimed {
            claimedWindows := claimedWindows + {window.tmuxWindow};
            names := names - {existing.displayName};
            notes := notes + [Activated(existing.sessionId, window.tmuxWindow)];
          }
        }
      }
      assert unmatched[..|unmatched|] == unmatched;
    }
  }

  // -- every interleaving -------------------------------------------------

  /** One atomic change: a poll or a rematch applying what its worker answered, a session
      losing its window, or another part of the server claiming or releasing one. */
  datatype Action =
    | PollApplies(entries: seq<LogEntry>, r: Response)
    | RematchApplies(
        windows: seq<Window>, initiallyClaimed: set<string>, matches: seq<OrphanMatch>, candidates: seq<Candidate>)
    | WindowLost(id: string, hibernate: bool)
    | WakeClaims(id: string, window: string, patch: ClaimPatch)

  ghost predicate Acts(before: PollState, a: Action, after: PollState) {
    match a
    case PollApplies(entries, r) => after == Entries(before, entries, r)
    case RematchApplies(ws, claimed, ms, cs) => Rematched(before, ws, claimed, ms, cs, after)
    case WindowLost(id, hibernate) => after == before.(rows := Released(before.rows, id, hibernate))
    case WakeClaims(id, w, patch) => after == before.(rows := Claimed(before.rows, id, w, patch))
  }

  ghost predicate IsRun(states: seq<PollState>, actions: seq<Action>) {
    |states| == |actions| + 1 && forall i :: 0 <= i < |actions| ==> Acts(states[i], actions[i], states[i + 1])
  }

  lemma ActKeepsUnique(before: PollState, a: Action, after: PollState)
    requires Unique(before.rows) && Acts(before, a, after)
    ensures Unique(after.rows) && after.errors == before.errors
  {
    match a {
      case PollApplies(entries, r) => PollLawful(before, entries, r);
      case RematchApplies(ws, claimed, ms, cs) => RematchOnlyGives(before, ws, claimed, ms, cs, after);
      case WindowLost(id, hibernate) => ReleaseKeepsUnique(before.rows, id, hibernate);
      case WakeClaims(id, w, patch) => ClaimKeepsUnique(before.rows, id, w, patch);
    }
  }

  /** In every run no two sessions own one window, and no statement ever trips a constraint. */
  lemma {:induction false} RunKeepsUnique(states: seq<PollState>, actions: seq<Action>, i: nat)
    requires IsRun(states, actions) && Unique(states[0].rows) && i < |states|
    ensures Unique(states[i].rows) && states[i].errors == states[0].errors
  {
    hide Unique, Acts;
    if i > 0 {
      RunKeepsUnique(states, actions, i - 1);
      ActKeepsUnique(states[i - 1], actions[i - 1], states[i]);
    }
  }

  /** Row `i` of session `s` owned `w`; row `j` of session `t` owns it now, with its pin, for the same
      project and by its slug, which `s` had or, without one, was given. */
  ghost predicate HandedOver(before: Table, after: Table, i: int, j: int, s: string, t: string, w: string) {
    && 0 <= i < |before| && before[i].sessionId == s && before[i].window == Some(w)
    && 0 <= j < |after| && after[j].sessionId == t && after[j].window == Some(w)
    && after[j].pinned == before[i].pinned
    && after[j].slug != "" && SameWork(before[i], after[j])
  }

  lemma CarriedOwner(before: Table, after: Table, s: string, t: string, w: string)
    requires Unique(after) && CarriesAll(before, after)
    requires Owns(before, s, w) && Owns(after, t, w)
    ensures s == t || (!Known(before, t) && exists i, j :: HandedOver(before, after, i, j, s, t, w))
  {
    var i :| 0 <= i < |before| && before[i].sessionId == s && before[i].window == Some(w);
    assert Carried(before, after, i);
    var j :| CarriedTo(before, after, i, j);
    var k :| 0 <= k < |after| && after[k].sessionId == t && after[k].window == Some(w);
    assert j == k;
    assert s != t ==> HandedOver(before, after, i, j, s, t, w);
  }

  /** An action that changes a window's owner is a poll handing it, with its pin, to a session
      that was not in the table and works by the owner's slug on its project: the slug
      supersede. (In a run every state is `Unique`.) */
  lemma OwnersMoveOnlyBySupersede(before: PollState, a: Action, after: PollState, s: string, t: string, w: string)
    requires Unique(before.rows) && Acts(before, a, after)
    requires Owns(before.rows, s, w) && Owns(after.rows, t, w) && s != t
    ensures a.PollApplies? && !Known(before.rows, t)
    ensures exists i, j :: HandedOver(before.rows, after.rows, i, j, s, t, w)
  {
    ActKeepsUnique(before, a, after);
    match a {
      case PollApplies(entries, r) =>
        PollLawful(before, entries, r);
        CarriedOwner(before.rows, after.rows, s, t, w);
      case RematchApplies(ws, claimed, ms, cs) =>
        RematchOnlyGives(before, ws, claimed, ms, cs, after);
        OneOwner(after.rows, s, t, w);
      case WindowLost(id, hibernate) =>
        ReleaseOnlyDrops(before.rows, id, hibernate, t, w);
        OneOwner(before.rows, s, t, w);
      case WakeClaims(id, v, patch) =>
        ClaimTakesNothing(before.rows, id, v, patch, s, w);
        OneOwner(after.rows, s, t, w);
    }
  }

  lemma OneOwner(t: Table, a: string, b: string, w: string)
    requires Unique(t) && Owns(t, a, w) && Owns(t, b, w)
    ensures a == b
  {
    var i :| 0 <= i < |t| && t[i].sessionId == a && t[i].window == Some(w);
    var j :| 0 <= j < |t| && t[j].sessionId == b && t[j].window == Some(w);
    assert i == j;
  }
}
