/** The agent-session rows and the statements that change them. */
module SessionTable {
  import opened Options

  /** A slug or launch command that is absent is the empty string. */
  datatype Row = Row(
    sessionId: string,
    logPath: string,
    project: string,
    slug: string,
    displayName: string,
    lastActivityAt: int,
    window: Option<string>,
    pinned: bool,
    wakeStartedAt: Option<int>,
    logSize: Option<nat>,
    launchCommand: string)

  type Table = seq<Row>

  function ById(t: Table, id: string): (k: int)
    ensures -1 <= k < |t|
    ensures k >= 0 ==> t[k].sessionId == id
    ensures k == -1 ==> forall i :: 0 <= i < |t| ==> t[i].sessionId != id
  {
    if t == [] then -1
    else if t[0].sessionId == id then 0
    else
      var k := ById(t[1..], id);
      if k == -1 then -1 else k + 1
  }

  function ByLogPath(t: Table, logPath: string): (k: int)
    ensures -1 <= k < |t|
    ensures k >= 0 ==> t[k].logPath == logPath
    ensures k == -1 ==> forall i :: 0 <= i < |t| ==> t[i].logPath != logPath
  {
    if t == [] then -1
    else if t[0].logPath == logPath then 0
    else
      var k := ByLogPath(t[1..], logPath);
      if k == -1 then -1 else k + 1
  }

  function ByWindow(t: Table, window: string): (k: int)
    ensures -1 <= k < |t|
    ensures k >= 0 ==> t[k].window == Some(window)
    ensures k == -1 ==> forall i :: 0 <= i < |t| ==> t[i].window != Some(window)
  {
    if t == [] then -1
    else if t[0].window == Some(window) then 0
    else
      var k := ByWindow(t[1..], window);
      if k == -1 then -1 else k + 1
  }

  predicate ActiveWith(row: Row, slug: string, project: string) {
    row.window.Some? && row.slug == slug && row.project == project
  }

  /** The most recently active owner with this slug and project, or -1. */
  function ActiveBySlug(t: Table, slug: string, project: string): (k: int)
    ensures -1 <= k < |t|
    ensures k >= 0 ==> ActiveWith(t[k], slug, project)
    ensures k == -1 ==> forall i :: 0 <= i < |t| ==> !ActiveWith(t[i], slug, project)
    ensures k >= 0 ==> forall i :: 0 <= i < |t| && ActiveWith(t[i], slug, project) ==>
      t[i].lastActivityAt <= t[k].lastActivityAt
  {
    if t == [] then -1
    else
      var n := |t| - 1;
      var k := ActiveBySlug(t[..n], slug, project);
      if ActiveWith(t[n], slug, project) && (k == -1 || t[k].lastActivityAt < t[n].lastActivityAt) then n else k
  }

  /** The three UNIQUE constraints: session id, log path, and owned window. */
  ghost predicate Unique(t: Table) {
    forall i, j :: 0 <= i < j < |t| ==>
      && t[i].sessionId != t[j].sessionId
      && t[i].logPath != t[j].logPath
      && (t[i].window.Some? ==> t[i].window != t[j].window)
  }

  ghost predicate Owns(t: Table, id: string, window: string) {
    exists k :: 0 <= k < |t| && t[k].sessionId == id && t[k].window == Some(window)
  }

  ghost predicate Known(t: Table, id: string) {
    exists k :: 0 <= k < |t| && t[k].sessionId == id
  }

  // -- statements ---------------------------------------------------------

  datatype ClaimPatch = ClaimPatch(displayName: string, launchCommand: Option<string>)

  /** Both guards of the claim: the row is dormant, and no other row owns the window. */
  predicate CanClaim(t: Table, id: string, window: string) {
    var k := ById(t, id);
    k >= 0 && t[k].window == None && ByWindow(t, window) == -1
  }

  function Claimed(t: Table, id: string, window: string, patch: ClaimPatch): Table {
    if !CanClaim(t, id, window) then t
    else
      var k := ById(t, id);
      t[k := t[k].(window := Some(window), displayName := patch.displayName, wakeStartedAt := None,
                   launchCommand :=
                     if patch.launchCommand.Some? then patch.launchCommand.value else t[k].launchCommand)]
  }

  /** Taking the window off a row; `pinned` says whether it hibernates. */
  function Released(t: Table, id: string, pinned: bool): Table {
    var k := ById(t, id);
    if k == -1 then t else t[k := t[k].(window := None, pinned := pinned)]
  }

  /** Whether the UNIQUE constraints let the row in. */
  predicate CanInsert(t: Table, row: Row) {
    && ById(t, row.sessionId) == -1
    && ByLogPath(t, row.logPath) == -1
    && (row.window.Some? ==> ByWindow(t, row.window.value) == -1)
  }

  lemma ClaimKeepsUnique(t: Table, id: string, window: string, patch: ClaimPatch)
    requires Unique(t)
    ensures Unique(Claimed(t, id, window, patch))
  {
  }

  lemma ReleaseKeepsUnique(t: Table, id: string, pinned: bool)
    requires Unique(t)
    ensures Unique(Released(t, id, pinned))
  {
  }

  lemma InsertKeepsUnique(t: Table, row: Row)
    requires Unique(t) && CanInsert(t, row)
    ensures Unique(t + [row])
  {
  }

  /** Claims take no window from anyone; on success the claimer is its only new owner. */
  lemma ClaimTakesNothing(t: Table, id: string, window: string, patch: ClaimPatch, s: string, w: string)
    requires Unique(t)
    ensures Owns(Claimed(t, id, window, patch), s, w) <==>
      Owns(t, s, w) || (CanClaim(t, id, window) && s == id && w == window)
  {
    var k := ById(t, id);
    var t' := Claimed(t, id, window, patch);
    if CanClaim(t, id, window) {
      assert t'[k].sessionId == id && t'[k].window == Some(window);
      if i :| 0 <= i < |t| && t[i].sessionId == s && t[i].window == Some(w) {
        assert t'[i] == t[i];
      }
    }
  }

  lemma ReleaseOnlyDrops(t: Table, id: string, pinned: bool, s: string, w: string)
    requires Unique(t)
    ensures Owns(Released(t, id, pinned), s, w) <==> Owns(t, s, w) && s != id
  {
    var k := ById(t, id);
    var t' := Released(t, id, pinned);
    if i :| 0 <= i < |t| && t[i].sessionId == s && t[i].window == Some(w) && s != id {
      assert t'[i] == t[i];
    }
  }

  /** The constraints are kept, and the owners are those from before and the given ones. */
  ghost predicate GivesOnly(before: Table, after: Table, given: set<(string, string)>) {
    Unique(after) && forall s, w :: Owns(after, s, w) <==> Owns(before, s, w) || (s, w) in given
  }

  /** The constraints are kept, and the owners are those from before but one. */
  ghost predicate TakesOnly(before: Table, after: Table, id: string) {
    Unique(after) && forall s, w :: Owns(after, s, w) <==> Owns(before, s, w) && s != id
  }

  lemma ClaimGivesOnly(t: Table, id: string, window: string, patch: ClaimPatch)
    requires Unique(t)
    ensures GivesOnly(t, Claimed(t, id, window, patch), if CanClaim(t, id, window) then {(id, window)} else {})
  {
    hide Owns, Unique, CanClaim, Claimed;
    ClaimKeepsUnique(t, id, window, patch);
    forall s, w
      ensures Owns(Claimed(t, id, window, patch), s, w) <==>
        Owns(t, s, w) || (CanClaim(t, id, window) && s == id && w == window)
    {
      ClaimTakesNothing(t, id, window, patch, s, w);
    }
  }

  lemma ReleaseTakesOnly(t: Table, id: string, pinned: bool)
    requires Unique(t)
    ensures TakesOnly(t, Released(t, id, pinned), id)
  {
    hide Owns, Unique, Released;
    ReleaseKeepsUnique(t, id, pinned);
    forall s, w
      ensures Owns(Released(t, id, pinned), s, w) <==> Owns(t, s, w) && s != id
    {
      ReleaseOnlyDrops(t, id, pinned, s, w);
    }
  }

  lemma InsertOnlyAdds(t: Table, row: Row, s: string, w: string)
    ensures Owns(t + [row], s, w) <==> Owns(t, s, w) || (row.sessionId == s && row.window == Some(w))
  {
    var t' := t + [row];
    if i :| 0 <= i < |t| && t[i].sessionId == s && t[i].window == Some(w) {
      assert t'[i] == t[i];
    }
    if row.sessionId == s && row.window == Some(w) {
      assert t'[|t|] == row;
    }
  }

  class SessionDatabase {
    var rows: Table

    constructor (rows: Table)
      ensures this.rows == rows
    {
      this.rows := rows;
    }

    method ClaimCurrentWindow(id: string, window: string, patch: ClaimPatch) returns (claimed: bool)
      modifies this
      ensures claimed == CanClaim(old(rows), id, window)
      ensures rows == Claimed(old(rows), id, window, patch)
      ensures Unique(old(rows)) ==> GivesOnly(old(rows), rows, if claimed then {(id, window)} else {})
    {
      if Unique(rows) {
        ClaimGivesOnly(rows, id, window, patch);
      }
      claimed := CanClaim(rows, id, window);
      rows := Claimed(rows, id, window, patch);
    }

    /** An UPDATE by session id of the log facts a poll brings. */
    method UpdateRow(id: string, row: Row)
      requires row.sessionId == id
      modifies this
      ensures rows == if ById(old(rows), id) == -1 then old(rows) else old(rows)[ById(old(rows), id) := row]
    {
      var k := ById(rows, id);
      if k != -1 {
        rows := rows[k := row];
      }
    }

    method ReleaseWindow(id: string, pinned: bool)
      modifies this
      ensures rows == Released(old(rows), id, pinned)
    {
      rows := Released(rows, id, pinned);
    }

    /** Hibernates the row on unexpected window loss unless told not to. */
    method OrphanSession(id: string, hibernate: bool)
      modifies this
      ensures rows == Released(old(rows), id, hibernate)
      ensures Unique(old(rows)) ==> TakesOnly(old(rows), rows, id)
    {
      if Unique(rows) {
        ReleaseTakesOnly(rows, id, hibernate);
      }
      ReleaseWindow(id, hibernate);
    }

    /** False stands for the exception a violated UNIQUE constraint throws. */
    method InsertSession(row: Row) returns (ok: bool)
      modifies this
      ensures ok == CanInsert(old(rows), row)
      ensures rows == if ok then old(rows) + [row] else old(rows)
    {
      ok := CanInsert(rows, row);
      if ok {
        rows := rows + [row];
      }
    }
  }
}
