/** What a background rematch gives: which session gets which window, and that nothing it may give is left. */
module RematchLaws {
  import opened Options
  import opened SessionTable
  import opened WindowOwnership
  import opened WindowGains
  import opened OrphanRematch

  /** A session without a window that takes one on, and nothing else. */
  ghost predicate Given(before: Row, w: Window, after: Row) {
    && before.window == None && TakesOn(before, w, after)
    && after == before.(window := after.window, displayName := after.displayName,
                        wakeStartedAt := after.wakeStartedAt, launchCommand := after.launchCommand)
  }

  /** One claim: the row takes the window on if it has none and nobody owns that window. */
  lemma ClaimGives(t: Table, k: nat, w: Window)
    requires Unique(t) && k < |t| && t[k].window == None
    ensures CanClaim(t, t[k].sessionId, w.tmuxWindow) <==> !OwnedBySome(t, w.tmuxWindow)
    ensures CanClaim(t, t[k].sessionId, w.tmuxWindow) ==>
      var after := Claimed(t, t[k].sessionId, w.tmuxWindow, PatchFor(t[k], w));
      && |after| == |t| && Given(t[k], w, after[k]) && Unique(after)
      && forall i :: 0 <= i < |t| && i != k ==> after[i] == t[i]
  {
    OwnId(t, k);
    OwnedIff(t, w.tmuxWindow);
    ClaimKeepsUnique(t, t[k].sessionId, w.tmuxWindow, PatchFor(t[k], w));
    hide Unique, ById, ByWindow, OwnedBySome;
  }

  /** Rows change only by taking a window on, so what was owned is owned still. */
  ghost predicate RowsGiven(before: Table, after: Table) {
    |after| == |before|
    && forall i :: 0 <= i < |before| ==> after[i] == before[i] || GivenSome(before[i], after[i])
  }

  ghost predicate GivenSome(before: Row, after: Row) {
    exists w :: Given(before, w, after)
  }

  lemma StillOwned(before: Table, after: Table, v: string)
    requires RowsGiven(before, after) && OwnedBySome(before, v)
    ensures OwnedBySome(after, v)
  {
    var i :| 0 <= i < |before| && before[i].window == Some(v);
    assert after[i].window == Some(v);
  }

  // -- content matches ----------------------------------------------------

  ghost predicate LastAt(windows: seq<Window>, w: Window, p: int) {
    0 <= p < |windows| && windows[p] == w && forall q :: p < q < |windows| ==> windows[q].tmuxWindow != w.tmuxWindow
  }

  /** The window is the last of the snapshot with its tmux name. */
  ghost predicate InSnapshot(windows: seq<Window>, w: Window) {
    exists p :: LastAt(windows, w, p)
  }

  lemma {:induction false} WindowOfHolds(windows: seq<Window>, name: string)
    ensures WindowOf(windows, name).Some? ==>
      InSnapshot(windows, WindowOf(windows, name).value) && WindowOf(windows, name).value.tmuxWindow == name
    ensures WindowOf(windows, name).None? ==> forall p :: 0 <= p < |windows| ==> windows[p].tmuxWindow != name
  {
    if windows != [] {
      var n := |windows| - 1;
      if windows[n].tmuxWindow == name {
        assert LastAt(windows, windows[n], n);
      } else {
        WindowOfHolds(windows[..n], name);
        var w := WindowOf(windows, name);
        if w.Some? {
          var p :| LastAt(windows[..n], w.value, p);
          assert LastAt(windows, w.value, p) by {
            assert forall q :: 0 <= q < n ==> windows[..n][q] == windows[q];
          }
        }
      }
    }
  }

  /** Row `i` got `w` by a content match: the match names its log and the window, which was in the snapshot, not
      claimed when that was taken, and owned by nobody. */
  ghost predicate ByContent(before: Table, after: Table, windows: seq<Window>, claimed: set<string>,
                            matches: seq<OrphanMatch>, i: int, w: Window) {
    && 0 <= i < |before| == |after| && Given(before[i], w, after[i])
    && OrphanMatch(before[i].logPath, w.tmuxWindow) in matches
    && InSnapshot(windows, w) && w.tmuxWindow !in claimed && !OwnedBySome(before, w.tmuxWindow)
  }

  ghost predicate UnchangedOrByContent(before: Table, after: Table, windows: seq<Window>, claimed: set<string>,
                                       matches: seq<OrphanMatch>, i: int) {
    && 0 <= i < |before| == |after|
    && (after[i] == before[i] || exists w :: ByContent(before, after, windows, claimed, matches, i, w))
  }

  /** A match that is not used could not be: its window is unknown or was claimed, its log is unknown, its
      session has a window, or its window an owner. */
  ghost predicate UsedUp(after: Table, windows: seq<Window>, claimed: set<string>, m: OrphanMatch) {
    || (forall p :: 0 <= p < |windows| ==> windows[p].tmuxWindow != m.tmuxWindow)
    || m.tmuxWindow in claimed
    || OwnedBySome(after, m.tmuxWindow)
    || (forall i :: 0 <= i < |after| && after[i].logPath == m.logPath ==> after[i].window.Some?)
  }

  /** What the content matches do to the table. */
  ghost predicate ContentDone(before: Table, after: Table, windows: seq<Window>, claimed: set<string>,
                              matches: seq<OrphanMatch>) {
    && |after| == |before| && RowsGiven(before, after)
    && (forall i :: 0 <= i < |before| ==> UnchangedOrByContent(before, after, windows, claimed, matches, i))
    && (forall m :: m in matches ==> UsedUp(after, windows, claimed, m))
  }

  /** The windows taken for claimed are those claimed at first and those given since. */
  ghost predicate ClaimsNoted(before: Table, after: Table, claimed: set<string>, noted: set<string>) {
    forall v :: v in noted <==> v in claimed || (OwnedBySome(after, v) && !OwnedBySome(before, v))
  }

  /** The sessions noted as served have a window. */
  ghost predicate ServedHaveWindows(t: Table, served: set<string>) {
    forall i :: 0 <= i < |t| && t[i].sessionId in served ==> t[i].window.Some?
  }

  /** One match, told by what it changes. */
  lemma ContentStepDoes(rs: RematchState, m: OrphanMatch, windows: seq<Window>) returns (k: int, w: Window)
    requires Unique(rs.st.rows)
    ensures var t, rs' := rs.st.rows, ContentStep(rs, m, windows);
      && Unique(rs'.st.rows)
      && if k == -1 then
           rs' == rs && UsedUp(t, windows, rs.claimed, m)
         else
           && 0 <= k < |t| == |rs'.st.rows| && t[k].logPath == m.logPath
           && Given(t[k], w, rs'.st.rows[k]) && (forall i :: 0 <= i < |t| && i != k ==> rs'.st.rows[i] == t[i])
           && InSnapshot(windows, w) && w.tmuxWindow == m.tmuxWindow
           && w.tmuxWindow !in rs.claimed && !OwnedBySome(t, w.tmuxWindow)
           && rs'.claimed == rs.claimed + {w.tmuxWindow} && rs'.matched == rs.matched + {t[k].sessionId}
  {
    var t := rs.st.rows;
    var found := WindowOf(windows, m.tmuxWindow);
    WindowOfHolds(windows, m.tmuxWindow);
    k := ByLogPath(t, m.logPath);
    w := if found.Some? then found.value else Window("", "", "", false);
    if found.None? || k == -1 || m.tmuxWindow in rs.claimed {
      k := -1;
    } else if t[k].window != None {
      OnlyLog(t, k);
      k := -1;
    } else {
      ClaimGives(t, k, w);
      if !CanClaim(t, t[k].sessionId, w.tmuxWindow) {
        k := -1;
      }
    }
    hide WindowOf, InSnapshot, Unique, ById, ByLogPath, Claimed, CanClaim, OwnedBySome, Given;
  }

  lemma OnlyLog(t: Table, k: nat)
    requires Unique(t) && k < |t|
    ensures forall i :: 0 <= i < |t| && t[i].logPath == t[k].logPath ==> i == k
  {
  }

  lemma MoreMatches(before: Table, after: Table, windows: seq<Window>, claimed: set<string>,
                    matches: seq<OrphanMatch>, i: int)
    requires matches != [] && UnchangedOrByContent(before, after, windows, claimed, matches[..|matches| - 1], i)
    ensures UnchangedOrByContent(before, after, windows, claimed, matches, i)
  {
    hide Given, InSnapshot, OwnedBySome;
    assert forall m :: m in matches[..|matches| - 1] ==> m in matches;
    if after[i] != before[i] {
      var w :| ByContent(before, after, windows, claimed, matches[..|matches| - 1], i, w);
      assert ByContent(before, after, windows, claimed, matches, i, w);
    }
  }

  lemma StaysUsedUp(t: Table, after: Table, windows: seq<Window>, claimed: set<string>, m: OrphanMatch)
    requires RowsGiven(t, after) && UsedUp(t, windows, claimed, m)
    ensures UsedUp(after, windows, claimed, m)
  {
    if OwnedBySome(t, m.tmuxWindow) {
      StillOwned(t, after, m.tmuxWindow);
    }
    hide OwnedBySome;
  }

  lemma OwnersAfterGift(t: Table, after: Table, k: int, w: Window, v: string)
    requires 0 <= k < |t| == |after| && Given(t[k], w, after[k])
    requires forall i :: 0 <= i < |t| && i != k ==> after[i] == t[i]
    ensures OwnedBySome(after, v) <==> OwnedBySome(t, v) || v == w.tmuxWindow
    ensures RowsGiven(t, after)
  {
    if i :| 0 <= i < |t| && t[i].window == Some(v) {
      assert after[i].window == Some(v);
    }
    if v == w.tmuxWindow {
      assert after[k].window == Some(v);
    }
    if i :| 0 <= i < |after| && after[i].window == Some(v) {
      assert i == k || t[i].window == Some(v);
    }
    assert GivenSome(t[k], after[k]);
  }

  /** A gift on top of gifts: the row it goes to was as at first. */
  lemma GiftsAdd(before: Table, t: Table, after: Table, k: int, w: Window)
    requires RowsGiven(before, t) && 0 <= k < |t| == |after| && Given(t[k], w, after[k])
    requires forall i :: 0 <= i < |t| && i != k ==> after[i] == t[i]
    ensures RowsGiven(before, after) && t[k] == before[k]
  {
    NotYetGiven(before[k], t[k]);
    assert GivenSome(t[k], after[k]);
  }

  lemma NotYetGiven(before: Row, after: Row)
    requires after.window == None && (after == before || GivenSome(before, after))
    ensures after == before
  {
  }

  lemma ContentGift(before: Table, t: Table, after: Table, windows: seq<Window>, claimed: set<string>,
                    matches: seq<OrphanMatch>, k: int, w: Window)
    requires matches != [] && ContentDone(before, t, windows, claimed, matches[..|matches| - 1])
    requires 0 <= k < |t| == |after| && t[k].logPath == matches[|matches| - 1].logPath
    requires Given(t[k], w, after[k]) && forall i :: 0 <= i < |t| && i != k ==> after[i] == t[i]
    requires InSnapshot(windows, w) && w.tmuxWindow == matches[|matches| - 1].tmuxWindow
    requires w.tmuxWindow !in claimed && !OwnedBySome(t, w.tmuxWindow)
    ensures ContentDone(before, after, windows, claimed, matches)
  {
    var n := |matches| - 1;
    GiftsAdd(before, t, after, k, w);
    OwnersAfterGift(t, after, k, w, w.tmuxWindow);
    if OwnedBySome(before, w.tmuxWindow) {
      StillOwned(before, t, w.tmuxWindow);
    }
    hide Given, InSnapshot, OwnedBySome, RowsGiven;
    forall i | 0 <= i < |before|
      ensures UnchangedOrByContent(before, after, windows, claimed, matches, i)
    {
      if i == k {
        assert matches[n] in matches;
        assert ByContent(before, after, windows, claimed, matches, k, w);
      } else {
        assert UnchangedOrByContent(before, t, windows, claimed, matches[..n], i);
        if t[i] != before[i] {
          var v :| ByContent(before, t, windows, claimed, matches[..n], i, v);
          assert ByContent(before, after, windows, claimed, matches[..n], i, v);
        }
        MoreMatches(before, after, windows, claimed, matches, i);
      }
    }
    hide UnchangedOrByContent;
    forall m | m in matches
      ensures UsedUp(after, windows, claimed, m)
    {
      if m != matches[n] {
        assert m in matches[..n] by {
          LastApart(matches, m);
        }
        StaysUsedUp(t, after, windows, claimed, m);
      }
    }
  }

  lemma LastApart<T>(s: seq<T>, x: T)
    requires s != [] && x in s && x != s[|s| - 1]
    ensures x in s[..|s| - 1]
  {
    assert s == s[..|s| - 1] + [s[|s| - 1]];
  }

  lemma NoGift(before: Table, t: Table, windows: seq<Window>, claimed: set<string>, noted: set<string>,
               matches: seq<OrphanMatch>)
    requires matches != [] && ContentDone(before, t, windows, claimed, matches[..|matches| - 1])
    requires ClaimsNoted(before, t, claimed, noted) && UsedUp(t, windows, noted, matches[|matches| - 1])
    ensures ContentDone(before, t, windows, claimed, matches)
  {
    hide OwnedBySome, RowsGiven, UnchangedOrByContent;
    forall i | 0 <= i < |before|
      ensures UnchangedOrByContent(before, t, windows, claimed, matches, i)
    {
      MoreMatches(before, t, windows, claimed, matches, i);
    }
    forall m | m in matches
      ensures UsedUp(t, windows, claimed, m)
    {
      if m != matches[|matches| - 1] {
        LastApart(matches, m);
      }
    }
  }

  /** The content matches, over all of them. */
  lemma {:induction false} ContentMatchesDo(before: PollState, windows: seq<Window>, claimed: set<string>,
                                            matches: seq<OrphanMatch>)
    requires Unique(before.rows)
    ensures var rs := ContentMatches(RematchState(before, claimed, {}), matches, windows);
      && Unique(rs.st.rows) && ContentDone(before.rows, rs.st.rows, windows, claimed, matches)
      && ClaimsNoted(before.rows, rs.st.rows, claimed, rs.claimed) && ServedHaveWindows(rs.st.rows, rs.matched)
  {
    if matches != [] {
      var n := |matches| - 1;
      ContentMatchesDo(before, windows, claimed, matches[..n]);
      var rs := ContentMatches(RematchState(before, claimed, {}), matches[..n], windows);
      var rs' := ContentStep(rs, matches[n], windows);
      var k, w := ContentStepDoes(rs, matches[n], windows);
      hide ContentStep, ContentMatches, Unique, OwnedBySome, Given, InSnapshot, ContentDone;
      if k == -1 {
        NoGift(before.rows, rs.st.rows, windows, claimed, rs.claimed, matches);
      } else {
        assert w.tmuxWindow !in claimed;
        ContentGift(before.rows, rs.st.rows, rs'.st.rows, windows, claimed, matches, k, w);
        GiftIsNoted(before.rows, rs.st.rows, rs'.st.rows, claimed, rs.claimed, rs.matched, k, w);
      }
      ContentMatchesStep(before, windows, claimed, matches);
    } else {
      hide OwnedBySome, Unique;
    }
  }

  lemma ContentMatchesStep(before: PollState, windows: seq<Window>, claimed: set<string>, matches: seq<OrphanMatch>)
    requires matches != []
    ensures var start := RematchState(before, claimed, {});
      ContentMatches(start, matches, windows) ==
        ContentStep(ContentMatches(start, matches[..|matches| - 1], windows), matches[|matches| - 1], windows)
  {
    hide ContentStep;
  }

  lemma GiftIsNoted(before: Table, t: Table, after: Table, claimed: set<string>, noted: set<string>,
                    served: set<string>, k: int, w: Window)
    requires ClaimsNoted(before, t, claimed, noted) && ServedHaveWindows(t, served)
    requires 0 <= k < |t| == |after| && Given(t[k], w, after[k]) && Unique(after)
    requires forall i :: 0 <= i < |t| && i != k ==> after[i] == t[i]
    requires RowsGiven(before, t) && !OwnedBySome(t, w.tmuxWindow)
    ensures ClaimsNoted(before, after, claimed, noted + {w.tmuxWindow})
    ensures ServedHaveWindows(after, served + {t[k].sessionId})
  {
    if OwnedBySome(before, w.tmuxWindow) {
      StillOwned(before, t, w.tmuxWindow);
    }
    forall v
      ensures OwnedBySome(after, v) <==> OwnedBySome(t, v) || v == w.tmuxWindow
    {
      OwnersAfterGift(t, after, k, w, v);
    }
    assert after[k].sessionId == t[k].sessionId;
    hide OwnedBySome;
  }

  // -- unique names -------------------------------------------------------

  ghost predicate IsFree(w: Window, noted: set<string>, name: string) {
    w.managed && w.name == name && w.tmuxWindow !in noted
  }

  /** The only window of the snapshot that is managed, not taken for claimed, and has its name. */
  ghost predicate OnlyAt(windows: seq<Window>, noted: set<string>, w: Window, p: int) {
    && 0 <= p < |windows| && windows[p] == w && IsFree(w, noted, w.name)
    && forall q :: 0 <= q < |windows| && q != p ==> !IsFree(windows[q], noted, w.name)
  }

  ghost predicate OnlyFree(windows: seq<Window>, noted: set<string>, w: Window) {
    exists p :: OnlyAt(windows, noted, w, p)
  }

  lemma {:induction false} NoneCounted(windows: seq<Window>, noted: set<string>, name: string)
    ensures CountNamed(windows, noted, name) == 0 <==>
      forall p :: 0 <= p < |windows| ==> !IsFree(windows[p], noted, name)
  {
    if windows != [] {
      var n := |windows| - 1;
      NoneCounted(windows[..n], noted, name);
      hide CountNamed;
      CountOfMore(windows, noted, name);
      assert forall p :: 0 <= p < n ==> windows[..n][p] == windows[p];
    }
  }

  lemma CountOfMore(windows: seq<Window>, noted: set<string>, name: string)
    requires windows != []
    ensures CountNamed(windows, noted, name) == CountNamed(windows[..|windows| - 1], noted, name)
      + (if IsFree(windows[|windows| - 1], noted, name) then 1 else 0)
  {
  }

  lemma {:induction false} OneCounted(windows: seq<Window>, noted: set<string>, w: Window)
    ensures CountNamed(windows, noted, w.name) == 1 && w in windows && IsFree(w, noted, w.name) <==>
      OnlyFree(windows, noted, w)
  {
    hide CountNamed, IsFree;
    if windows == [] {
      assert !OnlyFree(windows, noted, w);
    } else {
      var n := |windows| - 1;
      var name := w.name;
      CountOfMore(windows, noted, name);
      NoneCounted(windows[..n], noted, name);
      OneCounted(windows[..n], noted, w);
      assert forall p :: 0 <= p < n ==> windows[..n][p] == windows[p];
      if p :| OnlyAt(windows[..n], noted, w, p) && !IsFree(windows[n], noted, name) {
        assert OnlyAt(windows, noted, w, p);
      }
      if p :| OnlyAt(windows, noted, w, p) {
        if p < n {
          assert OnlyAt(windows[..n], noted, w, p);
        }
      }
      if IsFree(windows[n], noted, name) && windows[n] == w && CountNamed(windows[..n], noted, name) == 0 {
        assert OnlyAt(windows, noted, w, n);
      }
      if CountNamed(windows, noted, name) == 1 && w in windows && IsFree(w, noted, name) {
        if IsFree(windows[n], noted, name) && w != windows[n] {
          LastApart(windows, w);
        } else if w != windows[n] {
          LastApart(windows, w);
        }
      }
    }
  }

  /** Row `i` got `w` by its name: it is a candidate's row, and the window's name is its own. */
  ghost predicate ByName(mid: Table, after: Table, names: map<string, Window>, left: seq<Candidate>, i: int) {
    && 0 <= i < |mid| == |after| && mid[i].displayName in names
    && (exists c :: c in left && c.logPath == mid[i].logPath)
    && Given(mid[i], names[mid[i].displayName], after[i])
    && !OwnedBySome(mid, names[mid[i].displayName].tmuxWindow)
  }

  /** A candidate's session without a window is left without one for a reason: no window has its name, or that
      window has an owner. */
  ghost predicate NamePassed(after: Table, names: map<string, Window>, c: Candidate) {
    forall i :: IsLeft(after, c, i) && after[i].displayName in names ==>
      OwnedBySome(after, names[after[i].displayName].tmuxWindow)
  }

  ghost predicate IsLeft(t: Table, c: Candidate, i: int) {
    0 <= i < |t| && t[i].logPath == c.logPath && t[i].window == None
  }

  ghost predicate NamesGiven(mid: Table, after: Table, names: map<string, Window>, left: seq<Candidate>) {
    && |after| == |mid| && RowsGiven(mid, after)
    && (forall i :: 0 <= i < |mid| ==> after[i] == mid[i] || ByName(mid, after, names, left, i))
    && (forall c :: c in left ==> NamePassed(after, names, c))
  }

  /** The names still to give are those at first but for some whose window has an owner. */
  ghost predicate NamesLeft(after: Table, names: map<string, Window>, rest: map<string, Window>) {
    && (forall n :: n in rest ==> n in names && rest[n] == names[n])
    && (forall n :: n in names ==> n in rest || OwnedBySome(after, names[n].tmuxWindow))
  }

  /** One candidate, told by what it changes. */
  lemma NameStepDoes(rs: RematchState, names: map<string, Window>, c: Candidate) returns (k: int)
    requires Unique(rs.st.rows)
    ensures var t, (rs', names') := rs.st.rows, NameStep(rs, names, c);
      && Unique(rs'.st.rows)
      && if k == -1 then rs' == rs && names' == names && NamePassed(t, names, c)
         else
           && 0 <= k < |t| == |rs'.st.rows| && t[k].logPath == c.logPath && t[k].displayName in names
           && var w := names[t[k].displayName];
           && Given(t[k], w, rs'.st.rows[k]) && (forall i :: 0 <= i < |t| && i != k ==> rs'.st.rows[i] == t[i])
           && !OwnedBySome(t, w.tmuxWindow) && names' == names - {t[k].displayName}
  {
    var t := rs.st.rows;
    k := ByLogPath(t, c.logPath);
    if k != -1 {
      OnlyLog(t, k);
      if t[k].window != None || t[k].displayName !in names {
        k := -1;
      } else {
        ClaimGives(t, k, names[t[k].displayName]);
        if !CanClaim(t, t[k].sessionId, names[t[k].displayName].tmuxWindow) {
          k := -1;
        }
      }
    }
    hide Unique, ById, ByLogPath, Claimed, CanClaim, OwnedBySome, Given;
  }

  lemma PassedStays(t: Table, after: Table, names: map<string, Window>, c: Candidate)
    requires RowsGiven(t, after) && NamePassed(t, names, c)
    ensures NamePassed(after, names, c)
  {
    forall i | IsLeft(after, c, i) && after[i].displayName in names
      ensures OwnedBySome(after, names[after[i].displayName].tmuxWindow)
    {
      NotYetGiven(t[i], after[i]);
      assert IsLeft(t, c, i);
      StillOwned(t, after, names[t[i].displayName].tmuxWindow);
    }
  }

  lemma PassedByRest(t: Table, names: map<string, Window>, rest: map<string, Window>, c: Candidate)
    requires NamesLeft(t, names, rest) && NamePassed(t, rest, c)
    ensures NamePassed(t, names, c)
  {
    hide OwnedBySome;
  }

  lemma NamesGift(mid: Table, t: Table, after: Table, names: map<string, Window>, rest: map<string, Window>,
                  left: seq<Candidate>, k: int, w: Window)
    requires left != [] && NamesGiven(mid, t, names, left[..|left| - 1]) && NamesLeft(t, names, rest)
    requires 0 <= k < |t| == |after| && t[k].logPath == left[|left| - 1].logPath
    requires t[k].displayName in rest && w == rest[t[k].displayName] && Given(t[k], w, after[k])
    requires forall i :: 0 <= i < |t| && i != k ==> after[i] == t[i]
    requires !OwnedBySome(t, w.tmuxWindow) && Unique(after)
    ensures NamesGiven(mid, after, names, left) && NamesLeft(after, names, rest - {t[k].displayName})
  {
    var n := |left| - 1;
    GiftsAdd(mid, t, after, k, w);
    OwnersAfterGift(t, after, k, w, w.tmuxWindow);
    if OwnedBySome(mid, w.tmuxWindow) {
      StillOwned(mid, t, w.tmuxWindow);
    }
    forall m | m in names && m !in rest - {t[k].displayName}
      ensures OwnedBySome(after, names[m].tmuxWindow)
    {
      if m !in rest {
        StillOwned(t, after, names[m].tmuxWindow);
      }
    }
    OnlyLog(after, k);
    assert NamePassed(after, names, left[n]);
    hide Given, OwnedBySome, Unique;
    assert left[n] in left && forall c :: c in left[..n] ==> c in left;
    forall i | 0 <= i < |mid|
      ensures after[i] == mid[i] || ByName(mid, after, names, left, i)
    {
      if i == k {
        assert ByName(mid, after, names, left, k);
      } else if t[i] != mid[i] {
        assert ByName(mid, t, names, left[..n], i);
      }
    }
    hide RowsGiven;
    forall c | c in left
      ensures NamePassed(after, names, c)
    {
      if c != left[n] {
        LastApart(left, c);
        assert RowsGiven(t, after);
        PassedStays(t, after, names, c);
      }
    }
  }

  lemma NoNameGift(mid: Table, t: Table, names: map<string, Window>, rest: map<string, Window>, left: seq<Candidate>)
    requires left != [] && NamesGiven(mid, t, names, left[..|left| - 1]) && NamesLeft(t, names, rest)
    requires NamePassed(t, rest, left[|left| - 1])
    ensures NamesGiven(mid, t, names, left)
  {
    PassedByRest(t, names, rest, left[|left| - 1]);
    hide OwnedBySome, Given, RowsGiven, NamePassed, NamesLeft;
    assert forall c :: c in left[..|left| - 1] ==> c in left;
    forall i | 0 <= i < |mid|
      ensures t[i] == mid[i] || ByName(mid, t, names, left, i)
    {
      if t[i] != mid[i] {
        assert ByName(mid, t, names, left[..|left| - 1], i);
      }
    }
    forall c | c in left
      ensures NamePassed(t, names, c)
    {
      if c != left[|left| - 1] {
        LastApart(left, c);
      }
    }
  }

  lemma NameMatchesStep(rs: RematchState, names: map<string, Window>, left: seq<Candidate>)
    requires left != []
    ensures var (rs', names') := NameMatches(rs, names, left[..|left| - 1]);
      NameMatches(rs, names, left) == NameStep(rs', names', left[|left| - 1])
  {
    hide NameStep;
  }

  lemma {:induction false} NameMatchesDo(rs: RematchState, names: map<string, Window>, left: seq<Candidate>)
    requires Unique(rs.st.rows)
    ensures var (rs', names') := NameMatches(rs, names, left);
      Unique(rs'.st.rows) && NamesGiven(rs.st.rows, rs'.st.rows, names, left) && NamesLeft(rs'.st.rows, names, names')
  {
    if left != [] {
      var n := |left| - 1;
      NameMatchesDo(rs, names, left[..n]);
      NameMatchesStep(rs, names, left);
      var (mid, rest) := NameMatches(rs, names, left[..n]);
      var k := NameStepDoes(mid, rest, left[n]);
      var after := NameStep(mid, rest, left[n]).0.st.rows;
      hide NameStep, NameMatches, Unique, OwnedBySome, Given, NamesGiven, NamesLeft, NamePassed;
      if k == -1 {
        NoNameGift(rs.st.rows, mid.st.rows, names, rest, left);
      } else {
        NamesGift(rs.st.rows, mid.st.rows, after, names, rest, left, k, rest[mid.st.rows[k].displayName]);
      }
    } else {
      hide Unique, OwnedBySome;
    }
  }

  // -- the whole rematch --------------------------------------------------

  /** The window was claimed when the snapshot was taken, or the content matches gave it. */
  ghost predicate IsTaken(before: Table, mid: Table, claimed: set<string>, v: string) {
    v in claimed || (OwnedBySome(mid, v) && !OwnedBySome(before, v))
  }

  ghost predicate Stands(before: Table, mid: Table, claimed: set<string>, w: Window, name: string) {
    w.managed && w.name == name && !IsTaken(before, mid, claimed, w.tmuxWindow)
  }

  ghost predicate NamesakeAt(before: Table, mid: Table, windows: seq<Window>, claimed: set<string>, w: Window, p: int) {
    && 0 <= p < |windows| && windows[p] == w && Stands(before, mid, claimed, w, w.name)
    && forall q :: 0 <= q < |windows| && q != p ==> !Stands(before, mid, claimed, windows[q], w.name)
  }

  /** The one managed window of that name which is not taken. */
  ghost predicate OnlyNamesake(before: Table, mid: Table, windows: seq<Window>, claimed: set<string>, w: Window) {
    exists p :: NamesakeAt(before, mid, windows, claimed, w, p)
  }

  /** Row `i` got `w` by its name. */
  ghost predicate GotByName(before: Table, mid: Table, after: Table, windows: seq<Window>, claimed: set<string>,
                            candidates: seq<Candidate>, i: int, w: Window) {
    && 0 <= i < |mid| == |after| && Given(mid[i], w, after[i]) && w.name == mid[i].displayName
    && OnlyNamesake(before, mid, windows, claimed, w) && !OwnedBySome(mid, w.tmuxWindow)
    && exists c :: c in candidates && c.logPath == mid[i].logPath
  }

  /** What the names do after the content matches: rows gain the only window of their name, and a candidate's
      session that is left without a window has no such window, or it has an owner. */
  ghost predicate NamesDone(before: Table, mid: Table, after: Table, windows: seq<Window>, claimed: set<string>,
                            candidates: seq<Candidate>) {
    && |after| == |mid| && RowsGiven(mid, after)
    && (forall i :: 0 <= i < |mid| ==>
          after[i] == mid[i] || exists w :: GotByName(before, mid, after, windows, claimed, candidates, i, w))
    && (forall c :: c in candidates ==> LeftForReason(before, mid, after, windows, claimed, c))
  }

  ghost predicate LeftForReason(before: Table, mid: Table, after: Table, windows: seq<Window>, claimed: set<string>,
                                c: Candidate) {
    forall i, w ::
      IsLeft(after, c, i) && after[i].sessionId == c.sessionId
      && IsNamesakeOf(before, mid, windows, claimed, after[i], w) ==>
      OwnedBySome(after, w.tmuxWindow)
  }

  ghost predicate IsNamesakeOf(before: Table, mid: Table, windows: seq<Window>, claimed: set<string>,
                               row: Row, w: Window) {
    w.name == row.displayName && OnlyNamesake(before, mid, windows, claimed, w)
  }

  lemma FreeIffStands(before: Table, mid: Table, claimed: set<string>, noted: set<string>, w: Window, name: string)
    requires ClaimsNoted(before, mid, claimed, noted)
    ensures IsFree(w, noted, name) <==> Stands(before, mid, claimed, w, name)
  {
    hide OwnedBySome;
  }

  lemma OnlyFreeIffNamesake(before: Table, mid: Table, windows: seq<Window>, claimed: set<string>, noted: set<string>,
                            w: Window)
    requires ClaimsNoted(before, mid, claimed, noted)
    ensures OnlyFree(windows, noted, w) <==> OnlyNamesake(before, mid, windows, claimed, w)
  {
    forall v: Window
      ensures IsFree(v, noted, w.name) <==> Stands(before, mid, claimed, v, w.name)
    {
      FreeIffStands(before, mid, claimed, noted, v, w.name);
    }
    hide IsFree, Stands, ClaimsNoted;
    if p :| OnlyAt(windows, noted, w, p) {
      assert NamesakeAt(before, mid, windows, claimed, w, p);
    }
    if p :| NamesakeAt(before, mid, windows, claimed, w, p) {
      assert OnlyAt(windows, noted, w, p);
    }
  }

  /** The table of names holds exactly the only namesakes. */
  lemma NamesAreNamesakes(before: Table, mid: Table, windows: seq<Window>, claimed: set<string>, noted: set<string>,
                          names: map<string, Window>)
    requires ClaimsNoted(before, mid, claimed, noted) && ByUniqueName(windows, noted, names)
    ensures forall w :: OnlyNamesake(before, mid, windows, claimed, w) <==> w.name in names && names[w.name] == w
  {
    forall w
      ensures OnlyNamesake(before, mid, windows, claimed, w) <==> w.name in names && names[w.name] == w
    {
      OnlyFreeIffNamesake(before, mid, windows, claimed, noted, w);
      OneCounted(windows, noted, w);
      assert IsFree(w, noted, w.name) <==> Nameable(w, noted, w.name);
      if w.name in names && CountNamed(windows, noted, w.name) == 1 && w in windows && IsFree(w, noted, w.name) {
        OnlyOneNamed(windows, noted, w, names[w.name]);
      }
      hide CountNamed, OnlyNamesake, OnlyFree, ClaimsNoted;
    }
  }

  lemma {:induction false} UnmatchedHolds(candidates: seq<Candidate>, served: set<string>, c: Candidate)
    ensures c in Unmatched(candidates, served) <==> c in candidates && c.sessionId !in served
  {
    if candidates != [] {
      var n := |candidates| - 1;
      UnmatchedHolds(candidates[..n], served, c);
      assert candidates == candidates[..n] + [candidates[n]];
    }
  }

  lemma NamesDoneFrom(before: Table, mid: Table, after: Table, windows: seq<Window>, claimed: set<string>,
                      noted: set<string>, served: set<string>, names: map<string, Window>, candidates: seq<Candidate>)
    requires ClaimsNoted(before, mid, claimed, noted) && ByUniqueName(windows, noted, names)
    requires ServedHaveWindows(mid, served) && NamesGiven(mid, after, names, Unmatched(candidates, served))
    ensures NamesDone(before, mid, after, windows, claimed, candidates)
  {
    NamesAreNamesakes(before, mid, windows, claimed, noted, names);
    forall c
      ensures c in Unmatched(candidates, served) <==> c in candidates && c.sessionId !in served
    {
      UnmatchedHolds(candidates, served, c);
    }
    assert forall n :: n in names ==> names[n].name == n;
    hide OnlyNamesake, ClaimsNoted, ByUniqueName, Unmatched, OwnedBySome, TakesOn;
    forall i | 0 <= i < |mid| && after[i] != mid[i]
      ensures exists w :: GotByName(before, mid, after, windows, claimed, candidates, i, w)
    {
      assert ByName(mid, after, names, Unmatched(candidates, served), i);
      assert GotByName(before, mid, after, windows, claimed, candidates, i, names[mid[i].displayName]);
    }
    forall c | c in candidates
      ensures LeftForReason(before, mid, after, windows, claimed, c)
    {
      forall i, w: Window | IsLeft(after, c, i) && after[i].sessionId == c.sessionId
        && IsNamesakeOf(before, mid, windows, claimed, after[i], w)
        ensures OwnedBySome(after, w.tmuxWindow)
      {
        NotYetGiven(mid[i], after[i]);
        assert c in Unmatched(candidates, served) && NamePassed(after, names, c);
      }
    }
  }

  /** A rematch gives by content first, then by name: every change of the table is a gift of one kind or the
      other, and nothing that either may give is left. */
  lemma RematchGives(before: PollState, windows: seq<Window>, claimed: set<string>, matches: seq<OrphanMatch>,
                     candidates: seq<Candidate>, after: PollState)
    requires Unique(before.rows) && Rematched(before, windows, claimed, matches, candidates, after)
    ensures exists mid ::
      && ContentDone(before.rows, mid, windows, claimed, matches)
      && NamesDone(before.rows, mid, after.rows, windows, claimed, candidates)
  {
    var rs := ContentMatches(RematchState(before, claimed, {}), matches, windows);
    var names :| ByUniqueName(windows, rs.claimed, names) &&
      after == NameMatches(rs, names, Unmatched(candidates, rs.matched)).0.st;
    hide *;
    ContentMatchesDo(before, windows, claimed, matches);
    NameMatchesDo(rs, names, Unmatched(candidates, rs.matched));
    NamesDoneFrom(before.rows, rs.st.rows, after.rows, windows, claimed, rs.claimed, rs.matched, names, candidates);
  }
}
