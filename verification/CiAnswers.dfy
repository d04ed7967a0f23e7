/** What an answer of the CI gate carries: the failed checks, the names waited for, the floors not covered,
    and the flaky names. */
module CiAnswers {
  import opened Options
  import opened Lists
  import opened CiGates
  import StableSort

  // -- what a run counts as -----------------------------------------------

  /** Letters of the same word, whatever their case. */
  ghost predicate SameWord(text: string, word: string) {
    |text| == |word| && forall i :: 0 <= i < |text| ==> SameLetter(text[i], word[i])
  }

  ghost predicate SameLetter(c: char, small: char) {
    c == small || ('A' <= c <= 'Z' && c as int + 32 == small as int)
  }

  lemma LowerIs(text: string, word: string)
    requires forall i :: 0 <= i < |word| ==> !('A' <= word[i] <= 'Z')
    ensures Lower(text) == word <==> SameWord(text, word)
  {
    if Lower(text) == word {
      forall i | 0 <= i < |text|
        ensures SameLetter(text[i], word[i])
      {
        assert Lower(text)[i] == word[i];
      }
    }
  }

  ghost predicate SaysPassed(c: Check) {
    SameWord(c.conclusion, "success") || SameWord(c.conclusion, "neutral") || SameWord(c.conclusion, "skipped")
  }

  ghost predicate SaysUnfinished(c: Check) {
    || SameWord(c.conclusion, "queued") || SameWord(c.conclusion, "in_progress") || SameWord(c.conclusion, "waiting")
    || SameWord(c.conclusion, "requested") || SameWord(c.conclusion, "pending")
  }

  /** Every conclusion that is neither counts as a failure. */
  lemma ClassIff(c: Check)
    ensures ClassOf(c) == Passes <==> SaysPassed(c)
    ensures ClassOf(c) == Waits <==> SaysUnfinished(c)
  {
    LowerIs(c.conclusion, "success");
    LowerIs(c.conclusion, "neutral");
    LowerIs(c.conclusion, "skipped");
    LowerIs(c.conclusion, "queued");
    LowerIs(c.conclusion, "in_progress");
    LowerIs(c.conclusion, "waiting");
    LowerIs(c.conclusion, "requested");
    LowerIs(c.conclusion, "pending");
    hide Lower, SameWord;
  }

  /** A run of a workflow that was rerun, completed before the rerun: its new run is still to come. */
  ghost predicate Superseded(rerun: Option<Rerun>, c: Check) {
    && rerun.Some? && c.source == Actions && c.runId.Some? && c.runId.value in rerun.value.runIds
    && c.completedAt.Some? && c.completedAt.value < rerun.value.at
  }

  /** A failure that stays one: it is not superseded, and there is no rerun left for it. */
  ghost predicate FailsForGood(rerun: Option<Rerun>, c: Check) {
    && !SaysPassed(c) && !SaysUnfinished(c) && !Superseded(rerun, c)
    && (rerun.Some? || c.source != Actions || c.runId.None?)
  }

  ghost predicate StillRuns(rerun: Option<Rerun>, c: Check) {
    SaysUnfinished(c) || Superseded(rerun, c)
  }

  lemma BearingIff(rerun: Option<Rerun>, c: Check)
    ensures Final(rerun, c) <==> FailsForGood(rerun, c)
    ensures Unfinished(rerun, c) <==> StillRuns(rerun, c)
  {
    ClassIff(c);
    hide ClassOf, SaysPassed, SaysUnfinished;
  }

  // -- what the answers carry ---------------------------------------------

  lemma {:induction false} HistoryHolds(checks: seq<Check>, of: seq<Check>, c: Check)
    ensures c in History(checks, of) <==> c in checks && exists d :: d in of && d.name == c.name
  {
    if of != [] {
      var n := |of| - 1;
      HistoryHolds(checks, of[..n], c);
      LastSplit(of);
      SortedKeeps(OfName(checks, of[n].name), c);
      assert forall d :: d in of <==> d in of[..n] || d == of[n];
      hide Sorted, OfName;
    }
  }

  lemma SortedKeeps(runs: seq<Check>, c: Check)
    ensures c in Sorted(runs) <==> c in runs
  {
    StableSort.SameElements(runs, StartsSooner);
  }

  lemma NamesHold(checks: seq<Check>, name: string)
    ensures name in Names(checks) <==> exists c :: c in checks && c.name == name
  {
    if c :| c in checks && c.name == name {
      var i :| 0 <= i < |checks| && checks[i] == c;
      assert Names(checks)[i] == name;
    }
    if name in Names(checks) {
      var i :| 0 <= i < |checks| && Names(checks)[i] == name;
      assert checks[i] in checks;
    }
  }

  ghost predicate NewestIs(checks: seq<Check>, name: string, test: Check -> bool) {
    exists d :: IsNewest(checks, d) && d.name == name && test(d)
  }

  /** The finally failed newest runs, as the gate collects them. */
  function FinalRuns(checks: seq<Check>, rerun: Option<Rerun>): seq<Check> {
    Filter(Filter(NewestRuns(checks), (c: Check) => Failed(rerun, c)), (c: Check) => rerun.Some? || !Rerunnable(c))
  }

  lemma FinalRunsHold(checks: seq<Check>, rerun: Option<Rerun>, d: Check)
    ensures d in FinalRuns(checks, rerun) <==> IsNewest(checks, d) && FailsForGood(rerun, d)
  {
    NewestRunsHold(checks, d);
    BearingIff(rerun, d);
    hide NewestRuns, IsNewest, FailsForGood, Failed, Rerunnable;
    assert Final(rerun, d) <==> Failed(rerun, d) && (rerun.Some? || !Rerunnable(d));
  }

  lemma FailCarries(checks: seq<Check>, floors: seq<Floor>, timing: Timing)
    requires EvaluateCi(checks, floors, timing).Fail?
    ensures EvaluateCi(checks, floors, timing).checks == History(checks, FinalRuns(checks, timing.rerun))
  {
    hide NewestRuns, FlakyChecks, History, RunIds, Uncovered, Filter, Failed, Unfinished, Names;
  }

  /** A failure shows every run of exactly the names whose newest run fails for good. */
  lemma FailShows(checks: seq<Check>, floors: seq<Floor>, timing: Timing, c: Check)
    requires EvaluateCi(checks, floors, timing).Fail?
    ensures c in EvaluateCi(checks, floors, timing).checks <==>
      c in checks && exists d :: IsNewest(checks, d) && d.name == c.name && FailsForGood(timing.rerun, d)
  {
    FailCarries(checks, floors, timing);
    HistoryHolds(checks, FinalRuns(checks, timing.rerun), c);
    forall d
      ensures d in FinalRuns(checks, timing.rerun) <==> IsNewest(checks, d) && FailsForGood(timing.rerun, d)
    {
      FinalRunsHold(checks, timing.rerun, d);
    }
    hide EvaluateCi, History, FinalRuns, IsNewest, FailsForGood;
  }

  function UnfinishedRuns(checks: seq<Check>, rerun: Option<Rerun>): seq<Check> {
    Filter(NewestRuns(checks), (c: Check) => Unfinished(rerun, c))
  }

  lemma UnfinishedRunsHold(checks: seq<Check>, rerun: Option<Rerun>, name: string)
    ensures name in Names(UnfinishedRuns(checks, rerun)) <==>
      exists d :: IsNewest(checks, d) && d.name == name && StillRuns(rerun, d)
  {
    NamesHold(UnfinishedRuns(checks, rerun), name);
    forall d
      ensures d in UnfinishedRuns(checks, rerun) <==> IsNewest(checks, d) && StillRuns(rerun, d)
    {
      NewestRunsHold(checks, d);
      BearingIff(rerun, d);
    }
    hide NewestRuns, IsNewest, StillRuns, UnfinishedRuns, Names;
  }

  lemma WaitCarries(checks: seq<Check>, floors: seq<Floor>, timing: Timing)
    requires checks != []
    ensures var e := EvaluateCi(checks, floors, timing);
      && (e.Pending? ==> e.pending == Names(UnfinishedRuns(checks, timing.rerun)))
      && (e.Stop? && e.reason == CiTimeout ==> e.names == Names(UnfinishedRuns(checks, timing.rerun)))
      && (e.Stop? && e.reason == CiMissing ==> e.names == Uncovered(NewestRuns(checks), floors))
      && (e.Pass? ==> e.flaky == FlakyChecks(checks))
  {
    hide NewestRuns, FlakyChecks, History, RunIds, Uncovered, Filter, Failed, Unfinished, Names;
  }

  /** Waiting and giving up name exactly the checks whose newest run is still to come. */
  lemma WaitShows(checks: seq<Check>, floors: seq<Floor>, timing: Timing, name: string)
    ensures var e := EvaluateCi(checks, floors, timing);
      && (e.Pending? ==>
          (name in e.pending <==> exists d :: IsNewest(checks, d) && d.name == name && StillRuns(timing.rerun, d)))
      && (e.Stop? && e.reason == CiTimeout ==>
          (name in e.names <==> exists d :: IsNewest(checks, d) && d.name == name && StillRuns(timing.rerun, d)))
  {
    UnfinishedRunsHold(checks, timing.rerun, name);
    if checks != [] {
      WaitCarries(checks, floors, timing);
      hide EvaluateCi, UnfinishedRuns, IsNewest, StillRuns;
    } else {
      assert forall d :: !IsNewest(checks, d);
      hide UnfinishedRuns, StillRuns, IsNewest;
    }
  }

  lemma UncoveredHolds(checks: seq<Check>, floors: seq<Floor>, key: string)
    ensures key in Uncovered(NewestRuns(checks), floors) <==>
      exists f :: f in floors && f.key == key && !Covered(checks, f)
  {
    var newest := NewestRuns(checks);
    var passing := Names(Filter(newest, (c: Check) => ClassOf(c) == Passes));
    var uncovered := Filter(floors, (f: Floor) => !exists name :: name in f.names && name in passing);
    forall f: Floor
      ensures (exists name :: name in f.names && name in passing) <==> Covered(checks, f)
    {
      CoveredByNames(checks, f);
    }
    hide NewestRuns, Covered, ClassOf, Names;
    if f :| f in floors && f.key == key && !Covered(checks, f) {
      assert f in uncovered;
      var i :| 0 <= i < |uncovered| && uncovered[i] == f;
      assert Uncovered(newest, floors)[i] == key;
    }
    if key in Uncovered(newest, floors) {
      var i :| 0 <= i < |uncovered| && Uncovered(newest, floors)[i] == key;
      assert uncovered[i] in uncovered;
    }
  }

  lemma CoveredByNames(checks: seq<Check>, f: Floor)
    ensures var passing := Names(Filter(NewestRuns(checks), (c: Check) => ClassOf(c) == Passes));
      (exists name :: name in f.names && name in passing) <==> Covered(checks, f)
  {
    var passed := Filter(NewestRuns(checks), (c: Check) => ClassOf(c) == Passes);
    forall name
      ensures name in Names(passed) <==> exists c :: IsNewest(checks, c) && ClassOf(c) == Passes && c.name == name
    {
      NamesHold(passed, name);
      forall c
        ensures c in passed <==> IsNewest(checks, c) && ClassOf(c) == Passes
      {
        NewestRunsHold(checks, c);
      }
    }
    hide NewestRuns, IsNewest, ClassOf, Names;
  }

  /** A missing floor stops the round with the keys of exactly the floors no passing newest run covers; a
      report that stays empty stops it with none. */
  lemma MissingShows(checks: seq<Check>, floors: seq<Floor>, timing: Timing, key: string)
    requires EvaluateCi(checks, floors, timing).Stop? && EvaluateCi(checks, floors, timing).reason == CiMissing
    ensures key in EvaluateCi(checks, floors, timing).names <==>
      checks != [] && exists f :: f in floors && f.key == key && !Covered(checks, f)
  {
    if checks != [] {
      WaitCarries(checks, floors, timing);
      UncoveredHolds(checks, floors, key);
      hide EvaluateCi, Uncovered, Covered, NewestRuns;
    }
  }

  /** A pass names exactly the names of which a run failed. */
  lemma PassShows(checks: seq<Check>, floors: seq<Floor>, timing: Timing, name: string)
    requires EvaluateCi(checks, floors, timing).Pass?
    ensures name in EvaluateCi(checks, floors, timing).flaky <==>
      exists c :: c in checks && c.name == name && !SaysPassed(c) && !SaysUnfinished(c)
  {
    PassIff(checks, floors, timing);
    WaitCarries(checks, floors, timing);
    FlakyMeans(checks, name);
    hide EvaluateCi, FlakyChecks, IsNewest;
    forall c: Check
      ensures ClassOf(c) == Fails <==> !SaysPassed(c) && !SaysUnfinished(c)
    {
      ClassIff(c);
    }
    hide ClassOf, SaysPassed, SaysUnfinished;
    if c :| c in checks && c.name == name && ClassOf(c) == Fails {
      var d := NewestExists(checks, c);
    }
  }

  // -- the kinds in plain terms -------------------------------------------

  ghost predicate OneFails(checks: seq<Check>, rerun: Option<Rerun>) {
    exists d :: IsNewest(checks, d) && FailsForGood(rerun, d)
  }

  ghost predicate OneRuns(checks: seq<Check>, rerun: Option<Rerun>) {
    exists d :: IsNewest(checks, d) && StillRuns(rerun, d)
  }

  ghost predicate AllPassed(checks: seq<Check>) {
    forall d :: IsNewest(checks, d) ==> SaysPassed(d)
  }

  lemma TestsInPlainTerms(checks: seq<Check>, rerun: Option<Rerun>)
    ensures SomeNewest(checks, c => Final(rerun, c)) <==> OneFails(checks, rerun)
    ensures SomeNewest(checks, c => Unfinished(rerun, c)) <==> OneRuns(checks, rerun)
    ensures !OneFails(checks, rerun) && !OneRuns(checks, rerun) ==>
      (SomeNewest(checks, c => Failed(rerun, c)) <==> !AllPassed(checks))
  {
    forall c
      ensures Final(rerun, c) <==> FailsForGood(rerun, c)
      ensures Unfinished(rerun, c) <==> StillRuns(rerun, c)
      ensures ClassOf(c) == Passes <==> SaysPassed(c)
    {
      BearingIff(rerun, c);
      ClassIff(c);
    }
    hide IsNewest, FailsForGood, StillRuns, SaysPassed, ClassOf, AwaitsRerun, Rerunnable;
    var final, unfinished, failed :=
      (c: Check) => Final(rerun, c), (c: Check) => Unfinished(rerun, c), (c: Check) => Failed(rerun, c);
    assert forall d :: final(d) == FailsForGood(rerun, d) && unfinished(d) == StillRuns(rerun, d);
    assert forall d :: !Final(rerun, d) && !Unfinished(rerun, d) ==> failed(d) == (ClassOf(d) != Passes);
  }

  /** The kind of every answer: a failure for good comes first, then what still runs, then what can be rerun,
      then the floor; half an hour without a check, or three hours without an end, stop the round. */
  lemma KindInPlainTerms(checks: seq<Check>, floors: seq<Floor>, timing: Timing)
    ensures var e, elapsed := EvaluateCi(checks, floors, timing), timing.now - timing.windowFrom;
      if checks == [] then e == if elapsed >= 1_800_000 then Stop(CiMissing, []) else Pending([])
      else if OneFails(checks, timing.rerun) then e.Fail?
      else if OneRuns(checks, timing.rerun) then
        (if elapsed >= 10_800_000 then e.Stop? && e.reason == CiTimeout else e.Pending?)
      else if !AllPassed(checks) then e.AskRerun?
      else if forall f :: f in floors ==> Covered(checks, f) then e.Pass?
      else e.Stop? && e.reason == CiMissing
  {
    VerdictIsKind(checks, floors, timing);
    TestsInPlainTerms(checks, timing.rerun);
    if checks != [] {
      hide EvaluateCi, OneFails, OneRuns, AllPassed, SomeNewest, Covered;
    }
  }

  // -- the rerun effect of a round ----------------------------------------

  /** A poll answers as the gate does, told of the rerun once it is done, and starts one when that is asked
      for; while one is under way it says nothing. The effect ends as it settles, and only while it is under way. */
  lemma EventDoes(floors: seq<Floor>, effect: Effect, event: Event)
    ensures event.Settled? && effect.UnderWay? && event.ok ==>
      AfterEvent(floors, effect, event) == (Done(event.at, effect.runIds), None)
    ensures event.Settled? && effect.UnderWay? && !event.ok ==>
      AfterEvent(floors, effect, event) == (EffectFailed, None)
    ensures event.Settled? && !effect.UnderWay? ==> AfterEvent(floors, effect, event) == (effect, None)
    ensures event.Poll? && effect.UnderWay? ==> AfterEvent(floors, effect, event) == (effect, None)
    ensures event.Poll? && !effect.UnderWay? ==>
      var (next, e) := AfterEvent(floors, effect, event);
      && (effect.Done? ==>
          var rerun := Some(Rerun(effect.at, effect.runIds));
          e == Some(EvaluateCi(event.checks, floors, Timing(event.windowFrom, event.now, rerun))))
      && (!effect.Done? ==> e == Some(EvaluateCi(event.checks, floors, Timing(event.windowFrom, event.now, None))))
      && next == if e.value.AskRerun? then UnderWay(e.value.runIds) else effect
  {
    hide EvaluateCi;
  }
}
