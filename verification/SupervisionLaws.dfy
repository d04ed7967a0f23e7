/** What the supervision of a change looks at, said of its facts alone: progress, the wait on display, the
    stage's holder and the deadline of a stall. */
module SupervisionLaws {
  import opened Options
  import opened Lists
  import opened CiGates
  import opened Supervision
  import StableSort

  // -- progress -----------------------------------------------------------

  ghost predicate RoundProgress(r: Round, t: int) {
    || r.ciPassedAt == Some(t)
    || (r.verdict.Some? && r.verdictAt == Some(t))
    || (r.outcome == Some(RoundPass) && r.decidedAt == Some(t))
  }

  /** The change made progress then: a result, a pass of the checks, a verdict, a passed round, the landing,
      or a passed or landed candidate. */
  ghost predicate IsProgress(input: Input, t: int) {
    || t in input.results
    || (exists r :: r in input.rounds && RoundProgress(r, t))
    || (input.landing.Some? && input.landing.value.landedAt == t)
    || (exists c :: c in input.candidates && c.passedOrLanded && c.decidedAt == Some(t))
  }

  lemma {:induction false} TimesOfRounds(rounds: seq<Round>, t: int)
    ensures Some(t) in AllRoundTimes(rounds) <==> exists r :: r in rounds && RoundProgress(r, t)
  {
    if rounds != [] {
      TimesOfRounds(rounds[1..], t);
      TimesOfRound(rounds[0], t);
      hide RoundTimes, RoundProgress;
      assert rounds == [rounds[0]] + rounds[1..];
    }
  }

  lemma TimesOfRound(r: Round, t: int)
    ensures Some(t) in RoundTimes(r) <==> RoundProgress(r, t)
  {
  }

  /** The times the last progress is the latest of. */
  function Times(input: Input): seq<Option<int>> {
    seq(|input.results|, i requires 0 <= i < |input.results| => Some(input.results[i]))
    + AllRoundTimes(input.rounds)
    + [if input.landing.Some? then Some(input.landing.value.landedAt) else None]
    + seq(|input.candidates|, i requires 0 <= i < |input.candidates| =>
        if input.candidates[i].passedOrLanded then input.candidates[i].decidedAt else None)
  }

  lemma TimesHold(input: Input, t: int)
    ensures Some(t) in Times(input) <==> IsProgress(input, t)
  {
    var results := seq(|input.results|, i requires 0 <= i < |input.results| => Some(input.results[i]));
    var candidates := seq(|input.candidates|, i requires 0 <= i < |input.candidates| =>
        if input.candidates[i].passedOrLanded then input.candidates[i].decidedAt else None);
    TimesOfRounds(input.rounds, t);
    hide AllRoundTimes, RoundProgress;
    assert Some(t) in results <==> t in input.results by {
      if i :| 0 <= i < |input.results| && input.results[i] == t {
        assert results[i] == Some(t);
      }
    }
    assert Some(t) in candidates <==>
      exists c :: c in input.candidates && c.passedOrLanded && c.decidedAt == Some(t) by {
      if c :| c in input.candidates && c.passedOrLanded && c.decidedAt == Some(t) {
        var i :| 0 <= i < |input.candidates| && input.candidates[i] == c;
        assert candidates[i] == Some(t);
      }
      if Some(t) in candidates {
        var i :| 0 <= i < |candidates| && candidates[i] == Some(t);
        assert input.candidates[i] in input.candidates;
      }
    }
  }

  /** The last progress is a time of progress, none is later, and it is missing only when there is none. */
  lemma ProgressHolds(input: Input)
    ensures ProgressAt(input).Some? ==> IsProgress(input, ProgressAt(input).value)
    ensures forall t :: IsProgress(input, t) ==> ProgressAt(input).Some? && t <= ProgressAt(input).value
  {
    LatestHolds(Times(input));
    assert ProgressAt(input) == Latest(Times(input));
    hide Times, Latest, ProgressAt, IsProgress;
    if ProgressAt(input).Some? {
      TimesHold(input, ProgressAt(input).value);
    }
    forall t | IsProgress(input, t)
      ensures Some(t) in Times(input)
    {
      TimesHold(input, t);
    }
  }

  // -- the deadline -------------------------------------------------------

  /** What counts as something happening: the delivery, progress, or the end of a wait. */
  ghost predicate Happened(input: Input, t: int) {
    || (input.instruction.Some? && input.instruction.value.deliveredAt == Some(t))
    || IsProgress(input, t)
    || input.waitEndedAt == Some(t)
  }

  ghost predicate IsAnchor(input: Input, anchor: int) {
    Happened(input, anchor) && forall t :: Happened(input, t) ==> t <= anchor
  }

  /** A holder that does nothing and waits for nobody. */
  ghost predicate Idles(h: Holder) {
    h.gone || (!h.turnRunning && h.pendingRequest.None? && h.backgroundTasks == 0 && h.workers == 0 && !h.dueDirectMail)
  }

  /** Two hours from the anchor, one in review; with an idle holder no later than a quarter of an hour from the
      anchor and the end of its last turn. */
  ghost predicate IsDeadline(input: Input, stage: Stage, anchor: int, deadline: int)
    requires input.instruction.Some?
  {
    var limit := anchor + (if stage == ReviewStage then 3_600_000 else 7_200_000);
    var holder := input.instruction.value.holder;
    if holder.Some? && Idles(holder.value) then
      var turn := holder.value.lastTurnEndAt;
      var idle := (if turn.Some? && turn.value > anchor then turn.value else anchor) + 900_000;
      (deadline == limit || deadline == idle) && deadline <= limit && deadline <= idle
    else deadline == limit
  }

  lemma DeadlineIs(input: Input, stage: Stage)
    requires HasDeadline(input, stage)
    ensures IsAnchor(input, AnchorAt(input, ProgressAt(input)))
    ensures IsDeadline(input, stage, AnchorAt(input, ProgressAt(input)), Deadline(input, stage, ProgressAt(input)))
  {
    ProgressHolds(input);
    hide ProgressAt, IsProgress;
  }

  lemma OneDeadline(input: Input, stage: Stage, a: int, d: int, a': int, d': int)
    requires input.instruction.Some? && IsAnchor(input, a) && IsAnchor(input, a')
    requires IsDeadline(input, stage, a, d) && IsDeadline(input, stage, a', d')
    ensures a == a' && d == d'
  {
    hide Happened;
  }

  // -- the stage ----------------------------------------------------------

  /** An agent holds the change: at its implementing attempt unless that is owed, at the review, or at an update
      under way between steps. */
  ghost predicate AgentHolds(input: Input, stage: Stage) {
    || (input.state == Some(StateImplementing)
        && (input.attempt.None? ==> stage == AttemptStage(Implement))
        && (input.attempt.Some? ==>
              input.attempt.value.status != Owed && stage == AttemptStage(input.attempt.value.kind)))
    || (input.state == Some(StateGating) && input.step == Some(Reviewing) && stage == ReviewStage)
    || (input.state == Some(StateGating) && input.step.None? && input.attempt == Some(Attempt(Update, Out))
        && stage == AttemptStage(Update))
  }

  lemma StageIff(input: Input, stage: Stage)
    ensures StageOf(input) == stage <==>
      AgentHolds(input, stage) || (stage == KawaiStage && forall a :: !AgentHolds(input, a))
  {
    assert forall a :: AgentHolds(input, a) ==> StageOf(input) == a;
    assert StageOf(input) != KawaiStage ==> AgentHolds(input, StageOf(input));
    assert !AgentHolds(input, KawaiStage);
  }

  // -- the outcome --------------------------------------------------------

  /** Past the deadline of an agent's stage, counted from what happened last. */
  ghost predicate Overdue(input: Input, now: int) {
    input.instruction.Some? && input.instruction.value.deliveredAt.Some?
    && exists stage, anchor, deadline ::
         && AgentHolds(input, stage) && IsAnchor(input, anchor)
         && IsDeadline(input, stage, anchor, deadline) && now >= deadline
  }

  lemma OverdueIff(input: Input, now: int)
    ensures Overdue(input, now) <==>
      HasDeadline(input, StageOf(input)) && now >= Deadline(input, StageOf(input), ProgressAt(input))
  {
    var stage := StageOf(input);
    StageIff(input, stage);
    assert !AgentHolds(input, KawaiStage);
    if HasDeadline(input, stage) {
      DeadlineIs(input, stage);
    }
    if Overdue(input, now) {
      var s, a, d :| AgentHolds(input, s) && IsAnchor(input, a) && IsDeadline(input, s, a, d) && now >= d;
      StageIff(input, s);
      hide AgentHolds, StageOf, IsAnchor, IsDeadline, Deadline, AnchorAt, ProgressAt;
      OneDeadline(input, s, a, d, AnchorAt(input, ProgressAt(input)), Deadline(input, s, ProgressAt(input)));
    }
  }

  /** A change in progress stalls exactly when two rounds failed alike or, while nothing holds it and its holder
      does not rest, its agent is overdue. */
  lemma StalledIff(input: Input, now: int)
    requires InProgress(input)
    ensures OutcomeAt(input, now) == Stalled <==>
      RepeatingFailureOf(input.rounds).Some? || (!Held(input) && !Resting(input, now) && Overdue(input, now))
  {
    ChangeUnderWay(input, now);
    OverdueIff(input, now);
    hide *;
  }

  /** Nothing stalls for lack of progress within a quarter of an hour after something happened. */
  lemma NoStallSoonAfter(input: Input, t: int, now: int)
    requires InProgress(input) && RepeatingFailureOf(input.rounds).None?
    requires Happened(input, t) && now < t + 900_000
    ensures OutcomeAt(input, now) != Stalled
  {
    hide *;
    StalledIff(input, now);
    if Overdue(input, now) {
      OverdueIsLate(input, t, now);
    }
  }

  lemma OverdueIsLate(input: Input, t: int, now: int)
    requires Overdue(input, now) && Happened(input, t)
    ensures now >= t + 900_000
  {
    hide AgentHolds, Happened;
    var s, a, d :| AgentHolds(input, s) && IsAnchor(input, a) && IsDeadline(input, s, a, d) && now >= d;
  }

  /** Before and after that the outcome is the state's own. */
  lemma OtherOutcomes(input: Input, now: int)
    ensures OutcomeAt(input, now) == Landed <==> input.landing.Some?
    ensures OutcomeAt(input, now) == NotStarted <==> input.landing.None? && input.state.None?
    ensures OutcomeAt(input, now) == Cancelled <==> input.landing.None? && input.state == Some(StateCancelled)
    ensures OutcomeAt(input, now) == Stopped <==> input.landing.None? && input.state == Some(StateStopped)
    ensures OutcomeAt(input, now) == Waiting <==>
      || (input.landing.None? && input.state == Some(StateWaiting))
      || (InProgress(input) && RepeatingFailureOf(input.rounds).None? && (Held(input) || Resting(input, now)))
  {
    if InProgress(input) {
      ChangeUnderWay(input, now);
    }
    hide RepeatingFailureOf, Held, Resting, HasDeadline, Deadline, ProgressAt, StageOf, StageWaitsOf;
  }

  // -- the waits on display -----------------------------------------------

  ghost predicate IsOpenState(state: string) {
    state in {"pending", "running", "unknown"}
  }

  ghost predicate FirstOpenAt(effects: seq<PlanEffect>, w: Wait, i: int) {
    0 <= i < |effects| && IsOpenState(effects[i].state)
    && (forall j :: 0 <= j < i ==> !IsOpenState(effects[j].state))
    && w == EffectWait(effects[i].kind, effects[i].state, effects[i].tries, effects[i].nextAt)
  }

  /** The first effect that is not settled. */
  ghost predicate FirstOpen(effects: seq<PlanEffect>, w: Wait) {
    exists i :: FirstOpenAt(effects, w, i)
  }

  /** Parking of the instruction or of its holder, or else the holder's cooling. */
  ghost predicate HoldsAsParking(input: Input, now: int, w: Wait) {
    input.instruction.Some?
    && var holder := input.instruction.value.holder;
    var session := if holder.Some? then Some(holder.value.session) else None;
    var profile := if holder.Some? then holder.value.profile else None;
    var until := if holder.Some? then holder.value.parkedUntil else None;
    if input.instruction.value.state == "parked" || (until.Some? && until.value > now) then
      w == Parked(session, profile, until, false)
    else
      holder.Some? && holder.value.coolingUntil.Some? && holder.value.coolingUntil.value > now
      && w == Parked(session, profile, holder.value.coolingUntil, true)
  }

  ghost predicate HoldsAsStep(input: Input, w: Wait) {
    match w
    case CiWait(pending) =>
      input.step == Some(AwaitingCi) && pending == PendingNames(LastCi(input.rounds))
    case MemberRelease(release) => input.step == Some(Releasing) && input.memberRelease == Some(release)
    case ConditionWait(conditions) =>
      input.step == Some(Conditions) && input.conditions == conditions && conditions != []
    case LandingSlot(slot) => input.step == Some(AwaitingSlot) && slot == input.slotHolder
    case _ => false
  }

  /** The named wait applies. */
  ghost predicate Applies(input: Input, now: int, w: Wait) {
    match w
    case EffectWait(_, _, _, _) => FirstOpen(input.effects, w)
    case UncertainDelivery(message) =>
      input.instruction.Some? && input.instruction.value.state == "uncertain"
      && message == input.instruction.value.messageId
    case Staffing(blocker) =>
      input.instruction.Some? && input.instruction.value.state in {"queued", "spawning", "awaiting-request"}
      && blocker == input.instruction.value.blocker
    case Parked(_, _, _, _) => HoldsAsParking(input, now, w)
    case RequestWait(session, request) =>
      input.instruction.Some? && input.instruction.value.holder.Some?
      && input.instruction.value.holder.value.session == session
      && input.instruction.value.holder.value.pendingRequest == Some(request)
    case DecisionCard(card) => |input.openCards| > 0 && card == input.openCards[0]
    case _ => HoldsAsStep(input, w)
  }

  /** The order of display. */
  function PlaceOf(w: Wait): nat {
    match w
    case EffectWait(_, _, _, _) => 0
    case UncertainDelivery(_) => 1
    case Staffing(_) => 2
    case Parked(_, _, _, _) => 3
    case RequestWait(_, _) => 4
    case DecisionCard(_) => 5
    case _ => 6
  }

  lemma {:induction false} EffectWaitsHold(effects: seq<PlanEffect>, w: Wait)
    ensures |EffectWaits(effects)| <= 1
    ensures w in EffectWaits(effects) <==> FirstOpen(effects, w)
  {
    if effects == [] {
      assert !FirstOpen(effects, w);
    } else if IsOpenState(effects[0].state) {
      hide IsOpenState;
      assert w in EffectWaits(effects) ==> FirstOpenAt(effects, w, 0);
    } else {
      EffectWaitsHold(effects[1..], w);
      hide IsOpenState;
      if i :| FirstOpenAt(effects, w, i) {
        assert effects[1..][i - 1] == effects[i];
        assert FirstOpenAt(effects[1..], w, i - 1);
      }
      if i :| FirstOpenAt(effects[1..], w, i) {
        assert effects[i + 1] == effects[1..][i];
        assert FirstOpenAt(effects, w, i + 1);
      }
    }
  }

  lemma ParkedWaitsHold(input: Input, now: int, w: Wait)
    ensures w in ParkedWaits(input, now) <==> w.Parked? && Applies(input, now, w)
  {
  }

  lemma StepWaitsHold(input: Input, now: int, w: Wait)
    ensures w in StepWaits(input) <==> PlaceOf(w) == 6 && Applies(input, now, w)
  {
    hide PendingNames, LastCi;
  }

  lemma OtherWaitsHold(input: Input, now: int, w: Wait)
    ensures w in UncertainWaits(input) <==> w.UncertainDelivery? && Applies(input, now, w)
    ensures w in StaffingWaits(input) <==> w.Staffing? && Applies(input, now, w)
    ensures w in RequestWaits(input) <==> w.RequestWait? && Applies(input, now, w)
    ensures w in CardWaits(input) <==> w.DecisionCard? && Applies(input, now, w)
  {
  }

  /** The waits on display are exactly those that apply. */
  lemma WaitsAreThoseThatApply(input: Input, now: int, w: Wait)
    ensures w in StageWaitsOf(input, now) <==> Applies(input, now, w)
  {
    EffectWaitsHold(input.effects, w);
    assert w in EffectWaits(input.effects) ==> w.EffectWait?;
    ParkedWaitsHold(input, now, w);
    StepWaitsHold(input, now, w);
    OtherWaitsHold(input, now, w);
    assert PlaceOf(w) == 6 && !HoldsAsStep(input, w) ==> !Applies(input, now, w);
    hide EffectWaits, ParkedWaits, StepWaits, UncertainWaits, StaffingWaits, RequestWaits, CardWaits, FirstOpen,
      HoldsAsStep;
  }

  /** A list of waits of one place each, in order. */
  ghost predicate InPlaces(waits: seq<Wait>, from: nat, to: nat) {
    && (forall i :: 0 <= i < |waits| ==> from <= PlaceOf(waits[i]) < to)
    && (forall i, j :: 0 <= i < j < |waits| ==> PlaceOf(waits[i]) < PlaceOf(waits[j]))
  }

  lemma PlacesAppend(a: seq<Wait>, b: seq<Wait>, from: nat, mid: nat, to: nat)
    requires InPlaces(a, from, mid) && InPlaces(b, mid, to) && from <= mid <= to
    ensures InPlaces(a + b, from, to)
  {
    hide PlaceOf;
  }

  /** They come in the order of display, at most one of each place. */
  lemma WaitsAreInOrder(input: Input, now: int)
    ensures InPlaces(StageWaitsOf(input, now), 0, 7)
  {
    var a, b, c := EffectWaits(input.effects), UncertainWaits(input), StaffingWaits(input);
    var d, e, f, g := ParkedWaits(input, now), RequestWaits(input), CardWaits(input), StepWaits(input);
    assert StageWaitsOf(input, now) == a + b + c + d + e + f + g;
    hide *;
    EffectInPlace(input.effects);
    PartsInPlaces(input, now);
    PlacesAppend(a, b, 0, 1, 2);
    PlacesAppend(a + b, c, 0, 2, 3);
    PlacesAppend(a + b + c, d, 0, 3, 4);
    PlacesAppend(a + b + c + d, e, 0, 4, 5);
    PlacesAppend(a + b + c + d + e, f, 0, 5, 6);
    PlacesAppend(a + b + c + d + e + f, g, 0, 6, 7);
  }

  lemma EffectInPlace(effects: seq<PlanEffect>)
    ensures InPlaces(EffectWaits(effects), 0, 1)
  {
    EffectWaitsHold(effects, CiWait([]));
    forall w | w in EffectWaits(effects)
      ensures PlaceOf(w) == 0
    {
      EffectWaitsHold(effects, w);
    }
    hide EffectWaits;
  }

  lemma PartsInPlaces(input: Input, now: int)
    ensures InPlaces(UncertainWaits(input), 1, 2) && InPlaces(StaffingWaits(input), 2, 3)
    ensures InPlaces(ParkedWaits(input, now), 3, 4) && InPlaces(RequestWaits(input), 4, 5)
    ensures InPlaces(CardWaits(input), 5, 6) && InPlaces(StepWaits(input), 6, 7)
  {
    hide PendingNames, LastCi;
  }

  /** A wait for the checks names those whose newest run is unfinished, in the round of the highest number. */
  lemma PendingNamesHold(checks: seq<Check>, name: string)
    ensures name in PendingNames(checks) <==> exists c :: IsNewest(checks, c) && ClassOf(c) == Waits && c.name == name
  {
    var waiting := Filter(NewestRuns(checks), (c: Check) => ClassOf(c) == Waits);
    hide NewestRuns, IsNewest, ClassOf;
    if name in PendingNames(checks) {
      var i :| 0 <= i < |waiting| && Names(waiting)[i] == name;
      assert waiting[i] in waiting;
      NewestRunsHold(checks, waiting[i]);
    }
    if c :| IsNewest(checks, c) && ClassOf(c) == Waits && c.name == name {
      NewestRunsHold(checks, c);
      var i :| 0 <= i < |waiting| && waiting[i] == c;
      assert Names(waiting)[i] == name;
    }
  }

  lemma LastCiIs(rounds: seq<Round>, r: Round)
    requires r in rounds && forall s :: s in rounds && s != r ==> s.number < r.number
    ensures LastCi(rounds) == if r.ci.Some? then r.ci.value else []
  {
    NewestRoundLast(rounds, r);
    hide SortedRounds;
  }

  lemma NewestRoundLast(rounds: seq<Round>, r: Round)
    requires r in rounds && forall s :: s in rounds && s != r ==> s.number < r.number
    ensures var sorted := SortedRounds(rounds); sorted != [] && sorted[|sorted| - 1] == r
  {
    SortedRoundsHold(rounds, r);
    var sorted := SortedRounds(rounds);
    hide SortedRounds;
    LastIsHighest(sorted, r);
    assert sorted[|sorted| - 1] in sorted;
  }

  lemma SortedRoundsHold(rounds: seq<Round>, r: Round)
    ensures StableSort.InOrder(SortedRounds(rounds), ByNumber)
    ensures forall s :: s in SortedRounds(rounds) <==> s in rounds
  {
    StableSort.SameElements(rounds, ByNumber);
    StableSort.SortedHolds(rounds, ByNumber, r);
  }

  lemma LastIsHighest(sorted: seq<Round>, r: Round)
    requires StableSort.InOrder(sorted, ByNumber) && r in sorted
    ensures sorted[|sorted| - 1].number >= r.number
  {
    StableSort.LastIsLatest(sorted, ByNumber, r);
  }

  // -- before it is provisioned -------------------------------------------

  /** A change that waits to be provisioned waits for its dependencies, then for an effect, and only if neither
      holds it for the parallel limit. */
  lemma EarlyWaitsHold(input: Input, w: Wait)
    ensures w in EarlyWaits(input) <==>
      || (w.DependencyWait? && w.changes != [] && w.changes == ChangesOf(input.dependencies, false)
          && w.stopped == ChangesOf(input.dependencies, true))
      || FirstOpen(input.effects, w)
      || (w == ParallelLimit(input.parallelLimit)
          && (forall d :: d in input.dependencies ==> d.outcome == Landed)
          && forall e :: e in input.effects ==> !IsOpenState(e.state))
    ensures EarlyWaits(input) != []
    ensures EarlyWaits(input)[0].DependencyWait? <==> ChangesOf(input.dependencies, false) != []
  {
    EffectWaitsHold(input.effects, w);
    OneEffectWait(input.effects);
    NoneUnlanded(input.dependencies);
    assert forall e: PlanEffect :: IsOpen(e) <==> IsOpenState(e.state);
    if EffectWaits(input.effects) != [] {
      EffectWaitsHold(input.effects, EffectWaits(input.effects)[0]);
    }
    hide EffectWaits, ChangesOf, FirstOpen, IsOpen, IsOpenState;
  }

  lemma {:induction false} NoneUnlanded(dependencies: seq<Dependency>)
    ensures ChangesOf(dependencies, false) == [] <==> forall d :: d in dependencies ==> d.outcome == Landed
  {
    if dependencies != [] {
      NoneUnlanded(dependencies[1..]);
      assert dependencies == [dependencies[0]] + dependencies[1..];
    }
  }

  /** The dependencies named are those not landed, and apart from them those stopped. */
  lemma {:induction false} ChangesHold(dependencies: seq<Dependency>, name: string)
    ensures name in ChangesOf(dependencies, false) <==>
      exists d :: d in dependencies && d.change == name && d.outcome != Landed
    ensures name in ChangesOf(dependencies, true) <==>
      exists d :: d in dependencies && d.change == name && d.outcome == Stopped
  {
    if dependencies != [] {
      ChangesHold(dependencies[1..], name);
      assert dependencies == [dependencies[0]] + dependencies[1..];
    }
  }
}
