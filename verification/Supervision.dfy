/** Supervision of a plan's change: what it waits on, and when it counts as stalled. Times are
    milliseconds. */
module Supervision {
  import opened Options
  import opened Strings
  import opened CiGates
  import opened Lists
  import opened NameOrder
  import StableSort

  const NO_PROGRESS_ATTEMPT_MS := 2 * 60 * 60 * 1000
  const NO_PROGRESS_REVIEW_MS := 60 * 60 * 1000
  const NO_PROGRESS_IDLE_MS := 15 * 60 * 1000

  datatype Outcome = Landed | Running | Waiting | Stalled | Stopped | Cancelled | NotStarted

  datatype ChangeState =
    | StateWaiting | StateProvisioning | StateImplementing | StateGating | StateLanding | StateLanded
    | StateStopped | StateCancelled

  datatype ChangeStep =
    | Pushing | OpeningPr | AwaitingCi | Releasing | Reviewing | ReviewRestart | Conditions | AwaitingSlot
    | UpToDate | Updating | Merging | Redispatch

  datatype AttemptKind = Implement | Fix | Update

  datatype AttemptStatus = Answered | Owed | Out

  datatype Attempt = Attempt(kind: AttemptKind, status: AttemptStatus)

  datatype Stage = AttemptStage(kind: AttemptKind) | ReviewStage | KawaiStage

  datatype Holder = Holder(
    session: string, profile: Option<string>, gone: bool, turnRunning: bool, pendingRequest: Option<string>,
    backgroundTasks: nat, workers: nat, dueDirectMail: bool,
    parkedUntil: Option<int>, coolingUntil: Option<int>, lastTurnEndAt: Option<int>)

  datatype RoundOutcome = RoundPass | RoundFail | RoundSuperseded

  datatype Round = Round(
    id: string, number: int, outcome: Option<RoundOutcome>, decidedAt: Option<int>, carriedFrom: Option<string>,
    ci: Option<seq<Check>>, ciPassedAt: Option<int>, verdict: Option<bool>, verdictAt: Option<int>)

  datatype PlanEffect = PlanEffect(kind: string, state: string, tries: nat, nextAt: Option<int>)

  datatype Instruction = Instruction(
    messageId: Option<string>, state: string, deliveredAt: Option<int>, blocker: Option<string>, holder: Option<Holder>)

  datatype Card = Card(cardId: string, addressedTo: string, addressedGroup: Option<string>)

  datatype Member = Member(member: string, reason: string)

  datatype Slot = Slot(kind: string, id: string)

  datatype Landing = Landing(landedAt: int, treeVerified: bool)

  datatype Candidate = Candidate(passedOrLanded: bool, decidedAt: Option<int>)

  datatype Dependency = Dependency(change: string, outcome: Outcome)

  datatype Input = Input(
    state: Option<ChangeState>, step: Option<ChangeStep>, stopReason: Option<string>, landing: Option<Landing>,
    dependencies: seq<Dependency>, parallelLimit: Option<int>, attempt: Option<Attempt>, rounds: seq<Round>,
    effects: seq<PlanEffect>, instruction: Option<Instruction>, openCards: seq<Card>, conditions: seq<string>,
    memberRelease: Option<Member>, slotHolder: Option<Slot>, candidates: seq<Candidate>, results: seq<int>,
    waitEndedAt: Option<int>)

  datatype Wait =
    | DependencyWait(changes: seq<string>, stopped: seq<string>)
    | ParallelLimit(limit: Option<int>)
    | EffectWait(effect: string, state: string, tries: nat, nextAt: Option<int>)
    | UncertainDelivery(messageId: Option<string>)
    | Staffing(blocker: Option<string>)
    | Parked(holder: Option<string>, profile: Option<string>, until: Option<int>, cooling: bool)
    | RequestWait(session: string, request: string)
    | DecisionCard(card: Card)
    | CiWait(pending: seq<string>)
    | MemberRelease(release: Member)
    | ConditionWait(conditions: seq<string>)
    | LandingSlot(slot: Option<Slot>)

  datatype Stall =
    | NoProgress(episodeAt: int, anchorAt: int, deadlineAt: int, idle: bool)
    | RepeatingFailure(signature: string, first: string, second: string)

  datatype Cause =
    | LandedCause(treeVerified: bool)
    | StoppedCause(reason: string)
    | CancelledCause
    | NotStartedCause
    | WaitCause(wait: Wait)
    | StallCause(noProgress: bool)
    | StageCause(stage: Stage, step: Option<ChangeStep>)

  datatype Supervised = Supervised(outcome: Outcome, cause: Cause, alsoApplying: seq<Wait>, stage: Option<Stage>,
                                   stall: Option<Stall>)

  // -- the named waits ----------------------------------------------------

  predicate IsOpen(e: PlanEffect) {
    e.state == "pending" || e.state == "running" || e.state == "unknown"
  }

  function EffectWaits(effects: seq<PlanEffect>): seq<Wait> {
    if effects == [] then []
    else if IsOpen(effects[0]) then [EffectWait(effects[0].kind, effects[0].state, effects[0].tries, effects[0].nextAt)]
    else EffectWaits(effects[1..])
  }

  function HolderOf(input: Input): Option<Holder> {
    if input.instruction.Some? then input.instruction.value.holder else None
  }

  function InstructionState(input: Input): string {
    if input.instruction.Some? then input.instruction.value.state else ""
  }

  predicate After(t: Option<int>, now: int) {
    t.Some? && t.value > now
  }

  function ParkedWaits(input: Input, now: int): seq<Wait> {
    var holder := HolderOf(input);
    var parkedUntil := if holder.Some? then holder.value.parkedUntil else None;
    var session := if holder.Some? then Some(holder.value.session) else None;
    var profile := if holder.Some? then holder.value.profile else None;
    if InstructionState(input) == "parked" || After(parkedUntil, now) then
      [Parked(session, profile, parkedUntil, false)]
    else if holder.Some? && After(holder.value.coolingUntil, now) then
      [Parked(session, profile, holder.value.coolingUntil, true)]
    else []
  }

  predicate ByNumber(a: Round, b: Round) {
    a.number < b.number
  }

  function SortedRounds(rounds: seq<Round>): (r: seq<Round>)
    ensures |r| == |rounds|
  {
    StableSort.Sorted(rounds, ByNumber)
  }

  function LastCi(rounds: seq<Round>): seq<Check> {
    var sorted := SortedRounds(rounds);
    if sorted == [] || sorted[|sorted| - 1].ci == None then [] else sorted[|sorted| - 1].ci.value
  }

  function PendingNames(checks: seq<Check>): seq<string> {
    Names(Filter(NewestRuns(checks), (c: Check) => ClassOf(c) == Waits))
  }

  function UncertainWaits(input: Input): seq<Wait> {
    if input.instruction.Some? && input.instruction.value.state == "uncertain" then
      [UncertainDelivery(input.instruction.value.messageId)]
    else []
  }

  function StaffingWaits(input: Input): seq<Wait> {
    if input.instruction.Some? && input.instruction.value.state in {"queued", "spawning", "awaiting-request"} then
      [Staffing(input.instruction.value.blocker)]
    else []
  }

  function RequestWaits(input: Input): seq<Wait> {
    var holder := HolderOf(input);
    if holder.Some? && holder.value.pendingRequest.Some? then
      [RequestWait(holder.value.session, holder.value.pendingRequest.value)]
    else []
  }

  function CardWaits(input: Input): seq<Wait> {
    if input.openCards != [] then [DecisionCard(input.openCards[0])] else []
  }

  function StepWaits(input: Input): seq<Wait> {
    if input.step == Some(AwaitingCi) then [CiWait(PendingNames(LastCi(input.rounds)))]
    else if input.step == Some(Releasing) && input.memberRelease.Some? then [MemberRelease(input.memberRelease.value)]
    else if input.step == Some(Conditions) && input.conditions != [] then [ConditionWait(input.conditions)]
    else if input.step == Some(AwaitingSlot) then [LandingSlot(input.slotHolder)]
    else []
  }

  /** Every named wait that applies, in order; only the parking depends on the clock. */
  function StageWaitsOf(input: Input, now: int): seq<Wait> {
    EffectWaits(input.effects) + UncertainWaits(input) + StaffingWaits(input) + ParkedWaits(input, now)
    + RequestWaits(input) + CardWaits(input) + StepWaits(input)
  }

  method StageWaits(input: Input, now: int) returns (waits: seq<Wait>)
    ensures waits == StageWaitsOf(input, now)
  {
    hide PendingNames, LastCi;
    waits := [];
    for i := 0 to |input.effects|
      invariant waits == [] && EffectWaits(input.effects[i..]) == EffectWaits(input.effects)
    {
      var effect := input.effects[i];
      if IsOpen(effect) {
        waits := waits + [EffectWait(effect.kind, effect.state, effect.tries, effect.nextAt)];
        break;
      }
      assert input.effects[i..][1..] == input.effects[i + 1..];
    }
    assert waits == EffectWaits(input.effects);
    hide EffectWaits;
    var instruction := input.instruction;
    var holder := HolderOf(input);
    if instruction.Some? && instruction.value.state == "uncertain" {
      waits := waits + [UncertainDelivery(instruction.value.messageId)];
    }
    assert waits == EffectWaits(input.effects) + UncertainWaits(input);
    hide UncertainWaits;
    ghost var w := waits;
    if instruction.Some? && instruction.value.state in {"queued", "spawning", "awaiting-request"} {
      waits := waits + [Staffing(instruction.value.blocker)];
    }
    assert waits == w + StaffingWaits(input);
    hide StaffingWaits;
    w := waits;
    var parkedUntil := if holder.Some? then holder.value.parkedUntil else None;
    if InstructionState(input) == "parked" || After(parkedUntil, now) {
      waits := waits + [Parked(
        if holder.Some? then Some(holder.value.session) else None,
        if holder.Some? then holder.value.profile else None, parkedUntil, false)];
    } else if holder.Some? && After(holder.value.coolingUntil, now) {
      waits := waits + [Parked(Some(holder.value.session), holder.value.profile, holder.value.coolingUntil, true)];
    }
    assert waits == w + ParkedWaits(input, now);
    hide ParkedWaits, After;
    w := waits;
    if holder.Some? && holder.value.pendingRequest.Some? {
      waits := waits + [RequestWait(holder.value.session, holder.value.pendingRequest.value)];
    }
    assert waits == w + RequestWaits(input);
    hide RequestWaits, HolderOf;
    w := waits;
    if |input.openCards| > 0 {
      waits := waits + [DecisionCard(input.openCards[0])];
    }
    assert waits == w + CardWaits(input);
    hide CardWaits;
    w := waits;
    if input.step == Some(AwaitingCi) {
      waits := waits + [CiWait(PendingNames(LastCi(input.rounds)))];
    }
    if input.step == Some(Releasing) && input.memberRelease.Some? {
      waits := waits + [MemberRelease(input.memberRelease.value)];
    }
    if input.step == Some(Conditions) && |input.conditions| > 0 {
      waits := waits + [ConditionWait(input.conditions)];
    }
    if input.step == Some(AwaitingSlot) {
      waits := waits + [LandingSlot(input.slotHolder)];
    }
    assert waits == w + StepWaits(input);
  }

  // -- progress and stalls ------------------------------------------------

  function Later(a: Option<int>, b: Option<int>): Option<int> {
    if a == None || (b.Some? && b.value > a.value) then b else a
  }

  function Latest(times: seq<Option<int>>): Option<int> {
    if times == [] then None else Later(Latest(times[..|times| - 1]), times[|times| - 1])
  }

  function RoundTimes(r: Round): seq<Option<int>> {
    [r.ciPassedAt,
     if r.verdict == None then None else r.verdictAt,
     if r.outcome == Some(RoundPass) then r.decidedAt else None]
  }

  function AllRoundTimes(rounds: seq<Round>): seq<Option<int>> {
    if rounds == [] then [] else RoundTimes(rounds[0]) + AllRoundTimes(rounds[1..])
  }

  /** When the change last made progress. */
  function ProgressAt(input: Input): Option<int> {
    Latest(seq(|input.results|, i requires 0 <= i < |input.results| => Some(input.results[i]))
      + AllRoundTimes(input.rounds)
      + [if input.landing.Some? then Some(input.landing.value.landedAt) else None]
      + seq(|input.candidates|, i requires 0 <= i < |input.candidates| =>
          if input.candidates[i].passedOrLanded then input.candidates[i].decidedAt else None))
  }

  predicate HolderIdle(h: Holder) {
    || h.gone
    || (!h.turnRunning && h.pendingRequest == None && h.backgroundTasks == 0 && h.workers == 0 && !h.dueDirectMail)
  }

  function Least(a: int, b: int): int {
    if a <= b then a else b
  }

  /** When the holder's work counts as stalled, counted from the last thing that happened. */
  function DeadlineFrom(anchorAt: int, stage: Stage, holder: Option<Holder>): int {
    var deadline := anchorAt + (if stage == ReviewStage then NO_PROGRESS_REVIEW_MS else NO_PROGRESS_ATTEMPT_MS);
    if holder.Some? && HolderIdle(holder.value) then
      Least(deadline, Later(Some(anchorAt), holder.value.lastTurnEndAt).value + NO_PROGRESS_IDLE_MS)
    else deadline
  }

  predicate HasDeadline(input: Input, stage: Stage) {
    stage != KawaiStage && input.instruction.Some? && input.instruction.value.deliveredAt.Some?
  }

  function AnchorAt(input: Input, progressAt: Option<int>): int
    requires input.instruction.Some? && input.instruction.value.deliveredAt.Some?
  {
    Later(Later(input.instruction.value.deliveredAt, progressAt), input.waitEndedAt).value
  }

  function Deadline(input: Input, stage: Stage, progressAt: Option<int>): int
    requires HasDeadline(input, stage)
  {
    DeadlineFrom(AnchorAt(input, progressAt), stage, input.instruction.value.holder)
  }

  method NoProgressStall(input: Input, stage: Stage, progressAt: Option<int>, now: int) returns (stall: Option<Stall>)
    ensures stall.Some? <==> HasDeadline(input, stage) && now >= Deadline(input, stage, progressAt)
    ensures stall.Some? ==> stall.value.NoProgress? && stall.value.anchorAt == AnchorAt(input, progressAt)
    ensures stall.Some? ==> stall.value.deadlineAt == Deadline(input, stage, progressAt)
    ensures stall.Some? ==> Some(stall.value.episodeAt) == Later(input.instruction.value.deliveredAt, progressAt)
    ensures stall.Some? ==> stall.value.idle == (HolderOf(input).Some? && HolderIdle(HolderOf(input).value))
  {
    if stage == KawaiStage || input.instruction == None || input.instruction.value.deliveredAt == None {
      return None;
    }
    var instruction := input.instruction.value;
    var episodeAt := Later(instruction.deliveredAt, progressAt);
    var anchorAt := Later(episodeAt, input.waitEndedAt).value;
    var deadline := anchorAt + (if stage == ReviewStage then NO_PROGRESS_REVIEW_MS else NO_PROGRESS_ATTEMPT_MS);
    var holder := instruction.holder;
    var idle := holder.Some? && HolderIdle(holder.value);
    if idle {
      deadline := Least(deadline, Later(Some(anchorAt), holder.value.lastTurnEndAt).value + NO_PROGRESS_IDLE_MS);
    }
    if now < deadline {
      return None;
    }
    stall := Some(NoProgress(episodeAt.value, anchorAt, deadline, idle));
  }

  function FailingNames(ci: Option<seq<Check>>): seq<string> {
    if ci == None then [] else Names(Filter(NewestRuns(ci.value), (c: Check) => ClassOf(c) == Fails))
  }

  /** The names in order, then the review's failure. */
  function SignatureOf(names: seq<string>, reviewFailed: bool): string {
    Join(SortedNames(names) + (if reviewFailed then ["review:fail"] else []), ",")
  }

  function Signature(r: Round): string {
    SignatureOf(FailingNames(r.ci), r.verdict == Some(false))
  }

  predicate Decided(r: Round) {
    r.outcome == Some(RoundPass) || r.outcome == Some(RoundFail)
  }

  predicate IsCarried(rounds: seq<Round>, r: Round) {
    exists s :: s in rounds && Decided(s) && s.carriedFrom == Some(r.id)
  }

  /** The decided rounds by number, a carried round standing in for its source. */
  function Chain(rounds: seq<Round>): seq<Round> {
    SortedRounds(Filter(rounds, (r: Round) => Decided(r) && !IsCarried(rounds, r)))
  }

  function RepeatingFailureOf(rounds: seq<Round>): (stall: Option<Stall>)
    ensures stall.Some? ==> stall.value.RepeatingFailure?
  {
    var chain := Chain(rounds);
    if |chain| < 2 then None
    else
      var first, second := chain[|chain| - 2], chain[|chain| - 1];
      if first.outcome == Some(RoundFail) && second.outcome == Some(RoundFail)
        && Signature(first) == Signature(second) then
        Some(RepeatingFailure(Signature(second), first.id, second.id))
      else None
  }

  function AgentHeldStage(state: ChangeState, step: Option<ChangeStep>, newest: Option<Attempt>): Option<Stage> {
    if state == StateImplementing then
      if newest.Some? && newest.value.status == Owed then None
      else Some(AttemptStage(if newest.Some? then newest.value.kind else Implement))
    else if state == StateGating then
      if step == Some(Reviewing) then Some(ReviewStage)
      else if step == None && newest == Some(Attempt(Update, Out)) then Some(AttemptStage(Update))
      else None
    else None
  }

  function StageOf(input: Input): Stage {
    if input.state == None then KawaiStage
    else
      var stage := AgentHeldStage(input.state.value, input.step, input.attempt);
      if stage.Some? then stage.value else KawaiStage
  }

  function ChangesOf(dependencies: seq<Dependency>, stoppedOnly: bool): seq<string> {
    if dependencies == [] then []
    else
      (if dependencies[0].outcome != Landed && (!stoppedOnly || dependencies[0].outcome == Stopped) then
         [dependencies[0].change]
       else [])
      + ChangesOf(dependencies[1..], stoppedOnly)
  }

  /** What a change waits on before it is provisioned. */
  function EarlyWaits(input: Input): seq<Wait> {
    var unlanded := ChangesOf(input.dependencies, false);
    var waits :=
      (if unlanded != [] then [DependencyWait(unlanded, ChangesOf(input.dependencies, true))] else [])
        + EffectWaits(input.effects);
    if waits == [] then [ParallelLimit(input.parallelLimit)] else waits
  }

  lemma OnlyEffectsHoldEarly(input: Input, now: int)
    ensures StageWaitsOf(input.(instruction := None, openCards := [], step := None), now) == EffectWaits(input.effects)
    ensures |EffectWaits(input.effects)| <= 1
  {
    OneEffectWait(input.effects);
  }

  lemma {:induction false} OneEffectWait(effects: seq<PlanEffect>)
    ensures |EffectWaits(effects)| <= 1
    ensures EffectWaits(effects) == [] <==> forall e :: e in effects ==> !IsOpen(e)
  {
    if effects != [] && !IsOpen(effects[0]) {
      OneEffectWait(effects[1..]);
      assert effects == [effects[0]] + effects[1..];
    }
  }

  // -- the outcome --------------------------------------------------------

  /** The first that applies. */
  method ChangeSupervision(input: Input, now: int) returns (r: Supervised)
    ensures r.outcome == OutcomeAt(input, now)
    ensures r.stall.Some? <==> r.outcome == Stalled
    ensures r.stall.Some? && r.stall.value.NoProgress? ==> StageWaitsOf(input, now) == []
    ensures r.outcome == Waiting <==> r.cause.WaitCause?
    ensures r.outcome == Waiting ==>
      [r.cause.wait] + r.alsoApplying == if InProgress(input) then StageWaitsOf(input, now) else EarlyWaits(input)
    ensures r.outcome == Stalled ==>
      r.stall == RepeatingFailureOf(input.rounds)
        || (RepeatingFailureOf(input.rounds) == None && r.stall.value.NoProgress?)
    ensures r.outcome == Stalled ==>
      r.cause == StallCause(r.stall.value.NoProgress?) && r.alsoApplying == StageWaitsOf(input, now)
    ensures r.outcome == Running ==> r.cause == StageCause(StageOf(input), input.step)
    ensures r.outcome == Stopped ==>
      r.cause == StoppedCause(if input.stopReason.Some? then input.stopReason.value else "unknown")
    ensures r.outcome == Landed ==> r.cause == LandedCause(input.landing.value.treeVerified)
    ensures r.outcome !in {Waiting, Stalled} ==> r.alsoApplying == []
    ensures r.stage == if InProgress(input) then Some(StageOf(input)) else None
  {
    hide StageWaitsOf, Deadline, HasDeadline, RepeatingFailureOf, ProgressAt, StageOf, AnchorAt;
    var progress := ProgressAt(input);
    var none: seq<Wait> := [];
    if input.landing.Some? {
      return Supervised(Landed, LandedCause(input.landing.value.treeVerified), none, None, None);
    }
    if input.state == None {
      return Supervised(NotStarted, NotStartedCause, none, None, None);
    }
    if input.state == Some(StateCancelled) {
      return Supervised(Cancelled, CancelledCause, none, None, None);
    }
    if input.state == Some(StateStopped) {
      return Supervised(Stopped, StoppedCause(if input.stopReason.Some? then input.stopReason.value else "unknown"),
        none, None, None);
    }
    if input.state == Some(StateWaiting) {
      var waits := none;
      var unlanded := ChangesOf(input.dependencies, false);
      if |unlanded| > 0 {
        waits := waits + [DependencyWait(unlanded, ChangesOf(input.dependencies, true))];
      }
      OnlyEffectsHoldEarly(input, now);
      var held := StageWaits(input.(instruction := None, openCards := [], step := None), now);
      if |held| > 0 {
        waits := waits + [held[0]];
      }
      if |waits| == 0 {
        waits := [ParallelLimit(input.parallelLimit)];
      }
      return Supervised(Waiting, WaitCause(waits[0]), waits[1..], None, None);
    }
    var stage := StageOf(input);
    var waits := StageWaits(input, now);
    var repeating := RepeatingFailureOf(input.rounds);
    if repeating.Some? {
      return Supervised(Stalled, StallCause(false), waits, Some(stage), repeating);
    }
    if |waits| > 0 {
      return Supervised(Waiting, WaitCause(waits[0]), waits[1..], Some(stage), None);
    }
    var stall := NoProgressStall(input, stage, progress, now);
    if stall.Some? {
      return Supervised(Stalled, StallCause(true), none, Some(stage), stall);
    }
    r := Supervised(Running, StageCause(stage, input.step), none, Some(stage), None);
  }

  predicate InProgress(input: Input) {
    input.landing == None && input.state.Some? && input.state.value !in {StateCancelled, StateStopped, StateWaiting}
  }

  /** The outcome as a line on the clock. */
  function OutcomeAt(input: Input, now: int): Outcome {
    if input.landing.Some? then Landed
    else if input.state == None then NotStarted
    else if input.state == Some(StateCancelled) then Cancelled
    else if input.state == Some(StateStopped) then Stopped
    else if input.state == Some(StateWaiting) then Waiting
    else if RepeatingFailureOf(input.rounds).Some? then Stalled
    else if StageWaitsOf(input, now) != [] then Waiting
    else if HasDeadline(input, StageOf(input)) && now >= Deadline(input, StageOf(input), ProgressAt(input)) then Stalled
    else Running
  }

  // -- the clock ----------------------------------------------------------

  /** Something other than the clock ends this wait. */
  predicate Held(input: Input) {
    || (exists e :: e in input.effects && e.state in {"pending", "running", "unknown"})
    || (input.instruction.Some?
        && input.instruction.value.state in {"uncertain", "queued", "spawning", "awaiting-request", "parked"})
    || (input.instruction.Some? && input.instruction.value.holder.Some?
        && input.instruction.value.holder.value.pendingRequest.Some?)
    || input.openCards != []
    || input.step in {Some(AwaitingCi), Some(AwaitingSlot)}
    || (input.step == Some(Releasing) && input.memberRelease.Some?)
    || (input.step == Some(Conditions) && input.conditions != [])
  }

  /** The holder is parked or cooling at that time. */
  predicate Resting(input: Input, now: int) {
    input.instruction.Some? && input.instruction.value.holder.Some?
      && var holder := input.instruction.value.holder.value;
      || (holder.parkedUntil.Some? && holder.parkedUntil.value > now)
      || (holder.coolingUntil.Some? && holder.coolingUntil.value > now)
  }

  lemma WaitsIff(input: Input, now: int)
    ensures StageWaitsOf(input, now) != [] <==> Held(input) || Resting(input, now)
  {
    OneEffectWait(input.effects);
    hide PendingNames, LastCi, EffectWaits;
  }

  /** For fixed facts, a change under way is waiting until nothing holds it and the holder's rest is over,
      stalled from one fixed deadline on if an agent holds it, and running between; two rounds failing alike
      stall it at any time. */
  lemma ChangeUnderWay(input: Input, now: int)
    requires InProgress(input)
    ensures OutcomeAt(input, now) ==
      if RepeatingFailureOf(input.rounds).Some? then Stalled
      else if Held(input) || Resting(input, now) then Waiting
      else if HasDeadline(input, StageOf(input))
        && now >= Deadline(input, StageOf(input), ProgressAt(input)) then Stalled
      else Running
  {
    WaitsIff(input, now);
    hide StageWaitsOf, Held, Resting, RepeatingFailureOf, HasDeadline, Deadline, ProgressAt, StageOf;
  }

  function Rank(o: Outcome): int {
    match o
    case Waiting => 0
    case Running => 1
    case Stalled => 2
    case _ => 3
  }

  /** The clock moves a change under way only from waiting to running to stalled, and no other change at all. */
  lemma ClockOnlyAdvances(input: Input, earlier: int, later: int)
    requires earlier <= later
    ensures InProgress(input) ==> Rank(OutcomeAt(input, earlier)) <= Rank(OutcomeAt(input, later)) <= 2
    ensures !InProgress(input) ==> OutcomeAt(input, earlier) == OutcomeAt(input, later)
  {
    hide Held, Resting, RepeatingFailureOf, HasDeadline, Deadline, ProgressAt, StageOf, StageWaitsOf;
    if InProgress(input) {
      ChangeUnderWay(input, earlier);
      ChangeUnderWay(input, later);
      RestEnds(input, earlier, later);
      hide OutcomeAt, InProgress;
    }
  }

  lemma RestEnds(input: Input, earlier: int, later: int)
    requires earlier <= later
    ensures Resting(input, later) ==> Resting(input, earlier)
  {
  }

  /** A stall never comes sooner than the idle limit nor later than the stage's limit after the last
      delivery, progress or end of a wait; later progress never brings it forward. */
  lemma DeadlineHolds(input: Input, stage: Stage, progressAt: Option<int>, more: Option<int>)
    requires HasDeadline(input, stage)
    ensures var anchor, deadline := AnchorAt(input, progressAt), Deadline(input, stage, progressAt);
      && anchor + NO_PROGRESS_IDLE_MS <= deadline
      && deadline <= anchor + (if stage == ReviewStage then NO_PROGRESS_REVIEW_MS else NO_PROGRESS_ATTEMPT_MS)
      && input.instruction.value.deliveredAt.value <= anchor
      && (progressAt.Some? ==> progressAt.value <= anchor)
      && (input.waitEndedAt.Some? ==> input.waitEndedAt.value <= anchor)
      && deadline <= Deadline(input, stage, Later(progressAt, more))
  {
  }

  lemma {:induction false} LatestHolds(times: seq<Option<int>>)
    ensures forall t :: t in times && t.Some? ==> Latest(times).Some? && t.value <= Latest(times).value
    ensures Latest(times).Some? ==> Latest(times) in times
  {
    if times != [] {
      LatestHolds(times[..|times| - 1]);
      assert times == times[..|times| - 1] + [times[|times| - 1]];
    }
  }

  // -- repeating failures -------------------------------------------------

  /** A round that counts: it passed or failed, and no such round carries it on. */
  predicate Standing(rounds: seq<Round>, r: Round) {
    && r in rounds && r.outcome in {Some(RoundPass), Some(RoundFail)}
    && forall s :: s in rounds && s.outcome in {Some(RoundPass), Some(RoundFail)} ==> s.carriedFrom != Some(r.id)
  }

  ghost predicate NewestPair(rounds: seq<Round>, first: Round, second: Round) {
    && Standing(rounds, first) && Standing(rounds, second) && first.number < second.number
    && forall r :: Standing(rounds, r) && r != second ==> r.number <= first.number
  }

  predicate DistinctNumbers(rounds: seq<Round>) {
    forall i, j :: 0 <= i < j < |rounds| ==> rounds[i].number != rounds[j].number
  }

  lemma StandingIff(rounds: seq<Round>, r: Round)
    ensures Standing(rounds, r) <==> r in rounds && Decided(r) && !IsCarried(rounds, r)
  {
  }

  lemma ChainHolds(rounds: seq<Round>)
    requires DistinctNumbers(rounds)
    ensures forall r :: r in Chain(rounds) <==> Standing(rounds, r)
    ensures forall i, j :: 0 <= i < j < |Chain(rounds)| ==> Chain(rounds)[i].number < Chain(rounds)[j].number
  {
    var kept := Filter(rounds, (r: Round) => Decided(r) && !IsCarried(rounds, r));
    forall r
      ensures r in kept <==> Standing(rounds, r)
    {
      StandingIff(rounds, r);
    }
    hide Standing, Decided, IsCarried;
    FilterDistinct(rounds, (r: Round) => Decided(r) && !IsCarried(rounds, r));
    StableSort.SameElements(kept, ByNumber);
    var chain := SortedRounds(kept);
    forall r
      ensures multiset(chain)[r] <= 1
    {
      StableSort.SortedHolds(kept, ByNumber, r);
      DistinctCounts(kept, r);
    }
    CountedOnceIsDistinct(chain);
    forall i, j | 0 <= i < j < |chain|
      ensures chain[i].number < chain[j].number
    {
      StableSort.SortedHolds(kept, ByNumber, chain[i]);
      hide SortedRounds, IsCarried;
      assert !ByNumber(chain[j], chain[i]);
      assert chain[i] in kept && chain[j] in kept && chain[i] != chain[j];
    }
  }

  /** A change stalls on a repeating failure exactly when the two newest rounds that count both failed, with
      the same signature. */
  lemma RepeatingIff(rounds: seq<Round>)
    requires DistinctNumbers(rounds)
    ensures RepeatingFailureOf(rounds).Some? <==>
      exists first, second :: NewestPair(rounds, first, second)
        && first.outcome == Some(RoundFail) && second.outcome == Some(RoundFail)
        && Signature(first) == Signature(second)
  {
    var chain := Chain(rounds);
    hide Chain, NewestPair, Signature;
    forall first, second
      ensures NewestPair(rounds, first, second) <==>
        |chain| >= 2 && first == chain[|chain| - 2] && second == chain[|chain| - 1]
    {
      NewestPairIff(rounds, first, second);
    }
  }

  /** The newest pair is the end of the chain. */
  lemma NewestPairIff(rounds: seq<Round>, first: Round, second: Round)
    requires DistinctNumbers(rounds)
    ensures var chain := Chain(rounds);
      NewestPair(rounds, first, second) <==>
        |chain| >= 2 && first == chain[|chain| - 2] && second == chain[|chain| - 1]
  {
    hide *;
    ChainHolds(rounds);
    var chain := Chain(rounds);
    if |chain| >= 2 {
      EndsArePair(rounds, chain);
    }
    if NewestPair(rounds, first, second) {
      PairEndsChain(rounds, chain, first, second);
    }
  }

  lemma EndsArePair(rounds: seq<Round>, chain: seq<Round>)
    requires forall r :: r in chain <==> Standing(rounds, r)
    requires forall i, j :: 0 <= i < j < |chain| ==> chain[i].number < chain[j].number
    requires |chain| >= 2
    ensures NewestPair(rounds, chain[|chain| - 2], chain[|chain| - 1])
  {
    hide Standing;
    assert chain[|chain| - 2] in chain && chain[|chain| - 1] in chain;
  }

  lemma PairEndsChain(rounds: seq<Round>, chain: seq<Round>, first: Round, second: Round)
    requires forall r :: r in chain <==> Standing(rounds, r)
    requires forall i, j :: 0 <= i < j < |chain| ==> chain[i].number < chain[j].number
    requires NewestPair(rounds, first, second)
    ensures |chain| >= 2 && first == chain[|chain| - 2] && second == chain[|chain| - 1]
  {
    hide Standing;
    var i :| 0 <= i < |chain| && chain[i] == first;
    var j :| 0 <= j < |chain| && chain[j] == second;
    assert chain[|chain| - 1] in chain && chain[|chain| - 2] in chain;
  }
}
