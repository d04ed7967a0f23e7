/** The client of the session refresh worker: requests, replies, generations of workers,
    timers, crashes and disposal. */
module RefreshWorker {
  import opened Options

  datatype Kind = Refresh | LastUserMessage

  /** A request id: the clock and the counter when it was made. */
  datatype Id = Id(ms: nat, n: nat)

  datatype Response = Result(id: Id, kind: Kind, payload: string) | Failure(id: Id, error: string, timedOut: bool)

  datatype Error = TimedOut(message: string) | Failed(message: string) | WrongKind | Disposed

  datatype Outcome = Resolved(payload: string) | Rejected(error: Error)

  datatype Pending = Pending(id: Id, generation: nat, kind: Kind)

  datatype Settlement = Settlement(id: Id, outcome: Outcome)

  /** `timers` holds the armed timers with the generation their closures captured; `sent` and
      `settled` record, in order, the requests made and the promises settled. */
  datatype State = State(
    worker: Option<nat>,
    disposed: bool,
    counter: nat,
    generation: nat,
    pending: seq<Pending>,
    timers: map<Id, nat>,
    sent: seq<Pending>,
    settled: seq<Settlement>)

  // -- specification of the steps -----------------------------------------

  function Find(pending: seq<Pending>, id: Id): (k: int)
    ensures -1 <= k < |pending|
    ensures k >= 0 ==> pending[k].id == id
    ensures k == -1 ==> forall i :: 0 <= i < |pending| ==> pending[i].id != id
  {
    if pending == [] then -1
    else if pending[0].id == id then 0
    else
      var k := Find(pending[1..], id);
      if k == -1 then -1 else k + 1
  }

  /** A new worker, when the platform can start one. */
  function Spawned(s: State, spawnOk: bool): State {
    if s.disposed || !spawnOk then s
    else s.(generation := s.generation + 1, worker := Some(s.generation + 1))
  }

  /** The old worker is asked to exit (using up an id) and forgotten. */
  function Detached(s: State): State {
    s.(counter := if s.worker.Some? then s.counter + 1 else s.counter, worker := None)
  }

  function Restarted(s: State, expected: nat, spawnOk: bool): State {
    if s.disposed || expected != s.generation then s else Spawned(Detached(s), spawnOk)
  }

  /** What a reply makes of the promise that waits for it. */
  function OutcomeOf(kind: Kind, r: Response): Outcome {
    match r
    case Result(_, k, payload) => if k == kind then Resolved(payload) else Rejected(WrongKind)
    case Failure(_, error, timedOut) => Rejected(if timedOut then TimedOut(error) else Failed(error))
  }

  /** One request rejected, its timer cleared. */
  function FirstFailed(s: State, error: Error): State
    requires s.pending != []
  {
    var p := s.pending[0];
    s.(pending := s.pending[1..], timers := s.timers - {p.id},
       settled := s.settled + [Settlement(p.id, Rejected(error))])
  }

  /** Every pending request rejected in order. */
  function AllFailed(s: State, error: Error): State
    decreases |s.pending|
  {
    if s.pending == [] then s else AllFailed(FirstFailed(s, error), error)
  }

  /** The pending requests of one generation rejected in order; the others, `kept`, stay. */
  function GenerationFailed(s: State, kept: seq<Pending>, generation: nat, error: Error): State
    decreases |s.pending|
  {
    if s.pending == [] then s.(pending := kept)
    else if s.pending[0].generation != generation then
      GenerationFailed(s.(pending := s.pending[1..]), kept + [s.pending[0]], generation, error)
    else GenerationFailed(FirstFailed(s, error), kept, generation, error)
  }

  datatype Event =
    | Send(kind: Kind, ms: nat, spawnOk: bool)
    | Message(from: nat, response: Response)
    | WorkerError(from: nat, message: string, spawnOk: bool)
    | TimerFires(id: Id, spawnOk: bool)
    | Dispose

  function AfterSend(s: State, kind: Kind, ms: nat, spawnOk: bool): State {
    if s.disposed then s
    else
      var t := if s.worker == None then Spawned(s, spawnOk) else s;
      if t.worker == None then t
      else
        var p := Pending(Id(ms, t.counter), t.generation, kind);
        t.(counter := t.counter + 1, pending := t.pending + [p], timers := t.timers[p.id := p.generation],
           sent := t.sent + [p])
  }

  function AfterMessage(s: State, from: nat, r: Response): State {
    var k := Find(s.pending, r.id);
    if from != s.generation || k == -1 then s
    else s.(pending := s.pending[..k] + s.pending[k + 1..], timers := s.timers - {r.id},
            settled := s.settled + [Settlement(r.id, OutcomeOf(s.pending[k].kind, r))])
  }

  function AfterError(s: State, from: nat, message: string, spawnOk: bool): State {
    if from != s.generation then s
    else Restarted(GenerationFailed(s, [], from, Failed(message)), from, spawnOk)
  }

  /** Only an armed timer fires, and it is gone then. */
  function AfterTimer(s: State, id: Id, spawnOk: bool): State {
    if id !in s.timers then s
    else
      var g := s.timers[id];
      var t := s.(timers := s.timers - {id});
      if Find(s.pending, id) == -1 then t
      else Restarted(GenerationFailed(t, [], g, TimedOut("")), g, spawnOk)
  }

  function AfterDispose(s: State): State {
    Detached(AllFailed(s.(disposed := true), Disposed))
  }

  function Next(s: State, ev: Event): State {
    match ev
    case Send(kind, ms, spawnOk) => AfterSend(s, kind, ms, spawnOk)
    case Message(from, r) => AfterMessage(s, from, r)
    case WorkerError(from, message, spawnOk) => AfterError(s, from, message, spawnOk)
    case TimerFires(id, spawnOk) => AfterTimer(s, id, spawnOk)
    case Dispose => AfterDispose(s)
  }

  const Fresh := State(None, false, 0, 0, [], map[], [], [])

  /** Any order of calls, replies (of any generation), errors, timers and disposal. */
  function Run(events: seq<Event>, spawnOk: bool): State {
    if events == [] then Spawned(Fresh, spawnOk)
    else Next(Run(events[..|events| - 1], spawnOk), events[|events| - 1])
  }

  // -- the client ---------------------------------------------------------

  class Client {
    var worker: Option<nat>
    var disposed: bool
    var counter: nat
    var generation: nat
    var pending: seq<Pending>
    var timers: map<Id, nat>
    ghost var sent: seq<Pending>
    var settled: seq<Settlement>

    ghost function Abs(): State
      reads this
    {
      State(worker, disposed, counter, generation, pending, timers, sent, settled)
    }

    constructor (spawnOk: bool)
      ensures Abs() == Spawned(Fresh, spawnOk)
    {
      disposed, counter, pending, timers, sent, settled := false, 0, [], map[], [], [];
      generation := if spawnOk then 1 else 0;
      worker := if spawnOk then Some(1) else None;
    }

    method SpawnWorker(spawnOk: bool)
      modifies this
      ensures Abs() == Spawned(old(Abs()), spawnOk)
    {
      if disposed || !spawnOk {
        return;
      }
      generation := generation + 1;
      worker := Some(generation);
    }

    method DetachWorker()
      modifies this
      ensures Abs() == Detached(old(Abs()))
    {
      if worker.Some? {
        counter := counter + 1;
      }
      worker := None;
    }

    method RestartWorker(expectedGeneration: nat, spawnOk: bool)
      modifies this
      ensures Abs() == Restarted(old(Abs()), expectedGeneration, spawnOk)
    {
      if disposed || expectedGeneration != generation {
        return;
      }
      DetachWorker();
      SpawnWorker(spawnOk);
    }

    /** A request; `None` when the call itself is rejected. */
    method Request(kind: Kind, ms: nat, spawnOk: bool) returns (id: Option<Id>)
      modifies this
      ensures Abs() == Next(old(Abs()), Send(kind, ms, spawnOk))
      ensures id.Some? ==> sent == old(sent) + [Pending(id.value, generation, kind)]
      ensures id == None ==> sent == old(sent)
    {
      if disposed {
        return None;
      }
      if worker == None {
        SpawnWorker(spawnOk);
      }
      if worker == None {
        return None;
      }
      var requestId := Id(ms, counter);
      counter := counter + 1;
      timers := timers[requestId := generation];
      pending := pending + [Pending(requestId, generation, kind)];
      sent := sent + [Pending(requestId, generation, kind)];
      id := Some(requestId);
    }

    method HandleMessage(from: nat, response: Response)
      modifies this
      ensures Abs() == Next(old(Abs()), Message(from, response))
    {
      hide Find, OutcomeOf, AfterSend, AfterError, AfterTimer, AfterDispose;
      if from != generation {
        return;
      }
      var k := Find(pending, response.id);
      if k == -1 {
        return;
      }
      var waiting := pending[k];
      timers := timers - {response.id};
      pending := pending[..k] + pending[k + 1..];
      settled := settled + [Settlement(response.id, OutcomeOf(waiting.kind, response))];
    }

    method FailGeneration(failing: nat, error: Error)
      modifies this
      ensures Abs() == GenerationFailed(old(Abs()), [], failing, error)
    {
      ghost var before := Abs();
      var kept: seq<Pending> := [];
      while pending != []
        invariant GenerationFailed(Abs(), kept, failing, error) == GenerationFailed(before, [], failing, error)
        decreases |pending|
      {
        var p := pending[0];
        if p.generation != failing {
          kept := kept + [p];
          pending := pending[1..];
          continue;
        }
        timers := timers - {p.id};
        settled := settled + [Settlement(p.id, Rejected(error))];
        pending := pending[1..];
      }
      pending := kept;
    }

    method HandleError(from: nat, message: string, spawnOk: bool)
      modifies this
      ensures Abs() == Next(old(Abs()), WorkerError(from, message, spawnOk))
    {
      if from != generation {
        return;
      }
      FailGeneration(from, Failed(message));
      RestartWorker(from, spawnOk);
    }

    /** The platform fires a timer that is still armed. */
    method FireTimer(id: Id, spawnOk: bool)
      modifies this
      ensures Abs() == Next(old(Abs()), TimerFires(id, spawnOk))
    {
      if id !in timers {
        return;
      }
      var captured := timers[id];
      timers := timers - {id};
      HandleRequestTimeout(id, captured, spawnOk);
    }

    method HandleRequestTimeout(id: Id, captured: nat, spawnOk: bool)
      modifies this
      ensures Abs() == if Find(old(pending), id) == -1 then old(Abs())
                       else Restarted(GenerationFailed(old(Abs()), [], captured, TimedOut("")), captured, spawnOk)
    {
      if Find(pending, id) == -1 {
        return;
      }
      FailGeneration(captured, TimedOut(""));
      RestartWorker(captured, spawnOk);
    }

    method DisposeClient()
      modifies this
      ensures Abs() == Next(old(Abs()), Dispose)
    {
      disposed := true;
      FailAll(Disposed);
      DetachWorker();
    }

    method FailAll(error: Error)
      modifies this
      ensures Abs() == AllFailed(old(Abs()), error)
    {
      ghost var before := Abs();
      while pending != []
        invariant AllFailed(Abs(), error) == AllFailed(before, error)
        decreases |pending|
      {
        var p := pending[0];
        timers := timers - {p.id};
        settled := settled + [Settlement(p.id, Rejected(error))];
        pending := pending[1..];
      }
    }
  }

  // -- what every run keeps -----------------------------------------------

  function PendingIds(pending: seq<Pending>): seq<Id> {
    seq(|pending|, i requires 0 <= i < |pending| => pending[i].id)
  }

  function SettledIds(settled: seq<Settlement>): seq<Id> {
    seq(|settled|, i requires 0 <= i < |settled| => settled[i].id)
  }

  /** Nothing lost and nothing settled twice: what was sent is what waits and what settled. */
  ghost predicate Conserved(s: State) {
    multiset(PendingIds(s.pending)) + multiset(SettledIds(s.settled)) == multiset(PendingIds(s.sent))
  }

  ghost predicate IdsDistinct(s: State) {
    && (forall i, j :: 0 <= i < j < |s.sent| ==> s.sent[i].id != s.sent[j].id)
    && (forall p :: p in s.sent ==> p.id.n < s.counter)
  }

  /** Every waiting request belongs to the current worker and has its timer armed; no timer
      outlives its request. */
  ghost predicate Guarded(s: State) {
    && (forall p :: p in s.pending ==>
       p in s.sent && p.generation == s.generation && p.id in s.timers && s.timers[p.id] == p.generation)
    && (forall id :: id in s.timers ==> Waits(s.pending, id))
  }

  ghost predicate Waits(pending: seq<Pending>, id: Id) {
    exists p :: p in pending && p.id == id
  }

  ghost predicate WorkerCurrent(s: State) {
    && (s.worker.Some? ==> s.worker.value == s.generation)
    && (s.worker == None ==> s.pending == [])
    && (s.disposed ==> s.worker == None)
  }

  ghost predicate Inv(s: State) {
    Conserved(s) && IdsDistinct(s) && Guarded(s) && WorkerCurrent(s)
  }

  lemma {:induction false} SameGenerationFailsAll(s: State, generation: nat, error: Error)
    requires forall p :: p in s.pending ==> p.generation == generation
    ensures GenerationFailed(s, [], generation, error) == AllFailed(s, error)
    decreases |s.pending|
  {
    if s.pending != [] {
      SameGenerationFailsAll(FirstFailed(s, error), generation, error);
    }
  }

  lemma MoveToSettled(s: State, k: nat, outcome: Outcome)
    requires k < |s.pending| && Conserved(s)
    ensures Conserved(s.(
      pending := s.pending[..k] + s.pending[k + 1..], settled := s.settled + [Settlement(s.pending[k].id, outcome)]))
  {
    var p := s.pending[k];
    assert s.pending == s.pending[..k] + [p] + s.pending[k + 1..];
    assert PendingIds(s.pending) == PendingIds(s.pending[..k]) + [p.id] + PendingIds(s.pending[k + 1..]);
    assert PendingIds(s.pending[..k] + s.pending[k + 1..]) ==
      PendingIds(s.pending[..k]) + PendingIds(s.pending[k + 1..]);
    assert SettledIds(s.settled + [Settlement(p.id, outcome)]) == SettledIds(s.settled) + [p.id];
  }

  lemma {:induction false} AllFailedConserves(s: State, error: Error)
    requires Conserved(s)
    ensures var t := AllFailed(s, error);
      t.pending == [] && Conserved(t) && t == s.(pending := [], timers := t.timers, settled := t.settled)
    decreases |s.pending|
  {
    if s.pending != [] {
      MoveToSettled(s, 0, Rejected(error));
      assert s.pending[..0] + s.pending[1..] == s.pending[1..];
      hide Conserved;
      AllFailedConserves(FirstFailed(s, error), error);
    }
  }

  lemma {:induction false} AllFailedDisarms(s: State, error: Error, id: Id)
    ensures id in AllFailed(s, error).timers <==> id in s.timers && forall p :: p in s.pending ==> p.id != id
    decreases |s.pending|
  {
    if s.pending != [] {
      AllFailedDisarms(FirstFailed(s, error), error, id);
      assert s.pending == [s.pending[0]] + s.pending[1..];
    }
  }

  /** `t` settled what `s` had settled, and then only rejections. */
  ghost predicate OnlyRejects(s: State, t: State) {
    && |s.settled| <= |t.settled|
    && (forall i :: 0 <= i < |s.settled| ==> t.settled[i] == s.settled[i])
    && (forall i :: |s.settled| <= i < |t.settled| ==> t.settled[i].outcome.Rejected?)
  }

  lemma {:induction false} AllFailedOnlyRejects(s: State, error: Error)
    ensures OnlyRejects(s, AllFailed(s, error))
    decreases |s.pending|
  {
    if s.pending != [] {
      AllFailedOnlyRejects(FirstFailed(s, error), error);
    }
  }

  /** Failing everything leaves nothing waiting and no timer armed. */
  lemma AllFailedInv(s: State, error: Error)
    requires Conserved(s) && IdsDistinct(s)
    requires forall id :: id in s.timers ==> Waits(s.pending, id)
    ensures Conserved(AllFailed(s, error)) && IdsDistinct(AllFailed(s, error)) && Guarded(AllFailed(s, error))
    ensures AllFailed(s, error) == s.(pending := [], timers := map[], settled := AllFailed(s, error).settled)
  {
    AllFailedConserves(s, error);
    var t := AllFailed(s, error);
    forall id
      ensures id !in t.timers
    {
      AllFailedDisarms(s, error, id);
    }
    assert t.timers == map[];
    hide Conserved;
  }

  lemma NewRequestConserves(s: State, t: State, p: Pending)
    requires Conserved(s) && t.pending == s.pending + [p] && t.sent == s.sent + [p] && t.settled == s.settled
    ensures Conserved(t)
  {
    assert PendingIds(t.pending) == PendingIds(s.pending) + [p.id];
    assert PendingIds(t.sent) == PendingIds(s.sent) + [p.id];
  }

  lemma NewRequestDistinct(s: State, t: State, p: Pending)
    requires IdsDistinct(s) && t.sent == s.sent + [p] && t.counter == s.counter + 1 && p.id.n == s.counter
    ensures IdsDistinct(t)
  {
    assert forall i :: 0 <= i < |s.sent| ==> s.sent[i] in s.sent;
  }

  lemma NewRequestGuarded(s: State, t: State, p: Pending)
    requires Guarded(s) && p.generation == s.generation == t.generation
    requires t.pending == s.pending + [p] && t.sent == s.sent + [p] && t.timers == s.timers[p.id := p.generation]
    ensures Guarded(t)
  {
    assert p in t.pending && p in t.sent;
    assert forall q :: q in s.pending ==> q in t.pending;
    forall id | id in t.timers
      ensures Waits(t.pending, id)
    {
      if id != p.id {
        assert Waits(s.pending, id);
        var q :| q in s.pending && q.id == id;
        assert q in t.pending;
      }
    }
  }

  lemma NewRequestKeepsInv(s: State, p: Pending)
    requires Inv(s) && s.worker.Some? && p.id.n == s.counter && p.generation == s.generation
    ensures Inv(s.(
      counter := s.counter + 1, pending := s.pending + [p],
      timers := s.timers[p.id := p.generation], sent := s.sent + [p]))
  {
    hide Conserved, IdsDistinct, Guarded;
    var t := s.(
      counter := s.counter + 1, pending := s.pending + [p],
      timers := s.timers[p.id := p.generation], sent := s.sent + [p]);
    NewRequestConserves(s, t, p);
    NewRequestDistinct(s, t, p);
    NewRequestGuarded(s, t, p);
  }

  lemma SendKeepsInv(s: State, kind: Kind, ms: nat, spawnOk: bool)
    requires Inv(s)
    ensures Inv(AfterSend(s, kind, ms, spawnOk))
  {
    hide Conserved, IdsDistinct;
    var t := if s.worker == None then Spawned(s, spawnOk) else s;
    assert Inv(t) by {
      ConservedFields(s, t);
      assert s.worker == None ==> s.pending == [] && s.timers == map[] by {
        if s.worker == None {
          NoTimers(s);
        }
      }
    }
    hide Inv;
    if !s.disposed && t.worker.Some? {
      NewRequestKeepsInv(t, Pending(Id(ms, t.counter), t.generation, kind));
    }
  }

  lemma NoTimers(s: State)
    requires Guarded(s) && s.pending == []
    ensures s.timers == map[]
  {
    forall id
      ensures id !in s.timers
    {
      assert Waits(s.pending, id) ==> exists p :: p in s.pending && p.id == id;
    }
  }

  /** Conservation and distinct ids only look at the requests and the counter. */
  lemma ConservedFields(s: State, t: State)
    requires Conserved(s) && IdsDistinct(s)
    requires t.pending == s.pending && t.settled == s.settled && t.sent == s.sent && t.counter >= s.counter
    ensures Conserved(t) && IdsDistinct(t)
  {
  }

  lemma PendingIdsDistinct(s: State)
    requires Inv(s)
    ensures forall i, j :: 0 <= i < j < |s.pending| ==> s.pending[i].id != s.pending[j].id
    ensures forall i, j :: 0 <= i < |s.pending| && 0 <= j < |s.settled| ==> s.pending[i].id != s.settled[j].id
    ensures forall i, j :: 0 <= i < j < |s.settled| ==> s.settled[i].id != s.settled[j].id
  {
    var a, b, c := PendingIds(s.pending), SettledIds(s.settled), PendingIds(s.sent);
    SumOfDistinct(a, b, c);
    forall i, j | 0 <= i < j < |s.pending|
      ensures s.pending[i].id != s.pending[j].id
    {
      assert a[i] != a[j];
    }
    forall i, j | 0 <= i < |s.pending| && 0 <= j < |s.settled|
      ensures s.pending[i].id != s.settled[j].id
    {
      assert a[i] != b[j];
    }
    forall i, j | 0 <= i < j < |s.settled|
      ensures s.settled[i].id != s.settled[j].id
    {
      assert b[i] != b[j];
    }
  }

  lemma {:induction false} CountsOne(c: seq<Id>, x: Id)
    requires forall i, j :: 0 <= i < j < |c| ==> c[i] != c[j]
    ensures multiset(c)[x] <= 1
  {
    if c != [] {
      var n := |c| - 1;
      CountsOne(c[..n], x);
      assert c == c[..n] + [c[n]];
      if c[n] == x {
        assert x !in c[..n];
      }
    }
  }

  lemma CountsTwo(a: seq<Id>, i: nat, j: nat)
    requires i < j < |a| && a[i] == a[j]
    ensures multiset(a)[a[i]] >= 2
  {
    assert a == a[..j] + a[j..];
    assert a[i] in a[..j] && a[i] in a[j..] by {
      assert a[..j][i] == a[i] && a[j..][0] == a[j];
    }
  }

  /** Two lists that together are a list without repeats have none, and share nothing. */
  lemma SumOfDistinct(a: seq<Id>, b: seq<Id>, c: seq<Id>)
    requires multiset(a) + multiset(b) == multiset(c)
    requires forall i, j :: 0 <= i < j < |c| ==> c[i] != c[j]
    ensures forall i, j :: 0 <= i < j < |a| ==> a[i] != a[j]
    ensures forall i, j :: 0 <= i < j < |b| ==> b[i] != b[j]
    ensures forall i, j :: 0 <= i < |a| && 0 <= j < |b| ==> a[i] != b[j]
  {
    forall i, j | 0 <= i < j < |a|
      ensures a[i] != a[j]
    {
      CountsOne(c, a[i]);
      if a[i] == a[j] {
        CountsTwo(a, i, j);
      }
    }
    forall i, j | 0 <= i < j < |b|
      ensures b[i] != b[j]
    {
      CountsOne(c, b[i]);
      if b[i] == b[j] {
        CountsTwo(b, i, j);
      }
    }
    forall i, j | 0 <= i < |a| && 0 <= j < |b|
      ensures a[i] != b[j]
    {
      CountsOne(c, a[i]);
      assert a[i] in multiset(a) && b[j] in multiset(b);
    }
  }

  lemma MessageKeepsInv(s: State, from: nat, r: Response)
    requires Inv(s)
    ensures Inv(AfterMessage(s, from, r))
  {
    var k := Find(s.pending, r.id);
    var t := AfterMessage(s, from, r);
    if from == s.generation && k != -1 {
      hide Conserved, IdsDistinct, Guarded;
      MoveToSettled(s, k, OutcomeOf(s.pending[k].kind, r));
      ConservedAfter(s, t, k, OutcomeOf(s.pending[k].kind, r));
      SentFields(s, t);
      PendingIdsDistinct(s);
      GuardedAfterReply(s, t, k);
    }
  }

  lemma SentFields(s: State, t: State)
    requires IdsDistinct(s) && t.sent == s.sent && t.counter == s.counter
    ensures IdsDistinct(t)
  {
  }

  lemma ConservedAfter(s: State, t: State, k: nat, outcome: Outcome)
    requires k < |s.pending|
    requires Conserved(s.(
      pending := s.pending[..k] + s.pending[k + 1..], settled := s.settled + [Settlement(s.pending[k].id, outcome)]))
    requires t.pending == s.pending[..k] + s.pending[k + 1..]
      && t.settled == s.settled + [Settlement(s.pending[k].id, outcome)] && t.sent == s.sent
    ensures Conserved(t)
  {
  }

  lemma StillWaits(pending: seq<Pending>, k: nat, id: Id)
    requires k < |pending| && Waits(pending, id) && pending[k].id != id
    ensures Waits(pending[..k] + pending[k + 1..], id)
  {
    var p :| p in pending && p.id == id;
    assert pending == pending[..k] + [pending[k]] + pending[k + 1..];
    assert p in pending[..k] + pending[k + 1..];
  }

  lemma NoLongerWaits(pending: seq<Pending>, k: nat, p: Pending)
    requires k < |pending| && p in pending[..k] + pending[k + 1..]
    requires forall i, j :: 0 <= i < j < |pending| ==> pending[i].id != pending[j].id
    ensures p in pending && p.id != pending[k].id
  {
    var rest := pending[..k] + pending[k + 1..];
    var i :| 0 <= i < |rest| && rest[i] == p;
    var at := if i < k then i else i + 1;
    assert pending[at] == p;
  }

  lemma GuardedAfterReply(s: State, t: State, k: nat)
    requires Guarded(s) && k < |s.pending| && t.sent == s.sent && t.generation == s.generation
    requires forall i, j :: 0 <= i < j < |s.pending| ==> s.pending[i].id != s.pending[j].id
    requires t.pending == s.pending[..k] + s.pending[k + 1..] && t.timers == s.timers - {s.pending[k].id}
    ensures Guarded(t)
  {
    forall id | id in t.timers
      ensures Waits(t.pending, id)
    {
      StillWaits(s.pending, k, id);
    }
    forall p | p in t.pending
      ensures p in s.pending && p.id != s.pending[k].id
    {
      NoLongerWaits(s.pending, k, p);
    }
  }

  lemma RestartKeepsInv(s: State, expected: nat, spawnOk: bool)
    requires Inv(s) && s.pending == [] && s.timers == map[]
    ensures Inv(Restarted(s, expected, spawnOk)) && Restarted(s, expected, spawnOk).pending == []
  {
  }

  lemma FailAndRestartKeepsInv(s: State, error: Error, spawnOk: bool)
    requires Conserved(s) && IdsDistinct(s) && WorkerCurrent(s)
    requires forall p :: p in s.pending ==> p.generation == s.generation
    requires forall id :: id in s.timers ==> Waits(s.pending, id)
    ensures var t := Restarted(GenerationFailed(s, [], s.generation, error), s.generation, spawnOk);
      Inv(t) && t.pending == [] && t.disposed == s.disposed
  {
    SameGenerationFailsAll(s, s.generation, error);
    AllFailedInv(s, error);
    hide Conserved, IdsDistinct;
    NoTimers(AllFailed(s, error));
    RestartKeepsInv(AllFailed(s, error), s.generation, spawnOk);
  }

  /** Every step keeps the invariant. */
  lemma NextKeepsInv(s: State, ev: Event)
    requires Inv(s)
    ensures Inv(Next(s, ev))
  {
    hide Conserved, IdsDistinct;
    match ev {
      case Send(kind, ms, spawnOk) => SendKeepsInv(s, kind, ms, spawnOk);
      case Message(from, r) => MessageKeepsInv(s, from, r);
      case WorkerError(from, message, spawnOk) =>
        if from == s.generation {
          FailAndRestartKeepsInv(s, Failed(message), spawnOk);
        }
      case TimerFires(id, spawnOk) =>
        if id in s.timers {
          assert Waits(s.pending, id);
          var p :| p in s.pending && p.id == id;
          ConservedFields(s, s.(timers := s.timers - {id}));
          FailAndRestartKeepsInv(s.(timers := s.timers - {id}), TimedOut(""), spawnOk);
        }
      case Dispose =>
        ConservedFields(s, s.(disposed := true));
        AllFailedInv(s.(disposed := true), Disposed);
        ConservedFields(AllFailed(s.(disposed := true), Disposed), AfterDispose(s));
    }
  }

  // -- whole runs ---------------------------------------------------------

  lemma {:induction false} RunKeepsInv(events: seq<Event>, spawnOk: bool)
    ensures Inv(Run(events, spawnOk))
  {
    if events == [] {
      assert PendingIds([]) == [] && SettledIds([]) == [];
    } else {
      hide Inv, Next;
      RunKeepsInv(events[..|events| - 1], spawnOk);
      NextKeepsInv(Run(events[..|events| - 1], spawnOk), events[|events| - 1]);
    }
  }

  /** Every request of every run waits once or has settled once, never both. */
  lemma EachRequestOnce(events: seq<Event>, spawnOk: bool, p: Pending)
    requires p in Run(events, spawnOk).sent
    ensures var s := Run(events, spawnOk);
      multiset(PendingIds(s.pending))[p.id] + multiset(SettledIds(s.settled))[p.id] == 1
  {
    RunKeepsInv(events, spawnOk);
    var s := Run(events, spawnOk);
    hide Run;
    var ids := PendingIds(s.sent);
    CountsOne(ids, p.id);
    var i :| 0 <= i < |s.sent| && s.sent[i] == p;
    assert ids[i] == p.id;
    assert p.id in multiset(ids);
  }

  /** A reply with the request's id and kind, from the worker the request was sent to. */
  ghost predicate IsReplyTo(ev: Event, p: Pending, payload: string) {
    ev == Message(p.generation, Result(p.id, p.kind, payload))
  }

  ghost predicate RepliedTo(events: seq<Event>, sent: seq<Pending>, x: Settlement) {
    x.outcome.Resolved? ==>
      exists i, p :: 0 <= i < |events| && p in sent && p.id == x.id && IsReplyTo(events[i], p, x.outcome.payload)
  }

  lemma RepliedToLater(events: seq<Event>, ev: Event, sent: seq<Pending>, later: seq<Pending>, x: Settlement)
    requires RepliedTo(events, sent, x) && forall p :: p in sent ==> p in later
    ensures RepliedTo(events + [ev], later, x)
  {
    if x.outcome.Resolved? {
      var i, p :| 0 <= i < |events| && p in sent && p.id == x.id && IsReplyTo(events[i], p, x.outcome.payload);
      assert (events + [ev])[i] == events[i];
    }
  }

  /** A step settles no more than its own reply, or rejects. */
  lemma NextSettles(s: State, ev: Event)
    requires Inv(s)
    ensures var t := Next(s, ev);
      && (forall p :: p in s.sent ==> p in t.sent)
      && |s.settled| <= |t.settled|
      && (forall i :: 0 <= i < |s.settled| ==> t.settled[i] == s.settled[i])
      && (forall i :: |s.settled| <= i < |t.settled| && t.settled[i].outcome.Resolved? ==>
            exists p :: p in t.sent && p.id == t.settled[i].id && IsReplyTo(ev, p, t.settled[i].outcome.payload))
  {
    hide Conserved, IdsDistinct;
    match ev {
      case Send(kind, ms, spawnOk) =>
      case Message(from, r) =>
        var k := Find(s.pending, r.id);
        if from == s.generation && k != -1 {
          var p := s.pending[k];
          assert p in s.pending;
          assert OutcomeOf(p.kind, r).Resolved? ==> IsReplyTo(ev, p, OutcomeOf(p.kind, r).payload);
        }
      case WorkerError(from, message, spawnOk) =>
        if from == s.generation {
          SameGenerationFailsAll(s, from, Failed(message));
          AllFailedInv(s, Failed(message));
          AllFailedOnlyRejects(s, Failed(message));
        }
      case TimerFires(id, spawnOk) =>
        if id in s.timers {
          assert Waits(s.pending, id);
          var t := s.(timers := s.timers - {id});
          ConservedFields(s, t);
          SameGenerationFailsAll(t, s.generation, TimedOut(""));
          AllFailedInv(t, TimedOut(""));
          AllFailedOnlyRejects(t, TimedOut(""));
        }
      case Dispose =>
        var t := s.(disposed := true);
        ConservedFields(s, t);
        AllFailedInv(t, Disposed);
        AllFailedOnlyRejects(t, Disposed);
    }
  }

  /** A request that settles with a value settles with its own reply, given by the worker it
      was sent to. */
  lemma {:induction false} ResolvedByOwnReply(events: seq<Event>, spawnOk: bool, i: nat)
    requires i < |Run(events, spawnOk).settled|
    ensures RepliedTo(events, Run(events, spawnOk).sent, Run(events, spawnOk).settled[i])
  {
    if events != [] {
      var n := |events| - 1;
      var before, after := Run(events[..n], spawnOk), Run(events, spawnOk);
      RunKeepsInv(events[..n], spawnOk);
      NextSettles(before, events[n]);
      assert events == events[..n] + [events[n]];
      hide Inv, Next, Run;
      if i < |before.settled| {
        ResolvedByOwnReply(events[..n], spawnOk, i);
        RepliedToLater(events[..n], events[n], before.sent, after.sent, before.settled[i]);
      } else if after.settled[i].outcome.Resolved? {
        var p :| p in after.sent && p.id == after.settled[i].id
          && IsReplyTo(events[n], p, after.settled[i].outcome.payload);
      }
    }
  }

  /** A timer of a waiting request is armed, and when it fires nothing waits any more. */
  lemma TimerSettles(s: State, p: Pending, spawnOk: bool)
    requires Inv(s) && p in s.pending
    ensures p.id in s.timers
    ensures Next(s, TimerFires(p.id, spawnOk)).pending == []
  {
    ConservedFields(s, s.(timers := s.timers - {p.id}));
    FailAndRestartKeepsInv(s.(timers := s.timers - {p.id}), TimedOut(""), spawnOk);
  }

  /** A reply from any other generation than the current one changes nothing. */
  lemma StaleReplyIgnored(s: State, from: nat, r: Response)
    requires from != s.generation
    ensures Next(s, Message(from, r)) == s
  {
  }

  lemma {:induction false} DisposedStays(s: State, events: seq<Event>, spawnOk: bool)
    requires s == Run(events, spawnOk) && s.disposed
    ensures s.pending == [] && s.timers == map[] && s.worker == None
    ensures forall ev :: Next(s, ev).disposed && Next(s, ev).sent == s.sent && Next(s, ev).pending == []
  {
    RunKeepsInv(events, spawnOk);
    NoTimers(s);
    hide Run;
  }

  /** After disposal nothing waits, no timer is armed, and every request ever sent has settled
      exactly once; no later event changes that. */
  lemma DisposedSettledAll(events: seq<Event>, spawnOk: bool, p: Pending)
    requires Run(events, spawnOk).disposed && p in Run(events, spawnOk).sent
    ensures multiset(SettledIds(Run(events, spawnOk).settled))[p.id] == 1
  {
    EachRequestOnce(events, spawnOk, p);
    DisposedStays(Run(events, spawnOk), events, spawnOk);
    hide Run;
    assert PendingIds([]) == [];
  }
}
