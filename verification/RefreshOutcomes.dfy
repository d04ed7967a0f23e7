/** How each promise of the refresh worker's client settles: which step settles it, and with what. */
module RefreshOutcomes {
  import opened Options
  import opened RefreshWorker

  // -- one step -----------------------------------------------------------

  /** A reply of the current worker settles the request it names, and that one alone: a result of the
      kind asked for resolves it, one of the other kind rejects it, and a failure rejects it as it says. */
  lemma ReplySettles(s: State, p: Pending, r: Response)
    requires Inv(s) && p in s.pending && r.id == p.id
    ensures var t := Next(s, Message(s.generation, r));
      && |t.settled| == |s.settled| + 1 && t.settled[..|s.settled|] == s.settled
      && var x := t.settled[|s.settled|];
      && x.id == p.id
      && (r.Result? && r.kind == p.kind ==> x.outcome == Resolved(r.payload))
      && (r.Result? && r.kind != p.kind ==> x.outcome == Rejected(WrongKind))
      && (r.Failure? && r.timedOut ==> x.outcome == Rejected(TimedOut(r.error)))
      && (r.Failure? && !r.timedOut ==> x.outcome == Rejected(Failed(r.error)))
      && (forall q :: q in t.pending <==> q in s.pending && q != p)
      && t == s.(pending := t.pending, timers := s.timers - {p.id}, settled := t.settled)
  {
    PendingIdsDistinct(s);
    hide Inv;
    var k := FoundAt(s.pending, p);
    OthersStay(s.pending, k);
    hide Find;
  }

  lemma FoundAt(pending: seq<Pending>, p: Pending) returns (k: nat)
    requires p in pending
    requires forall i, j :: 0 <= i < j < |pending| ==> pending[i].id != pending[j].id
    ensures k < |pending| && Find(pending, p.id) == k && pending[k] == p
  {
    hide Find;
    var i :| 0 <= i < |pending| && pending[i] == p;
    k := Find(pending, p.id);
  }

  lemma OthersStay(pending: seq<Pending>, k: nat)
    requires k < |pending|
    requires forall i, j :: 0 <= i < j < |pending| ==> pending[i].id != pending[j].id
    ensures forall q :: q in pending[..k] + pending[k + 1..] <==> q in pending && q != pending[k]
  {
    forall q
      ensures q in pending[..k] + pending[k + 1..] <==> q in pending && q != pending[k]
    {
      if q in pending[..k] + pending[k + 1..] {
        NoLongerWaits(pending, k, q);
      } else {
        assert pending == pending[..k] + [pending[k]] + pending[k + 1..];
      }
    }
  }

  /** A reply that names no waiting request changes nothing. */
  lemma UnknownReplyIgnored(s: State, from: nat, r: Response)
    requires forall p :: p in s.pending ==> p.id != r.id
    ensures Next(s, Message(from, r)) == s
  {
    forall k | 0 <= k < |s.pending|
      ensures s.pending[k].id != r.id
    {
      assert s.pending[k] in s.pending;
    }
  }

  function RejectedAll(pending: seq<Pending>, error: Error): seq<Settlement> {
    seq(|pending|, i requires 0 <= i < |pending| => Settlement(pending[i].id, Rejected(error)))
  }

  /** Every waiting request is rejected with that error, in order, and nothing else settles. */
  ghost predicate RejectsAll(s: State, t: State, error: Error) {
    && t.pending == [] && t.timers == map[] && t.sent == s.sent
    && t.settled == s.settled + RejectedAll(s.pending, error)
  }

  /** The old worker is dropped and the next one started, if it may and can be. */
  ghost predicate Renewed(s: State, t: State, spawnOk: bool) {
    && t.disposed == s.disposed
    && if !s.disposed && spawnOk then t.generation == s.generation + 1 && t.worker == Some(t.generation)
       else t.generation == s.generation && t.worker == None
  }

  lemma {:induction false} AllFailedSettles(s: State, error: Error)
    ensures AllFailed(s, error).settled == s.settled + RejectedAll(s.pending, error)
    decreases |s.pending|
  {
    if s.pending != [] {
      var first := Settlement(s.pending[0].id, Rejected(error));
      AllFailedSettles(FirstFailed(s, error), error);
      assert RejectedAll(s.pending, error) == [first] + RejectedAll(s.pending[1..], error);
      Regrouped(s.settled, [first], RejectedAll(s.pending[1..], error));
    }
  }

  lemma Regrouped(a: seq<Settlement>, b: seq<Settlement>, c: seq<Settlement>)
    ensures (a + b) + c == a + (b + c)
  {
  }

  lemma AllFailedRejectsAll(s: State, t: State, error: Error)
    requires Inv(s) && t == s.(timers := t.timers, disposed := t.disposed) && t.timers.Keys <= s.timers.Keys
    ensures var u := AllFailed(t, error);
      && RejectsAll(s, u, error) && u == t.(pending := [], timers := map[], settled := u.settled)
      && u == GenerationFailed(t, [], s.generation, error)
  {
    hide Conserved, IdsDistinct;
    ConservedFields(s, t);
    AllFailedInv(t, error);
    AllFailedSettles(t, error);
    SameGenerationFailsAll(t, s.generation, error);
    hide AllFailed, GenerationFailed;
  }

  /** An error of the current worker rejects what waits with its message, and the next worker starts. */
  lemma ErrorRejectsAll(s: State, message: string, spawnOk: bool)
    requires Inv(s)
    ensures RejectsAll(s, Next(s, WorkerError(s.generation, message, spawnOk)), Failed(message))
    ensures Renewed(s, Next(s, WorkerError(s.generation, message, spawnOk)), spawnOk)
  {
    AllFailedRejectsAll(s, s, Failed(message));
    hide GenerationFailed, AllFailed, Conserved, IdsDistinct, Guarded;
  }

  /** So does a timer, with a timeout. */
  lemma TimerRejectsAll(s: State, id: Id, spawnOk: bool)
    requires Inv(s) && id in s.timers
    ensures RejectsAll(s, Next(s, TimerFires(id, spawnOk)), TimedOut(""))
    ensures Renewed(s, Next(s, TimerFires(id, spawnOk)), spawnOk)
  {
    assert Waits(s.pending, id);
    var p :| p in s.pending && p.id == id;
    assert s.timers[id] == s.generation;
    AllFailedRejectsAll(s, s.(timers := s.timers - {id}), TimedOut(""));
    hide GenerationFailed, AllFailed, Conserved, IdsDistinct, Guarded;
  }

  lemma DisposeRejectsAll(s: State)
    requires Inv(s)
    ensures var t := Next(s, Dispose);
      RejectsAll(s, t, Disposed) && t.disposed && t.worker == None && t.generation == s.generation
  {
    AllFailedRejectsAll(s, s.(disposed := true), Disposed);
    hide AllFailed, GenerationFailed, Conserved, IdsDistinct, Guarded;
  }

  /** A request made of a client that is not disposed and has or can start a worker waits for that worker,
      under an id of its own and with a timer; any other changes nothing. */
  lemma SendWaits(s: State, kind: Kind, ms: nat, spawnOk: bool)
    requires Inv(s)
    ensures var t := Next(s, Send(kind, ms, spawnOk));
      if !s.disposed && (s.worker.Some? || spawnOk) then
        && |t.sent| == |s.sent| + 1
        && var p := t.sent[|s.sent|];
        && p.kind == kind && p.id.ms == ms && (forall q :: q in s.sent ==> q.id != p.id)
        && t.sent == s.sent + [p] && t.pending == s.pending + [p] && t.settled == s.settled
        && p.generation == t.generation == (if s.worker.Some? then s.generation else s.generation + 1)
        && t.worker == Some(t.generation) && !t.disposed
        && t.timers == s.timers[p.id := p.generation]
      else t == s
  {
    hide Conserved, Guarded;
  }

  // -- runs ---------------------------------------------------------------

  /** A run is its events, one after the other, from a client with its first worker. */
  lemma RunOfOneMore(events: seq<Event>, ev: Event, spawnOk: bool)
    ensures Run([], spawnOk) == Spawned(Fresh, spawnOk)
    ensures Run(events + [ev], spawnOk) == Next(Run(events, spawnOk), ev)
  {
    assert (events + [ev])[..|events|] == events;
    hide Next;
  }

  lemma SettledWasSent(s: State, x: Settlement)
    requires Inv(s) && x in s.settled
    ensures exists p :: p in s.sent && p.id == x.id
  {
    var a, b, c := PendingIds(s.pending), SettledIds(s.settled), PendingIds(s.sent);
    assert multiset(a) + multiset(b) == multiset(c);
    hide Inv;
    var i :| 0 <= i < |s.settled| && s.settled[i] == x;
    assert b[i] == x.id && x.id in multiset(b);
    assert x.id in multiset(c);
    var j :| 0 <= j < |c| && c[j] == x.id;
    assert s.sent[j] in s.sent;
  }

  /** One step resolves a request exactly when it is the request's own reply and the request waits. */
  lemma StepResolves(s: State, ev: Event, p: Pending, payload: string)
    requires Inv(s) && p in s.sent
    ensures Settlement(p.id, Resolved(payload)) in Next(s, ev).settled <==>
      Settlement(p.id, Resolved(payload)) in s.settled || (p in s.pending && IsReplyTo(ev, p, payload))
  {
    var x := Settlement(p.id, Resolved(payload));
    match ev {
      case Send(kind, ms, spawnOk) =>
        SendWaits(s, kind, ms, spawnOk);
        hide *;
      case Message(from, r) =>
        MessageResolves(s, from, r, p, payload);
      case WorkerError(from, message, spawnOk) =>
        if from == s.generation {
          ErrorRejectsAll(s, message, spawnOk);
          hide Inv, Next, RejectedAll;
          RejectsNoValue(s.pending, Failed(message), x);
        }
      case TimerFires(id, spawnOk) =>
        if id in s.timers {
          TimerRejectsAll(s, id, spawnOk);
          hide Inv, Next, RejectedAll;
          RejectsNoValue(s.pending, TimedOut(""), x);
        }
      case Dispose =>
        DisposeRejectsAll(s);
        hide Inv, Next, RejectedAll;
        RejectsNoValue(s.pending, Disposed, x);
    }
  }

  lemma RejectsNoValue(pending: seq<Pending>, error: Error, x: Settlement)
    requires x.outcome.Resolved?
    ensures x !in RejectedAll(pending, error)
  {
  }

  lemma SameIdSameRequest(s: State, p: Pending, q: Pending)
    requires Inv(s) && p in s.sent && q in s.pending && p.id == q.id
    ensures p == q
  {
    hide Conserved;
    assert q in s.sent;
    var i :| 0 <= i < |s.sent| && s.sent[i] == p;
    var j :| 0 <= j < |s.sent| && s.sent[j] == q;
  }

  lemma MessageResolves(s: State, from: nat, r: Response, p: Pending, payload: string)
    requires Inv(s) && p in s.sent
    ensures Settlement(p.id, Resolved(payload)) in Next(s, Message(from, r)).settled <==>
      || Settlement(p.id, Resolved(payload)) in s.settled
      || (p in s.pending && IsReplyTo(Message(from, r), p, payload))
  {
    hide Conserved, IdsDistinct, Next;
    if from != s.generation {
      StaleReplyIgnored(s, from, r);
      assert p in s.pending ==> p.generation == s.generation;
    } else if q :| q in s.pending && q.id == r.id {
      ReplySettles(s, q, r);
      var t := Next(s, Message(from, r));
      assert q.generation == s.generation;
      if p.id == q.id {
        SameIdSameRequest(s, p, q);
      }
      hide Inv;
      assert t.settled == t.settled[..|s.settled|] + [t.settled[|s.settled|]];
    } else {
      UnknownReplyIgnored(s, from, r);
    }
  }

  ghost predicate RepliedWhileWaiting(events: seq<Event>, spawnOk: bool, p: Pending, payload: string) {
    exists j :: 0 <= j < |events| && RepliedAt(events, spawnOk, p, payload, j)
  }

  ghost predicate RepliedAt(events: seq<Event>, spawnOk: bool, p: Pending, payload: string, j: nat)
    requires j < |events|
  {
    p in Run(events[..j], spawnOk).pending && IsReplyTo(events[j], p, payload)
  }

  lemma RepliedGrows(events: seq<Event>, spawnOk: bool, p: Pending, payload: string)
    requires events != []
    ensures var n := |events| - 1;
      RepliedWhileWaiting(events, spawnOk, p, payload) <==>
        RepliedWhileWaiting(events[..n], spawnOk, p, payload) || RepliedAt(events, spawnOk, p, payload, n)
  {
    hide Run;
    var n := |events| - 1;
    forall j | 0 <= j < n
      ensures RepliedAt(events, spawnOk, p, payload, j) <==> RepliedAt(events[..n], spawnOk, p, payload, j)
    {
      assert events[..n][..j] == events[..j] && events[..n][j] == events[j];
    }
  }

  lemma {:induction false} RepliedWasSent(events: seq<Event>, spawnOk: bool, p: Pending, payload: string)
    requires RepliedWhileWaiting(events, spawnOk, p, payload)
    ensures p in Run(events, spawnOk).sent
    decreases |events|
  {
    var n := |events| - 1;
    var before := Run(events[..n], spawnOk);
    RepliedGrows(events, spawnOk, p, payload);
    RunKeepsInv(events[..n], spawnOk);
    NextSettles(before, events[n]);
    if RepliedWhileWaiting(events[..n], spawnOk, p, payload) {
      RepliedWasSent(events[..n], spawnOk, p, payload);
    }
    hide Conserved, IdsDistinct, Next;
  }

  /** Over every run a request resolves with a value exactly when its own reply with that value, of the
      worker it was sent to, comes while it waits. */
  lemma {:induction false} ResolvedIffReplied(events: seq<Event>, spawnOk: bool, p: Pending, payload: string)
    requires p in Run(events, spawnOk).sent
    ensures Settlement(p.id, Resolved(payload)) in Run(events, spawnOk).settled <==>
      RepliedWhileWaiting(events, spawnOk, p, payload)
    decreases |events|
  {
    if events != [] {
      var n := |events| - 1;
      var before := Run(events[..n], spawnOk);
      RunKeepsInv(events[..n], spawnOk);
      RepliedGrows(events, spawnOk, p, payload);
      assert Run(events, spawnOk) == Next(before, events[n]);
      hide Run, RepliedWhileWaiting, Next;
      if p in before.sent {
        StepResolves(before, events[n], p, payload);
        ResolvedIffReplied(events[..n], spawnOk, p, payload);
      } else {
        NewResolvesNothing(before, events[n], p, payload);
        if RepliedWhileWaiting(events[..n], spawnOk, p, payload) {
          RepliedWasSent(events[..n], spawnOk, p, payload);
        }
      }
    }
  }

  lemma NewResolvesNothing(s: State, ev: Event, p: Pending, payload: string)
    requires Inv(s) && p !in s.sent && p in Next(s, ev).sent
    ensures Settlement(p.id, Resolved(payload)) !in Next(s, ev).settled && p !in s.pending
  {
    var x := Settlement(p.id, Resolved(payload));
    match ev {
      case Send(kind, ms, spawnOk) =>
        SendWaits(s, kind, ms, spawnOk);
        hide Next, Conserved, IdsDistinct;
        if x in s.settled {
          SettledWasSent(s, x);
        }
      case Message(from, r) =>
      case WorkerError(from, message, spawnOk) =>
        if from == s.generation {
          ErrorRejectsAll(s, message, spawnOk);
        }
      case TimerFires(id, spawnOk) =>
        if id in s.timers {
          TimerRejectsAll(s, id, spawnOk);
        }
      case Dispose =>
        DisposeRejectsAll(s);
    }
  }
}
