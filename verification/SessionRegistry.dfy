/** The registry of live sessions: it tells its subscribers of changes, and keeps quiet about
    those it calls equal. */
module SessionRegistry {
  import opened Options

  const ACTIVITY_BUCKET_MS := 30_000

  datatype Kind = Unset | Terminal | Chat

  /** The fields whose change is always told. */
  datatype Shown = Shown(
    name: string, claudeProfileId: Option<string>, tmuxWindow: string, status: string, projectPath: string,
    source: string, agentType: Option<string>, command: Option<string>,
    agentSessionId: Option<string>, agentSessionName: Option<string>,
    logFilePath: Option<string>, lastUserMessage: Option<string>, isPinned: Option<bool>, host: Option<string>,
    remote: Option<bool>, archivedAt: Option<string>)

  /** `quiet` stands for the fields no comparison looks at. */
  datatype Session = Session(id: string, kind: Kind, lastActivity: string, createdAt: string, shown: Shown,
                             quiet: string)

  /** How timestamps parse; `None` for one that does not. */
  type Parse = string -> Option<int>

  predicate ActivityInSameBucket(parse: Parse, a: string, b: string) {
    if parse(a) == None || parse(b) == None then a == b
    else parse(a).value / ACTIVITY_BUCKET_MS == parse(b).value / ACTIVITY_BUCKET_MS
  }

  predicate EqualForBroadcast(parse: Parse, a: Session, b: Session) {
    a.id == b.id && a.kind == b.kind && a.shown == b.shown
      && ActivityInSameBucket(parse, a.lastActivity, b.lastActivity)
  }

  /** The text parses into the `k`th half minute. */
  ghost predicate InHalfMinute(parse: Parse, text: string, k: int) {
    parse(text).Some? && 30_000 * k <= parse(text).value < 30_000 * (k + 1)
  }

  /** What a subscriber may rely on: the shown fields are the registry's, and the activity is the same text
      or falls into the same half minute. */
  ghost predicate ShownAlike(parse: Parse, a: Session, b: Session) {
    && a.id == b.id && a.kind == b.kind && a.shown == b.shown
    && (a.lastActivity == b.lastActivity
        || exists k :: InHalfMinute(parse, a.lastActivity, k) && InHalfMinute(parse, b.lastActivity, k))
  }

  /** The comparison keeps quiet exactly about sessions that are shown alike. */
  lemma EqualIffShownAlike(parse: Parse, a: Session, b: Session)
    ensures EqualForBroadcast(parse, a, b) <==> ShownAlike(parse, a, b)
  {
    if parse(a.lastActivity).Some? {
      assert InHalfMinute(parse, a.lastActivity, parse(a.lastActivity).value / 30_000);
    }
  }

  /** However timestamps parse, the comparison is an equivalence. */
  lemma EqualForBroadcastIsEquivalence(parse: Parse, a: Session, b: Session, c: Session)
    ensures EqualForBroadcast(parse, a, a)
    ensures EqualForBroadcast(parse, a, b) ==> EqualForBroadcast(parse, b, a)
    ensures EqualForBroadcast(parse, a, b) && EqualForBroadcast(parse, b, c) ==> EqualForBroadcast(parse, a, c)
  {
  }

  function PickLatestActivity(parse: Parse, existing: Option<string>, incoming: string): string {
    if existing == None || existing.value == "" || parse(existing.value) == None then incoming
    else if parse(incoming) == None then existing.value
    else if parse(incoming).value > parse(existing.value).value then incoming
    else existing.value
  }

  // -- sessions by id, in the order they were first put -------------------

  function Find(list: seq<Session>, id: string): (k: int)
    ensures -1 <= k < |list|
    ensures k >= 0 ==> list[k].id == id
    ensures k == -1 ==> forall i :: 0 <= i < |list| ==> list[i].id != id
  {
    if list == [] then -1
    else if list[0].id == id then 0
    else
      var k := Find(list[1..], id);
      if k == -1 then -1 else k + 1
  }

  predicate Has(list: seq<Session>, id: string) {
    Find(list, id) != -1
  }

  function Get(list: seq<Session>, id: string): (s: Session)
    requires Has(list, id)
    ensures s.id == id && s in list
  {
    list[Find(list, id)]
  }

  predicate DistinctIds(list: seq<Session>) {
    forall i, j :: 0 <= i < j < |list| ==> list[i].id != list[j].id
  }

  function Put(list: seq<Session>, s: Session): seq<Session> {
    var k := Find(list, s.id);
    if k == -1 then list + [s] else list[k := s]
  }

  function Removed(list: seq<Session>, id: string): seq<Session> {
    var k := Find(list, id);
    if k == -1 then list else list[..k] + list[k + 1..]
  }

  // -- specification ------------------------------------------------------

  datatype State = State(sessions: seq<Session>, chats: seq<Session>)

  datatype Event = SessionList(list: seq<Session>) | SessionUpdate(session: Session) | SessionRemoved(id: string)

  function All(s: State): seq<Session> {
    s.sessions + s.chats
  }

  /** A listed session as it is stored: activity never goes back, the creation time stays. */
  function Merged(parse: Parse, sessions: seq<Session>, next: Session, now: string): (s: Session)
    ensures s.id == next.id
  {
    var existing := if Has(sessions, next.id) then Some(Get(sessions, next.id)) else None;
    next.(
      lastActivity := PickLatestActivity(
        parse, if existing.Some? then Some(existing.value.lastActivity) else None, next.lastActivity),
      createdAt :=
        if existing.Some? && existing.value.createdAt != "" then existing.value.createdAt
        else if next.createdAt != "" then next.createdAt
        else now)
  }

  /** The tmux world a listing makes of the one before; chats in the listing are dropped. */
  function NextSessions(parse: Parse, sessions: seq<Session>, listing: seq<Session>, now: string): seq<Session> {
    if listing == [] then []
    else
      var n := |listing| - 1;
      var before := NextSessions(parse, sessions, listing[..n], now);
      if listing[n].kind == Chat then before else Put(before, Merged(parse, sessions, listing[n], now))
  }

  function GoneIds(sessions: seq<Session>, next: seq<Session>): (r: seq<string>)
    ensures forall id :: id in r <==> Has(sessions, id) && !Has(next, id)
  {
    if sessions == [] then []
    else
      var id := sessions[0].id;
      (if Has(next, id) then [] else [id]) + GoneIds(sessions[1..], next)
  }

  predicate HasChanges(parse: Parse, sessions: seq<Session>, next: seq<Session>) {
    || GoneIds(sessions, next) != []
    || |next| != |sessions|
    || exists i :: 0 <= i < |next|
        && (!Has(sessions, next[i].id) || !EqualForBroadcast(parse, Get(sessions, next[i].id), next[i]))
  }

  function RemovedEvents(ids: seq<string>): seq<Event> {
    seq(|ids|, i requires 0 <= i < |ids| => SessionRemoved(ids[i]))
  }

  /** A change of some fields; which session it is and its kind never change. */
  datatype Patch = Patch(lastActivity: Option<string>, createdAt: Option<string>, shown: Option<Shown>,
                         quiet: Option<string>)

  function Patched(s: Session, p: Patch): Session {
    s.(lastActivity := if p.lastActivity.Some? then p.lastActivity.value else s.lastActivity,
       createdAt := if p.createdAt.Some? then p.createdAt.value else s.createdAt,
       shown := if p.shown.Some? then p.shown.value else s.shown,
       quiet := if p.quiet.Some? then p.quiet.value else s.quiet)
  }

  datatype Call =
    | SetChat(session: Session)
    | RemoveChat(id: string)
    | Replace(listing: seq<Session>, now: string)
    | Update(id: string, patch: Patch)

  /** The new state, and what is emitted. */
  function After(parse: Parse, s: State, call: Call): (State, seq<Event>) {
    match call
    case SetChat(session) =>
      var t := s.(chats := Put(s.chats, session));
      (t, [SessionList(All(t))])
    case RemoveChat(id) =>
      var t := s.(chats := Removed(s.chats, id));
      (t, if Has(s.chats, id) then [SessionList(All(t))] else [])
    case Replace(listing, now) =>
      var next := NextSessions(parse, s.sessions, listing, now);
      var t := s.(sessions := next);
      (t, (if HasChanges(parse, s.sessions, next) then [SessionList(All(t))] else [])
        + RemovedEvents(GoneIds(s.sessions, next)))
    case Update(id, patch) =>
      if Has(s.sessions, id) then
        var updated := Patched(Get(s.sessions, id), patch);
        (if Has(s.chats, id) then s.(chats := Put(s.chats, updated)) else s.(sessions := Put(s.sessions, updated)),
         [SessionUpdate(updated)])
      else if Has(s.chats, id) then
        var updated := Patched(Get(s.chats, id), patch);
        (s.(chats := Put(s.chats, updated)), [SessionUpdate(updated)])
      else (s, [])
  }

  // -- the registry -------------------------------------------------------

  class Registry {
    const parse: Parse
    var sessions: seq<Session>
    var chatSessions: seq<Session>
    var emitted: seq<Event>

    constructor (parse: Parse)
      ensures this.parse == parse && Abs() == State([], []) && emitted == []
    {
      this.parse := parse;
      sessions, chatSessions, emitted := [], [], [];
    }

    function Abs(): State
      reads this
    {
      State(sessions, chatSessions)
    }

    function GetAll(): seq<Session>
      reads this
    {
      sessions + chatSessions
    }

    method SetChatSession(session: Session)
      modifies this
      ensures var (s, events) := After(parse, old(Abs()), SetChat(session));
        Abs() == s && emitted == old(emitted) + events
    {
      chatSessions := Put(chatSessions, session);
      emitted := emitted + [SessionList(GetAll())];
    }

    method RemoveChatSession(id: string) returns (removed: bool)
      modifies this
      ensures removed == Has(old(chatSessions), id)
      ensures var (s, events) := After(parse, old(Abs()), RemoveChat(id));
        Abs() == s && emitted == old(emitted) + events
    {
      removed := Has(chatSessions, id);
      chatSessions := Removed(chatSessions, id);
      if removed {
        emitted := emitted + [SessionList(GetAll())];
      }
      assert old(emitted) + [] == old(emitted);
    }

    method ReplaceSessions(listing: seq<Session>, now: string)
      modifies this
      ensures var (s, events) := After(parse, old(Abs()), Replace(listing, now));
        Abs() == s && emitted == old(emitted) + events
    {
      hide HasChanges, GoneIds, Find, Merged;
      var next: seq<Session> := [];
      for i := 0 to |listing|
        invariant next == NextSessions(parse, sessions, listing[..i], now)
        invariant unchanged(this)
      {
        assert listing[..i + 1][..i] == listing[..i];
        if listing[i].kind == Chat {
          continue;
        }
        next := Put(next, Merged(parse, sessions, listing[i], now));
      }
      assert listing[..|listing|] == listing;
      var gone := GoneIds(sessions, next);
      var hasChanges := HasChanges(parse, sessions, next);
      sessions := next;
      if hasChanges {
        emitted := emitted + [SessionList(GetAll())];
      }
      ghost var told := emitted;
      for i := 0 to |gone|
        invariant emitted == told + RemovedEvents(gone)[..i]
        invariant sessions == next && chatSessions == old(chatSessions)
      {
        emitted := emitted + [SessionRemoved(gone[i])];
      }
      assert RemovedEvents(gone)[..|gone|] == RemovedEvents(gone);
      var first := if hasChanges then [SessionList(GetAll())] else [];
      assert told == old(emitted) + first;
      assert (old(emitted) + first) + RemovedEvents(gone) == old(emitted) + (first + RemovedEvents(gone));
    }

    method UpdateSession(id: string, patch: Patch) returns (r: Option<Session>)
      modifies this
      ensures var (s, events) := After(parse, old(Abs()), Update(id, patch));
        Abs() == s && emitted == old(emitted) + events
      ensures r.Some? <==> Has(old(GetAll()), id)
      ensures r.Some? ==> emitted == old(emitted) + [SessionUpdate(r.value)]
    {
      FindInAll(sessions, chatSessions, id);
      assert old(emitted) + [] == old(emitted);
      if !Has(sessions, id) && !Has(chatSessions, id) {
        return None;
      }
      var current := if Has(sessions, id) then Get(sessions, id) else Get(chatSessions, id);
      var updated := Patched(current, patch);
      if Has(chatSessions, id) {
        chatSessions := Put(chatSessions, updated);
      } else {
        sessions := Put(sessions, updated);
      }
      emitted := emitted + [SessionUpdate(updated)];
      r := Some(updated);
    }
  }

  lemma FindInAll(a: seq<Session>, b: seq<Session>, id: string)
    ensures Has(a + b, id) <==> Has(a, id) || Has(b, id)
  {
    if Has(a, id) {
      assert (a + b)[Find(a, id)].id == id;
    }
    if Has(b, id) {
      assert (a + b)[|a| + Find(b, id)].id == id;
    }
  }

  // -- a subscriber -------------------------------------------------------

  function ById(list: seq<Session>): map<string, Session> {
    if list == [] then map[] else ById(list[..|list| - 1])[list[|list| - 1].id := list[|list| - 1]]
  }

  /** A subscriber's picture after one event. */
  function Seen(view: map<string, Session>, e: Event): map<string, Session> {
    match e
    case SessionList(list) => ById(list)
    case SessionUpdate(s) => view[s.id := s]
    case SessionRemoved(id) => view - {id}
  }

  function SeenAll(view: map<string, Session>, events: seq<Event>): map<string, Session>
    decreases |events|
  {
    if events == [] then view else SeenAll(Seen(view, events[0]), events[1..])
  }

  /** The picture has the registry's ids, and for each a session shown like the registry's. */
  ghost predicate Follows(parse: Parse, view: map<string, Session>, list: seq<Session>) {
    && (forall id :: id in view <==> Has(list, id))
    && (forall id :: id in view && Has(list, id) ==> ShownAlike(parse, view[id], Get(list, id)))
  }

  ghost predicate Apart(s: State) {
    DistinctIds(s.sessions) && DistinctIds(s.chats) && forall id :: !(Has(s.sessions, id) && Has(s.chats, id))
  }

  lemma ApartAll(s: State)
    requires Apart(s)
    ensures DistinctIds(All(s))
    ensures forall id :: Has(All(s), id) <==> Has(s.sessions, id) || Has(s.chats, id)
    ensures forall id :: Has(s.sessions, id) ==> Has(All(s), id) && Get(All(s), id) == Get(s.sessions, id)
    ensures forall id :: Has(s.chats, id) ==> Has(All(s), id) && Get(All(s), id) == Get(s.chats, id)
  {
    forall i, j | 0 <= i < j < |All(s)|
      ensures All(s)[i].id != All(s)[j].id
    {
      if i < |s.sessions| <= j {
        assert Has(s.sessions, s.sessions[i].id) && Has(s.chats, s.chats[j - |s.sessions|].id);
      }
    }
    forall id
      ensures Has(All(s), id) <==> Has(s.sessions, id) || Has(s.chats, id)
      ensures Has(s.sessions, id) ==> Has(All(s), id) && Get(All(s), id) == Get(s.sessions, id)
      ensures Has(s.chats, id) ==> Has(All(s), id) && Get(All(s), id) == Get(s.chats, id)
    {
      FindInAll(s.sessions, s.chats, id);
      if Has(s.sessions, id) {
        assert All(s)[Find(s.sessions, id)] == Get(s.sessions, id);
      }
      if Has(s.chats, id) {
        assert All(s)[|s.sessions| + Find(s.chats, id)] == Get(s.chats, id);
      }
    }
  }

  /** A full list shows a subscriber exactly what it holds. */
  lemma {:induction false} ByIdHolds(list: seq<Session>, id: string)
    requires DistinctIds(list)
    ensures id in ById(list) <==> Has(list, id)
    ensures Has(list, id) ==> ById(list)[id] == Get(list, id)
  {
    if list != [] {
      var n := |list| - 1;
      ByIdHolds(list[..n], id);
      assert list == list[..n] + [list[n]];
      FindInAll(list[..n], [list[n]], id);
      assert Has([list[n]], id) <==> list[n].id == id;
      if Has(list[..n], id) {
        assert list[Find(list[..n], id)].id == id;
      }
    }
  }

  lemma ListIsFollowed(parse: Parse, list: seq<Session>)
    requires DistinctIds(list)
    ensures Follows(parse, ById(list), list)
  {
    forall id
      ensures id in ById(list) <==> Has(list, id)
      ensures Has(list, id) ==> id in ById(list) && ById(list)[id] == Get(list, id)
    {
      ByIdHolds(list, id);
    }
  }

  lemma PutHas(list: seq<Session>, s: Session, id: string)
    requires DistinctIds(list)
    ensures DistinctIds(Put(list, s))
    ensures Has(Put(list, s), id) <==> id == s.id || Has(list, id)
    ensures Has(Put(list, s), id) ==> Get(Put(list, s), id) == if id == s.id then s else Get(list, id)
  {
    var t := Put(list, s);
    var k := Find(list, s.id);
    assert t[if k == -1 then |list| else k] == s;
    if Has(list, id) && id != s.id {
      assert t[Find(list, id)] == Get(list, id);
    }
  }

  lemma {:induction false} NextDistinct(parse: Parse, sessions: seq<Session>, listing: seq<Session>, now: string)
    ensures DistinctIds(NextSessions(parse, sessions, listing, now))
  {
    if listing != [] {
      var n := |listing| - 1;
      NextDistinct(parse, sessions, listing[..n], now);
      PutHas(NextSessions(parse, sessions, listing[..n], now), Merged(parse, sessions, listing[n], now), "");
    }
  }

  /** Nothing told means nothing that counts has changed. */
  lemma NoChangesMeansEqual(parse: Parse, sessions: seq<Session>, next: seq<Session>, id: string)
    requires DistinctIds(sessions) && DistinctIds(next) && !HasChanges(parse, sessions, next)
    ensures Has(next, id) <==> Has(sessions, id)
    ensures Has(next, id) ==> EqualForBroadcast(parse, Get(sessions, id), Get(next, id))
  {
    if Has(next, id) {
      var i := Find(next, id);
      assert Has(sessions, next[i].id);
    }
    assert id !in GoneIds(sessions, next);
  }

  lemma {:induction false} RemovalsChangeNothing(view: map<string, Session>, ids: seq<string>)
    requires forall id :: id in ids ==> id !in view
    ensures SeenAll(view, RemovedEvents(ids)) == view
  {
    if ids != [] {
      assert RemovedEvents(ids)[1..] == RemovedEvents(ids[1..]);
      assert ids[0] in ids && view - {ids[0]} == view;
      RemovalsChangeNothing(view, ids[1..]);
    }
  }

  lemma RemovedHas(list: seq<Session>, gone: string, id: string)
    requires DistinctIds(list)
    ensures DistinctIds(Removed(list, gone))
    ensures Has(Removed(list, gone), id) <==> id != gone && Has(list, id)
    ensures Has(Removed(list, gone), id) ==> Get(Removed(list, gone), id) == Get(list, id)
  {
    var t := Removed(list, gone);
    var k := Find(list, gone);
    if Has(list, id) && id != gone && k != -1 {
      var i := Find(list, id);
      assert t[if i < k then i else i - 1] == list[i];
    }
  }

  // -- every call is followed ---------------------------------------------

  /** Two lists with equal sessions for each id are followed by the same pictures. */
  lemma EqualListsShareFollowers(parse: Parse, view: map<string, Session>, a: seq<Session>, b: seq<Session>)
    requires Follows(parse, view, a)
    requires forall id :: Has(b, id) <==> Has(a, id)
    requires forall id :: Has(a, id) && Has(b, id) ==> EqualForBroadcast(parse, Get(a, id), Get(b, id))
    ensures Follows(parse, view, b)
  {
    hide Has, Get, Find, EqualForBroadcast, ShownAlike;
    forall id | id in view && Has(b, id)
      ensures ShownAlike(parse, view[id], Get(b, id))
    {
      assert Has(a, id);
      EqualIffShownAlike(parse, view[id], Get(a, id));
      EqualIffShownAlike(parse, view[id], Get(b, id));
      EqualForBroadcastIsEquivalence(parse, view[id], Get(a, id), Get(b, id));
    }
  }

  lemma QuietReplaceIsFollowed(parse: Parse, s: State, next: seq<Session>, view: map<string, Session>)
    requires Apart(s) && Apart(s.(sessions := next)) && Follows(parse, view, All(s))
    requires !HasChanges(parse, s.sessions, next)
    ensures Follows(parse, view, All(s.(sessions := next)))
  {
    var t := s.(sessions := next);
    ApartAll(s);
    ApartAll(t);
    forall id
      ensures Has(All(t), id) <==> Has(All(s), id)
      ensures Has(All(t), id) && Has(All(s), id) ==> EqualForBroadcast(parse, Get(All(s), id), Get(All(t), id))
    {
      hide HasChanges, Has, Get, Find, All;
      NoChangesMeansEqual(parse, s.sessions, next, id);
    }
    hide *;
    EqualListsShareFollowers(parse, view, All(s), All(t));
  }

  lemma ToldReplaceIsFollowed(parse: Parse, s: State, next: seq<Session>, view: map<string, Session>)
    requires Apart(s) && Apart(s.(sessions := next))
    ensures var t := s.(sessions := next);
      Follows(parse, SeenAll(view, [SessionList(All(t))] + RemovedEvents(GoneIds(s.sessions, next))), All(t))
  {
    var t := s.(sessions := next);
    var ids := GoneIds(s.sessions, next);
    var gone := RemovedEvents(ids);
    ApartAll(t);
    ListIsFollowed(parse, All(t));
    assert ([SessionList(All(t))] + gone)[1..] == gone;
    forall id | id in ids
      ensures id !in ById(All(t))
    {
      hide Find, Get, All, GoneIds, ById, RemovedEvents;
      assert Has(s.sessions, id) && !Has(next, id);
      assert !Has(All(t), id);
    }
    RemovalsChangeNothing(ById(All(t)), ids);
  }

  /** What a caller must not do: give a chat the id of a tmux session, or the reverse. */
  predicate Admissible(s: State, call: Call) {
    match call
    case SetChat(session) => !Has(s.sessions, session.id)
    case Replace(listing, now) => forall i :: 0 <= i < |listing| && listing[i].kind != Chat ==>
      !Has(s.chats, listing[i].id)
    case _ => true
  }

  lemma NoneHas(id: string)
    ensures !Has([], id)
  {
  }

  /** A listing's sessions are its non-chats, each the stored form of the last that has its id. */
  lemma {:induction false} NextHolds(parse: Parse, sessions: seq<Session>, listing: seq<Session>, now: string,
                                     id: string) returns (k: int)
    ensures Has(NextSessions(parse, sessions, listing, now), id) <==> k != -1
    ensures k == -1 ==> forall i :: 0 <= i < |listing| && listing[i].id == id ==> listing[i].kind == Chat
    ensures k != -1 ==>
      && 0 <= k < |listing| && listing[k].id == id && listing[k].kind != Chat
      && (forall i :: k < i < |listing| && listing[i].id == id ==> listing[i].kind == Chat)
      && Get(NextSessions(parse, sessions, listing, now), id) == Merged(parse, sessions, listing[k], now)
  {
    hide Find, Put, Merged;
    if listing == [] {
      NoneHas(id);
      return -1;
    }
    var n := |listing| - 1;
    k := NextHolds(parse, sessions, listing[..n], now, id);
    if listing[n].kind != Chat {
      NextDistinct(parse, sessions, listing[..n], now);
      PutHas(NextSessions(parse, sessions, listing[..n], now), Merged(parse, sessions, listing[n], now), id);
      if listing[n].id == id {
        k := n;
      }
    }
  }

  /** Such calls keep chat ids and tmux ids apart. */
  lemma AfterKeepsApart(parse: Parse, s: State, call: Call)
    requires Apart(s) && Admissible(s, call)
    ensures Apart(After(parse, s, call).0)
  {
    hide Find, Put, Removed, NextSessions, GoneIds, Merged, HasChanges, RemovedEvents, All;
    var t := After(parse, s, call).0;
    if call.Replace? {
      NextDistinct(parse, s.sessions, call.listing, call.now);
    } else if call.Update? && Has(s.sessions, call.id) {
      PutHas(s.sessions, Patched(Get(s.sessions, call.id), call.patch), "");
    } else if call.Update? && Has(s.chats, call.id) {
      PutHas(s.chats, Patched(Get(s.chats, call.id), call.patch), "");
    } else if call.SetChat? {
      PutHas(s.chats, call.session, "");
    } else if call.RemoveChat? {
      RemovedHas(s.chats, call.id, "");
    }
    forall id
      ensures !(Has(t.sessions, id) && Has(t.chats, id))
    {
      match call
      case SetChat(session) => PutHas(s.chats, session, id);
      case RemoveChat(gone) => RemovedHas(s.chats, gone, id);
      case Replace(listing, now) => var k := NextHolds(parse, s.sessions, listing, now, id);
      case Update(key, patch) =>
        if Has(s.sessions, key) {
          PutHas(s.sessions, Patched(Get(s.sessions, key), patch), id);
        } else if Has(s.chats, key) {
          PutHas(s.chats, Patched(Get(s.chats, key), patch), id);
        }
    }
  }

  /** Putting a session in both pictures keeps them in step. */
  lemma PutIsFollowed(parse: Parse, view: map<string, Session>, updated: Session, before: seq<Session>,
                      after: seq<Session>)
    requires Follows(parse, view, before)
    requires forall id :: Has(after, id) <==> id == updated.id || Has(before, id)
    requires forall id :: Has(after, id) ==> Get(after, id) == if id == updated.id then updated else Get(before, id)
    ensures Follows(parse, view[updated.id := updated], after)
  {
    hide Has, Get, Find;
  }

  lemma UpdateHolds(parse: Parse, s: State, t: State, updated: Session, id: string)
    requires Apart(s) && Apart(t)
    requires
      || (Has(s.sessions, updated.id) && t == s.(sessions := Put(s.sessions, updated)))
      || (Has(s.chats, updated.id) && t == s.(chats := Put(s.chats, updated)))
    ensures Has(All(t), id) <==> id == updated.id || Has(All(s), id)
    ensures Has(All(t), id) ==> Get(All(t), id) == if id == updated.id then updated else Get(All(s), id)
  {
    ApartAll(s);
    ApartAll(t);
    PutHas(s.sessions, updated, id);
    PutHas(s.chats, updated, id);
    hide *;
  }

  lemma UpdateIsFollowed(parse: Parse, s: State, key: string, patch: Patch, view: map<string, Session>)
    requires Apart(s) && Apart(After(parse, s, Update(key, patch)).0)
    requires Follows(parse, view, All(s))
    ensures Follows(parse, SeenAll(view, After(parse, s, Update(key, patch)).1),
      All(After(parse, s, Update(key, patch)).0))
  {
    var t := After(parse, s, Update(key, patch)).0;
    if Has(s.sessions, key) || Has(s.chats, key) {
      var updated := Patched(if Has(s.sessions, key) then Get(s.sessions, key) else Get(s.chats, key), patch);
      assert [SessionUpdate(updated)][1..] == [];
      assert SeenAll(view, [SessionUpdate(updated)]) == view[key := updated];
      assert !(Has(s.sessions, key) && Has(s.chats, key));
      hide Find, Put, Follows, All, Apart, Get;
      forall id
        ensures Has(All(t), id) <==> id == updated.id || Has(All(s), id)
        ensures Has(All(t), id) ==> Get(All(t), id) == if id == updated.id then updated else Get(All(s), id)
      {
        UpdateHolds(parse, s, t, updated, id);
      }
      PutIsFollowed(parse, view, updated, All(s), All(t));
    }
  }

  /** Whatever is told or kept quiet, the picture keeps up. */
  lemma AfterIsFollowed(parse: Parse, s: State, call: Call, view: map<string, Session>)
    requires Apart(s) && Admissible(s, call) && Follows(parse, view, All(s))
    ensures Follows(parse, SeenAll(view, After(parse, s, call).1), All(After(parse, s, call).0))
  {
    AfterKeepsApart(parse, s, call);
    var (t, events) := After(parse, s, call);
    ApartAll(t);
    match call
    case Update(id, patch) =>
      UpdateIsFollowed(parse, s, id, patch, view);
    case Replace(listing, now) =>
      var next := NextSessions(parse, s.sessions, listing, now);
      if HasChanges(parse, s.sessions, next) {
        ToldReplaceIsFollowed(parse, s, next, view);
      } else {
        assert GoneIds(s.sessions, next) == [] && events == [];
        QuietReplaceIsFollowed(parse, s, next, view);
      }
    case SetChat(session) =>
      ListIsFollowed(parse, All(t));
      assert events[1..] == [];
    case RemoveChat(id) =>
      ListIsFollowed(parse, All(t));
      if Has(s.chats, id) {
        assert events[1..] == [];
      }
  }

  // -- runs ---------------------------------------------------------------

  function Run(parse: Parse, s: State, calls: seq<Call>): (State, seq<Event>) {
    if calls == [] then (s, [])
    else
      var (t, events) := Run(parse, s, calls[..|calls| - 1]);
      var (u, more) := After(parse, t, calls[|calls| - 1]);
      (u, events + more)
  }

  ghost predicate AllAdmissible(parse: Parse, s: State, calls: seq<Call>) {
    forall i :: 0 <= i < |calls| ==> Admissible(Run(parse, s, calls[..i]).0, calls[i])
  }

  lemma {:induction false} SeenAllAppends(view: map<string, Session>, a: seq<Event>, b: seq<Event>)
    ensures SeenAll(view, a + b) == SeenAll(SeenAll(view, a), b)
    decreases |a|
  {
    if a == [] {
      assert a + b == b;
    } else {
      assert (a + b)[1..] == a[1..] + b;
      SeenAllAppends(Seen(view, a[0]), a[1..], b);
    }
  }

  /** In every run, a subscriber that has only the events never drifts from the registry. */
  lemma {:induction false} SubscribersNeverDrift(parse: Parse, s: State, calls: seq<Call>, view: map<string, Session>)
    requires Apart(s) && AllAdmissible(parse, s, calls) && Follows(parse, view, All(s))
    ensures Apart(Run(parse, s, calls).0)
    ensures Follows(parse, SeenAll(view, Run(parse, s, calls).1), All(Run(parse, s, calls).0))
    decreases |calls|
  {
    if calls != [] {
      var n := |calls| - 1;
      var t, events := Run(parse, s, calls[..n]).0, Run(parse, s, calls[..n]).1;
      AdmissiblePrefix(parse, s, calls);
      SubscribersNeverDrift(parse, s, calls[..n], view);
      hide After, Follows, Apart, SeenAll, Admissible, AllAdmissible, All;
      AfterKeepsApart(parse, t, calls[n]);
      AfterIsFollowed(parse, t, calls[n], SeenAll(view, events));
      SeenAllAppends(view, events, After(parse, t, calls[n]).1);
    } else {
      assert SeenAll(view, []) == view;
    }
  }

  lemma AdmissiblePrefix(parse: Parse, s: State, calls: seq<Call>)
    requires calls != [] && AllAdmissible(parse, s, calls)
    ensures var n := |calls| - 1;
      AllAdmissible(parse, s, calls[..n]) && Admissible(Run(parse, s, calls[..n]).0, calls[n])
  {
    hide Run, Admissible;
    var n := |calls| - 1;
    forall i | 0 <= i < n
      ensures Admissible(Run(parse, s, calls[..n][..i]).0, calls[..n][i])
    {
      assert calls[..n][..i] == calls[..i];
    }
  }

  ghost predicate Shares(s: State, id: string) {
    Has(s.sessions, id) && Has(s.chats, id)
  }

  lemma {:induction false} RemovalsRemove(view: map<string, Session>, ids: seq<string>, id: string)
    requires id in ids || id !in view
    ensures id !in SeenAll(view, RemovedEvents(ids))
  {
    if ids != [] {
      assert RemovedEvents(ids)[1..] == RemovedEvents(ids[1..]);
      RemovalsRemove(view - {ids[0]}, ids[1..], id);
    }
  }

  /** When the tmux session whose id a chat shares goes, the chat is lost from view. */
  lemma SharedIdsDrift(parse: Parse, s: State, id: string, now: string, view: map<string, Session>)
    requires Shares(s, id)
    ensures var (t, events) := After(parse, s, Replace([], now));
      Has(All(t), id) && id !in SeenAll(view, events)
  {
    var (t, events) := After(parse, s, Replace([], now));
    var gone := GoneIds(s.sessions, []);
    var first := if HasChanges(parse, s.sessions, []) then [SessionList(All(t))] else [];
    hide HasChanges, GoneIds, RemovedEvents;
    assert id in gone && All(t) == s.chats;
    SeenAllAppends(view, first, RemovedEvents(gone));
    RemovalsRemove(SeenAll(view, first), gone, id);
  }

  lemma InadmissibleShares(parse: Parse, s: State, call: Call) returns (id: string)
    requires Apart(s) && !Admissible(s, call)
    ensures Shares(After(parse, s, call).0, id)
  {
    hide Find, Put, NextSessions, Merged, HasChanges, RemovedEvents, GoneIds, All;
    match call
    case SetChat(session) =>
      id := session.id;
      PutHas(s.chats, session, id);
    case Replace(listing, now) =>
      var i :| 0 <= i < |listing| && listing[i].kind != Chat && Has(s.chats, listing[i].id);
      id := listing[i].id;
      var k := NextHolds(parse, s.sessions, listing, now, id);
  }

  /** The subscriber follows after the call and every admissible continuation of it. */
  ghost predicate FollowedOn(parse: Parse, s: State, call: Call, view: map<string, Session>) {
    var (t, events) := After(parse, s, call);
    forall calls :: AllAdmissible(parse, t, calls) ==>
      Follows(parse, SeenAll(SeenAll(view, events), Run(parse, t, calls).1), All(Run(parse, t, calls).0))
  }

  lemma ThenItDrifts(parse: Parse, t: State, id: string, view: map<string, Session>)
    requires Shares(t, id)
    ensures AllAdmissible(parse, t, [Replace([], "")])
    ensures !Follows(parse, SeenAll(view, Run(parse, t, [Replace([], "")]).1), All(Run(parse, t, [Replace([], "")]).0))
  {
    var calls := [Replace([], "")];
    assert calls[..0] == [];
    assert Run(parse, t, calls[..0]) == (t, []);
    assert Run(parse, t, calls) == (After(parse, t, calls[0]).0, [] + After(parse, t, calls[0]).1);
    assert [] + After(parse, t, calls[0]).1 == After(parse, t, calls[0]).1;
    hide After, Run, SeenAll, Has, All;
    SharedIdsDrift(parse, t, id, "", view);
  }

  /** A call is admissible exactly when no run of admissible calls after it makes a subscriber drift. */
  lemma AdmissibleIff(parse: Parse, s: State, call: Call, view: map<string, Session>)
    requires Apart(s) && Follows(parse, view, All(s))
    ensures Admissible(s, call) <==> FollowedOn(parse, s, call, view)
  {
    hide After, Follows, Apart, SeenAll, Admissible, AllAdmissible, All, Run, Shares;
    var (t, events) := After(parse, s, call);
    if Admissible(s, call) {
      AfterKeepsApart(parse, s, call);
      AfterIsFollowed(parse, s, call, view);
      forall calls | AllAdmissible(parse, t, calls)
        ensures Follows(parse, SeenAll(SeenAll(view, events), Run(parse, t, calls).1), All(Run(parse, t, calls).0))
      {
        SubscribersNeverDrift(parse, t, calls, SeenAll(view, events));
      }
    } else {
      var id := InadmissibleShares(parse, s, call);
      ThenItDrifts(parse, t, id, SeenAll(view, events));
    }
  }

  // -- what a refresh keeps -----------------------------------------------

  /** A refresh never takes a session's valid activity back, nor its creation time, and touches no chat. */
  lemma ReplaceKeepsWhatCounts(parse: Parse, s: State, listing: seq<Session>, now: string, id: string)
    requires Apart(s) && Admissible(s, Replace(listing, now))
    ensures var t := After(parse, s, Replace(listing, now)).0;
      && (Has(s.sessions, id) && Has(t.sessions, id)
          && Get(s.sessions, id).lastActivity != "" && parse(Get(s.sessions, id).lastActivity).Some? ==>
          parse(Get(t.sessions, id).lastActivity).Some?
          && parse(Get(t.sessions, id).lastActivity).value >= parse(Get(s.sessions, id).lastActivity).value)
      && (Has(s.sessions, id) && Has(t.sessions, id) && Get(s.sessions, id).createdAt != "" ==>
          Get(t.sessions, id).createdAt == Get(s.sessions, id).createdAt)
      && (Has(s.chats, id) ==> Has(All(t), id) && Get(All(t), id) == Get(s.chats, id))
  {
    var t := After(parse, s, Replace(listing, now)).0;
    AfterKeepsApart(parse, s, Replace(listing, now));
    ApartAll(t);
    var k := NextHolds(parse, s.sessions, listing, now, id);
  }
}
