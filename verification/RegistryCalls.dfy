/** What the registry's calls store and when they keep quiet, field by field. */
module RegistryCalls {
  import opened Options
  import opened Lists
  import opened SessionRegistry

  // -- what is stored -----------------------------------------------------

  /** The later of two activities, the one before if they are of one time; one that does not parse counts only
      if the other does not either. */
  ghost predicate IsLatest(parse: Parse, before: string, listed: string, stored: string) {
    && (stored == before || stored == listed)
    && (parse(listed).None? && parse(before).Some? ==> stored == before)
    && (parse(before).None? ==> stored == listed)
    && (parse(before).Some? && parse(listed).Some? ==>
        stored == if parse(listed).value > parse(before).value then listed else before)
  }

  /** A refresh stores the last listed non-chat of each id as listed, but for its activity, which is the later
      of the stored and the listed one, and its creation time, which is the first known. */
  lemma RefreshStores(parse: Parse, s: State, listing: seq<Session>, now: string, id: string) returns (k: int)
    ensures var t := After(parse, s, Replace(listing, now)).0;
      && t.chats == s.chats
      && (Has(t.sessions, id) <==> exists i :: 0 <= i < |listing| && listing[i].id == id && listing[i].kind != Chat)
      && (Has(t.sessions, id) ==>
          && 0 <= k < |listing| && listing[k].id == id && listing[k].kind != Chat
          && (forall i :: k < i < |listing| && listing[i].id == id ==> listing[i].kind == Chat)
          && var x := Get(t.sessions, id);
          && x == listing[k].(lastActivity := x.lastActivity, createdAt := x.createdAt)
          && (!Has(s.sessions, id) ==>
              x.lastActivity == listing[k].lastActivity
              && x.createdAt == if listing[k].createdAt != "" then listing[k].createdAt else now)
          && (Has(s.sessions, id) ==>
              && (Get(s.sessions, id).lastActivity == "" ==> x.lastActivity == listing[k].lastActivity)
              && (Get(s.sessions, id).lastActivity != "" ==>
                  IsLatest(parse, Get(s.sessions, id).lastActivity, listing[k].lastActivity, x.lastActivity))
              && x.createdAt ==
                 if Get(s.sessions, id).createdAt != "" then Get(s.sessions, id).createdAt
                 else if listing[k].createdAt != "" then listing[k].createdAt
                 else now))
  {
    k := NextHolds(parse, s.sessions, listing, now, id);
    hide NextSessions, HasChanges, GoneIds, Find;
  }

  /** The patch of an update reaches the session that has the id, in each field it names and no other. */
  lemma UpdateStores(parse: Parse, s: State, id: string, patch: Patch)
    requires Apart(s)
    ensures var t := After(parse, s, Update(id, patch)).0;
      && (forall other :: Has(All(t), other) <==> Has(All(s), other))
      && (forall other :: Has(All(s), other) && other != id ==> Get(All(t), other) == Get(All(s), other))
      && (Has(All(s), id) ==>
          var x, y := Get(All(s), id), Get(All(t), id);
          && y.kind == x.kind
          && y.lastActivity == (if patch.lastActivity.Some? then patch.lastActivity.value else x.lastActivity)
          && y.createdAt == (if patch.createdAt.Some? then patch.createdAt.value else x.createdAt)
          && y.shown == (if patch.shown.Some? then patch.shown.value else x.shown)
          && y.quiet == (if patch.quiet.Some? then patch.quiet.value else x.quiet))
  {
    var t := After(parse, s, Update(id, patch)).0;
    AfterKeepsApart(parse, s, Update(id, patch));
    ApartAll(s);
    if Has(s.sessions, id) || Has(s.chats, id) {
      var x := if Has(s.sessions, id) then Get(s.sessions, id) else Get(s.chats, id);
      var updated := Patched(x, patch);
      assert !(Has(s.sessions, id) && Has(s.chats, id));
      hide Find, Put, All, Apart, Get;
      forall other
        ensures Has(All(t), other) <==> other == id || Has(All(s), other)
        ensures Has(All(t), other) ==> Get(All(t), other) == if other == id then updated else Get(All(s), other)
      {
        UpdateHolds(parse, s, t, updated, other);
      }
    }
  }

  /** A chat set is the chat held, and one removed is gone; no other session changes. */
  lemma ChatCallsStore(parse: Parse, s: State, chat: Session, id: string, other: string)
    requires Apart(s)
    ensures var t := After(parse, s, SetChat(chat)).0;
      && t.sessions == s.sessions
      && (Has(t.chats, other) <==> other == chat.id || Has(s.chats, other))
      && (Has(t.chats, other) ==> Get(t.chats, other) == if other == chat.id then chat else Get(s.chats, other))
    ensures var t := After(parse, s, RemoveChat(id)).0;
      && t.sessions == s.sessions
      && (Has(t.chats, other) <==> other != id && Has(s.chats, other))
      && (Has(t.chats, other) ==> Get(t.chats, other) == Get(s.chats, other))
  {
    PutHas(s.chats, chat, other);
    RemovedHas(s.chats, id, other);
    hide Find, Put, Removed;
  }

  // -- when a refresh keeps quiet -----------------------------------------

  function Ids(list: seq<Session>): seq<string> {
    seq(|list|, i requires 0 <= i < |list| => list[i].id)
  }

  lemma IdsHold(list: seq<Session>)
    requires DistinctIds(list)
    ensures Distinct(Ids(list)) && forall id :: id in Ids(list) <==> Has(list, id)
  {
    forall id
      ensures id in Ids(list) <==> Has(list, id)
    {
      if id in Ids(list) {
        var i :| 0 <= i < |list| && Ids(list)[i] == id;
        assert list[i].id == id;
      }
      if Has(list, id) {
        assert Ids(list)[Find(list, id)] == id;
      }
    }
  }

  lemma SameIdsSameLength(a: seq<Session>, b: seq<Session>)
    requires DistinctIds(a) && DistinctIds(b) && forall id :: Has(a, id) <==> Has(b, id)
    ensures |a| == |b|
  {
    IdsHold(a);
    IdsHold(b);
    SameSetSameCounts(Ids(a), Ids(b));
    assert |multiset(Ids(a))| == |a| && |multiset(Ids(b))| == |b|;
  }

  /** The tmux sessions of two states are shown alike. */
  ghost predicate SessionsAlike(parse: Parse, a: seq<Session>, b: seq<Session>) {
    && (forall id :: Has(a, id) <==> Has(b, id))
    && (forall id :: Has(a, id) && Has(b, id) ==> ShownAlike(parse, Get(a, id), Get(b, id)))
  }

  lemma ChangesIff(parse: Parse, a: seq<Session>, b: seq<Session>)
    requires DistinctIds(a) && DistinctIds(b)
    ensures HasChanges(parse, a, b) <==> !SessionsAlike(parse, a, b)
  {
    hide EqualForBroadcast, ShownAlike;
    if !HasChanges(parse, a, b) {
      forall id
        ensures Has(a, id) <==> Has(b, id)
        ensures Has(a, id) && Has(b, id) ==> ShownAlike(parse, Get(a, id), Get(b, id))
      {
        NoChangesMeansEqual(parse, a, b, id);
        if Has(a, id) && Has(b, id) {
          EqualIffShownAlike(parse, Get(a, id), Get(b, id));
        }
      }
    }
    if SessionsAlike(parse, a, b) {
      SameIdsSameLength(a, b);
      NoneGone(a, b);
      forall i | 0 <= i < |b|
        ensures Has(a, b[i].id) && EqualForBroadcast(parse, Get(a, b[i].id), b[i])
      {
        OwnGet(b, i);
        EqualIffShownAlike(parse, Get(a, b[i].id), b[i]);
      }
    }
  }

  lemma NoneGone(a: seq<Session>, b: seq<Session>)
    requires forall id :: Has(a, id) ==> Has(b, id)
    ensures GoneIds(a, b) == []
  {
    hide Has;
    if GoneIds(a, b) != [] {
      assert GoneIds(a, b)[0] in GoneIds(a, b);
    }
  }

  lemma OwnGet(list: seq<Session>, i: nat)
    requires DistinctIds(list) && i < |list|
    ensures Has(list, list[i].id) && Get(list, list[i].id) == list[i]
  {
    hide Find;
    assert Find(list, list[i].id) != -1;
  }

  /** A refresh tells nobody exactly when it leaves the same ids, and each session shown as before. */
  lemma QuietIff(parse: Parse, s: State, listing: seq<Session>, now: string)
    requires Apart(s)
    ensures var (t, events) := After(parse, s, Replace(listing, now));
      events == [] <==> SessionsAlike(parse, s.sessions, t.sessions)
  {
    hide HasChanges, SessionsAlike, NextSessions, GoneIds, Has;
    var next := NextSessions(parse, s.sessions, listing, now);
    NextDistinct(parse, s.sessions, listing, now);
    ChangesIff(parse, s.sessions, next);
    if SessionsAlike(parse, s.sessions, next) {
      AlikeNoneGone(parse, s.sessions, next);
    }
  }

  lemma AlikeNoneGone(parse: Parse, a: seq<Session>, b: seq<Session>)
    requires SessionsAlike(parse, a, b)
    ensures GoneIds(a, b) == []
  {
    NoneGone(a, b);
  }

  /** What it tells: the whole list, if anything counts, and then each session gone. */
  lemma ToldByRefresh(parse: Parse, s: State, listing: seq<Session>, now: string)
    requires Apart(s)
    ensures var (t, events) := After(parse, s, Replace(listing, now));
      events != [] ==>
        && events[0] == SessionList(t.sessions + t.chats)
        && (forall i :: 0 < i < |events| ==> events[i].SessionRemoved?)
        && (forall id :: SessionRemoved(id) in events <==> Has(s.sessions, id) && !Has(t.sessions, id))
  {
    var next := NextSessions(parse, s.sessions, listing, now);
    var gone := GoneIds(s.sessions, next);
    NextDistinct(parse, s.sessions, listing, now);
    ChangesIff(parse, s.sessions, next);
    if SessionsAlike(parse, s.sessions, next) {
      AlikeNoneGone(parse, s.sessions, next);
    }
    hide HasChanges, SessionsAlike, NextSessions, GoneIds, Has;
    forall id
      ensures SessionRemoved(id) in RemovedEvents(gone) <==> id in gone
    {
      if id in gone {
        var i :| 0 <= i < |gone| && gone[i] == id;
        assert RemovedEvents(gone)[i] == SessionRemoved(id);
      }
    }
  }
}
