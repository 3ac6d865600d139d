/** The delivery hub: the registry of live connections and the three arms of
    its event loop (Register, Unregister, Broadcast), processed one event at a
    time, and the presence fan-out done by the login and logout handlers.
    Transport writes are not performed: the ids whose write fails are an
    input of each operation. */
module Delivery {
  import opened ChatTypes
  import opened Registry
  import opened Persistence
  import opened Handlers

  /** One event taken by the hub loop. An inbound message carries the
      outcomes of its persistence calls, the ids whose write fails and the
      clock reading used to stamp it. */
  datatype Event =
    | Connect(client: Client)
    | Disconnect(client: Client)
    | Inbound(msg: Message, insert: Option<int>, participants: Option<seq<ParticipantRow>>,
              failing: set<int>, stamp: string)

  /** The registry after one event. An entry changes only by registering
      the event's client; a message adds and replaces nothing. */
  function ApplyEvent(m: Clients, e: Event): (r: Clients)
    ensures forall k :: k in r ==> (k in m && r[k] == m[k]) || e == Connect(r[k])
    ensures e.Inbound? ==> forall k :: k in r ==> k in m && r[k] == m[k]
  {
    match e
    case Connect(c) => Registered(m, c)
    case Disconnect(c) => Unregistered(m, c)
    case Inbound(_, insert, participants, failing, _) =>
      match SaveOutcomeOf(insert, participants)
      case SaveFailed => m
      case Saved(_, rs) => AfterFanOut(m, rs, failing)
  }

  /** The registry after a sequence of events, in order. Every entry is
      either one it started with or a client some Connect event registered. */
  function ApplyEvents(m: Clients, es: seq<Event>): (r: Clients)
    ensures forall k :: k in r ==> (k in m && r[k] == m[k]) || Connect(r[k]) in es
    decreases |es|
  {
    if es == [] then m
    else
      var init := es[..|es| - 1];
      assert forall x :: x in init ==> x in es;
      ApplyEvent(ApplyEvents(m, init), es[|es| - 1])
  }

  const StatusUpdateKind := "status_update"

  /** Outcome of the login query for the given username: no such user, a
      database error, or the user's id and whether the password matched
      its stored hash. */
  datatype UserLookup = NoSuchUser | UserQueryFailed | UserFound(id: int, passwordMatches: bool)

  class Hub {
    var clients: Clients

    ghost predicate Valid()
      reads this
    {
      KeyedById(clients)
    }

    constructor ()
      ensures Valid() && clients == map[]
    {
      clients := map[];
    }

    /** The Register arm. */
    method Register(c: Client)
      requires Valid()
      modifies this
      ensures Valid()
      ensures clients == Registered(old(clients), c)
    {
      clients := clients[c.id := c];
    }

    /** The Unregister arm: deletes by id, whichever client that id holds. */
    method Unregister(c: Client)
      requires Valid()
      modifies this
      ensures Valid()
      ensures clients == Unregistered(old(clients), c)
    {
      if c.id in clients {
        clients := clients - {c.id};
      }
    }

    /** The Broadcast arm: persist, then stamp and push the frame to each
      recipient still registered, deleting those whose write fails.
      `statuses` are the status rows recorded, `frame` the frame pushed
      (None when the message is dropped) and `attempted` the recipients
      written to, in order. */
    method Broadcast(msg: Message, insert: Option<int>, participants: Option<seq<ParticipantRow>>,
                     failing: set<int>, stamp: string)
      returns (statuses: seq<StatusRow>, frame: Option<Message>, attempted: seq<int>)
      requires Valid()
      modifies this
      ensures Valid()
      ensures clients == ApplyEvent(old(clients), Inbound(msg, insert, participants, failing, stamp))
      ensures match SaveOutcomeOf(insert, participants)
        case SaveFailed =>
          statuses == [] && frame == None && attempted == [] && clients == old(clients)
        case Saved(id, rs) =>
          && |statuses| == |rs|
          && (forall i :: 0 <= i < |rs| ==> statuses[i].messageId == id && statuses[i].userId == rs[i])
          && (forall i :: 0 <= i < |rs| ==>
                statuses[i].status == StatusFor(participants.value[i].presence))
          && frame == Some(msg.(id := id, recipientIds := rs, createdAt := stamp))
          && attempted == Attempted(old(clients), rs, failing)
          && clients == old(clients) - FailedRecipients(rs, failing)
    {
      var outcome;
      outcome, statuses := SaveMessage(insert, participants);
      if outcome.SaveFailed? {
        return statuses, None, [];
      }
      var out := msg.(id := outcome.msgId, recipientIds := outcome.recipients, createdAt := stamp);
      frame := Some(out);
      var rs := out.recipientIds;
      attempted := [];
      var i := 0;
      while i < |rs|
        invariant 0 <= i <= |rs|
        invariant Valid()
        invariant clients == AfterFanOut(old(clients), rs[..i], failing)
        invariant attempted == Attempted(old(clients), rs[..i], failing)
      {
        var uid := rs[i];
        if uid in clients {
          attempted := attempted + [uid];
          if uid in failing {
            clients := clients - {uid};
          }
        }
        assert rs[..i + 1][..i] == rs[..i];
        i := i + 1;
      }
      assert rs[..|rs|] == rs;
      AfterFanOutClosedForm(old(clients), rs, failing);
    }

    /** One iteration of the hub loop: the select arm for the event. */
    method Handle(e: Event)
      requires Valid()
      modifies this
      ensures Valid()
      ensures clients == ApplyEvent(old(clients), e)
    {
      match e
      case Connect(c) =>
        Register(c);
      case Disconnect(c) =>
        Unregister(c);
      case Inbound(msg, insert, participants, failing, stamp) =>
        var _, _, _ := Broadcast(msg, insert, participants, failing, stamp);
    }

    /** The hub loop over a sequence of events, taken one at a time. */
    method Run(events: seq<Event>)
      requires Valid()
      modifies this
      ensures Valid()
      ensures clients == ApplyEvents(old(clients), events)
    {
      var i := 0;
      while i < |events|
        invariant 0 <= i <= |events|
        invariant Valid()
        invariant clients == ApplyEvents(old(clients), events[..i])
      {
        ghost var before := clients;
        Handle(events[i]);
        assert events[..i + 1][..i] == events[..i];
        assert ApplyEvents(old(clients), events[..i + 1]) == ApplyEvent(before, events[i]);
        i := i + 1;
      }
      assert events[..|events|] == events;
    }

    /** The presence fan-out loop over the registered clients, in an
      arbitrary order: writes to every client but the acting user. `sent`
      are the ids written to and `dead` the clients whose write failed. */
    method AnnounceStatus(actor: int, failing: set<int>) returns (sent: seq<int>, dead: seq<Client>)
      requires Valid()
      ensures NoDuplicates(sent)
      ensures forall x :: x in sent <==> x in clients && x != actor
      ensures NoDuplicates(dead)
      ensures forall c :: c in dead <==>
        c.id in clients && clients[c.id] == c && c.id != actor && c.id in failing
    {
      var snapshot := clients;
      var remaining: set<int> := snapshot.Keys;
      sent, dead := [], [];
      while remaining != {}
        invariant remaining <= snapshot.Keys
        invariant NoDuplicates(sent) && NoDuplicates(dead)
        invariant forall x :: x in sent <==> x in snapshot && x !in remaining && x != actor
        invariant forall c :: c in dead <==>
          c.id in snapshot && snapshot[c.id] == c && c.id !in remaining && c.id != actor && c.id in failing
        decreases remaining
      {
        ghost var none: set<int> := {};
        assert (forall x :: x in remaining <==> x in none) ==> remaining == none;
        var k :| k in remaining;
        var client := snapshot[k];
        if client.id != actor {
          sent := sent + [client.id];
          if client.id in failing {
            dead := dead + [client];
          }
        }
        remaining := remaining - {k};
      }
    }

    /** The login fan-out: an "online" update to every other registered
      client; a failed write is only logged, so the registry is untouched. */
    method AnnounceLogin(actor: int, failing: set<int>) returns (frame: StatusUpdate, sent: seq<int>)
      requires Valid()
      ensures frame == StatusUpdate(StatusUpdateKind, actor, "online")
      ensures NoDuplicates(sent)
      ensures forall x :: x in sent <==> x in clients && x != actor
    {
      frame := StatusUpdate(StatusUpdateKind, actor, "online");
      var dead;
      sent, dead := AnnounceStatus(actor, failing);
    }

    /** The logout fan-out and forced disconnect: an "offline" update to
      every other registered client, each client whose write fails is
      unregistered, and then the acting user is unregistered. */
    method Logout(actor: int, failing: set<int>) returns (frame: StatusUpdate, sent: seq<int>)
      requires Valid()
      modifies this
      ensures Valid()
      ensures frame == StatusUpdate(StatusUpdateKind, actor, "offline")
      ensures NoDuplicates(sent)
      ensures forall x :: x in sent <==> x in old(clients) && x != actor
      ensures clients == old(clients) - (failing + {actor})
    {
      frame := StatusUpdate(StatusUpdateKind, actor, "offline");
      var dead;
      sent, dead := AnnounceStatus(actor, failing);
      ghost var start := clients;
      var i := 0;
      while i < |dead|
        invariant 0 <= i <= |dead|
        invariant Valid()
        invariant clients == start - (set j | 0 <= j < i :: dead[j].id)
      {
        Unregister(dead[i]);
        i := i + 1;
      }
      if actor in clients {
        Unregister(clients[actor]);
      }
      assert clients == start - (failing + {actor}) by {
        forall x ensures x in clients <==> x in start && x !in failing && x != actor {
          if x in start && x in failing && x != actor {
            assert start[x] in dead;
          }
        }
      }
    }

    /** `loginHandler` after decoding: the credential check, the user
      lookup and password comparison (inputs), then the login fan-out.
      `status` is the HTTP status code of the reply. */
    method HandleLogin(username: string, password: string, lookup: UserLookup, failing: set<int>)
      returns (status: int, frame: Option<StatusUpdate>, sent: seq<int>)
      requires Valid()
      ensures status == 200 <==> CheckLogin(username, password).Accepted?
                                 && lookup.UserFound? && lookup.passwordMatches
      ensures CheckLogin(username, password).Rejected? ==> status == 400
      ensures CheckLogin(username, password).Accepted? ==>
        && ((lookup.NoSuchUser? || (lookup.UserFound? && !lookup.passwordMatches)) ==> status == 401)
        && (lookup.UserQueryFailed? ==> status == 500)
      ensures status != 200 ==> frame == None && sent == []
      ensures status == 200 ==>
        && frame == Some(StatusUpdate(StatusUpdateKind, lookup.id, "online"))
        && NoDuplicates(sent)
        && (forall x :: x in sent <==> x in clients && x != lookup.id)
    {
      if CheckLogin(username, password).Rejected? {
        return 400, None, [];
      }
      match lookup
      case NoSuchUser =>
        return 401, None, [];
      case UserQueryFailed =>
        return 500, None, [];
      case UserFound(id, matches) =>
        if !matches {
          return 401, None, [];
        }
        var update;
        update, sent := AnnounceLogin(id, failing);
        status, frame := 200, Some(update);
    }

    /** `logoutHandler` after decoding: resolve the user id, update its
      stored presence (`updateOk` is whether that succeeds), then the logout
      fan-out and forced disconnect. */
    method HandleLogout(body: LogoutBody, query: Option<int>, updateOk: bool, failing: set<int>)
      returns (status: int, frame: Option<StatusUpdate>, sent: seq<int>)
      requires Valid()
      modifies this
      ensures Valid()
      ensures match ResolveLogoutId(body, query)
        case LogoutUser(id) =>
          if updateOk then
            && status == 200
            && frame == Some(StatusUpdate(StatusUpdateKind, id, "offline"))
            && NoDuplicates(sent)
            && (forall x :: x in sent <==> x in old(clients) && x != id)
            && clients == old(clients) - (failing + {id})
          else
            status == 500 && frame == None && sent == [] && clients == old(clients)
        case _ =>
          status == 400 && frame == None && sent == [] && clients == old(clients)
    {
      match ResolveLogoutId(body, query)
      case BadBody =>
        return 400, None, [];
      case MissingId =>
        return 400, None, [];
      case LogoutUser(id) =>
        if !updateOk {
          return 500, None, [];
        }
        var update;
        update, sent := Logout(id, failing);
        status, frame := 200, Some(update);
    }
  }

  // ---------------------------------------------------------------------
  // Event sequences
  // ---------------------------------------------------------------------

  /** Appending an event applies it to the registry the earlier events left. */
  lemma ApplyEventsSnoc(m: Clients, es: seq<Event>, e: Event)
    ensures ApplyEvents(m, es + [e]) == ApplyEvent(ApplyEvents(m, es), e)
  {
    assert (es + [e])[..|es|] == es;
  }

  /** A connection that registers and then disconnects leaves no entry. */
  lemma ConnectThenDisconnect(m: Clients, c: Client)
    ensures c.id !in ApplyEvents(m, [Connect(c), Disconnect(c)])
  {
    ApplyEventsSnoc(m, [], Connect(c));
    ApplyEventsSnoc(m, [Connect(c)], Disconnect(c));
  }

  /** Two registrations for the same id leave one entry, the later one. */
  lemma ReconnectKeepsLatest(m: Clients, c1: Client, c2: Client)
    requires c1.id == c2.id
    ensures var r := ApplyEvents(m, [Connect(c1), Connect(c2)]);
      c2.id in r && r[c2.id] == c2 && |r| == if c1.id in m then |m| else |m| + 1
  {
    ApplyEventsSnoc(m, [], Connect(c1));
    ApplyEventsSnoc(m, [Connect(c1)], Connect(c2));
  }

  /** The old connection's deferred unregister, processed after a
      reconnection for the same user, removes the newer connection. */
  lemma StaleDisconnectRemovesNewer(m: Clients, old_: Client, new_: Client)
    requires old_.id == new_.id && old_ != new_
    ensures new_.id !in ApplyEvents(m, [Connect(old_), Connect(new_), Disconnect(old_)])
  {
    ApplyEventsSnoc(m, [], Connect(old_));
    ApplyEventsSnoc(m, [Connect(old_)], Connect(new_));
    ApplyEventsSnoc(m, [Connect(old_), Connect(new_)], Disconnect(old_));
  }

  /** A message whose persistence fails can be removed from any point of a
      sequence of events without changing the final registry. */
  lemma {:induction false} DroppedMessageIsNoOp(m: Clients, before: seq<Event>, e: Event, after: seq<Event>)
    requires e.Inbound? && SaveOutcomeOf(e.insert, e.participants).SaveFailed?
    ensures ApplyEvents(m, before + [e] + after) == ApplyEvents(m, before + after)
    decreases |after|
  {
    if after == [] {
      assert before + [e] + after == before + [e];
      assert before + after == before;
      ApplyEventsSnoc(m, before, e);
    } else {
      var init, last := after[..|after| - 1], after[|after| - 1];
      DroppedMessageIsNoOp(m, before, e, init);
      assert before + [e] + after == (before + [e] + init) + [last];
      assert before + after == (before + init) + [last];
      ApplyEventsSnoc(m, before + [e] + init, last);
      ApplyEventsSnoc(m, before + init, last);
    }
  }

  /** Participants 1 (online, registered) and 2 (offline, not registered):
      both get a status row, and only user 1 is written to. */
  lemma OneOnlineOneOfflineScenario(c1: Client, msgId: int)
    requires c1.id == 1
    ensures var rows := [ParticipantRow(1, "online"), ParticipantRow(2, "offline")];
      && SaveOutcomeOf(Some(msgId), Some(rows)) == Saved(msgId, [1, 2])
      && StatusFor(rows[0].presence) == Delivered
      && StatusFor(rows[1].presence) == Sent
      && Attempted(map[1 := c1], [1, 2], {}) == [1]
      && AfterFanOut(map[1 := c1], [1, 2], {}) == map[1 := c1]
  {
    var rows := [ParticipantRow(1, "online"), ParticipantRow(2, "offline")];
    assert ParticipantIds(rows) == [1, 2];
    assert [1, 2][..1] == [1] && [1][..0] == [];
    assert "offline" != "online" by { assert "offline"[1] != "online"[1]; }
  }

  /** Every event keeps each entry stored under its own client's id. */
  lemma {:induction false} ApplyEventsKeyedById(m: Clients, es: seq<Event>)
    requires KeyedById(m)
    ensures KeyedById(ApplyEvents(m, es))
    decreases |es|
  {
    if es != [] {
      var before := ApplyEvents(m, es[..|es| - 1]);
      ApplyEventsKeyedById(m, es[..|es| - 1]);
      var e := es[|es| - 1];
      if e.Inbound? && SaveOutcomeOf(e.insert, e.participants).Saved? {
        AfterFanOutClosedForm(before, SaveOutcomeOf(e.insert, e.participants).recipients, e.failing);
      }
    }
  }
}
