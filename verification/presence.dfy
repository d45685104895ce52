/**
 * The WebSocket server's live state (index.js:144-235): the set of open connections
 * (`wss.clients`), each optionally carrying the `userId` and `username` of its verified
 * token; the online roster broadcast to every connection when one opens or closes; and
 * the routing of an accepted message to every connection of its receiver.
 */
module Presence {
  import opened Wrappers
  import opened Text
  import opened Cookie
  import opened Envelope

  /** An opaque handle for one WebSocket connection object. */
  type ConnId = nat

  /** What the token verifier yields: the `{userId, username}` signed into the token. */
  datatype Identity = Identity(userId: string, username: string)

  /** One member of `wss.clients`, with the identity fields set on it once its token is verified. */
  datatype Connection = Connection(id: ConnId, userId: Option<string>, username: Option<string>)

  /** `{userId: c.userId, username: c.username}` */
  datatype RosterEntry = RosterEntry(userId: Option<string>, username: Option<string>)

  /** What is sent over a connection: `{online: [...]}` or a delivered message. */
  datatype Payload = Online(roster: seq<RosterEntry>) | Message(delivery: Delivery)

  /** `client.send(payload)` */
  datatype Send = Send(to: ConnId, payload: Payload)

  /** Everything one incoming envelope causes. */
  datatype Outcome = Outcome(write: Option<FileWrite>, record: Option<Record>, sends: seq<Send>)

  /** No connection object is in the set twice. */
  predicate UniqueIds(clients: seq<Connection>)
  {
    forall i, j :: 0 <= i < j < |clients| ==> clients[i].id != clients[j].id
  }

  /**
   * `[...wss.clients].map(c => ({userId: c.userId, username: c.username}))`: one entry per
   * connection, in set order, unbound ones included with absent fields and users with
   * several connections listed once per connection.
   */
  function Roster(clients: seq<Connection>): (roster: seq<RosterEntry>)
    ensures |roster| == |clients|
    ensures forall i :: 0 <= i < |clients| ==> roster[i] == RosterEntry(clients[i].userId, clients[i].username)
  {
    if |clients| == 0 then []
    else [RosterEntry(clients[0].userId, clients[0].username)] + Roster(clients[1..])
  }

  /**
   * `[...wss.clients].filter(c => c.userId === receiver)`, as the connections' handles in
   * set order: exactly the connections bound to `receiver`.
   */
  function Recipients(clients: seq<Connection>, receiver: string): (ids: seq<ConnId>)
    ensures |ids| <= |clients|
    ensures forall id :: id in ids <==>
      exists i :: 0 <= i < |clients| && clients[i].id == id && clients[i].userId == Some(receiver)
  {
    if |clients| == 0 then []
    else
      var last := clients[|clients| - 1];
      Recipients(clients[..|clients| - 1], receiver) + (if last.userId == Some(receiver) then [last.id] else [])
  }

  /** `connection.userId` of connection `id`; absent when it was never bound. */
  function SenderOf(clients: seq<Connection>, id: ConnId): (sender: Option<string>)
    ensures sender.Some? ==> exists i :: 0 <= i < |clients| && clients[i].id == id && clients[i].userId == sender
    ensures UniqueIds(clients) ==>
      forall i :: 0 <= i < |clients| && clients[i].id == id ==> sender == clients[i].userId
  {
    if |clients| == 0 then None
    else if clients[0].id == id then clients[0].userId
    else SenderOf(clients[1..], id)
  }

  /** `connection.userId = userId; connection.username = username` on connection `id`. */
  function Bound(clients: seq<Connection>, id: ConnId, who: Identity): (bound: seq<Connection>)
    ensures |bound| == |clients|
    ensures forall i :: 0 <= i < |clients| ==>
      bound[i] == if clients[i].id == id then Connection(id, Some(who.userId), Some(who.username)) else clients[i]
  {
    seq(|clients|, i requires 0 <= i < |clients| =>
      if clients[i].id == id then Connection(id, Some(who.userId), Some(who.username)) else clients[i])
  }

  /** The set after connection `id` has left it: every other connection, in order. */
  function Without(clients: seq<Connection>, id: ConnId): (rest: seq<Connection>)
    ensures |rest| <= |clients|
  {
    if |clients| == 0 then []
    else (if clients[0].id == id then [] else [clients[0]]) + Without(clients[1..], id)
  }

  /** After a close the set holds exactly the connections other than the closed one. */
  lemma {:induction false} WithoutMembers(clients: seq<Connection>, id: ConnId)
    ensures forall c :: c in Without(clients, id) <==> c in clients && c.id != id
  {
    if |clients| > 0 {
      WithoutMembers(clients[1..], id);
      assert clients == [clients[0]] + clients[1..];
    }
  }

  /**
   * The identity a new connection is bound to (index.js:166-176): none without a token in
   * the `Cookie` header, otherwise whatever the verifier makes of the token.
   */
  function IdentityFor(header: Option<string>, verify: string -> Option<Identity>): (who: Option<Identity>)
    ensures header.None? || header.value == "" ==> who.None?
    ensures who.Some? ==> exists token :: token != "" && ExtractToken(header) == Some(token) && verify(token) == who
    ensures ExtractToken(header).None? ==> who.None?
  {
    match ExtractToken(header)
    case None => None
    case Some(token) => verify(token)
  }

  /**
   * A header whose first `token=` segment holds a non-empty value is verified with exactly
   * that value, wherever the segment stands among the cookies.
   */
  lemma TokenIsVerified(before: seq<string>, value: string, tail: string, after: seq<string>,
                        verify: string -> Option<Identity>)
    requires forall i :: 0 <= i < |before| ==> ';' !in before[i] && !StartsWith(before[i], TOKEN_PREFIX)
    requires forall i :: 0 <= i < |after| ==> ';' !in after[i]
    requires value != "" && ';' !in value && '=' !in value
    requires ';' !in tail && (tail == "" || tail[0] == '=')
    ensures IdentityFor(Some(Join(before + [TOKEN_PREFIX + value + tail] + after, ';')), verify) == verify(value)
  {
    TokenFound(before, value, tail, after);
  }

  /** A `Cookie` header that is just `token=<value>` is verified with that value. */
  lemma SoleTokenIsVerified(value: string, verify: string -> Option<Identity>)
    requires value != "" && ';' !in value && '=' !in value
    ensures IdentityFor(Some(TOKEN_PREFIX + value), verify) == verify(value)
  {
    var segments: seq<string> := [] + [TOKEN_PREFIX + value + ""] + [];
    assert segments == [TOKEN_PREFIX + value];
    assert TOKEN_PREFIX + value + "" == TOKEN_PREFIX + value;
    TokenIsVerified([], value, "", [], verify);
  }

  /**
   * An empty value in the first `token=` segment skips verification: the connection stays
   * unbound whatever later segments carry.
   */
  lemma EmptyTokenLeavesUnbound(before: seq<string>, tail: string, after: seq<string>,
                                verify: string -> Option<Identity>)
    requires forall i :: 0 <= i < |before| ==> ';' !in before[i] && !StartsWith(before[i], TOKEN_PREFIX)
    requires forall i :: 0 <= i < |after| ==> ';' !in after[i]
    requires ';' !in tail && (tail == "" || tail[0] == '=')
    ensures IdentityFor(Some(Join(before + [TOKEN_PREFIX + tail] + after, ';')), verify) == None
  {
    EmptyValueGivesNoToken(before, tail, after);
  }

  /** A token cookie written after `; ` is not recognised, so the connection stays unbound. */
  lemma SpacedCookieLeavesUnbound(verify: string -> Option<Identity>)
    ensures IdentityFor(Some("a=1; token=x"), verify) == None
  {
    SpaceBeforeTokenHidesIt();
  }

  /** A connection right after its token check: bound to `who`, or unbound. */
  function Opened(id: ConnId, who: Option<Identity>): Connection
  {
    match who
    case None => Connection(id, None, None)
    case Some(w) => Connection(id, Some(w.userId), Some(w.username))
  }

  /** Binding a connection that comes after all others sets the identity on it alone. */
  lemma BindNewest(clients: seq<Connection>, id: ConnId, who: Identity)
    requires forall i :: 0 <= i < |clients| ==> clients[i].id != id
    ensures Bound(clients + [Connection(id, None, None)], id, who) == clients + [Opened(id, Some(who))]
  {
    var all := clients + [Connection(id, None, None)];
    assert forall i :: 0 <= i < |clients| ==> all[i] == clients[i];
  }

  /** Removing a connection keeps the others distinct. */
  lemma {:induction false} WithoutKeepsUnique(clients: seq<Connection>, id: ConnId)
    requires UniqueIds(clients)
    ensures UniqueIds(Without(clients, id))
  {
    if |clients| > 0 {
      WithoutKeepsUnique(clients[1..], id);
      WithoutMembers(clients[1..], id);
      var tail := Without(clients[1..], id);
      forall j | 0 <= j < |tail|
        ensures tail[j].id != clients[0].id
      {
        assert tail[j] in clients[1..];
      }
    }
  }

  /**
   * Removing a registered connection drops exactly that one entry and keeps the order of
   * the rest.
   */
  lemma {:induction false} WithoutRemovesOne(clients: seq<Connection>, k: int)
    requires UniqueIds(clients)
    requires 0 <= k < |clients|
    ensures Without(clients, clients[k].id) == clients[..k] + clients[k + 1..]
  {
    if k == 0 {
      WithoutFirst(clients);
    } else {
      var tail := clients[1..];
      assert tail[k - 1] == clients[k];
      assert UniqueIds(tail);
      WithoutRemovesOne(tail, k - 1);
      WithoutLater(clients, k);
    }
  }

  /** Removing the first of distinct connections leaves the others. */
  lemma WithoutFirst(clients: seq<Connection>)
    requires UniqueIds(clients)
    requires |clients| > 0
    ensures Without(clients, clients[0].id) == clients[1..]
  {
    var tail := clients[1..];
    forall i | 0 <= i < |tail|
      ensures tail[i].id != clients[0].id
    {
      assert tail[i] == clients[i + 1];
    }
    WithoutAbsent(tail, clients[0].id);
  }

  /** Removing a later connection keeps the first one in front. */
  lemma WithoutLater(clients: seq<Connection>, k: int)
    requires 0 < k < |clients|
    requires clients[0].id != clients[k].id
    requires Without(clients[1..], clients[k].id) == clients[1..][..k - 1] + clients[1..][k..]
    ensures Without(clients, clients[k].id) == clients[..k] + clients[k + 1..]
  {
    var tail := clients[1..];
    var id := clients[k].id;
    assert Without(clients, id) == [clients[0]] + Without(tail, id);
    assert tail[..k - 1] == clients[1..k];
    assert tail[k..] == clients[k + 1..];
    assert clients[..k] == [clients[0]] + clients[1..k];
    assert [clients[0]] + (clients[1..k] + clients[k + 1..]) == clients[..k] + clients[k + 1..];
  }

  /** Removing a connection that is not in the set changes nothing. */
  lemma {:induction false} WithoutAbsent(clients: seq<Connection>, id: ConnId)
    requires forall i :: 0 <= i < |clients| ==> clients[i].id != id
    ensures Without(clients, id) == clients
  {
    if |clients| > 0 {
      WithoutAbsent(clients[1..], id);
      assert [clients[0]] + clients[1..] == clients;
    }
  }

  /**
   * A connection receives a message for `receiver` exactly when it is bound to `receiver`:
   * unbound connections never do, and neither do the sender's own connections unless the
   * sender writes to itself.
   */
  lemma RecipientIffBound(clients: seq<Connection>, receiver: string, i: int)
    requires UniqueIds(clients)
    requires 0 <= i < |clients|
    ensures clients[i].id in Recipients(clients, receiver) <==> clients[i].userId == Some(receiver)
  {
  }

  /** A receiver with no open connection gets no send at all. */
  lemma OfflineReceiverGetsNothing(clients: seq<Connection>, receiver: string)
    requires forall i :: 0 <= i < |clients| ==> clients[i].userId != Some(receiver)
    ensures Recipients(clients, receiver) == []
  {
  }

  /** No handle occurs twice. */
  predicate Distinct(ids: seq<ConnId>)
  {
    forall a, b :: 0 <= a < b < |ids| ==> ids[a] != ids[b]
  }

  /** Each receiving connection appears once, so no connection gets a message twice. */
  lemma {:induction false} RecipientsDistinct(clients: seq<Connection>, receiver: string)
    requires UniqueIds(clients)
    ensures Distinct(Recipients(clients, receiver))
  {
    if |clients| > 0 {
      var init := clients[..|clients| - 1];
      assert UniqueIds(init);
      RecipientsDistinct(init, receiver);
      var last := clients[|clients| - 1];
      var head := Recipients(init, receiver);
      forall id | id in head
        ensures id != last.id
      {
        var i :| 0 <= i < |init| && init[i].id == id && init[i].userId == Some(receiver);
        assert clients[i] == init[i];
      }
      var ids := Recipients(clients, receiver);
      assert ids == head + (if last.userId == Some(receiver) then [last.id] else []);
      forall a, b | 0 <= a < b < |ids|
        ensures ids[a] != ids[b]
      {
        assert ids[a] == head[a];
        if b >= |head| {
          assert ids[b] == last.id;
          assert ids[a] in head;
        } else {
          assert ids[b] == head[b];
          assert Distinct(head);
        }
      }
    }
  }

  /**
   * Recipients are listed in set order: of two connections bound to the receiver, the
   * earlier one in the set is sent the message first.
   */
  lemma {:induction false} RecipientsInSetOrder(clients: seq<Connection>, receiver: string, i: int, j: int)
    requires 0 <= i < j < |clients|
    requires clients[i].userId == Some(receiver) && clients[j].userId == Some(receiver)
    ensures exists a, b ::
      && 0 <= a < b < |Recipients(clients, receiver)|
      && Recipients(clients, receiver)[a] == clients[i].id
      && Recipients(clients, receiver)[b] == clients[j].id
  {
    var init := clients[..|clients| - 1];
    var head := Recipients(init, receiver);
    var ids := Recipients(clients, receiver);
    assert ids == head + (if clients[|clients| - 1].userId == Some(receiver) then [clients[|clients| - 1].id] else []);
    assert init[i] == clients[i];
    if j == |clients| - 1 {
      assert clients[i].id in head;
      var a :| 0 <= a < |head| && head[a] == clients[i].id;
      assert ids[a] == clients[i].id && ids[|head|] == clients[j].id;
    } else {
      assert init[j] == clients[j];
      RecipientsInSetOrder(init, receiver, i, j);
      var a, b :| 0 <= a < b < |head| && head[a] == clients[i].id && head[b] == clients[j].id;
      assert ids[a] == head[a] && ids[b] == head[b];
    }
  }

  /**
   * Binding a registered connection to a user makes it a recipient for that user and for
   * no other, and leaves every other connection's status as it was.
   */
  lemma BindRoutes(clients: seq<Connection>, k: int, who: Identity, receiver: string)
    requires UniqueIds(clients)
    requires 0 <= k < |clients|
    ensures var bound := Bound(clients, clients[k].id, who);
      && UniqueIds(bound)
      && (clients[k].id in Recipients(bound, receiver) <==> receiver == who.userId)
      && forall i :: 0 <= i < |clients| && i != k ==>
           (clients[i].id in Recipients(bound, receiver) <==> clients[i].id in Recipients(clients, receiver))
  {
    var bound := Bound(clients, clients[k].id, who);
    assert UniqueIds(bound);
    RecipientIffBound(bound, receiver, k);
    forall i | 0 <= i < |clients| && i != k
      ensures clients[i].id in Recipients(bound, receiver) <==> clients[i].id in Recipients(clients, receiver)
    {
      RecipientIffBound(bound, receiver, i);
      RecipientIffBound(clients, receiver, i);
    }
  }

  /** A closed connection is never a recipient; every remaining one keeps its status. */
  lemma EvictRoutes(clients: seq<Connection>, id: ConnId, receiver: string)
    requires UniqueIds(clients)
    ensures id !in Recipients(Without(clients, id), receiver)
    ensures forall other :: other != id ==>
      (other in Recipients(Without(clients, id), receiver) <==> other in Recipients(clients, receiver))
  {
    var rest := Without(clients, id);
    WithoutMembers(clients, id);
    forall other | other != id
      ensures other in Recipients(rest, receiver) <==> other in Recipients(clients, receiver)
    {
      if other in Recipients(clients, receiver) {
        var i :| 0 <= i < |clients| && clients[i].id == other && clients[i].userId == Some(receiver);
        assert clients[i] in rest;
        var j :| 0 <= j < |rest| && rest[j] == clients[i];
      }
      if other in Recipients(rest, receiver) {
        var i :| 0 <= i < |rest| && rest[i].id == other && rest[i].userId == Some(receiver);
        assert rest[i] in clients;
        var j :| 0 <= j < |clients| && clients[j] == rest[i];
      }
    }
  }

  /**
   * `wss.clients` with the identity fields of its connections. Every operation keeps each
   * connection in the set once, and hands out handles that were never used before.
   */
  class Registry {
    var clients: seq<Connection>
    var nextId: ConnId

    ghost predicate Valid()
      reads this
    {
      && UniqueIds(clients)
      && forall i :: 0 <= i < |clients| ==> clients[i].id < nextId
    }

    constructor ()
      ensures Valid() && clients == []
    {
      clients := [];
      nextId := 0;
    }

    /**
     * The roster broadcast (index.js:181-185, 229-233): every connection in the set, bound
     * or not, is sent the same roster of the whole set, in set order.
     */
    method Broadcast() returns (sends: seq<Send>)
      ensures |sends| == |clients|
      ensures forall i :: 0 <= i < |clients| ==> sends[i] == Send(clients[i].id, Online(Roster(clients)))
    {
      var roster := Roster(clients);
      sends := [];
      var i := 0;
      while i < |clients|
        invariant 0 <= i <= |clients|
        invariant |sends| == i
        invariant forall k :: 0 <= k < i ==> sends[k] == Send(clients[k].id, Online(roster))
      {
        sends := sends + [Send(clients[i].id, Online(roster))];
        i := i + 1;
      }
    }

    /**
     * A new connection (index.js:144-185). It joins the set unbound under a handle not in
     * use; the token check then binds it to the identity its `Cookie` header verifies to,
     * since the verifier calls back before returning; then the roster, which already
     * shows that identity, goes to every connection.
     */
    method Open(header: Option<string>, verify: string -> Option<Identity>) returns (id: ConnId, sends: seq<Send>)
      requires Valid()
      modifies this
      ensures Valid()
      ensures forall i :: 0 <= i < |old(clients)| ==> old(clients)[i].id != id
      ensures clients == old(clients) + [Opened(id, IdentityFor(header, verify))]
      ensures |sends| == |clients|
      ensures forall i :: 0 <= i < |clients| ==> sends[i] == Send(clients[i].id, Online(Roster(clients)))
    {
      id := nextId;
      nextId := nextId + 1;
      var before := clients;
      clients := clients + [Connection(id, None, None)];
      var who := IdentityFor(header, verify);
      Bind(id, who);
      if who.Some? {
        BindNewest(before, id, who.value);
      }
      sends := Broadcast();
    }

    /**
     * The token check's callback (index.js:172-176): a verified identity is set on the
     * connection; without one the connection stays as it is.
     */
    method Bind(id: ConnId, who: Option<Identity>)
      requires Valid()
      modifies this
      ensures Valid() && nextId == old(nextId)
      ensures who.None? ==> clients == old(clients)
      ensures who.Some? ==> clients == Bound(old(clients), id, who.value)
    {
      if who.Some? {
        clients := Bound(clients, id, who.value);
      }
    }

    /**
     * A closed connection (index.js:227-234): it leaves the set, the others keep their
     * order, and the roster of the set without it goes to every remaining connection.
     */
    method Evict(id: ConnId) returns (sends: seq<Send>)
      requires Valid()
      modifies this
      ensures Valid() && nextId == old(nextId)
      ensures clients == Without(old(clients), id)
      ensures forall i :: 0 <= i < |clients| ==> clients[i].id != id
      ensures |sends| == |clients|
      ensures forall i :: 0 <= i < |clients| ==> sends[i] == Send(clients[i].id, Online(Roster(clients)))
    {
      WithoutKeepsUnique(clients, id);
      WithoutMembers(clients, id);
      clients := Without(clients, id);
      forall i | 0 <= i < |clients|
        ensures clients[i].id != id
      {
        assert clients[i] in clients;
      }
      sends := Broadcast();
    }

    /**
     * An envelope arriving on connection `from` at time `now`, stored under database id
     * `messageId` (index.js:188-225). The write and the record are those of `Process`
     * for the connection's bound user; nothing is sent unless a record is persisted, and
     * then each connection bound to the receiver, in set order, is sent the same
     * delivery carrying the record and its id.
     */
    method Route(from: ConnId, env: Envelope, now: nat, messageId: string) returns (out: Outcome)
      ensures out.write == Process(SenderOf(clients, from), env, now).write
      ensures out.record == Process(SenderOf(clients, from), env, now).record
      ensures out.record.None? ==> out.sends == []
      ensures out.record.Some? ==>
        var ids := Recipients(clients, out.record.value.receiver);
        && |out.sends| == |ids|
        && forall k :: 0 <= k < |ids| ==>
             out.sends[k] == Send(ids[k], Message(DeliveryOf(out.record.value, messageId)))
    {
      var effects := Process(SenderOf(clients, from), env, now);
      if effects.record.None? {
        return Outcome(effects.write, None, []);
      }
      var payload := Message(DeliveryOf(effects.record.value, messageId));
      var receiver := effects.record.value.receiver;
      var sends: seq<Send> := [];
      var i := 0;
      while i < |clients|
        invariant 0 <= i <= |clients|
        invariant |sends| == |Recipients(clients[..i], receiver)|
        invariant forall k :: 0 <= k < |sends| ==> sends[k] == Send(Recipients(clients[..i], receiver)[k], payload)
      {
        assert clients[..i + 1][..i] == clients[..i];
        if clients[i].userId == Some(receiver) {
          sends := sends + [Send(clients[i].id, payload)];
        }
        i := i + 1;
      }
      assert clients[..|clients|] == clients;
      out := Outcome(effects.write, effects.record, sends);
    }
  }

  /** Of two connections, only the second bound to `receiver`: only it receives. */
  lemma SecondOfTwoReceives(first: Connection, second: Connection, receiver: string)
    requires first.userId != Some(receiver) && second.userId == Some(receiver)
    ensures Recipients([first, second], receiver) == [second.id]
  {
    var both := [first, second];
    assert both[..1] == [first] && [first][..0] == [];
  }

  /**
   * Alice connects with a cookie that verifies to her, then a guest with one that yields
   * no identity (such as `a=1; token=x`, see `SpacedCookieLeavesUnbound`): the guest is in
   * the set and on the roster everyone is sent, but unbound, and Alice is listed with
   * her identity.
   */
  method GuestStaysUnbound(verify: string -> Option<Identity>, alice: Identity,
                           aliceCookie: Option<string>, guestCookie: Option<string>)
    requires IdentityFor(aliceCookie, verify) == Some(alice) && IdentityFor(guestCookie, verify) == None
  {
    var registry := new Registry();
    var a, _ := registry.Open(aliceCookie, verify);
    assert registry.clients == [Opened(a, Some(alice))];
    var g, rosterSends := registry.Open(guestCookie, verify);
    assert registry.clients[1] == Opened(g, None);
    assert rosterSends[1].to == g;
    var roster := rosterSends[1].payload.roster;
    assert |roster| == 2;
    assert roster[0] == RosterEntry(Some(alice.userId), Some(alice.username));
    assert roster[1] == RosterEntry(None, None);
  }

  /**
   * With Alice and Bob connected, a text from Alice to Bob is persisted with Alice as
   * sender and delivered to Bob's connection only.
   */
  method TwoUsersExchange(registry: Registry, alice: Identity, bob: Identity, a: ConnId, b: ConnId, now: nat)
    requires registry.clients == [Opened(a, Some(alice)), Opened(b, Some(bob))]
    requires alice.userId != bob.userId && bob.userId != ""
  {
    var clients := registry.clients;
    SecondOfTwoReceives(clients[0], clients[1], bob.userId);
    var out := registry.Route(a, Envelope(Some(bob.userId), Some("hi"), None), now, "m1");
    assert out.record == Some(Record(Some(alice.userId), bob.userId, Some("hi"), None));
    assert |out.sends| == 1;
    assert out.sends[0] == Send(b, Message(Delivery(Some("hi"), Some(alice.userId), bob.userId, "m1", None)));
  }
}
