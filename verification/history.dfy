/**
 * The conversation query of `GET /messages/:userId` (index.js:49-52), over the stored
 * messages held in memory: the messages whose sender and receiver are both among the
 * two users, ordered by creation time, earliest first.
 */
module History {
  import opened Wrappers

  /** A persisted message; `sender` is absent when it was sent from an unbound connection. */
  datatype StoredMessage = StoredMessage(
    id: string,
    sender: Option<string>,
    receiver: string,
    text: Option<string>,
    file: Option<string>,
    createdAt: int)

  /** `sender: {$in: [userId, ourId]}, receiver: {$in: [userId, ourId]}` */
  predicate Between(m: StoredMessage, userId: string, ourId: string)
  {
    && (m.sender == Some(userId) || m.sender == Some(ourId))
    && (m.receiver == userId || m.receiver == ourId)
  }

  /**
   * The stored messages matching the filter, in storage order: each matching message as
   * often as it is stored, and no other.
   */
  function Conversation(messages: seq<StoredMessage>, userId: string, ourId: string): (found: seq<StoredMessage>)
    ensures |found| <= |messages|
    ensures forall m :: m in found <==> m in messages && Between(m, userId, ourId)
    ensures forall m :: multiset(found)[m] == if Between(m, userId, ourId) then multiset(messages)[m] else 0
  {
    if |messages| == 0 then []
    else
      assert messages == [messages[0]] + messages[1..];
      (if Between(messages[0], userId, ourId) then [messages[0]] else [])
      + Conversation(messages[1..], userId, ourId)
  }

  /** Ascending by `createdAt`. */
  predicate SortedByTime(s: seq<StoredMessage>)
  {
    forall i, j :: 0 <= i < j < |s| ==> s[i].createdAt <= s[j].createdAt
  }

  /** Puts `m` before the first message of `sorted` that is not older than it. */
  function Insert(m: StoredMessage, sorted: seq<StoredMessage>): (r: seq<StoredMessage>)
    requires SortedByTime(sorted)
    ensures SortedByTime(r)
    ensures multiset(r) == multiset(sorted) + multiset{m}
    ensures r[0] == m || r[0] == sorted[0]
  {
    if |sorted| == 0 then [m]
    else if m.createdAt <= sorted[0].createdAt then [m] + sorted
    else
      var rest := Insert(m, sorted[1..]);
      assert sorted == [sorted[0]] + sorted[1..];
      assert sorted[0].createdAt <= rest[0].createdAt;
      [sorted[0]] + rest
  }

  /** `.sort({createdAt: 1})`: an insertion sort by creation time; equal times keep storage order. */
  function SortByTime(s: seq<StoredMessage>): (r: seq<StoredMessage>)
    ensures SortedByTime(r)
    ensures multiset(r) == multiset(s)
  {
    if |s| == 0 then []
    else
      assert s == [s[0]] + s[1..];
      Insert(s[0], SortByTime(s[1..]))
  }

  /**
   * The query result for `userId` as seen by the caller `ourId`: the matching messages,
   * each as often as it is stored, in ascending creation time. Messages in either
   * direction and each user's notes to itself are included; anything involving a third
   * user, or without a sender, is not.
   */
  function Messages(messages: seq<StoredMessage>, userId: string, ourId: string): (r: seq<StoredMessage>)
    ensures SortedByTime(r)
    ensures multiset(r) == multiset(Conversation(messages, userId, ourId))
    ensures forall m :: multiset(r)[m] == if Between(m, userId, ourId) then multiset(messages)[m] else 0
    ensures forall m :: m in r <==> m in messages && Between(m, userId, ourId)
  {
    var found := Conversation(messages, userId, ourId);
    var r := SortByTime(found);
    assert forall m :: m in r <==> m in found by {
      forall m
        ensures m in r <==> m in found
      {
        assert m in r <==> m in multiset(r);
        assert m in found <==> m in multiset(found);
      }
    }
    r
  }

  /** It does not matter which of the two users asks: the result is the same. */
  lemma {:induction false} ConversationSymmetric(messages: seq<StoredMessage>, a: string, b: string)
    ensures Conversation(messages, a, b) == Conversation(messages, b, a)
  {
    if |messages| > 0 {
      ConversationSymmetric(messages[1..], a, b);
    }
  }

  /** Both users see the same history. */
  lemma MessagesSymmetric(messages: seq<StoredMessage>, a: string, b: string)
    ensures Messages(messages, a, b) == Messages(messages, b, a)
  {
    ConversationSymmetric(messages, a, b);
  }

  /** A message that involves a third user is never in the result. */
  lemma ThirdUserExcluded(messages: seq<StoredMessage>, userId: string, ourId: string, m: StoredMessage, other: string)
    requires other != userId && other != ourId
    requires m.sender == Some(other) || m.receiver == other
    ensures m !in Messages(messages, userId, ourId)
  {
  }

  /** Inserting a message no newer than all others puts it first. */
  lemma InsertOldest(m: StoredMessage, sorted: seq<StoredMessage>)
    requires SortedByTime(sorted)
    requires forall i :: 0 <= i < |sorted| ==> m.createdAt <= sorted[i].createdAt
    ensures Insert(m, sorted) == [m] + sorted
  {
  }

  /** Messages already stored in creation order keep their order: the sort changes nothing. */
  lemma {:induction false} SortKeepsSorted(s: seq<StoredMessage>)
    requires SortedByTime(s)
    ensures SortByTime(s) == s
  {
    if |s| > 0 {
      assert SortedByTime(s[1..]);
      SortKeepsSorted(s[1..]);
      InsertOldest(s[0], s[1..]);
      assert [s[0]] + s[1..] == s;
    }
  }
}
