/**
 * services/messageService.ts: `getMessages`, the conversation history
 * between the caller and another user, oldest first.
 */
module MessageService {
  import opened Wrappers
  import opened Messages

  /** The `$or` filter: either direction between `a` and `b`. */
  predicate Between(m: Message, a: UserId, b: UserId) {
    (m.sender == a && m.receiver == b) || (m.sender == b && m.receiver == a)
  }

  /** `Message.find({$or: ...})`: the matching messages in store order. */
  function Conversation(log: seq<Message>, a: UserId, b: UserId): (r: seq<Message>)
    ensures forall m :: m in r ==> m in log && Between(m, a, b)
    ensures forall m :: m in log && Between(m, a, b) ==> m in r
    ensures |r| <= |log|
  {
    if log == [] then []
    else (if Between(log[0], a, b) then [log[0]] else []) + Conversation(log[1..], a, b)
  }

  predicate SortedByCreatedAt(ms: seq<Message>) {
    forall i, j :: 0 <= i < j < |ms| ==> ms[i].createdAt <= ms[j].createdAt
  }

  /** Places `m` after every message not newer than it. */
  function Insert(m: Message, sorted: seq<Message>): (r: seq<Message>)
    ensures multiset(r) == multiset(sorted) + multiset{m}
  {
    if sorted == [] then [m]
    else if m.createdAt < sorted[0].createdAt then [m] + sorted
    else
      assert sorted == [sorted[0]] + sorted[1..];
      [sorted[0]] + Insert(m, sorted[1..])
  }

  /** Inserting into a sorted list keeps it sorted. */
  lemma {:induction false} InsertSorted(m: Message, sorted: seq<Message>)
    requires SortedByCreatedAt(sorted)
    ensures SortedByCreatedAt(Insert(m, sorted))
  {
    if sorted != [] && m.createdAt >= sorted[0].createdAt {
      var rest := Insert(m, sorted[1..]);
      InsertSorted(m, sorted[1..]);
      assert sorted[0].createdAt <= rest[0].createdAt by {
        if |sorted| > 1 && m.createdAt >= sorted[1].createdAt {
          assert rest[0] == sorted[1];
        }
      }
      var r := [sorted[0]] + rest;
      forall i, j | 0 <= i < j < |r|
        ensures r[i].createdAt <= r[j].createdAt
      {
        if i == 0 && j > 1 {
          assert rest[0].createdAt <= rest[j - 1].createdAt;
        }
      }
    }
  }

  /** `.sort({createdAt: 1})`: oldest first; the order of equal timestamps is not specified. */
  function SortByCreatedAt(ms: seq<Message>): (r: seq<Message>)
    ensures SortedByCreatedAt(r)
    ensures multiset(r) == multiset(ms)
  {
    if ms == [] then []
    else
      assert ms == [ms[0]] + ms[1..];
      InsertSorted(ms[0], SortByCreatedAt(ms[1..]));
      Insert(ms[0], SortByCreatedAt(ms[1..]))
  }

  datatype HistoryReply = Unauthorized | History(messages: seq<Message>)

  /**
   * `getMessages`: 401 "Unauthorized" when the request carries no user id;
   * otherwise every stored message between the caller and `other`, in either
   * direction and nothing else, ordered by creation time.
   */
  function GetMessages(log: seq<Message>, caller: Option<UserId>, other: UserId): (r: HistoryReply)
    ensures r.Unauthorized? <==> caller.None? || caller.value == []
    ensures r.History? ==> SortedByCreatedAt(r.messages)
    ensures r.History? ==> forall m :: m in r.messages ==> m in log && Between(m, caller.value, other)
    ensures r.History? ==> forall m :: m in log && Between(m, caller.value, other) ==> m in r.messages
    ensures r.History? ==> multiset(r.messages) == multiset(Conversation(log, caller.value, other))
  {
    if caller.None? || caller.value == [] then Unauthorized
    else
      var ms := SortByCreatedAt(Conversation(log, caller.value, other));
      assert forall m :: m in ms <==> m in multiset(ms);
      History(ms)
  }

  /** The history of (a, b) and of (b, a) is the same sequence. */
  lemma {:induction false} ConversationSymmetric(log: seq<Message>, a: UserId, b: UserId)
    ensures Conversation(log, a, b) == Conversation(log, b, a)
  {
    if log != [] {
      ConversationSymmetric(log[1..], a, b);
    }
  }

  lemma HistorySymmetric(log: seq<Message>, a: UserId, b: UserId)
    requires a != []
    requires b != []
    ensures GetMessages(log, Some(a), b) == GetMessages(log, Some(b), a)
  {
    ConversationSymmetric(log, a, b);
  }

  lemma {:induction false} ConversationAppend(log: seq<Message>, m: Message, a: UserId, b: UserId)
    ensures Conversation(log + [m], a, b) ==
      Conversation(log, a, b) + (if Between(m, a, b) then [m] else [])
  {
    if log != [] {
      assert (log + [m])[1..] == log[1..] + [m];
      ConversationAppend(log[1..], m, a, b);
    }
  }

  /**
   * After a message from `a` to `b` is stored, both users' histories of the
   * conversation hold it, one more message than before.
   */
  lemma HistoryAfterSend(log: seq<Message>, m: Message)
    requires m.sender != [] && m.receiver != []
    ensures var h := GetMessages(log + [m], Some(m.sender), m.receiver);
      h.History? && m in h.messages &&
      multiset(h.messages) == multiset(Conversation(log, m.sender, m.receiver)) + multiset{m}
    ensures GetMessages(log + [m], Some(m.receiver), m.sender) == GetMessages(log + [m], Some(m.sender), m.receiver)
  {
    ConversationAppend(log, m, m.sender, m.receiver);
    HistorySymmetric(log + [m], m.sender, m.receiver);
  }
}
