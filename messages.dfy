/**
 * The message records written by the socket handlers and read by the
 * message service.  The Messages model file is not part of this model; the
 * fields follow what the handlers store and query.  A new message is
 * assumed to start with the non-read status `Sent`.
 */
module Messages {

  type UserId = string

  datatype Status = Sent | Read

  datatype Message = Message(sender: UserId, receiver: UserId, text: string, status: Status, createdAt: int)

  /** The query `{sender, receiver, status: {$ne: "read"}}`. */
  predicate Unread(m: Message, sender: UserId, receiver: UserId) {
    m.sender == sender && m.receiver == receiver && m.status != Read
  }

  /** `countDocuments` of the unread sender-to-receiver messages. */
  function UnreadCount(log: seq<Message>, sender: UserId, receiver: UserId): (n: nat)
    ensures n <= |log|
  {
    if log == [] then 0
    else (if Unread(log[0], sender, receiver) then 1 else 0) + UnreadCount(log[1..], sender, receiver)
  }

  /** `updateMany({sender, receiver, status: {$ne: "read"}}, {$set: {status: "read"}})`. */
  function MarkRead(log: seq<Message>, sender: UserId, receiver: UserId): seq<Message> {
    if log == [] then []
    else [if Unread(log[0], sender, receiver) then log[0].(status := Read) else log[0]]
         + MarkRead(log[1..], sender, receiver)
  }

  lemma {:induction false} UnreadCountAppend(log: seq<Message>, m: Message, sender: UserId, receiver: UserId)
    ensures UnreadCount(log + [m], sender, receiver) ==
      UnreadCount(log, sender, receiver) + (if Unread(m, sender, receiver) then 1 else 0)
  {
    if log != [] {
      assert (log + [m])[1..] == log[1..] + [m];
      UnreadCountAppend(log[1..], m, sender, receiver);
    }
  }

  /**
   * Sending one new sender-to-receiver message raises that pair's unread
   * count by exactly one and leaves every other pair's count alone.
   */
  lemma SendRaisesUnread(log: seq<Message>, m: Message, sender: UserId, receiver: UserId)
    requires m.status == Sent
    ensures UnreadCount(log + [m], m.sender, m.receiver) == UnreadCount(log, m.sender, m.receiver) + 1
    ensures (sender, receiver) != (m.sender, m.receiver) ==>
      UnreadCount(log + [m], sender, receiver) == UnreadCount(log, sender, receiver)
  {
    UnreadCountAppend(log, m, m.sender, m.receiver);
    UnreadCountAppend(log, m, sender, receiver);
  }

  /**
   * `MarkRead` turns exactly the matching messages to `Read`: same length,
   * each message on the pair has status `Read` and is otherwise unchanged,
   * every other message is untouched.
   */
  lemma {:induction false} MarkReadAt(log: seq<Message>, sender: UserId, receiver: UserId, i: nat)
    requires i < |log|
    ensures |MarkRead(log, sender, receiver)| == |log|
    ensures var m := log[i]; var m' := MarkRead(log, sender, receiver)[i];
      if m.sender == sender && m.receiver == receiver then m' == m.(status := Read) else m' == m
  {
    if i == 0 {
      MarkReadLength(log[1..], sender, receiver);
    } else {
      MarkReadAt(log[1..], sender, receiver, i - 1);
    }
  }

  lemma {:induction false} MarkReadLength(log: seq<Message>, sender: UserId, receiver: UserId)
    ensures |MarkRead(log, sender, receiver)| == |log|
  {
    if log != [] {
      MarkReadLength(log[1..], sender, receiver);
    }
  }

  /** After `mark_as_read` no unread message is left on the pair. */
  lemma {:induction false} MarkReadClears(log: seq<Message>, sender: UserId, receiver: UserId)
    ensures UnreadCount(MarkRead(log, sender, receiver), sender, receiver) == 0
  {
    if log != [] {
      MarkReadClears(log[1..], sender, receiver);
    }
  }

  /** Marking one pair read leaves the unread count of every other pair as it was. */
  lemma {:induction false} MarkReadKeepsOthers(log: seq<Message>, sender: UserId, receiver: UserId, s: UserId, r: UserId)
    requires (s, r) != (sender, receiver)
    ensures UnreadCount(MarkRead(log, sender, receiver), s, r) == UnreadCount(log, s, r)
  {
    if log != [] {
      MarkReadKeepsOthers(log[1..], sender, receiver, s, r);
    }
  }

  /** Marking read twice is marking read once. */
  lemma {:induction false} MarkReadIdempotent(log: seq<Message>, sender: UserId, receiver: UserId)
    ensures MarkRead(MarkRead(log, sender, receiver), sender, receiver) == MarkRead(log, sender, receiver)
  {
    if log != [] {
      MarkReadIdempotent(log[1..], sender, receiver);
    }
  }
}
