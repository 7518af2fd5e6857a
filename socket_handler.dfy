/**
 * sockets/socketHandler.ts: the realtime session manager.
 *
 * The handshake middleware is a pure decision over the cookie header and the
 * handshake `auth.token`.  Every event handler runs as one atomic step of a
 * `SessionManager`, whose fields are the room registry of socket.io, the
 * `online` column of the user table, the message collection and the log of
 * everything emitted.  Event payload fields that JavaScript tests for
 * truthiness are strings here, with "" standing for a missing field.
 */
module SocketHandler {
  import opened Wrappers
  import opened Text
  import opened AuthUtils
  import opened Messages
  import opened Codec
  import opened Search

  type SocketId = string

  const TokenCookie := "token="
  const AuthenticationError := "Authentication error"

  // ---------------------------------------------------------------------
  // Handshake
  // ---------------------------------------------------------------------

  /** `rows.find((row) => row.startsWith(prefix))`, as an index. */
  function FirstWithPrefix(rows: seq<string>, prefix: string): (r: Option<nat>)
    ensures r.Some? ==> r.value < |rows| && StartsWith(rows[r.value], prefix)
    ensures r.Some? ==> forall k :: 0 <= k < r.value ==> !StartsWith(rows[k], prefix)
    ensures r.None? ==> forall k :: 0 <= k < |rows| ==> !StartsWith(rows[k], prefix)
  {
    FirstMatch(rows, (row: string) => StartsWith(row, prefix))
  }

  /** A row starting with "token=" splits at '=' into at least two pieces, the second taken from after the prefix. */
  lemma TokenRowSplit(row: string)
    requires StartsWith(row, TokenCookie)
    ensures |Split(row, "=")| >= 2
    ensures Split(row, "=")[1] == Split(row[|TokenCookie|..], "=")[0]
  {
    assert row == "token" + "=" + row[|TokenCookie|..];
    SplitAfter("token", "=", row[|TokenCookie|..]);
  }

  /** The first "; "-separated cookie that starts with "token=". */
  function CookieRow(cookie: Option<string>): (row: Option<string>)
    ensures row.Some? ==> StartsWith(row.value, TokenCookie)
    ensures row.Some? <==> (cookie.Some? && FirstWithPrefix(Split(cookie.value, "; "), TokenCookie).Some?)
    ensures row.Some? ==> row.value == Split(cookie.value, "; ")[FirstWithPrefix(Split(cookie.value, "; "), TokenCookie).value]
  {
    if cookie.None? then None
    else
      var rows := Split(cookie.value, "; ");
      match FirstWithPrefix(rows, TokenCookie)
      case None => None
      case Some(k) => Some(rows[k])
  }

  /**
   * The cookie lookup: the chosen cookie row is cut at '=' and its second piece
   * taken, that is the text after "token=" up to the next '='; `None` when
   * there is no such row or that text is empty.
   */
  function CookieToken(cookie: Option<string>): (t: Option<string>)
    ensures t.Some? ==> t.value != []
    ensures t.Some? <==> (CookieRow(cookie).Some? && Split(CookieRow(cookie).value[|TokenCookie|..], "=")[0] != [])
    ensures t.Some? ==> t.value == Split(CookieRow(cookie).value[|TokenCookie|..], "=")[0]
  {
    match CookieRow(cookie)
    case None => None
    case Some(row) =>
      TokenRowSplit(row);
      var value := Split(row, "=")[1];
      if value == [] then None else Some(value)
  }

  /**
   * The cookie value is the segment between the first and the second '=' of
   * the chosen row: it follows "token=" directly, contains no '=', and is
   * followed by '=' or by the end of the row.
   */
  lemma CookieTokenSegment(cookie: Option<string>)
    requires CookieToken(cookie).Some?
    ensures var row := CookieRow(cookie).value;
      var v := CookieToken(cookie).value;
      && StartsWith(row, TokenCookie + v)
      && '=' !in v
      && (|TokenCookie| + |v| == |row| || row[|TokenCookie| + |v|] == '=')
  {
    var row := CookieRow(cookie).value;
    var rest := row[|TokenCookie|..];
    SplitHead(rest, '=');
    var v := CookieToken(cookie).value;
    assert row == TokenCookie + rest;
    assert (TokenCookie + v) == row[..|TokenCookie| + |v|];
  }

  /** The first row with the prefix is the one after rows that lack it. */
  lemma FirstAfter(others: seq<string>, row: string, prefix: string)
    requires forall k :: 0 <= k < |others| ==> !StartsWith(others[k], prefix)
    requires StartsWith(row, prefix)
    ensures FirstWithPrefix(others + [row], prefix) == Some(|others|)
  {
    var rows := others + [row];
    assert rows[|others|] == row;
    assert forall k :: 0 <= k < |others| ==> rows[k] == others[k];
  }

  /** Prefixing "token=" adds no ';'. */
  lemma CookieRowChars(token: string)
    requires ';' !in token
    ensures ';' !in TokenCookie + token
  {
    var row := TokenCookie + token;
    forall i | 0 <= i < |row| ensures row[i] != ';' {
      if i >= |TokenCookie| { assert row[i] == token[i - |TokenCookie|]; }
    }
  }

  /** Splitting the header at "; " gives the cookies back, the token cookie last. */
  lemma CookieRows(others: seq<string>, token: string)
    requires forall k :: 0 <= k < |others| ==> ';' !in others[k]
    requires ';' !in token
    ensures Split(Join(others + [TokenCookie + token], "; "), "; ") == others + [TokenCookie + token]
  {
    var rows := others + [TokenCookie + token];
    CookieRowChars(token);
    assert forall k :: 0 <= k < |rows| ==> ';' !in rows[k] by {
      assert forall k :: 0 <= k < |others| ==> rows[k] == others[k];
    }
    SplitJoin(rows, "; ");
  }

  /** The value of the row "token=<t>" is `t` when `t` holds no '='. */
  lemma RowValue(token: string)
    requires '=' !in token
    ensures Split((TokenCookie + token)[|TokenCookie|..], "=")[0] == token
  {
    assert (TokenCookie + token)[|TokenCookie|..] == token;
    CharFree(token, '=');
    SplitFree(token, "=");
  }

  /** The cookie header a browser sends after login: other cookies, then "token=<token>". */
  lemma CookieCarriesToken(others: seq<string>, token: string)
    requires forall k :: 0 <= k < |others| ==> ';' !in others[k] && !StartsWith(others[k], TokenCookie)
    requires token != [] && ';' !in token && '=' !in token
    ensures CookieToken(Some(Join(others + [TokenCookie + token], "; "))) == Some(token)
  {
    var row := TokenCookie + token;
    var header := Join(others + [row], "; ");
    CookieRows(others, token);
    assert StartsWith(row, TokenCookie);
    FirstAfter(others, row, TokenCookie);
    assert CookieRow(Some(header)) == Some(row);
    RowValue(token);
  }

  /** The handshake token choice: the cookie token, else a non-empty `auth.token`. */
  function HandshakeToken(cookie: Option<string>, auth: Option<string>): (t: Option<string>)
    ensures CookieToken(cookie).Some? ==> t == CookieToken(cookie)
    ensures CookieToken(cookie).None? ==> t == if auth.Some? && auth.value != [] then auth else None
  {
    match CookieToken(cookie)
    case Some(token) => Some(token)
    case None => if auth.Some? && auth.value != [] then auth else None
  }

  datatype Handshake = Rejected(error: string) | Accepted(user: Claims)

  /**
   * The `io.use` middleware: no token, or a token `verifyToken` refuses,
   * rejects the connection with "Authentication error"; otherwise the socket
   * is accepted with the token's `{_id, email}`.
   */
  function HandshakeDecision(cookie: Option<string>, auth: Option<string>, key: Key, now: nat): (h: Handshake)
    ensures h.Rejected? ==> h.error == AuthenticationError
    ensures h.Accepted? <==> (HandshakeToken(cookie, auth).Some?
      && VerifyToken(key, HandshakeToken(cookie, auth).value, now).Verified?)
    ensures h.Accepted? ==> h.user == VerifyToken(key, HandshakeToken(cookie, auth).value, now).claims
  {
    match HandshakeToken(cookie, auth)
    case None => Rejected(AuthenticationError)
    case Some(token) =>
      match VerifyToken(key, token, now)
      case Refused(_) => Rejected(AuthenticationError)
      case Verified(claims) => Accepted(claims)
  }

  /** A cookie token wins: the auth payload is then never looked at, even when the cookie token is bad. */
  lemma CookiePrecedence(cookie: Option<string>, auth: Option<string>, key: Key, now: nat)
    requires CookieToken(cookie).Some?
    ensures HandshakeDecision(cookie, auth, key, now) == HandshakeDecision(cookie, None, key, now)
  {
  }

  /** A cookie token decides exactly as the same token sent alone in the auth payload would. */
  lemma CookieAsAuth(cookie: Option<string>, auth: Option<string>, key: Key, now: nat)
    requires CookieToken(cookie).Some?
    ensures HandshakeDecision(cookie, auth, key, now) == HandshakeDecision(None, CookieToken(cookie), key, now)
  {
  }

  /**
   * A token issued at login, sent as the cookie "token=<token>" after any
   * other cookies, is accepted with its claims until it expires, whatever
   * the auth payload holds.
   */
  lemma IssuedCookieAccepted(others: seq<string>, auth: Option<string>, key: Key, claims: Claims, issuedAt: nat, now: nat)
    requires forall k :: 0 <= k < |others| ==> ';' !in others[k] && !StartsWith(others[k], TokenCookie)
    requires now < issuedAt + TokenLifetime
    ensures HandshakeDecision(Some(Join(others + [TokenCookie + GenerateToken(key, claims, issuedAt)], "; ")), auth, key, now)
      == Accepted(claims)
  {
    var token := GenerateToken(key, claims, issuedAt);
    SeparatorsNotHex();
    GeneratedExcludes(key, claims, issuedAt, ';');
    GeneratedExcludes(key, claims, issuedAt, '=');
    TokenInCookieAccepted(others, auth, key, token, now);
    IssuedAuthAccepted(key, claims, issuedAt, now);
  }

  lemma TokenInCookieAccepted(others: seq<string>, auth: Option<string>, key: Key, token: string, now: nat)
    requires forall k :: 0 <= k < |others| ==> ';' !in others[k] && !StartsWith(others[k], TokenCookie)
    requires token != [] && ';' !in token && '=' !in token
    ensures HandshakeDecision(Some(Join(others + [TokenCookie + token], "; ")), auth, key, now)
      == HandshakeDecision(None, Some(token), key, now)
  {
    CookieCarriesToken(others, token);
    CookieAsAuth(Some(Join(others + [TokenCookie + token], "; ")), auth, key, now);
  }

  /** The cookie separators are not hex digits. */
  lemma SeparatorsNotHex()
    ensures ';' !in HexDigits && '=' !in HexDigits
  {
  }

  /** Without a cookie the `auth.token` of the handshake carries the token. */
  lemma IssuedAuthAccepted(key: Key, claims: Claims, issuedAt: nat, now: nat)
    requires now < issuedAt + TokenLifetime
    ensures HandshakeDecision(None, Some(GenerateToken(key, claims, issuedAt)), key, now) == Accepted(claims)
  {
    GeneratedAlphabet(key, claims, issuedAt);
    VerifyGenerated(key, claims, issuedAt, now);
  }

  // ---------------------------------------------------------------------
  // Events and presence
  // ---------------------------------------------------------------------

  /** `io.emit` (every socket), `io.to(room).emit`, `socket.emit`. */
  datatype Target = Everyone | Room(userId: UserId) | Caller(socketId: SocketId)

  datatype Event =
    | UserOnline(userId: UserId)
    | UserOffline(userId: UserId)
    | OnlineUsers(ids: set<UserId>)
    | UnreadCounts(userId: UserId)
    | ReceiveMessage(message: Message)
    | UnreadCountUpdate(senderId: UserId, count: nat)
    | UserTyping(typist: UserId)
    | UserStoppedTyping(typist: UserId)
    | MessagesReadUpdate(receiverId: UserId, status: Status)

  datatype Emission = Emit(target: Target, event: Event)

  /** How the store calls of `send_message` end: `save` throws, `countDocuments` throws, or both succeed. */
  datatype SendOutcome = Saved | SaveFailed | CountFailed

  function RoomOf(rooms: map<UserId, set<SocketId>>, u: UserId): set<SocketId> {
    if u in rooms then rooms[u] else {}
  }

  /** `User.findByIdAndUpdate(u, {online})`: no change for an id without a record. */
  function SetOnline(online: map<UserId, bool>, u: UserId, flag: bool): map<UserId, bool> {
    if u in online then online[u := flag] else online
  }

  /** `User.find({online: true}).select("_id")`. */
  function OnlineIds(online: map<UserId, bool>): set<UserId> {
    set u | u in online && online[u]
  }

  /** The sockets an emission reaches. */
  function Recipients(e: Emission, sockets: map<SocketId, UserId>, rooms: map<UserId, set<SocketId>>): set<SocketId> {
    match e.target
    case Everyone => sockets.Keys
    case Room(u) => RoomOf(rooms, u)
    case Caller(s) => {s}
  }

  /**
   * The room registry: a room exists only for a non-empty user id, is never
   * empty, and holds exactly that user's open sockets.
   */
  predicate Registry(sockets: map<SocketId, UserId>, rooms: map<UserId, set<SocketId>>) {
    && (forall u :: u in rooms ==> u != [] && rooms[u] != {})
    && (forall u, s :: u in rooms && s in rooms[u] ==> s in sockets && sockets[s] == u)
    && (forall s :: s in sockets && sockets[s] != [] ==> sockets[s] in rooms && s in rooms[sockets[s]])
  }

  /**
   * The users whose `online` column disagrees with whether they have an open
   * socket: flags still set by an earlier server run, and records created
   * while a socket with that id was already open.
   */
  function Stale(rooms: map<UserId, set<SocketId>>, online: map<UserId, bool>): set<UserId> {
    set u | u in online && online[u] != (u in rooms)
  }

  /**
   * Under the registry a room reaches every open tab of its user, and a user
   * that is not stale is flagged online exactly when at least one socket of
   * theirs is open; a stale user's flag says the opposite.
   */
  lemma PresenceMeaning(sockets: map<SocketId, UserId>, rooms: map<UserId, set<SocketId>>, online: map<UserId, bool>, u: UserId)
    requires Registry(sockets, rooms)
    requires u != []
    ensures RoomOf(rooms, u) == set s | s in sockets && sockets[s] == u
    ensures u in online && u !in Stale(rooms, online) ==> (online[u] <==> exists s :: s in sockets && sockets[s] == u)
    ensures u in Stale(rooms, online) ==> (online[u] <==> !exists s :: s in sockets && sockets[s] == u)
  {
    if u in rooms {
      var s :| s in rooms[u];
      assert s in sockets && sockets[s] == u;
    }
  }

  /** An emission to room `u` reaches exactly the open sockets of `u`. */
  lemma RoomReachesTabs(e: Emission, sockets: map<SocketId, UserId>, rooms: map<UserId, set<SocketId>>)
    requires Registry(sockets, rooms)
    requires e.target.Room? && e.target.userId != []
    ensures Recipients(e, sockets, rooms) == set s | s in sockets && sockets[s] == e.target.userId
  {
    PresenceMeaning(sockets, rooms, map[], e.target.userId);
  }

  /**
   * The `online_users` list: the known users with an open socket, less the
   * stale ones, plus the stale ones without an open socket.  With no stale
   * user it is exactly the known users that have a room.
   */
  lemma OnlineIdsConnected(sockets: map<SocketId, UserId>, rooms: map<UserId, set<SocketId>>, online: map<UserId, bool>)
    requires Registry(sockets, rooms)
    ensures OnlineIds(online) == (online.Keys * rooms.Keys - Stale(rooms, online)) + (Stale(rooms, online) - rooms.Keys)
    ensures Stale(rooms, online) == {} ==> OnlineIds(online) == online.Keys * rooms.Keys
  {
  }

  /** Joining a room keeps the registry and brings the user's flag into line. */
  lemma JoinKeepsPresence(sockets: map<SocketId, UserId>, rooms: map<UserId, set<SocketId>>, online: map<UserId, bool>,
                          sid: SocketId, u: UserId)
    requires Registry(sockets, rooms) && sid !in sockets
    ensures u != [] ==> Registry(sockets[sid := u], rooms[u := RoomOf(rooms, u) + {sid}])
    ensures u != [] ==> Stale(rooms[u := RoomOf(rooms, u) + {sid}], SetOnline(online, u, true)) == Stale(rooms, online) - {u}
    ensures u == [] ==> Registry(sockets[sid := u], rooms)
  {
    var sockets' := sockets[sid := u];
    if u != [] {
      var rooms' := rooms[u := RoomOf(rooms, u) + {sid}];
      forall v, s | v in rooms' && s in rooms'[v]
        ensures s in sockets' && sockets'[s] == v
      {
        if v != u || s != sid {
          assert s in rooms[v];
        }
      }
    }
  }

  /**
   * Leaving a room, and dropping it once empty, keeps the registry; closing
   * the last socket brings the flag into line, closing another changes no
   * flag.
   */
  lemma LeaveKeepsPresence(sockets: map<SocketId, UserId>, rooms: map<UserId, set<SocketId>>, online: map<UserId, bool>,
                           sid: SocketId)
    requires Registry(sockets, rooms) && sid in sockets && sockets[sid] != []
    ensures var u := sockets[sid]; var remaining := RoomOf(rooms, u) - {sid};
      if remaining == {} then
        Registry(sockets - {sid}, rooms - {u}) && Stale(rooms - {u}, SetOnline(online, u, false)) == Stale(rooms, online) - {u}
      else
        Registry(sockets - {sid}, rooms[u := remaining]) && Stale(rooms[u := remaining], online) == Stale(rooms, online)
  {
    var u := sockets[sid];
    var remaining := RoomOf(rooms, u) - {sid};
    var sockets' := sockets - {sid};
    if remaining == {} {
      forall s | s in sockets'
        ensures sockets'[s] == u ==> s in remaining
      {
      }
    } else {
      var rooms' := rooms[u := remaining];
      forall v, s | v in rooms' && s in rooms'[v]
        ensures s in sockets' && sockets'[s] == v
      {
        assert s in rooms[v];
        assert s != sid;
      }
    }
  }

  /** A new record's flag is false: it is stale exactly when a socket with its id is already open. */
  lemma RegisterStale(rooms: map<UserId, set<SocketId>>, online: map<UserId, bool>, u: UserId)
    requires u !in online
    ensures Stale(rooms, online[u := false]) == Stale(rooms, online) + (if u in rooms then {u} else {})
  {
  }

  class SessionManager {
    /** `socket.user._id` of every open, accepted socket. */
    var sockets: map<SocketId, UserId>
    /** The socket.io rooms named by user ids; empty rooms are dropped. */
    var rooms: map<UserId, set<SocketId>>
    /** The `online` column of the user table. */
    var online: map<UserId, bool>
    /** The message collection, in insertion order. */
    var messages: seq<Message>
    /** Everything emitted, in order. */
    var outbox: seq<Emission>

    ghost predicate Valid()
      reads this
    {
      Registry(sockets, rooms)
    }

    /**
     * A server start: no socket is open and the `online` column is whatever
     * the database holds, so every user still flagged online from an earlier
     * run is stale.
     */
    constructor(stored: map<UserId, bool>, log: seq<Message>)
      ensures Valid()
      ensures sockets == map[] && rooms == map[] && online == stored
      ensures messages == log && outbox == []
      ensures Stale(rooms, online) == OnlineIds(stored)
    {
      sockets := map[];
      rooms := map[];
      online := stored;
      messages := log;
      outbox := [];
    }

    /** A record created by signup joins the `online` column with the schema default `false`. */
    method RegisterUser(u: UserId)
      requires Valid() && u !in online
      modifies this
      ensures Valid()
      ensures online == old(online)[u := false]
      ensures sockets == old(sockets) && rooms == old(rooms) && messages == old(messages) && outbox == old(outbox)
      ensures Stale(rooms, online) == Stale(old(rooms), old(online)) + (if u in rooms then {u} else {})
    {
      RegisterStale(rooms, online, u);
      online := online[u := false];
    }

    /**
     * The `connection` handler for an accepted socket: a user id joins room
     * `userId`, is flagged online, `user_online` goes to everyone, then the
     * online list and the unread counts go to this socket only.  This runs
     * on every connection, not only a user's first.
     */
    method Connect(sid: SocketId, user: Claims)
      requires Valid() && sid !in sockets
      modifies this
      ensures Valid()
      ensures sockets == old(sockets)[sid := user.id] && messages == old(messages)
      ensures user.id == [] ==> rooms == old(rooms) && online == old(online) && outbox == old(outbox)
      ensures user.id != [] ==>
        && rooms == old(rooms)[user.id := RoomOf(old(rooms), user.id) + {sid}]
        && online == SetOnline(old(online), user.id, true)
        && outbox == old(outbox) + [Emit(Everyone, UserOnline(user.id)),
                                    Emit(Caller(sid), OnlineUsers(OnlineIds(online))),
                                    Emit(Caller(sid), UnreadCounts(user.id))]
        && Stale(rooms, online) == Stale(old(rooms), old(online)) - {user.id}
    {
      var u := user.id;
      JoinKeepsPresence(sockets, rooms, online, sid, u);
      sockets := sockets[sid := u];
      if u != [] {
        rooms := rooms[u := RoomOf(rooms, u) + {sid}];
        online := SetOnline(online, u, true);
        outbox := outbox + [Emit(Everyone, UserOnline(u))];
        outbox := outbox + [Emit(Caller(sid), OnlineUsers(OnlineIds(online)))];
        outbox := outbox + [Emit(Caller(sid), UnreadCounts(u))];
      }
    }

    /**
     * A transport connection: the handshake decides; a rejected socket
     * leaves no trace, an accepted one runs the `connection` handler.
     */
    method Open(sid: SocketId, cookie: Option<string>, auth: Option<string>, key: Key, now: nat) returns (h: Handshake)
      requires Valid() && sid !in sockets
      modifies this
      ensures Valid()
      ensures h == HandshakeDecision(cookie, auth, key, now)
      ensures h.Rejected? ==> (sockets == old(sockets) && rooms == old(rooms) && online == old(online)
        && messages == old(messages) && outbox == old(outbox))
      ensures h.Accepted? ==> sockets == old(sockets)[sid := h.user.id] && messages == old(messages)
      ensures h.Accepted? && h.user.id == [] ==> rooms == old(rooms) && online == old(online) && outbox == old(outbox)
      ensures h.Accepted? && h.user.id != [] ==>
        && rooms == old(rooms)[h.user.id := RoomOf(old(rooms), h.user.id) + {sid}]
        && online == SetOnline(old(online), h.user.id, true)
        && outbox == old(outbox) + [Emit(Everyone, UserOnline(h.user.id)),
                                    Emit(Caller(sid), OnlineUsers(OnlineIds(online))),
                                    Emit(Caller(sid), UnreadCounts(h.user.id))]
        && Stale(rooms, online) == Stale(old(rooms), old(online)) - {h.user.id}
    {
      h := HandshakeDecision(cookie, auth, key, now);
      if h.Accepted? {
        Connect(sid, h.user);
      }
    }

    /**
     * `send_message`: dropped without a sender, a receiver or a text.
     * Otherwise one message is stored, `receive_message` goes to the
     * receiver's room and then the sender's, and the pair's unread count to
     * the receiver's room.  A failed save stores and emits nothing; a failed
     * count stops before the count update.
     */
    method SendMessage(sid: SocketId, receiverId: UserId, text: string, now: int, outcome: SendOutcome)
      requires Valid() && sid in sockets
      modifies this
      ensures Valid()
      ensures sockets == old(sockets) && rooms == old(rooms) && online == old(online)
      ensures var sender := old(sockets)[sid];
        var m := Message(sender, receiverId, text, Sent, now);
        if sender == [] || receiverId == [] || text == [] || outcome == SaveFailed then
          messages == old(messages) && outbox == old(outbox)
        else
          && messages == old(messages) + [m]
          && outbox == old(outbox) + [Emit(Room(receiverId), ReceiveMessage(m)), Emit(Room(sender), ReceiveMessage(m))]
                + (if outcome == Saved
                   then [Emit(Room(receiverId), UnreadCountUpdate(sender, UnreadCount(messages, sender, receiverId)))]
                   else [])
          && UnreadCount(messages, sender, receiverId) == UnreadCount(old(messages), sender, receiverId) + 1
    {
      var sender := sockets[sid];
      if sender == [] || receiverId == [] || text == [] {
        return;
      }
      var m := Message(sender, receiverId, text, Sent, now);
      if outcome == SaveFailed {
        return;
      }
      SendRaisesUnread(messages, m, sender, receiverId);
      messages := messages + [m];
      outbox := outbox + [Emit(Room(receiverId), ReceiveMessage(m))];
      outbox := outbox + [Emit(Room(sender), ReceiveMessage(m))];
      if outcome == CountFailed {
        return;
      }
      var count := UnreadCount(messages, sender, receiverId);
      outbox := outbox + [Emit(Room(receiverId), UnreadCountUpdate(sender, count))];
    }

    /** `user_typing`: relayed to the receiver's room only; nothing is stored. */
    method UserTypingEvent(sid: SocketId, receiverId: UserId)
      requires Valid() && sid in sockets
      modifies this
      ensures Valid()
      ensures sockets == old(sockets) && rooms == old(rooms) && online == old(online) && messages == old(messages)
      ensures outbox == if old(sockets)[sid] == [] || receiverId == [] then old(outbox)
                        else old(outbox) + [Emit(Room(receiverId), UserTyping(old(sockets)[sid]))]
    {
      var sender := sockets[sid];
      if sender == [] || receiverId == [] {
        return;
      }
      outbox := outbox + [Emit(Room(receiverId), UserTyping(sender))];
    }

    /** `user_stopped_typing`: relayed to the receiver's room only; nothing is stored. */
    method UserStoppedTypingEvent(sid: SocketId, receiverId: UserId)
      requires Valid() && sid in sockets
      modifies this
      ensures Valid()
      ensures sockets == old(sockets) && rooms == old(rooms) && online == old(online) && messages == old(messages)
      ensures outbox == if old(sockets)[sid] == [] || receiverId == [] then old(outbox)
                        else old(outbox) + [Emit(Room(receiverId), UserStoppedTyping(old(sockets)[sid]))]
    {
      var sender := sockets[sid];
      if sender == [] || receiverId == [] {
        return;
      }
      outbox := outbox + [Emit(Room(receiverId), UserStoppedTyping(sender))];
    }

    /**
     * `mark_as_read` from the receiver on this socket: every unread message
     * from `senderId` to it becomes read, the sender's room hears
     * `messages_read_update` and the receiver's room an unread count of 0.
     * A failed update changes and emits nothing.
     */
    method MarkAsRead(sid: SocketId, senderId: UserId, updated: bool)
      requires Valid() && sid in sockets
      modifies this
      ensures Valid()
      ensures sockets == old(sockets) && rooms == old(rooms) && online == old(online)
      ensures var receiver := old(sockets)[sid];
        if senderId == [] || receiver == [] || !updated then
          messages == old(messages) && outbox == old(outbox)
        else
          && messages == MarkRead(old(messages), senderId, receiver)
          && outbox == old(outbox) + [Emit(Room(senderId), MessagesReadUpdate(receiver, Read)),
                                      Emit(Room(receiver), UnreadCountUpdate(senderId, 0))]
          && UnreadCount(messages, senderId, receiver) == 0
    {
      var receiver := sockets[sid];
      if senderId == [] || receiver == [] {
        return;
      }
      if !updated {
        return;
      }
      MarkReadClears(messages, senderId, receiver);
      messages := MarkRead(messages, senderId, receiver);
      outbox := outbox + [Emit(Room(senderId), MessagesReadUpdate(receiver, Read))];
      outbox := outbox + [Emit(Room(receiver), UnreadCountUpdate(senderId, 0))];
    }

    /**
     * `disconnect`: the socket has left its rooms; only when the user's room
     * is then empty does `user_offline` go to everyone and the flag drop.
     */
    method Disconnect(sid: SocketId)
      requires Valid() && sid in sockets
      modifies this
      ensures Valid()
      ensures sockets == old(sockets) - {sid} && messages == old(messages)
      ensures var u := old(sockets)[sid]; var remaining := RoomOf(old(rooms), u) - {sid};
        if u == [] then
          rooms == old(rooms) && online == old(online) && outbox == old(outbox)
        else if remaining == {} then
          rooms == old(rooms) - {u} && online == SetOnline(old(online), u, false)
          && outbox == old(outbox) + [Emit(Everyone, UserOffline(u))]
          && Stale(rooms, online) == Stale(old(rooms), old(online)) - {u}
        else
          rooms == old(rooms)[u := remaining] && online == old(online) && outbox == old(outbox)
          && Stale(rooms, online) == Stale(old(rooms), old(online))
    {
      var u := sockets[sid];
      if u == [] {
        sockets := sockets - {sid};
        return;
      }
      LeaveKeepsPresence(sockets, rooms, online, sid);
      sockets := sockets - {sid};
      var remaining := RoomOf(rooms, u) - {sid};
      if remaining == {} {
        rooms := rooms - {u};
        outbox := outbox + [Emit(Everyone, UserOffline(u))];
        online := SetOnline(online, u, false);
      } else {
        rooms := rooms[u := remaining];
      }
    }
  }
}
