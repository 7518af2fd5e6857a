# Chat backend core, modelled in Dafny

This project models the core of a realtime chat backend written in
TypeScript (Express, socket.io, Mongoose). The backend has two halves:

- **The HTTP half.** Users sign up with a username, an email and a password.
  Signing up stores a bcrypt hash and a random verification token that
  expires after 24 hours. The user verifies the email with that token, then
  logs in and receives a 24-hour JWT carrying `{_id, email}`. A bearer-token
  middleware guards the message-history route. The profile and user-list
  operations read `req.user` as that middleware would set it, although no
  route reaches them.
- **The realtime half.** On the socket.io handshake the same JWT is read
  from the `token` cookie, or else from the handshake's `auth.token`. Each
  accepted socket joins a room named after its user id and flips the user's
  `online` flag. It then relays messages, typing indicators and read
  receipts between rooms. When a user's last tab closes, the user is
  announced as offline.

Modules, one per core source file plus three helper modules:

| module | file | models |
|---|---|---|
| `Wrappers` | wrappers.dfy | `Option` |
| `Search` | search.dfy | the first-match search behind `find` and `findOne` |
| `Text` | text.dfy | the JavaScript string built-ins the core uses: `split`, `startsWith`, `trim`, `toLowerCase`, UTF-16 `length` |
| `Codec` | codec.dfy | decimal numerals and hex encoding, used to lay out bcrypt strings and JWTs |
| `AuthUtils` | auth_utils.dfy | `utils/authUtils.ts`: the salt-round clamp, hashing and comparing, and token sign / verify |
| `Users` | users.dfy | `model/Users.ts`: the record, the setters, the validators, the defaults, the unique indexes and the lookups |
| `Messages` | messages.dfy | the message record, the unread count and the mark-read update |
| `MessageService` | message_service.dfy | `services/messageService.ts`: the conversation filter and the sort |
| `UserService` | user_service.dfy | `services/userService.ts`: the self lookup, caller exclusion and field projection |
| `AuthMiddleware` | auth_middleware.dfy | `middleware/authMiddleware.ts`: header parsing and the 401-or-next decision, and the request it mutates |
| `AuthService` | auth_service.dfy | `services/authService.ts`: signup, verification and login, as a class over the user table |
| `SocketHandler` | socket_handler.dfy | `sockets/socketHandler.ts`: the handshake decision as functions; the `connection` handler and the event handlers as methods of a `SessionManager` class |

Modelling choices:

- **Hashing and signing.** bcrypt and jsonwebtoken are abstract.
  - bcrypt's key derivation is a parameter `Kdf`. A stored hash is the cost,
    the hex-encoded salt and the hex-encoded digest, joined by `$`.
  - A JWT is the hex-encoded id and email, the issued-at and expiry seconds
    in decimal, and the hex-encoded MAC of those four pieces, joined by `.`.
    The MAC and the secret are a parameter `Key`.
  - Nothing is assumed about either function. The proofs depend only on the
    layout of the strings and on the checks `compare` and `verify` make.
  - Issued tokens consist of hex digits and `.` only. So they contain no
    `=`, `;` or space, and they pass unchanged through a cookie header or an
    Authorization header.
- **Inputs instead of effects.**
  - The clock is a `now` parameter: milliseconds in the auth service,
    seconds for JWTs (`jsonwebtoken` uses whole seconds).
  - `Math.random` becomes a `verificationToken` parameter. The new record's
    `_id` becomes the `newId` parameter.
  - `process.env.SALT` is an `Option<int>`, where `None` means not finite.
  - Whether the two store calls in `send_message` and the one in
    `mark_as_read` throw is a parameter.
- **Tables.** The user table and the message collection are sequences in
  insertion order. The model takes that as the order an unsorted query
  scans them in, and it breaks `createdAt` ties the same way for every
  query. MongoDB guarantees neither. Mongoose setters (`trim`, `lowercase`) apply both to
  stored values and to query filters.
- **Atomic handlers.** Each socket event handler is one atomic step of the
  `SessionManager`. Its fields are:
  - the sockets and the user each one belongs to;
  - the rooms socket.io keeps per user id;
  - the `online` column of the user table;
  - the message collection;
  - the log of emitted events, where each target is everyone, a room or
    the calling socket.

  The class invariant is the room registry: a room exists exactly while
  its user has an open socket, and it holds exactly those sockets. The
  `online` column is not forced to agree with it. A user whose flag
  disagrees with whether a socket of theirs is open is *stale*. At start,
  every user whose stored flag is still `true` is stale. Each connect or
  last disconnect of a user makes that user not stale, and no handler makes
  a user stale. Only a signup while a socket with the new id is already
  open does that.
- **Falsy values.** JavaScript truthiness tests on event payload fields are
  modelled with `""` standing for a missing value.
- **Message status.** The message schema is not part of this model. A new
  message is taken to start with the non-read status `Sent`, and `Read` is
  the status the handlers write.
- **The password length rule.** The schema's `minlength: 6` on `password`
  sees the stored bcrypt hash, never the raw password.
  `AuthService.PasswordLengthUnchecked` states that whether signup passes
  validation does not depend on the password chosen.

## Model

| member | source | states |
|---|---|---|
| AuthUtils.SaltRounds | utils/authUtils.ts:8-9 | the cost lies in [4, 12]; it is 10 when `SALT` is not finite; a value in [4, 12] is kept, a lower one becomes 4 and a higher one 12 |
| AuthUtils.CompareBcrypt | utils/authUtils.ts:13-15 | `compare` accepts an attempt against a stored hash exactly when the attempt's digest under the stored salt and cost equals the original password's digest; so the original password is always accepted |
| AuthUtils.BcryptLength | utils/authUtils.ts:10 | a bcrypt string with a non-empty salt is at least 6 UTF-16 units long |
| AuthUtils.VerifyToken | utils/authUtils.ts:23-25 | verification refuses only as invalid or expired, never as "missing" |
| AuthUtils.HashPassword | utils/authUtils.ts:7-11 | the password matches its own hash under `comparePassword`, and with a salt the hash is at least six UTF-16 units long |
| AuthUtils.ComparePassword | utils/authUtils.ts:13-15 | `bcrypt.compare`, defined by splitting the hash at `$`; `AuthUtils.CompareBcrypt` states when it accepts |
| AuthUtils.GenerateToken | utils/authUtils.ts:17-21 | `jwt.sign` with a 24-hour expiry, defined by its layout; `AuthUtils.TokenPieces`, `AuthUtils.GeneratedAlphabet` and `AuthUtils.VerifyGenerated` give its meaning |
| AuthUtils.TokenPieces | utils/authUtils.ts:17-21 | an issued token splits at `.` back into its four payload pieces and its signature |
| AuthUtils.VerifyGenerated | utils/authUtils.ts:17-25 | sign/verify round trip: a token issued at `iat` verifies with the same key and yields its claims while `now < iat + 24h`; afterwards it is refused as expired |
| AuthUtils.ForeignKeyRefused | utils/authUtils.ts:18-24 | a token signed with one key passes another key's check only if the two MACs agree on its payload |
| AuthUtils.GeneratedAlphabet | utils/authUtils.ts:17-21 | an issued token is non-empty and consists of hex digits and `.` only |
| AuthUtils.GeneratedExcludes | utils/authUtils.ts:17-21 | no character outside that alphabet occurs in an issued token |
| AuthMiddleware.BearerToken | middleware/authMiddleware.ts:18 | a token is found exactly when the header splits at spaces into at least two pieces and the second is non-empty; the token is that second piece; the first word is not checked |
| AuthMiddleware.Authenticate | middleware/authMiddleware.ts:17-29 | no token gives 401 "No token provided"; a refused token gives 401 "Invalid token or token expired"; the request passes exactly when a token is found and verifies, and then it carries the token's claims |
| AuthMiddleware.HeaderCarriesToken | middleware/authMiddleware.ts:18 | the header `<scheme> <token>` yields the token when neither word holds a space and the token is non-empty |
| AuthMiddleware.IssuedTokenPasses | middleware/authMiddleware.ts:17-29 | a login token sent as `<scheme> <token>` passes with its claims until it expires, then is refused with 401, whatever the scheme word is |
| AuthMiddleware.Request.constructor | middleware/authMiddleware.ts:17 | a fresh request has no user, no response and no `next` call |
| AuthMiddleware.Request.VerifyToken | middleware/authMiddleware.ts:17-29 | on success `req.user` is the claims, `next` is called exactly once and no response is sent; otherwise the 401 reply is sent, `req.user` is untouched and `next` is not called |
| Users.NormalizeIdempotent | model/Users.ts:13-18 | trimming and lowercasing a stored email changes it no further |
| Users.LastIndexOf | model/Users.ts:19 | the index found holds the character and no later index does; `None` means the character does not occur |
| Users.MatchesEmailIsShape | model/Users.ts:19 | the match decision holds exactly for strings with no white space, an `@` at some index i ≥ 1 and a `.` at some index j with i + 2 ≤ j ≤ length − 2 |
| Users.NormalizeEmail | model/Users.ts:17-18 | the `trim` and `lowercase` setters: the stored email is no longer than the input, holds no ASCII capital, and neither starts nor ends with white space; `Users.NormalizeIdempotent` shows that it is a fixed point |
| Users.MatchesEmail | model/Users.ts:19 | a string the pattern accepts has no white space and holds an `@` and a `.`; `Users.MatchesEmailIsShape` gives the exact shape |
| Users.SchemaValid | model/Users.ts:5-25 | the `required`, `minlength`, `maxlength` and `match` validators, measured in UTF-16 units; `Users.ValidLengths` bounds it in characters, and `AuthService.PasswordLengthUnchecked` shows which value the password rule really sees |
| Users.ValidLengths | model/Users.ts:5-25 | a valid record has a username of 2 to 30 characters, a password of at least 3 and an email holding an `@` |
| Users.NewUser | model/Users.ts:5-55 | `new User` with the setters and defaults; `Users.NewUserDefaults` states the defaults and that the username and email leave the setters in stored form |
| Users.NewUserDefaults | model/Users.ts:5-55 | a new record is unverified, offline and holds no verification or reset token; its username and email are in stored form; its password is the value given |
| Users.FindByEmail | services/authService.ts:12 | `findOne({email})` returns the first record with that email, and `None` exactly when no record has it |
| Users.FindById | services/userService.ts:8 | `findById` returns the first record with that id, and `None` exactly when no record has it |
| Users.AppendKeepsUnique | model/Users.ts:8-16 | appending a record whose id, username and email are all new keeps every unique index unique |
| Text.Split | sockets/socketHandler.ts:20-22 | `split` with a string separator yields at least one piece; `Text.JoinSplit`, `Text.SplitJoin` and `Text.SplitHead` give its meaning |
| Text.Trim | model/Users.ts:9 | the result is no longer than the input and neither starts nor ends with white space; an input that already does neither is returned as it is; `Text.TrimStart` and `Text.TrimEnd` say that only white space is removed |
| Text.TrimStart | model/Users.ts:9 | the result is a suffix of the input that starts with a non-space character or is empty, and only white space was removed |
| Text.TrimEnd | model/Users.ts:9 | the result is a prefix of the input that ends with a non-space character or is empty, and only white space was removed |
| Text.ToLower | model/Users.ts:18 | lowercasing keeps the length and maps each character on its own, A to Z to a to z |
| Text.TrimIdempotent | model/Users.ts:9 | trimming a trimmed string changes nothing |
| Text.LowerKeepsSpace | model/Users.ts:17-18 | lowercasing a character makes it white space exactly when it already was |
| Text.TrimStartLower | model/Users.ts:17-18 | removing leading white space after lowercasing gives the same string as removing it before |
| Text.TrimEndLower | model/Users.ts:17-18 | removing trailing white space after lowercasing gives the same string as removing it before |
| Text.TrimLowerCommute | model/Users.ts:17-18 | `trim` and `toLowerCase` commute |
| Text.Utf16Length | model/Users.ts:10-11 | the UTF-16 length lies between the number of code points and twice that number |
| Text.JoinSplit | sockets/socketHandler.ts:20 | joining the pieces of a split gives the original string back |
| Text.SplitJoin | sockets/socketHandler.ts:20 | splitting a join gives the pieces back when no piece holds the separator's first character |
| Text.SplitHead | sockets/socketHandler.ts:22 | the first piece of a split at `c` is the longest prefix without `c` |
| Messages.UnreadCount | sockets/socketHandler.ts:84-88 | the unread count never exceeds the size of the log |
| Messages.UnreadCountAppend | sockets/socketHandler.ts:84-88 | appending a message raises a pair's count by one exactly when the message is unread on that pair |
| Messages.SendRaisesUnread | sockets/socketHandler.ts:71-88 | storing a new message raises its pair's unread count by exactly one and leaves every other pair's count unchanged |
| Messages.MarkRead | sockets/socketHandler.ts:126-129 | the `updateMany`, defined message by message; `Messages.MarkReadAt`, `Messages.MarkReadClears`, `Messages.MarkReadKeepsOthers` and `Messages.MarkReadIdempotent` give its meaning |
| Messages.MarkReadAt | sockets/socketHandler.ts:126-129 | the update keeps the length; every message on the pair becomes `Read` and is otherwise unchanged; every other message is untouched |
| Messages.MarkReadLength | sockets/socketHandler.ts:126-129 | the update neither adds nor removes messages |
| Messages.MarkReadClears | sockets/socketHandler.ts:126-138 | after the update the pair has no unread message, which is the 0 that is then emitted |
| Messages.MarkReadKeepsOthers | sockets/socketHandler.ts:126-129 | the update leaves every other pair's unread count as it was |
| Messages.MarkReadIdempotent | sockets/socketHandler.ts:126-129 | running the update twice is running it once |
| MessageService.Conversation | services/messageService.ts:14-18 | the filter is sound (each message returned is stored and goes between the two users, in either direction) and complete (each stored message between them is returned) |
| MessageService.Insert | services/messageService.ts:19 | inserting adds exactly that message and removes none |
| MessageService.InsertSorted | services/messageService.ts:19 | inserting into a list sorted by `createdAt` keeps it sorted |
| MessageService.SortByCreatedAt | services/messageService.ts:19 | the result is ordered by `createdAt`, oldest first, and is a permutation of the input |
| MessageService.GetMessages | services/messageService.ts:5-21 | 401 "Unauthorized" exactly when there is no caller id; otherwise the history is sorted oldest first, sound, complete and a permutation of the filtered messages |
| MessageService.ConversationSymmetric | services/messageService.ts:15-17 | the filter for (a, b) equals the filter for (b, a) |
| MessageService.HistorySymmetric | services/messageService.ts:14-19 | the history that a requests with b equals the one b requests with a; the order of equal `createdAt` values is the model's choice, the same for both queries |
| MessageService.ConversationAppend | services/messageService.ts:14-18 | a new message joins the end of the filter's result exactly when it goes between the two users |
| MessageService.HistoryAfterSend | services/messageService.ts:14-19 | after a message is stored, both users' histories hold it, one more message than before, and the two histories are equal, with equal `createdAt` values ordered the same way by the model's choice |
| UserService.Project | services/userService.ts:8 | the projection keeps the id, name, email and flags; its type has no password or verification-token field |
| UserService.GetUserById | services/userService.ts:5-12 | the lookup uses the caller's own id; the reply is 404 "User not found" exactly when there is no caller or no user has that id; otherwise it is the projection of that user |
| UserService.Listed | services/userService.ts:24 | the `$ne` filter on the caller; `UserService.GetAllUsers` states which users pass it |
| UserService.GetAllUsers | services/userService.ts:20-25 | every returned record is the projection of a stored user other than the caller; every other stored user is returned; the caller is never in the list |
| AuthService.SignupRecord | services/authService.ts:28-35 | the record `createUser` saves; `AuthService.SignupRecordFields` lists its fields |
| AuthService.Consume | services/authService.ts:76-79 | what `verifyEmail` writes to the matched user; `AuthService.VerificationSingleUse` and `AuthService.ConsumeKeepsValid` give its meaning |
| AuthService.SignupRecordFields | services/authService.ts:16-37 | a new account is unverified and offline, holds the token with expiry `now + 24h` and stores the bcrypt hash with the clamped cost, which the password matches; the username is trimmed and the email normalised |
| AuthService.PasswordLengthUnchecked | services/authService.ts:26-37 | with a non-empty salt, whether the record passes the schema is the same for any two passwords |
| AuthService.FindVerifiable | services/authService.ts:65-68 | the lookup returns the first user whose token equals the given one and whose expiry is strictly later than now; `None` exactly when there is none |
| AuthService.VerificationSingleUse | services/authService.ts:76-81 | a verified user is never matched again by any token at any later time; if no other user holds the token, a second verification with it fails |
| AuthService.SignupKeepsValid | services/authService.ts:28-37 | appending a schema-valid record whose id, username and email are all new keeps the unique indexes and the schema valid |
| AuthService.ConsumeKeepsValid | services/authService.ts:76-79 | verifying an account keeps the unique indexes and the schema valid |
| AuthService.AuthService.constructor | services/authService.ts:6 | the service runs over the stored collection as it is, which the unique indexes and the schema already constrain |
| AuthService.AuthService.CreateUser | services/authService.ts:8-54 | in order: an existing email gives 400 "User already exists"; an invalid record gives the validation error; a taken username gives the duplicate-key error. Every refusal leaves the table unchanged. Otherwise the reply is 201 and exactly the new record is appended. The table stays valid |
| AuthService.AuthService.VerifyEmail | services/authService.ts:56-86 | an empty or missing token gives 400 "Verification token is required"; no live match gives 400 "Invalid or expired verification token". Both leave the table unchanged. Otherwise the matched user is verified, its token and expiry are cleared and nothing else changes |
| AuthService.AuthService.LoginUser | services/authService.ts:89-137 | checks in order unknown email, unverified account, wrong password; the first and last give the identical reply; only a verified user with a matching password gets a token, which carries `{_id, email}` and verifies for the 24 hours after login |
| Search.FirstMatch | sockets/socketHandler.ts:20 | the index found satisfies the test and no earlier one does; `None` exactly when no element does |
| SocketHandler.FirstWithPrefix | sockets/socketHandler.ts:20 | `find` returns the first row with the prefix; `None` exactly when no row has it |
| SocketHandler.TokenRowSplit | sockets/socketHandler.ts:22 | a `token=` row splits at `=` into at least two pieces, and the second is the text after the prefix up to the next `=` |
| SocketHandler.CookieRow | sockets/socketHandler.ts:19-20 | the chosen row is the first `"; "`-separated cookie starting with `token=`; `None` exactly when there is no cookie header or no such row |
| SocketHandler.CookieToken | sockets/socketHandler.ts:19-23 | the cookie token is the text after `token=` up to the next `=`; it is `None` exactly when there is no such row or that text is empty |
| SocketHandler.CookieTokenSegment | sockets/socketHandler.ts:20-23 | the token follows `token=` directly, contains no `=`, and is followed by `=` or the end of the row |
| SocketHandler.CookieRows | sockets/socketHandler.ts:20 | splitting a header built from cookies without `;` at `"; "` gives those cookies back |
| SocketHandler.RowValue | sockets/socketHandler.ts:22 | the value of the row `token=<t>` is `t` when `t` holds no `=` |
| SocketHandler.CookieCarriesToken | sockets/socketHandler.ts:19-23 | a header `<others>; token=<t>` yields `t` when the other cookies hold no `;` and do not start with `token=`, and `t` is non-empty with no `;` or `=` |
| SocketHandler.HandshakeToken | sockets/socketHandler.ts:21-28 | a cookie token takes precedence; otherwise the `auth.token` is used if non-empty; otherwise there is none |
| SocketHandler.HandshakeDecision | sockets/socketHandler.ts:17-40 | a rejection always carries "Authentication error"; the socket is accepted exactly when a token is found and verifies; the user is then the token's `{_id, email}` |
| SocketHandler.CookiePrecedence | sockets/socketHandler.ts:21-28 | with a cookie token the `auth` payload is ignored, even when the cookie token is invalid |
| SocketHandler.CookieAsAuth | sockets/socketHandler.ts:21-39 | a cookie token is judged exactly as the same token sent alone as `auth.token` |
| SocketHandler.IssuedCookieAccepted | sockets/socketHandler.ts:17-40 | a login token sent as the cookie `token=<token>` after other cookies is accepted with its claims until it expires, whatever the `auth` payload holds |
| SocketHandler.TokenInCookieAccepted | sockets/socketHandler.ts:19-28 | a well-formed token in the cookie decides exactly as it would alone in `auth.token` |
| SocketHandler.IssuedAuthAccepted | sockets/socketHandler.ts:26-39 | without a cookie, a login token in `auth.token` is accepted with its claims until it expires |
| SocketHandler.PresenceMeaning | sockets/socketHandler.ts:144-153 | under the registry, a user's room holds exactly the user's open sockets; a user that is not stale is flagged online exactly when some socket of theirs is open, and a stale user's flag says the opposite |
| SocketHandler.RoomReachesTabs | sockets/socketHandler.ts:79-81 | under the registry, an emission to room `u` reaches exactly the open sockets of `u` |
| SocketHandler.SetOnline | sockets/socketHandler.ts:49 | `findByIdAndUpdate(u, {online})`, which leaves the column unchanged for an id without a record; `SocketHandler.JoinKeepsPresence` and `SocketHandler.LeaveKeepsPresence` give its effect on stale users |
| SocketHandler.OnlineIds | sockets/socketHandler.ts:55-56 | `find({online: true})`; `SocketHandler.OnlineIdsConnected` relates it to open sockets |
| SocketHandler.OnlineIdsConnected | sockets/socketHandler.ts:55-58 | under the registry, the `online_users` list is the known users with a room, less the stale ones, plus the stale ones without a room; with no stale user it is exactly the known users with a room |
| SocketHandler.JoinKeepsPresence | sockets/socketHandler.ts:44-49 | opening a socket and joining its user's room, or not joining when the socket has no user, keeps the registry; setting the flag makes the user not stale and changes no other user's standing |
| SocketHandler.LeaveKeepsPresence | sockets/socketHandler.ts:144-153 | closing a socket keeps the registry. When it was the last, the room is dropped and clearing the flag makes the user not stale. Otherwise the room shrinks and the stale set is unchanged |
| SocketHandler.RegisterStale | model/Users.ts:40-44 | adding a record with the default `online: false` makes it stale exactly when a socket with its id is already open, and changes no other user's standing |
| SocketHandler.SessionManager.constructor | sockets/socketHandler.ts:15 | at server start no socket is open and no room exists. The `online` column is the stored one, so the stale users are exactly those still flagged online |
| SocketHandler.SessionManager.RegisterUser | model/Users.ts:40-44 | a record created by signup enters the `online` column as `false`; nothing else changes; the registry is kept |
| SocketHandler.SessionManager.Connect | sockets/socketHandler.ts:42-63 | on every accepted connection with a user id, not only the first: the socket joins room `userId`; `online` is set; then `user_online` goes to everyone, and `online_users` (the ids now online) and `unread_counts` go to this socket only. The registry is kept, and the user is no longer stale |
| SocketHandler.SessionManager.Open | sockets/socketHandler.ts:17-63 | a rejected handshake leaves no trace; an accepted one runs the connection handler with the token's user. With an empty `_id` only the socket is recorded, and rooms, flags and the emission log are unchanged |
| SocketHandler.SessionManager.SendMessage | sockets/socketHandler.ts:65-96 | no sender, receiver or text, or a failed save: nothing is stored or emitted. Otherwise exactly one `Sent` message is appended, and `receive_message` goes to the receiver's room, then the sender's. Then, unless counting fails, `unread_count_update` goes to the receiver's room with the pair's unread count, one more than before |
| SocketHandler.SessionManager.UserTypingEvent | sockets/socketHandler.ts:99-106 | relayed as `{userId: sender}` to the receiver's room only, and dropped without a sender or a receiver; nothing stored changes |
| SocketHandler.SessionManager.UserStoppedTypingEvent | sockets/socketHandler.ts:109-116 | same as typing, for the stopped-typing event |
| SocketHandler.SessionManager.MarkAsRead | sockets/socketHandler.ts:119-142 | without both ids, or when the update fails, nothing changes. Otherwise every sender-to-caller message becomes `Read` and all others are unchanged; `messages_read_update{receiverId, "read"}` goes to the sender's room and `unread_count_update{senderId, 0}` to the caller's room; the pair's unread count is then 0 |
| SocketHandler.SessionManager.Disconnect | sockets/socketHandler.ts:144-154 | the socket leaves its room; only when the room is then empty is `user_offline` emitted to everyone and `online` cleared, which makes the user not stale; otherwise the stale set is unchanged; the registry is kept |

## Left out

- I/O and plumbing: the Express and socket.io server wiring, the MongoDB
  connection, the Mailjet email service and the controllers and routes.
  `app.ts` never installs the socket handler: lines 24-29 register a
  logging `connection` handler of its own. Line 35 mounts only
  `userRouter`, so the message route and its middleware are not reachable
  either. The model describes the handlers as if they were installed.
  The verification email is fire-and-forget in `createUser`, so the reply
  does not depend on it.
- The forgot-password and reset-password operations, and
  `userService.createUser`: the controllers call them, but they are not
  implemented in the services. The `resetPassword*` fields exist only as
  schema defaults.
- `getUnreadCounts` is called at connect time but is not defined in the
  message service. The `unread_counts` emission carries only the user id.
  As written, the call throws a TypeError inside the async `connection`
  handler for every socket with a user id. Three things follow. First,
  `unread_counts` is never sent. Second, the handlers for `send_message`,
  `user_typing`, `user_stopped_typing`, `mark_as_read` and `disconnect` are
  never registered for such a socket, so its events have no effect. Third,
  the user's `online` flag stays `true` after the tab closes. The model
  treats the call as an emission that succeeds and registers the handlers,
  as the code evidently intends.
- The Messages schema is not part of this model. Its default status and
  its `createdAt` timestamp are taken as `Sent` and the `now` parameter.
- bcrypt and jsonwebtoken internals: the digest and the MAC are
  uninterpreted parameters, and JWT's JSON and base64url layout is replaced
  by hex and decimal pieces. The model also leaves out other `jwt.verify`
  failures, such as `nbf`, algorithm choice and a missing secret.
- Database failures and the catch-all replies: validation and duplicate-key
  refusals in `createUser` are modelled with fixed texts that stand for the
  driver's error messages. Query time-outs (`maxTimeMS`), ObjectId cast
  errors and the 400/500 catch-all replies of the services are not
  modelled.
- Concurrency: each HTTP operation and each socket event handler is one
  atomic step. Interleavings at `await` points (for instance, two
  simultaneous signups with the same email) are not modelled.
- Socket.io internals: the per-socket room that socket.io adds for every
  socket, adapters and transports are not modelled. Only the rooms named
  after user ids are kept.
- `SALT` values that are not integers are out of scope. `SALT` is an
  `Option<int>`.
- Text.ToLower: lowercases ASCII letters only. Full Unicode case mapping is
  not modelled.
- Users.FindById: `_id` is a plain string. ObjectId parsing and casting
  are not modelled.
- SocketHandler.SessionManager.Connect: `online` is set only for an id
  that has a record, as `findByIdAndUpdate` does. The `user_online` event
  goes out either way. A signup adds the new id to the column only through
  `SessionManager.RegisterUser`. The model does not tie `AuthService.CreateUser`
  to that call. The `online` column of the session manager is also kept
  apart from the `online` field of `AuthService`'s user table, which no
  socket handler writes here.
  So `UserService.GetAllUsers` over that table reports the stored flags,
  whereas in the program it reports the flags the socket handlers set.
- AuthService.AuthService.LoginUser: the `.select` projection of the query
  is not modelled. The reply carries only fields the projection keeps.
- AuthService.AuthService.CreateUser: requires a fresh `newId`, which
  stands for Mongoose generating a new ObjectId.
