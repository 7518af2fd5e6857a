/**
 * services/authService.ts: signup, email verification and login as
 * transitions of the user table.  bcrypt, `Math.random` and the clock are
 * parameters: the key derivation `kdf`, the bcrypt `salt`, the random
 * `verificationToken` and `now` in milliseconds.
 */
module AuthService {
  import opened Wrappers
  import opened Text
  import opened Users
  import opened AuthUtils
  import opened Search

  /** `24 * 60 * 60 * 1000`: the verification token lives 24 hours. */
  const VerificationLifetime := 24 * 60 * 60 * 1000

  /** The JSON reply: status code, the `success` field when present, and `message`. */
  datatype Reply = Reply(status: nat, success: Option<bool>, message: string)

  const UserExists := "User already exists"
  const UserCreated := "User created. Verification email will be sent shortly. Please verify your email to activate your account."
  /** Stands for the text of Mongoose's ValidationError. */
  const ValidationFailed := "User validation failed"
  /** Stands for the text of MongoDB's duplicate-key error on the unique username index. */
  const DuplicateKey := "E11000 duplicate key error"
  const TokenRequired := "Verification token is required"
  const TokenInvalid := "Invalid or expired verification token"
  const EmailVerified := "Email verified successfully."
  const BadCredentials := "Invalid email or password"
  const NotVerified := "Email not verified. Please verify your email before logging in."

  datatype LoginReply =
    | Denied(reply: Reply)
    | Granted(token: string, id: UserId, username: string, email: string)

  /** The record `createUser` saves. */
  function SignupRecord(id: UserId, username: string, email: string, password: string,
                        kdf: Kdf, saltEnv: Option<int>, salt: string, token: string, now: int): User
  {
    NewUser(id, username, email, HashPassword(kdf, saltEnv, password, salt), now).(
      verificationToken := Some(token),
      verificationTokenExpires := Some(now + VerificationLifetime))
  }

  /** The keys of the new record: the given id, the trimmed username and the normalised email. */
  lemma SignupKeys(id: UserId, username: string, email: string, password: string,
                   kdf: Kdf, saltEnv: Option<int>, salt: string, token: string, now: int)
    ensures var u := SignupRecord(id, username, email, password, kdf, saltEnv, salt, token, now);
      u.id == id && u.username == Trim(username) && u.email == NormalizeEmail(email)
  {
  }

  /**
   * A new account is unverified and offline, holds the verification token
   * with an expiry 24 hours after `now`, and stores the bcrypt hash of the
   * password made with the clamped cost, which the password itself matches.
   */
  lemma SignupRecordFields(id: UserId, username: string, email: string, password: string,
                           kdf: Kdf, saltEnv: Option<int>, salt: string, token: string, now: int)
    ensures var u := SignupRecord(id, username, email, password, kdf, saltEnv, salt, token, now);
      && u.id == id && !u.isVerified && !u.online
      && u.verificationToken == Some(token)
      && u.verificationTokenExpires == Some(now + VerificationLifetime)
      && u.password == Bcrypt(kdf, password, SaltRounds(saltEnv), salt)
      && 4 <= SaltRounds(saltEnv) <= 12
      && ComparePassword(kdf, password, u.password)
      && u.username == Trim(username) && u.email == NormalizeEmail(email)
      && NormalizeEmail(u.email) == u.email
  {
    NewUserDefaults(id, username, email, HashPassword(kdf, saltEnv, password, salt), now);
    CompareBcrypt(kdf, password, password, SaltRounds(saltEnv), salt);
  }

  /**
   * The schema's `minlength: 6` sees the stored hash, never the raw
   * password: with a non-empty bcrypt salt, whether signup passes validation
   * does not depend on the password at all.
   */
  lemma PasswordLengthUnchecked(id: UserId, username: string, email: string, password: string, other: string,
                                kdf: Kdf, saltEnv: Option<int>, salt: string, token: string, now: int)
    requires salt != []
    ensures SchemaValid(SignupRecord(id, username, email, password, kdf, saltEnv, salt, token, now))
        <==> SchemaValid(SignupRecord(id, username, email, other, kdf, saltEnv, salt, token, now))
  {
    BcryptLength(kdf, password, SaltRounds(saltEnv), salt);
    BcryptLength(kdf, other, SaltRounds(saltEnv), salt);
  }

  /** A live token for `now`: equal token, expiry strictly later. */
  predicate Verifiable(u: User, token: string, now: int) {
    u.verificationToken == Some(token) && u.verificationTokenExpires.Some? && u.verificationTokenExpires.value > now
  }

  /** `User.findOne({verificationToken: token, verificationTokenExpires: {$gt: now}})`. */
  function FindVerifiable(users: seq<User>, token: string, now: int): (r: Option<nat>)
    ensures r.Some? ==> r.value < |users| && Verifiable(users[r.value], token, now)
    ensures r.Some? ==> forall k :: 0 <= k < r.value ==> !Verifiable(users[k], token, now)
    ensures r.None? ==> forall k :: 0 <= k < |users| ==> !Verifiable(users[k], token, now)
  {
    FirstMatch(users, (u: User) => Verifiable(u, token, now))
  }

  /** What `verifyEmail` writes: verified, token and expiry cleared, `updatedAt` stamped. */
  function Consume(u: User, now: int): User {
    u.(isVerified := true, verificationToken := None, verificationTokenExpires := None, updatedAt := now)
  }

  /**
   * The verification token is single-use: the user it verified is never
   * matched again, by any token at any time, and when no other user holds the
   * same token a second verification with it fails.
   */
  lemma VerificationSingleUse(users: seq<User>, token: string, now: int, t: string, later: int)
    requires FindVerifiable(users, token, now).Some?
    ensures var i := FindVerifiable(users, token, now).value;
      var after := users[i := Consume(users[i], now)];
      && FindVerifiable(after, t, later) != Some(i)
      && ((forall k :: 0 <= k < |users| && k != i ==> users[k].verificationToken != Some(token))
          ==> FindVerifiable(after, token, later).None?)
  {
    var i := FindVerifiable(users, token, now).value;
    var after := users[i := Consume(users[i], now)];
    assert !Verifiable(after[i], t, later);
    if forall k :: 0 <= k < |users| && k != i ==> users[k].verificationToken != Some(token) {
      forall k | 0 <= k < |after|
        ensures !Verifiable(after[k], token, later)
      {
        if k != i {
          assert after[k] == users[k];
        }
      }
    }
  }

  /** Verifying an account changes none of its keys and keeps it schema-valid. */
  lemma ConsumeKeepsValid(users: seq<User>, i: nat, now: int)
    requires i < |users| && Unique(users) && forall k :: 0 <= k < |users| ==> SchemaValid(users[k])
    ensures var after := users[i := Consume(users[i], now)];
      Unique(after) && forall k :: 0 <= k < |after| ==> SchemaValid(after[k])
  {
    var after := users[i := Consume(users[i], now)];
    forall k | 0 <= k < |after|
      ensures after[k].id == users[k].id && after[k].username == users[k].username && after[k].email == users[k].email
      ensures SchemaValid(after[k])
    {
    }
  }

  /**
   * Appending a schema-valid record whose id, username and email are all new
   * keeps the table valid: the unique indexes hold and every record passed
   * the schema.
   */
  lemma SignupKeepsValid(users: seq<User>, rec: User)
    requires Unique(users) && forall k :: 0 <= k < |users| ==> SchemaValid(users[k])
    requires SchemaValid(rec)
    requires forall k :: 0 <= k < |users| ==> users[k].id != rec.id
    requires FindByEmail(users, rec.email).None? && !UsernameTaken(users, rec.username)
    ensures Unique(users + [rec]) && forall k :: 0 <= k < |users + [rec]| ==> SchemaValid((users + [rec])[k])
  {
    AppendKeepsUnique(users, rec);
    forall k | 0 <= k < |users + [rec]|
      ensures SchemaValid((users + [rec])[k])
    {
      if k < |users| {
        assert (users + [rec])[k] == users[k];
      }
    }
  }

  class AuthService {
    /** The `users` collection. */
    var users: seq<User>

    /** The unique indexes hold and every stored record passed the schema. */
    ghost predicate Valid()
      reads this
    {
      Unique(users) && forall k :: 0 <= k < |users| ==> SchemaValid(users[k])
    }

    /** The service over the stored collection, whose indexes and records the database already enforced. */
    constructor(stored: seq<User>)
      requires Unique(stored) && forall k :: 0 <= k < |stored| ==> SchemaValid(stored[k])
      ensures Valid() && users == stored
    {
      users := stored;
    }

    /**
     * `createUser`: 400 "User already exists" for a known email; otherwise the
     * record is validated by the schema and saved, the username index
     * refusing a taken username.  The verification email is sent without
     * being waited for, so it does not appear here.
     */
    method CreateUser(username: string, email: string, password: string,
                      kdf: Kdf, saltEnv: Option<int>, salt: string,
                      newId: UserId, verificationToken: string, now: int) returns (r: Reply)
      requires Valid()
      requires forall k :: 0 <= k < |users| ==> users[k].id != newId
      modifies this
      ensures Valid()
      ensures var rec := SignupRecord(newId, username, email, password, kdf, saltEnv, salt, verificationToken, now);
        if FindByEmail(old(users), NormalizeEmail(email)).Some? then
          r == Reply(400, Some(false), UserExists) && users == old(users)
        else if !SchemaValid(rec) then
          r == Reply(400, Some(false), ValidationFailed) && users == old(users)
        else if UsernameTaken(old(users), rec.username) then
          r == Reply(400, Some(false), DuplicateKey) && users == old(users)
        else
          r == Reply(201, Some(true), UserCreated) && users == old(users) + [rec]
    {
      var existing := FindByEmail(users, NormalizeEmail(email));
      if existing.Some? {
        return Reply(400, Some(false), UserExists);
      }
      var rec := SignupRecord(newId, username, email, password, kdf, saltEnv, salt, verificationToken, now);
      SignupKeys(newId, username, email, password, kdf, saltEnv, salt, verificationToken, now);
      if !SchemaValid(rec) {
        return Reply(400, Some(false), ValidationFailed);
      }
      if UsernameTaken(users, rec.username) {
        return Reply(400, Some(false), DuplicateKey);
      }
      SignupKeepsValid(users, rec);
      users := users + [rec];
      r := Reply(201, Some(true), UserCreated);
    }

    /**
     * `verifyEmail`: a missing or empty token is refused first; then the
     * first user holding the token with a later expiry is verified and its
     * token cleared.  Every refusal leaves the table as it was.
     */
    method VerifyEmail(query: Option<string>, now: int) returns (r: Reply)
      requires Valid()
      modifies this
      ensures Valid()
      ensures var token := if query.None? then "" else query.value;
        if token == "" then
          r == Reply(400, Some(false), TokenRequired) && users == old(users)
        else match FindVerifiable(old(users), token, now)
          case None => r == Reply(400, Some(false), TokenInvalid) && users == old(users)
          case Some(i) =>
            r == Reply(200, None, EmailVerified) && users == old(users)[i := Consume(old(users)[i], now)]
    {
      var token := if query.None? then "" else query.value;
      if token == "" {
        return Reply(400, Some(false), TokenRequired);
      }
      var found := FindVerifiable(users, token, now);
      if found.None? {
        return Reply(400, Some(false), TokenInvalid);
      }
      var i := found.value;
      ConsumeKeepsValid(users, i, now);
      users := users[i := Consume(users[i], now)];
      r := Reply(200, None, EmailVerified);
    }

    /**
     * `loginUser`: the checks run in the order unknown email, unverified
     * account, wrong password; the first and the last give the same reply.
     * Only a verified account with a matching password gets a token, which
     * carries its `{_id, email}` and is accepted for 24 hours.
     */
    method LoginUser(email: string, password: string, kdf: Kdf, key: Key, now: nat) returns (r: LoginReply)
      ensures var found := FindByEmail(users, NormalizeEmail(email));
        if found.None? then
          r == Denied(Reply(400, Some(false), BadCredentials))
        else
          var u := users[found.value];
          if !u.isVerified then
            r == Denied(Reply(400, Some(false), NotVerified))
          else if !ComparePassword(kdf, password, u.password) then
            r == Denied(Reply(400, Some(false), BadCredentials))
          else
            r == Granted(GenerateToken(key, Claims(u.id, u.email), now / 1000), u.id, u.username, u.email)
      ensures r.Granted? ==> exists k :: 0 <= k < |users| && users[k].id == r.id && users[k].isVerified
      ensures r.Granted? ==> forall t: nat :: t < now / 1000 + TokenLifetime ==>
        VerifyToken(key, r.token, t) == Verified(Claims(r.id, r.email))
    {
      var found := FindByEmail(users, NormalizeEmail(email));
      if found.None? {
        return Denied(Reply(400, Some(false), BadCredentials));
      }
      var u := users[found.value];
      if !u.isVerified {
        return Denied(Reply(400, Some(false), NotVerified));
      }
      if !ComparePassword(kdf, password, u.password) {
        return Denied(Reply(400, Some(false), BadCredentials));
      }
      var token := GenerateToken(key, Claims(u.id, u.email), now / 1000);
      forall t: nat | t < now / 1000 + TokenLifetime
        ensures VerifyToken(key, token, t) == Verified(Claims(u.id, u.email))
      {
        VerifyGenerated(key, Claims(u.id, u.email), now / 1000, t);
      }
      r := Granted(token, u.id, u.username, u.email);
    }
  }
}
