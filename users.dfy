/**
 * model/Users.ts: the user record, the schema's setters (trim, lowercase),
 * validators (required, minlength, maxlength, the email pattern), defaults
 * and unique indexes, and the queries the services issue against the table.
 * The table is a sequence of records in insertion order; the model fixes
 * that as the order an unsorted query scans them in, which MongoDB itself
 * does not guarantee.
 */
module Users {
  import opened Wrappers
  import opened Text
  import opened Search

  type UserId = string

  datatype User = User(
    id: UserId,
    username: string,
    email: string,
    password: string,
    isVerified: bool,
    verificationToken: Option<string>,
    verificationTokenExpires: Option<int>,
    online: bool,
    resetPasswordToken: Option<string>,
    resetPasswordExpires: Option<int>,
    createdAt: int,
    updatedAt: int)

  const UsernameMinLength := 3
  const UsernameMaxLength := 30
  const PasswordMinLength := 6

  /**
   * The email setters: `trim` then `lowercase`.  A stored email holds no
   * ASCII capital and neither starts nor ends with white space.
   */
  function NormalizeEmail(email: string): (r: string)
    ensures |r| <= |email|
    ensures forall i :: 0 <= i < |r| ==> !('A' <= r[i] <= 'Z')
    ensures r == [] || (!IsSpace(r[0]) && !IsSpace(r[|r| - 1]))
  {
    LowerEnds(Trim(email));
    ToLower(Trim(email))
  }

  lemma LowerOfLower(s: string)
    ensures ToLower(ToLower(s)) == ToLower(s)
  {
  }

  /** A stored email is a fixed point of its setters. */
  lemma NormalizeIdempotent(email: string)
    ensures NormalizeEmail(NormalizeEmail(email)) == NormalizeEmail(email)
  {
    var t := Trim(email);
    var l := ToLower(t);
    if t != [] {
      assert TrimStart(email) != [];
      assert t[0] == TrimStart(email)[0];
      LowerKeepsSpace(t[0]);
      LowerKeepsSpace(t[|t| - 1]);
      assert TrimStart(l) == l;
      assert TrimEnd(l) == l;
    }
    LowerOfLower(t);
  }

  /** The regular expression `^\S+@\S+\.\S+$` read as a property of the string. */
  ghost predicate EmailShape(s: string) {
    NoSpace(s) &&
    exists i, j :: 1 <= i && i + 2 <= j && j + 2 <= |s| && s[i] == '@' && s[j] == '.'
  }

  /** Index of the last `c` in `s`. */
  function LastIndexOf(s: string, c: char): (r: Option<nat>)
    ensures r.Some? ==> r.value < |s| && s[r.value] == c && forall k :: r.value < k < |s| ==> s[k] != c
    ensures r.None? ==> forall k :: 0 <= k < |s| ==> s[k] != c
  {
    if s == [] then None
    else if s[|s| - 1] == c then Some(|s| - 1)
    else LastIndexOf(s[..|s| - 1], c)
  }

  /**
   * The match decision of the email pattern: no white space, and an '@' after
   * the first character and at least two places before the last '.' that
   * still has a character after it.
   */
  function MatchesEmail(s: string): (b: bool)
    ensures b ==> NoSpace(s) && '@' in s && '.' in s
  {
    NoSpace(s) && |s| >= 2 &&
    match LastIndexOf(s[..|s| - 1], '.')
    case None => false
    case Some(j) => j >= 2 && '@' in s[1..j - 1]
  }

  lemma MatchesEmailIsShape(s: string)
    ensures MatchesEmail(s) <==> EmailShape(s)
  {
    if MatchesEmail(s) {
      var j := LastIndexOf(s[..|s| - 1], '.').value;
      var k :| 0 <= k < |s[1..j - 1]| && s[1..j - 1][k] == '@';
      assert s[k + 1] == '@' && s[j] == '.';
    }
    if EmailShape(s) {
      var i, j0 :| 1 <= i && i + 2 <= j0 && j0 + 2 <= |s| && s[i] == '@' && s[j0] == '.';
      assert s[..|s| - 1][j0] == '.';
      var j := LastIndexOf(s[..|s| - 1], '.').value;
      assert s[1..j - 1][i - 1] == '@';
    }
  }

  /**
   * The schema's validators on a record whose setters have run.
   */
  predicate SchemaValid(u: User) {
    && u.username != [] && UsernameMinLength <= Utf16Length(u.username) <= UsernameMaxLength
    && u.email != [] && MatchesEmail(u.email)
    && u.password != [] && Utf16Length(u.password) >= PasswordMinLength
  }

  /**
   * The length limits count UTF-16 units, so in characters a valid username
   * holds 2 to 30 and a valid password at least 3; a valid email holds an '@'.
   */
  lemma ValidLengths(u: User)
    requires SchemaValid(u)
    ensures 2 <= |u.username| <= UsernameMaxLength && |u.password| >= 3 && '@' in u.email
  {
  }

  /** `new User({...})`: setters on username and email, defaults for the rest. */
  function NewUser(id: UserId, username: string, email: string, password: string, now: int): User {
    User(id, Trim(username), NormalizeEmail(email), password,
         false, None, None, false, None, None, now, now)
  }

  /**
   * A constructed record is unverified, offline and holds no token, and its
   * username and email are already in stored form (the setters change them
   * no further).
   */
  lemma NewUserDefaults(id: UserId, username: string, email: string, password: string, now: int)
    ensures var u := NewUser(id, username, email, password, now);
      && !u.isVerified && !u.online
      && u.verificationToken.None? && u.verificationTokenExpires.None?
      && u.resetPasswordToken.None? && u.resetPasswordExpires.None?
      && Trim(u.username) == u.username
      && NormalizeEmail(u.email) == u.email
      && u.password == password
  {
    TrimIdempotent(username);
    NormalizeIdempotent(email);
  }

  /** The unique indexes on `_id`, `username` and `email`. */
  predicate Unique(users: seq<User>) {
    forall i, j :: 0 <= i < j < |users| ==>
      users[i].id != users[j].id && users[i].username != users[j].username && users[i].email != users[j].email
  }

  /** `User.findOne({email})`: the first record with that email. */
  function FindByEmail(users: seq<User>, email: string): (r: Option<nat>)
    ensures r.Some? ==> r.value < |users| && users[r.value].email == email
    ensures r.Some? ==> forall k :: 0 <= k < r.value ==> users[k].email != email
    ensures r.None? ==> forall k :: 0 <= k < |users| ==> users[k].email != email
  {
    FirstMatch(users, (u: User) => u.email == email)
  }

  /** `User.findById(id)`: the record with that id. */
  function FindById(users: seq<User>, id: UserId): (r: Option<nat>)
    ensures r.Some? ==> r.value < |users| && users[r.value].id == id
    ensures r.Some? ==> forall k :: 0 <= k < r.value ==> users[k].id != id
    ensures r.None? ==> forall k :: 0 <= k < |users| ==> users[k].id != id
  {
    FirstMatch(users, (u: User) => u.id == id)
  }

  predicate UsernameTaken(users: seq<User>, username: string) {
    exists k :: 0 <= k < |users| && users[k].username == username
  }

  /** Appending a record whose keys are new keeps every index unique. */
  lemma AppendKeepsUnique(users: seq<User>, u: User)
    requires Unique(users)
    requires forall k :: 0 <= k < |users| ==> users[k].id != u.id && users[k].username != u.username && users[k].email != u.email
    ensures Unique(users + [u])
  {
  }
}
