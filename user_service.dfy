/**
 * services/userService.ts: the caller's own profile and the list of the
 * other users, both projected without the password and the verification
 * token fields.
 */
module UserService {
  import opened Wrappers
  import opened Users

  /**
   * `.select("-password -verificationToken -verificationTokenExpires")`:
   * the fields a response may carry.  The excluded fields have no place in
   * this type.
   */
  datatype PublicUser = PublicUser(
    id: UserId,
    username: string,
    email: string,
    isVerified: bool,
    online: bool,
    resetPasswordToken: Option<string>,
    resetPasswordExpires: Option<int>,
    createdAt: int,
    updatedAt: int)

  function Project(u: User): (p: PublicUser)
    ensures p.id == u.id && p.username == u.username && p.email == u.email
    ensures p.isVerified == u.isVerified && p.online == u.online
  {
    PublicUser(u.id, u.username, u.email, u.isVerified, u.online,
               u.resetPasswordToken, u.resetPasswordExpires, u.createdAt, u.updatedAt)
  }

  datatype ProfileReply = Profile(user: PublicUser) | NotFound

  /**
   * `getUserById`: looks up the id of the authenticated caller (not a path
   * parameter); 404 "User not found" when there is no such user or no
   * caller.
   */
  function GetUserById(users: seq<User>, caller: Option<UserId>): (r: ProfileReply)
    ensures r.NotFound? <==> caller.None? || forall k :: 0 <= k < |users| ==> users[k].id != caller.value
    ensures r.Profile? ==> exists k :: 0 <= k < |users| && users[k].id == caller.value && r.user == Project(users[k])
  {
    if caller.None? then NotFound
    else match FindById(users, caller.value)
      case None => NotFound
      case Some(k) => Profile(Project(users[k]))
  }

  /** The filter `{_id: {$ne: currentUserId}}`; without a caller it keeps everyone. */
  predicate Listed(u: User, caller: Option<UserId>) {
    caller.None? || u.id != caller.value
  }

  /**
   * `getAllUsers`: the projection of every user other than the caller, in
   * table order.
   */
  function GetAllUsers(users: seq<User>, caller: Option<UserId>): (r: seq<PublicUser>)
    ensures forall p :: p in r ==> exists u :: u in users && Listed(u, caller) && p == Project(u)
    ensures forall u :: u in users && Listed(u, caller) ==> Project(u) in r
    ensures caller.Some? ==> forall p :: p in r ==> p.id != caller.value
  {
    if users == [] then []
    else (if Listed(users[0], caller) then [Project(users[0])] else []) + GetAllUsers(users[1..], caller)
  }
}
