/**
 * middleware/authMiddleware.ts: the bearer-token gate in front of the HTTP
 * routes.  It reads the Authorization header, verifies the token and either
 * answers 401 or records the caller on the request and passes it on.
 */
module AuthMiddleware {
  import opened Wrappers
  import opened Text
  import opened AuthUtils
  import opened Codec

  const NoTokenError := "No token provided"
  const BadTokenError := "Invalid token or token expired"

  /**
   * `req.headers.authorization?.split(" ")[1]`, with `None` for a missing or
   * empty second piece (both falsy).  The first word is not checked.
   */
  function BearerToken(header: Option<string>): (token: Option<string>)
    ensures token.Some? <==>
      header.Some? && |Split(header.value, " ")| >= 2 && Split(header.value, " ")[1] != []
    ensures token.Some? ==> token.value == Split(header.value, " ")[1]
  {
    if header.None? then None
    else
      var pieces := Split(header.value, " ");
      if |pieces| >= 2 && pieces[1] != [] then Some(pieces[1]) else None
  }

  datatype Decision = Reject(status: nat, error: string) | Pass(user: Claims)

  /** The decision the middleware takes for a header at time `now` (seconds). */
  function Authenticate(header: Option<string>, key: Key, now: nat): (d: Decision)
    ensures BearerToken(header).None? ==> d == Reject(401, NoTokenError)
    ensures BearerToken(header).Some? && VerifyToken(key, BearerToken(header).value, now).Refused?
      ==> d == Reject(401, BadTokenError)
    ensures d.Pass? <==> BearerToken(header).Some? && VerifyToken(key, BearerToken(header).value, now).Verified?
    ensures d.Pass? ==> d.user == VerifyToken(key, BearerToken(header).value, now).claims
  {
    match BearerToken(header)
    case None => Reject(401, NoTokenError)
    case Some(token) =>
      match VerifyToken(key, token, now)
      case Refused(_) => Reject(401, BadTokenError)
      case Verified(claims) => Pass(claims)
  }

  /** The header "<scheme> <token>" yields the token when neither word holds a space. */
  lemma HeaderCarriesToken(scheme: string, token: string)
    requires ' ' !in scheme && ' ' !in token && token != []
    ensures BearerToken(Some(scheme + " " + token)) == Some(token)
  {
    CharFree(token, ' ');
    SplitFree(token, " ");
    SplitCons(scheme, ' ', token);
    assert scheme + " " + token == scheme + [' '] + token;
  }

  /** The space is not a hex digit. */
  lemma SpaceNotHex()
    ensures ' ' !in HexDigits
  {
  }

  /**
   * A token issued at login and sent as "<scheme> <token>" passes the gate
   * with the claims it was issued for until it expires, whatever the scheme
   * word is.
   */
  lemma IssuedTokenPasses(scheme: string, key: Key, claims: Claims, issuedAt: nat, now: nat)
    requires ' ' !in scheme
    ensures var d := Authenticate(Some(scheme + " " + GenerateToken(key, claims, issuedAt)), key, now);
      if now < issuedAt + TokenLifetime then d == Pass(claims) else d == Reject(401, BadTokenError)
  {
    var token := GenerateToken(key, claims, issuedAt);
    SpaceNotHex();
    GeneratedExcludes(key, claims, issuedAt, ' ');
    HeaderCarriesToken(scheme, token);
    VerifyGenerated(key, claims, issuedAt, now);
  }

  /** The request as far as the middleware touches it. */
  class Request {
    const authorization: Option<string>
    var user: Option<Claims>
    var nextCalls: nat
    var response: Option<(nat, string)>

    constructor(authorization: Option<string>)
      ensures this.authorization == authorization
      ensures user.None? && nextCalls == 0 && response.None?
    {
      this.authorization := authorization;
      user := None;
      nextCalls := 0;
      response := None;
    }

    /**
     * `verifyToken(req, res, next)`: on success sets `req.user` and calls
     * `next` once; otherwise sends the 401 reply, leaves `req.user` alone and
     * does not call `next`.
     */
    method VerifyToken(key: Key, now: nat)
      modifies this
      ensures var d := Authenticate(authorization, key, now);
        if d.Pass? then
          user == Some(d.user) && nextCalls == old(nextCalls) + 1 && response == old(response)
        else
          user == old(user) && nextCalls == old(nextCalls) && response == Some((d.status, d.error))
    {
      var d := Authenticate(authorization, key, now);
      if d.Reject? {
        response := Some((d.status, d.error));
        return;
      }
      user := Some(d.user);
      nextCalls := nextCalls + 1;
    }
  }
}
