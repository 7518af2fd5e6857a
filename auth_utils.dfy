/**
 * utils/authUtils.ts: the salt-round clamp, password hashing and the JWT
 * sign / verify pair.
 *
 * bcrypt and jsonwebtoken are modelled abstractly.  The key derivation of
 * bcrypt (`Kdf`) and the keyed MAC of the JWT signature (`Key.mac`) are
 * parameters about which nothing is assumed; what is modelled is the layout
 * of the strings they produce and the checks `compare` and `verify` make.
 */
module AuthUtils {
  import opened Wrappers
  import opened Text
  import opened Codec

  // ---------------------------------------------------------------------
  // Salt rounds
  // ---------------------------------------------------------------------

  /**
   * `Number(process.env.SALT)` clamped to [4, 12]; `None` stands for a value
   * that is not finite (unset or not numeric, which `Number` maps to NaN).
   */
  function SaltRounds(salt: Option<int>): (rounds: nat)
    ensures 4 <= rounds <= 12
    ensures salt.None? ==> rounds == 10
    ensures salt.Some? && 4 <= salt.value <= 12 ==> rounds == salt.value
    ensures salt.Some? && salt.value < 4 ==> rounds == 4
    ensures salt.Some? && salt.value > 12 ==> rounds == 12
  {
    match salt
    case None => 10
    case Some(r) => var low := if r < 4 then 4 else r; if low > 12 then 12 else low
  }

  // ---------------------------------------------------------------------
  // Passwords (bcrypt)
  // ---------------------------------------------------------------------

  /** bcrypt's key derivation: password, salt and cost to a digest. */
  datatype Kdf = Kdf(digest: (string, string, nat) -> string)

  /** `bcrypt.hash`: the stored string carries the cost, the salt and the digest. */
  function Bcrypt(kdf: Kdf, password: string, rounds: nat, salt: string): string {
    Join([Numeral(rounds, 10), EncodeHex(salt), EncodeHex(kdf.digest(password, salt, rounds))], "$")
  }

  /**
   * `hashPassword`: bcrypt with the clamped cost taken from `SALT`.  The
   * password matches its own hash, and with a salt the hash is at least six
   * UTF-16 units long.
   */
  function HashPassword(kdf: Kdf, saltEnv: Option<int>, password: string, salt: string): (h: string)
    ensures ComparePassword(kdf, password, h)
    ensures salt != [] ==> Utf16Length(h) >= 6
  {
    CompareBcrypt(kdf, password, password, SaltRounds(saltEnv), salt);
    var h := Bcrypt(kdf, password, SaltRounds(saltEnv), salt);
    if salt == [] then h
    else
      BcryptLength(kdf, password, SaltRounds(saltEnv), salt);
      h
  }

  /** `bcrypt.compare` / `comparePassword`: re-derives the digest with the stored cost and salt. */
  function ComparePassword(kdf: Kdf, password: string, hash: string): bool {
    var parts := Split(hash, "$");
    |parts| == 3 &&
    match (FromDigits(parts[0], 10), DecodeHex(parts[1]))
    case (Some(rounds), Some(salt)) => parts[2] == EncodeHex(kdf.digest(password, salt, rounds))
    case _ => false
  }

  lemma NoSeparatorInHex(h: string, c: char)
    requires forall i :: 0 <= i < |h| ==> h[i] in HexDigits
    requires c !in HexDigits
    ensures c !in h
  {
  }

  /**
   * A stored hash accepts exactly the passwords whose digest under the same
   * salt and cost equals the original one; in particular it accepts the
   * password it was made from.
   */
  lemma CompareBcrypt(kdf: Kdf, attempt: string, password: string, rounds: nat, salt: string)
    ensures ComparePassword(kdf, attempt, Bcrypt(kdf, password, rounds, salt))
        <==> kdf.digest(attempt, salt, rounds) == kdf.digest(password, salt, rounds)
  {
    var pieces := [Numeral(rounds, 10), EncodeHex(salt), EncodeHex(kdf.digest(password, salt, rounds))];
    forall k | 0 <= k < 3
      ensures '$' !in pieces[k]
    {
      NoSeparatorInHex(pieces[k], '$');
    }
    SplitJoin(pieces, "$");
    NumeralRoundTrip(rounds, 10);
    HexRoundTrip(salt);
    if ComparePassword(kdf, attempt, Bcrypt(kdf, password, rounds, salt)) {
      HexInjective(kdf.digest(attempt, salt, rounds), kdf.digest(password, salt, rounds));
    }
  }

  /**
   * A bcrypt string with a non-empty salt is at least six UTF-16 units long,
   * so the schema's `minlength: 6` on the stored password always holds.
   */
  lemma BcryptLength(kdf: Kdf, password: string, rounds: nat, salt: string)
    requires salt != []
    ensures Utf16Length(Bcrypt(kdf, password, rounds, salt)) >= 6
  {
    var a, b, c := Numeral(rounds, 10), EncodeHex(salt), EncodeHex(kdf.digest(password, salt, rounds));
    assert [a, b, c][1..] == [b, c];
    assert [b, c][1..] == [c];
    assert Join([c], "$") == c;
    assert Join([b, c], "$") == b + "$" + c;
    assert Join([a, b, c], "$") == a + "$" + Join([b, c], "$");
  }

  // ---------------------------------------------------------------------
  // Tokens (jsonwebtoken)
  // ---------------------------------------------------------------------

  /** The claims every token of this system carries: `{_id, email}`. */
  datatype Claims = Claims(id: string, email: string)

  /** `JWT_SECRET` and the keyed MAC of the signing algorithm. */
  datatype Key = Key(secret: string, mac: (string, string) -> string)

  /** `expiresIn: "24h"`, in seconds. */
  const TokenLifetime := 24 * 60 * 60

  /** Why `jwt.verify` or the caller refuses a token. */
  datatype AuthError = Missing | Invalid | Expired

  datatype Verification = Verified(claims: Claims) | Refused(error: AuthError)

  /** The payload segments: id, email, issued-at and expiry (seconds). */
  function Payload(claims: Claims, issuedAt: nat): seq<string> {
    [EncodeHex(claims.id), EncodeHex(claims.email), Numeral(issuedAt, 10), Numeral(issuedAt + TokenLifetime, 10)]
  }

  function Signature(key: Key, payload: seq<string>): string {
    EncodeHex(key.mac(key.secret, Join(payload, ".")))
  }

  /** `generateToken(payload)`: signs the claims with a 24-hour expiry from `issuedAt`. */
  function GenerateToken(key: Key, claims: Claims, issuedAt: nat): string {
    Join(Payload(claims, issuedAt) + [Signature(key, Payload(claims, issuedAt))], ".")
  }

  /**
   * `verifyToken(token)`: `jwt.verify` with the same secret.  A malformed
   * token or a wrong signature is `Invalid`; a genuine token whose expiry is
   * not later than `now` (seconds) is `Expired`.
   */
  function VerifyToken(key: Key, token: string, now: nat): (r: Verification)
    ensures r.Refused? ==> r.error != Missing
  {
    var parts := Split(token, ".");
    if |parts| != 5 then Refused(Invalid)
    else if parts[4] != Signature(key, parts[..4]) then Refused(Invalid)
    else match (DecodeHex(parts[0]), DecodeHex(parts[1]), FromDigits(parts[3], 10))
      case (Some(id), Some(email), Some(expiry)) =>
        if now >= expiry then Refused(Expired) else Verified(Claims(id, email))
      case _ => Refused(Invalid)
  }

  /** The characters a token is made of: the hex digits and '.'. */
  predicate TokenAlphabet(s: string) {
    forall i :: 0 <= i < |s| ==> s[i] in HexDigits || s[i] == '.'
  }

  lemma AlphabetExcludes(s: string, c: char)
    requires TokenAlphabet(s)
    requires c !in HexDigits && c != '.'
    ensures c !in s
  {
  }

  lemma TokenPieces(key: Key, claims: Claims, issuedAt: nat)
    ensures Split(GenerateToken(key, claims, issuedAt), ".") ==
      Payload(claims, issuedAt) + [Signature(key, Payload(claims, issuedAt))]
  {
    var pieces := Payload(claims, issuedAt) + [Signature(key, Payload(claims, issuedAt))];
    forall k | 0 <= k < |pieces|
      ensures '.' !in pieces[k]
    {
      NoSeparatorInHex(pieces[k], '.');
    }
    SplitJoin(pieces, ".");
  }

  /**
   * Round trip: a generated token is accepted by the verifier with the same
   * key, yielding the claims it was made from, exactly while `now` is before
   * its expiry; afterwards it is refused as `Expired`.
   */
  lemma VerifyGenerated(key: Key, claims: Claims, issuedAt: nat, now: nat)
    ensures VerifyToken(key, GenerateToken(key, claims, issuedAt), now) ==
      if now < issuedAt + TokenLifetime then Verified(claims) else Refused(Expired)
  {
    var payload := Payload(claims, issuedAt);
    TokenPieces(key, claims, issuedAt);
    var parts := payload + [Signature(key, payload)];
    assert parts[..4] == payload;
    HexRoundTrip(claims.id);
    HexRoundTrip(claims.email);
    NumeralRoundTrip(issuedAt + TokenLifetime, 10);
  }

  /** A token made with one key passes another key's check only if the two MACs agree on its payload. */
  lemma ForeignKeyRefused(signer: Key, checker: Key, claims: Claims, issuedAt: nat, now: nat)
    requires VerifyToken(checker, GenerateToken(signer, claims, issuedAt), now).Verified?
    ensures signer.mac(signer.secret, Join(Payload(claims, issuedAt), "."))
         == checker.mac(checker.secret, Join(Payload(claims, issuedAt), "."))
  {
    var payload := Payload(claims, issuedAt);
    TokenPieces(signer, claims, issuedAt);
    var parts := payload + [Signature(signer, payload)];
    assert parts[..4] == payload;
    HexInjective(signer.mac(signer.secret, Join(payload, ".")), checker.mac(checker.secret, Join(payload, ".")));
  }

  /**
   * A character outside the token alphabet (such as '=', ';' or ' ') never
   * occurs in an issued token, so it survives a cookie or an Authorization
   * header unchanged.
   */
  lemma GeneratedExcludes(key: Key, claims: Claims, issuedAt: nat, c: char)
    requires c !in HexDigits && c != '.'
    ensures c !in GenerateToken(key, claims, issuedAt)
    ensures GenerateToken(key, claims, issuedAt) != []
  {
    GeneratedAlphabet(key, claims, issuedAt);
    AlphabetExcludes(GenerateToken(key, claims, issuedAt), c);
  }

  /** Issued tokens are non-empty and made of hex digits and '.' only. */
  lemma GeneratedAlphabet(key: Key, claims: Claims, issuedAt: nat)
    ensures TokenAlphabet(GenerateToken(key, claims, issuedAt))
    ensures GenerateToken(key, claims, issuedAt) != []
  {
    var pieces := Payload(claims, issuedAt) + [Signature(key, Payload(claims, issuedAt))];
    var allowed := set c | c in HexDigits + ".";
    JoinChars(pieces, ".", allowed);
    var t := GenerateToken(key, claims, issuedAt);
    assert Join(pieces, ".") == pieces[0] + "." + Join(pieces[1..], ".");
  }
}
