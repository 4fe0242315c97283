/** `/api/auth/register` and `/api/auth/login`: ordered validation guards on
    the request body, and the JWT each success hands back. Signing with
    HMAC is not computed; a token is its claims set (RFC 7519, section 4). */
module AuthRoutes {
  import opened Common
  import opened Users

  const FALLBACK_JWT_SECRET := "fallback-jwt-secret"

  /** `process.env.JWT_SECRET || 'fallback-jwt-secret'`. */
  function JwtSecret(env: Option<string>): (secret: string)
    ensures secret != []
    ensures Truthy(env) ==> secret == env.value
    ensures !Truthy(env) ==> secret == FALLBACK_JWT_SECRET
  {
    if Truthy(env) then env.value else FALLBACK_JWT_SECRET
  }

  /** `expiresIn: '7d'`, in the seconds of a NumericDate. */
  const TOKEN_LIFETIME_SECONDS: int := 7 * 24 * 60 * 60

  /** The claims of a signed token: the payload `{ userId }`, the issue time
      `iat` and the expiry `exp` (sections 4.1.6 and 4.1.4 of RFC 7519). */
  datatype Claims = Claims(userId: UserId, iat: int, exp: int)

  /** `generateToken(userId)` at `Date.now()` = `nowMs`: `iat` is the current
      time in whole seconds and `exp` lies seven days later. */
  function GenerateToken(userId: UserId, nowMs: int): (t: Claims)
    ensures t.userId == userId
    ensures t.iat * 1000 <= nowMs < t.iat * 1000 + 1000
    ensures t.exp - t.iat == TOKEN_LIFETIME_SECONDS
  {
    var iat := nowMs / 1000;
    Claims(userId, iat, iat + TOKEN_LIFETIME_SECONDS)
  }

  /** Section 4.1.4 of RFC 7519: the token must not be accepted once the
      current time, in whole seconds, has reached `exp`. */
  predicate Expired(t: Claims, nowMs: int)
  {
    nowMs / 1000 >= t.exp
  }

  /** A token is accepted for the seven days after its issue, up to the
      second it was issued in, and refused from seven full days on. */
  lemma TokenLifetime(userId: UserId, issuedMs: int, nowMs: int)
    ensures nowMs <= issuedMs + (TOKEN_LIFETIME_SECONDS - 1) * 1000 ==> !Expired(GenerateToken(userId, issuedMs), nowMs)
    ensures nowMs >= issuedMs + TOKEN_LIFETIME_SECONDS * 1000 ==> Expired(GenerateToken(userId, issuedMs), nowMs)
  {
    var t := GenerateToken(userId, issuedMs);
    assert (issuedMs + (TOKEN_LIFETIME_SECONDS - 1) * 1000) / 1000 == t.iat + TOKEN_LIFETIME_SECONDS - 1;
    assert (issuedMs + TOKEN_LIFETIME_SECONDS * 1000) / 1000 == t.iat + TOKEN_LIFETIME_SECONDS;
  }

  /** The body of a successful register or login reply. */
  datatype AuthReply = AuthReply(token: Claims, user: PublicUser)

  const MISSING_REGISTER_FIELDS := "Please provide all required fields"
  const PASSWORD_TOO_SHORT := "Password must be at least 6 characters"
  const USER_EXISTS := "User already exists"
  const MISSING_LOGIN_FIELDS := "Please provide email and password"
  const INVALID_CREDENTIALS := "Invalid credentials"
  const MIN_PASSWORD_LENGTH: nat := 6

  /** The register guards that look only at the body, first failure first:
      a missing field, then a password shorter than six characters. */
  function RegisterInputError(name: Option<string>, email: Option<string>, password: Option<string>)
    : (e: Option<string>)
    ensures e == Some(MISSING_REGISTER_FIELDS) <==> !Truthy(name) || !Truthy(email) || !Truthy(password)
    ensures e == Some(PASSWORD_TOO_SHORT) <==>
      Truthy(name) && Truthy(email) && Truthy(password) && |password.value| < MIN_PASSWORD_LENGTH
    ensures e.None? <==>
      Truthy(name) && Truthy(email) && Truthy(password) && |password.value| >= MIN_PASSWORD_LENGTH
  {
    if !Truthy(name) || !Truthy(email) || !Truthy(password) then Some(MISSING_REGISTER_FIELDS)
    else if |password.value| < MIN_PASSWORD_LENGTH then Some(PASSWORD_TOO_SHORT)
    else None
  }

  /** The login guard on the body: both fields present and non-empty. */
  function LoginInputError(email: Option<string>, password: Option<string>): (e: Option<string>)
    ensures e.Some? <==> !Truthy(email) || !Truthy(password)
    ensures e.Some? ==> e.value == MISSING_LOGIN_FIELDS
  {
    if !Truthy(email) || !Truthy(password) then Some(MISSING_LOGIN_FIELDS) else None
  }
}
