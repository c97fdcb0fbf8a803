/**
 * infrastructure/utils/jwt.go: the claims `GenerateToken` puts in a token (RFC 7519: `sub` in
 * section 4.1.2, `exp` in section 4.1.4, `iat` in section 4.1.6) and the checks `ValidateToken`
 * makes. Encoding, HS256 signing (RFC 7518 section 3.2) and signature checking belong to the
 * token library and are left abstract in `JwtLib`.
 */
module Jwt {
  import opened Wrappers
  import opened Errors
  import opened Entities
  import opened Strconv
  import opened Config

  const NanosPerSecond := 1_000_000_000
  const NanosPerHour := 3_600_000_000_000
  const TwoTo64 := 0x1_0000_0000_0000_0000

  /** Go's 64-bit signed arithmetic: the value wrapped into [MinInt64, MaxInt64]. */
  function WrapInt64(x: int): (w: int)
    ensures MinInt64 <= w <= MaxInt64
    ensures MinInt64 <= x <= MaxInt64 ==> w == x
    ensures (w - x) % TwoTo64 == 0
  {
    (x - MinInt64) % TwoTo64 + MinInt64
  }

  /** The largest number of hours whose nanoseconds fit 64 bits. */
  const MaxLifetimeHours := MaxInt64 / NanosPerHour

  /**
   * `time.Duration(hours) * time.Hour`: nanoseconds, in 64-bit arithmetic that wraps silently.
   * Up to `MaxLifetimeHours` either way it is exactly that many hours.
   */
  function Lifetime(hours: int): (d: int)
    ensures MinInt64 <= d <= MaxInt64
    ensures (d - hours * NanosPerHour) % TwoTo64 == 0
    ensures -MaxLifetimeHours <= hours <= MaxLifetimeHours ==> d == hours * NanosPerHour
  {
    WrapInt64(hours * NanosPerHour)
  }

  /** One hour more than fits wraps to a negative lifetime: such a token expires before it is issued. */
  lemma LifetimeWraps()
    ensures Lifetime(MaxLifetimeHours + 1) < 0
  {
  }

  /** `jwt.NewNumericDate(t)`: the instant truncated to whole seconds, as seconds since the epoch. */
  function NumericDate(t: Time): (seconds: int)
    ensures seconds * NanosPerSecond <= t < (seconds + 1) * NanosPerSecond
  {
    t / NanosPerSecond
  }

  /** `JWTClaims`: the user's ID and email beside the registered claims. */
  datatype Claims = Claims(
    userId: nat,
    email: string,
    expiresAt: Option<int>,
    issuedAt: Option<int>,
    notBefore: Option<int>,
    subject: string)

  function Secret(env: Env): string {
    OsGetenv(env, "JWT_SECRET")
  }

  function ExpirationHours(env: Env): int {
    GetEnvAsInt(env, "JWT_EXPIRATION_HOURS", 24)
  }

  /**
   * The claims of a token for `user`. `expiryClock` is the clock reading the expiry is computed
   * from and `issuedClock` the later, separate reading used for `iat`.
   */
  function TokenClaims(user: User, env: Env, expiryClock: Time, issuedClock: Time): (c: Claims)
    ensures c.userId == user.id && c.email == user.email
    ensures |c.subject| >= 1 && AllDigits(c.subject) && DigitsValue(c.subject) == user.id
    ensures c.subject[0] == '0' <==> user.id == 0
    ensures c.expiresAt == Some(NumericDate(expiryClock + Lifetime(ExpirationHours(env))))
    ensures c.issuedAt == Some(NumericDate(issuedClock)) && c.notBefore == None
  {
    FormatUintValue(user.id);
    var expirationTime := expiryClock + Lifetime(ExpirationHours(env));
    Claims(user.id, user.email, Some(NumericDate(expirationTime)), Some(NumericDate(issuedClock)), None, FormatUint(user.id))
  }

  lemma DivAddMultiple(a: int, k: int)
    ensures (a + k * NanosPerSecond) / NanosPerSecond == a / NanosPerSecond + k
  {
    var q, r := a / NanosPerSecond, a % NanosPerSecond;
    assert a + k * NanosPerSecond == (q + k) * NanosPerSecond + r;
  }

  /**
   * When the two clock readings are in order and less than a second apart, and the lifetime fits
   * 64 bits (negative ones included), `exp` lies the configured number of hours after `iat`, one
   * second less exactly when the two readings straddle a second boundary.
   */
  lemma ExpiryWindow(hours: int, expiryClock: Time, issuedClock: Time)
    requires -MaxLifetimeHours <= hours <= MaxLifetimeHours
    requires expiryClock <= issuedClock < expiryClock + NanosPerSecond
    ensures var span := NumericDate(expiryClock + Lifetime(hours)) - NumericDate(issuedClock);
      && (span == hours * 3600 || span == hours * 3600 - 1)
      && (span == hours * 3600 - 1 <==> NumericDate(issuedClock) > NumericDate(expiryClock))
  {
    assert hours * NanosPerHour == (hours * 3600) * NanosPerSecond;
    DivAddMultiple(expiryClock, hours * 3600);
    DivAddMultiple(expiryClock, 1);
  }

  /** What the token library decodes from a compact token: the header's `alg` and the claims. */
  datatype Decoded = Decoded(alg: string, claims: Claims)

  /**
   * The token library: `sign(alg, claims, key)` encodes and signs (`SignedString`), `decode`
   * splits and decodes without checking anything, `verify(token, alg, key)` checks the signature.
   */
  datatype JwtLib = JwtLib(
    sign: (string, Claims, string) -> Result<string, Error>,
    decode: string -> Option<Decoded>,
    verify: (string, string, string) -> bool)

  /** What the library promises: a token it signed decodes to what was signed and verifies under the same key. */
  ghost predicate Consistent(lib: JwtLib) {
    forall alg, c, key :: lib.sign(alg, c, key).Success? ==>
      lib.decode(lib.sign(alg, c, key).value) == Some(Decoded(alg, c))
      && lib.verify(lib.sign(alg, c, key).value, alg, key)
  }

  /** The environment, the two clock readings and the library a call to `GenerateToken` depends on. */
  datatype TokenContext = TokenContext(env: Env, expiryClock: Time, issuedClock: Time, lib: JwtLib)

  /**
   * `GenerateToken`: the claims for `user`, signed with HS256 under `JWT_SECRET`. With a
   * library that keeps its promise, the token decodes to exactly those claims under `HS256`
   * and its signature checks out under the secret.
   */
  function GenerateToken(user: User, ctx: TokenContext): (r: Result<string, Error>)
    ensures r.Success? <==> ctx.lib.sign("HS256", TokenClaims(user, ctx.env, ctx.expiryClock, ctx.issuedClock), Secret(ctx.env)).Success?
    ensures r.Failure? ==> r == ctx.lib.sign("HS256", TokenClaims(user, ctx.env, ctx.expiryClock, ctx.issuedClock), Secret(ctx.env))
    ensures Consistent(ctx.lib) && r.Success? ==>
      && ctx.lib.decode(r.value) == Some(Decoded("HS256", TokenClaims(user, ctx.env, ctx.expiryClock, ctx.issuedClock)))
      && ctx.lib.verify(r.value, "HS256", Secret(ctx.env))
  {
    ctx.lib.sign("HS256", TokenClaims(user, ctx.env, ctx.expiryClock, ctx.issuedClock), Secret(ctx.env))
  }

  /** The `alg` values of the library's HMAC signing method. */
  predicate IsHMAC(alg: string) {
    alg == "HS256" || alg == "HS384" || alg == "HS512"
  }

  /** The source's key callback: the secret for any HMAC algorithm, an error for any other. */
  function KeyFunc(alg: string, secret: string): (r: Result<string, Error>)
    ensures r.Success? <==> IsHMAC(alg)
    ensures r.Success? ==> r.value == secret
  {
    if IsHMAC(alg) then Success(secret) else Failure(Other("unexpected signing method: " + alg))
  }

  /** The library's default time checks: `exp`, when present, is still ahead; `nbf`, when present, has passed. */
  predicate TimeValid(c: Claims, now: Time) {
    && (c.expiresAt.Some? ==> now < c.expiresAt.value * NanosPerSecond)
    && (c.notBefore.Some? ==> now >= c.notBefore.value * NanosPerSecond)
  }

  const ErrTokenMalformed := Other("token is malformed")
  const ErrTokenSignatureInvalid := Other("token signature is invalid")
  const ErrTokenInvalidClaims := Other("token has invalid claims")

  /** A parsed token and the library's verdict on it. */
  datatype Token = Token(alg: string, claims: Claims, valid: bool)

  /** `jwt.ParseWithClaims`: decode, ask the key callback, check the signature, check the time claims. */
  function ParseWithClaims(tokenString: string, secret: string, now: Time, lib: JwtLib): Result<Token, Error> {
    match lib.decode(tokenString)
    case None => Failure(ErrTokenMalformed)
    case Some(d) =>
      match KeyFunc(d.alg, secret)
      case Failure(e) => Failure(Wrapped("token is unverifiable: error while executing keyfunc", e))
      case Success(key) =>
        if !lib.verify(tokenString, d.alg, key) then Failure(ErrTokenSignatureInvalid)
        else if !TimeValid(d.claims, now) then Failure(ErrTokenInvalidClaims)
        else Success(Token(d.alg, d.claims, true))
  }

  /**
   * `ValidateToken`: claims only for a token that decodes, names an HMAC algorithm, carries a
   * signature valid under `JWT_SECRET` and is within its time claims.
   */
  function ValidateToken(tokenString: string, env: Env, now: Time, lib: JwtLib): (r: Result<Claims, Error>)
    ensures r.Success? ==>
      && lib.decode(tokenString).Some?
      && IsHMAC(lib.decode(tokenString).value.alg)
      && lib.verify(tokenString, lib.decode(tokenString).value.alg, Secret(env))
      && r.value == lib.decode(tokenString).value.claims
      && TimeValid(r.value, now)
    ensures lib.decode(tokenString).None? ==> r.Failure?
    ensures lib.decode(tokenString).Some? && !IsHMAC(lib.decode(tokenString).value.alg) ==> r.Failure?
    ensures
      && lib.decode(tokenString).Some?
      && IsHMAC(lib.decode(tokenString).value.alg)
      && lib.verify(tokenString, lib.decode(tokenString).value.alg, Secret(env))
      && TimeValid(lib.decode(tokenString).value.claims, now)
      ==> r == Success(lib.decode(tokenString).value.claims)
  {
    match ParseWithClaims(tokenString, Secret(env), now, lib)
    case Failure(err) => Failure(err)
    case Success(token) =>
      if token.valid then Success(token.claims) else Failure(Other("invalid token"))
  }

  /** The instant, in nanoseconds, from which a token issued in `ctx` is expired. */
  function ExpiryInstant(ctx: TokenContext): int {
    NumericDate(ctx.expiryClock + Lifetime(ExpirationHours(ctx.env))) * NanosPerSecond
  }

  /** A token just issued validates, under the same environment, to the claims of the user it was issued for. */
  lemma IssueThenValidate(user: User, ctx: TokenContext, now: Time)
    requires Consistent(ctx.lib)
    requires GenerateToken(user, ctx).Success?
    requires now < ExpiryInstant(ctx)
    ensures var r := ValidateToken(GenerateToken(user, ctx).value, ctx.env, now, ctx.lib);
      && r == Success(TokenClaims(user, ctx.env, ctx.expiryClock, ctx.issuedClock))
      && r.value.userId == user.id && r.value.email == user.email
      && DigitsValue(r.value.subject) == user.id
  {
    var c := TokenClaims(user, ctx.env, ctx.expiryClock, ctx.issuedClock);
    assert ctx.lib.sign("HS256", c, Secret(ctx.env)).Success?;
  }

  /** Once its expiry instant is reached, the same token is refused. */
  lemma ExpiredTokenRejected(user: User, ctx: TokenContext, now: Time)
    requires Consistent(ctx.lib)
    requires GenerateToken(user, ctx).Success?
    requires now >= ExpiryInstant(ctx)
    ensures ValidateToken(GenerateToken(user, ctx).value, ctx.env, now, ctx.lib).Failure?
  {
    var c := TokenClaims(user, ctx.env, ctx.expiryClock, ctx.issuedClock);
    assert ctx.lib.sign("HS256", c, Secret(ctx.env)).Success?;
  }
}
