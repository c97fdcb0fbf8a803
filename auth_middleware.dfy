/**
 * api/middlewares/auth_middleware.go: the gate in front of the protected routes. The decision
 * (header present, `Bearer <token>` shape, token valid) is a function; applying it to the
 * request context (abort with a JSON error, or store the caller's identity and continue) is a
 * method on `GinContext`.
 */
module AuthMiddleware {
  import opened Wrappers
  import opened Errors
  import opened Entities
  import opened Config
  import opened Strings
  import opened Jwt

  const MsgHeaderRequired := "Authorization header is required"
  const MsgBearerRequired := "Authorization header must be Bearer token"
  const MsgInvalidToken := "Invalid or expired JWT token"

  /**
   * The token of a header that splits on single spaces into exactly `Bearer` and one more piece:
   * what it returns is what follows `Bearer `, and holds no space.
   */
  function BearerToken(header: string): (token: Option<string>)
    ensures token.Some? ==> header == "Bearer " + token.value && ' ' !in token.value
  {
    var parts := Split(header, ' ');
    if |parts| != 2 || parts[0] != "Bearer" then None
    else
      JoinSplit(header, ' ');
      assert parts[1..] == [parts[1]];
      Some(parts[1])
  }

  /**
   * The header is accepted exactly when it is `Bearer`, one space and a token with no space in it:
   * "bearer x", "Bearer a b" and "Bearer  x" are all refused.
   */
  lemma BearerTokenShape(header: string, token: string)
    ensures BearerToken(header) == Some(token) <==> header == "Bearer " + token && ' ' !in token
  {
    if header == "Bearer " + token && ' ' !in token {
      assert header == "Bearer" + [' '] + token;
      SplitAtFirst("Bearer", token, ' ');
      SplitWithoutSep(token, ' ');
    }
  }

  /** A lower-case scheme is refused. */
  lemma RefusesLowerCaseScheme()
    ensures BearerToken("bearer x") == None
  {
    assert "bearer x" == "bearer" + [' '] + "x";
    SplitAtFirst("bearer", "x", ' ');
    SplitWithoutSep("x", ' ');
  }

  /** A token followed by more words is refused. */
  lemma RefusesExtraWords()
    ensures BearerToken("Bearer a b") == None
  {
    assert "Bearer a b" == "Bearer" + [' '] + ("a" + [' '] + "b");
    SplitAtFirst("Bearer", "a" + [' '] + "b", ' ');
    SplitAtFirst("a", "b", ' ');
  }

  /** Two spaces after the scheme are refused. */
  lemma RefusesDoubleSpace()
    ensures BearerToken("Bearer  x") == None
  {
    assert "Bearer  x" == "Bearer" + [' '] + ("" + [' '] + "x");
    SplitAtFirst("Bearer", "" + [' '] + "x", ' ');
    SplitAtFirst("", "x", ' ');
  }

  /** The scheme alone is refused. */
  lemma RefusesSchemeAlone()
    ensures BearerToken("Bearer") == None
  {
    SplitWithoutSep("Bearer", ' ');
  }

  /** What the middleware does with a request: refuse it with an error body, or let it through. */
  datatype Decision = Abort(error: APIError) | Proceed(userId: nat, email: string)

  /** The middleware's decision for an `Authorization` header at clock reading `now`. */
  function Decide(header: string, env: Env, now: Time, lib: JwtLib): (d: Decision)
    ensures d.Abort? ==> d.error.status == StatusUnauthorized
    ensures header == "" ==> d == Abort(APIError(StatusUnauthorized, MsgHeaderRequired))
    ensures header != "" && BearerToken(header).None? ==> d == Abort(APIError(StatusUnauthorized, MsgBearerRequired))
    ensures BearerToken(header).Some? && ValidateToken(BearerToken(header).value, env, now, lib).Failure? ==>
      d == Abort(APIError(StatusUnauthorized, MsgInvalidToken))
    ensures d.Proceed? <==> BearerToken(header).Some? && ValidateToken(BearerToken(header).value, env, now, lib).Success?
    ensures d.Proceed? ==>
      var claims := ValidateToken(BearerToken(header).value, env, now, lib).value;
      d.userId == claims.userId && d.email == claims.email
  {
    if header == "" then
      Abort(NewAPIError(StatusUnauthorized, MsgHeaderRequired))
    else
      match BearerToken(header)
      case None => Abort(NewAPIError(StatusUnauthorized, MsgBearerRequired))
      case Some(tokenString) =>
        match ValidateToken(tokenString, env, now, lib)
        case Failure(_) => Abort(NewAPIError(StatusUnauthorized, MsgInvalidToken))
        case Success(claims) => Proceed(claims.userId, claims.email)
  }

  /**
   * A token the service issued, presented as `Bearer <token>` before it expires, lets its
   * holder through as the user it was issued for.
   */
  lemma AdmitsIssuedToken(user: User, ctx: TokenContext, now: Time)
    requires Consistent(ctx.lib)
    requires GenerateToken(user, ctx).Success?
    requires ' ' !in GenerateToken(user, ctx).value
    requires now < ExpiryInstant(ctx)
    ensures Decide("Bearer " + GenerateToken(user, ctx).value, ctx.env, now, ctx.lib) == Proceed(user.id, user.email)
  {
    var token := GenerateToken(user, ctx).value;
    BearerTokenShape("Bearer " + token, token);
    IssueThenValidate(user, ctx, now);
  }

  /** A value stored in the request context by `c.Set`. */
  datatype ContextValue = UintValue(n: nat) | StringValue(s: string)

  /** The parts of gin's request context the middleware reads and writes. */
  class GinContext {
    const authorization: string
    var keys: map<string, ContextValue>
    var aborted: bool
    var status: int
    var body: Option<APIError>
    var nextCalled: bool

    constructor (authorization: string)
      ensures this.authorization == authorization
      ensures keys == map[] && !aborted && status == 200 && body == None && !nextCalled
    {
      this.authorization := authorization;
      keys := map[];
      aborted := false;
      status := 200;
      body := None;
      nextCalled := false;
    }

    /** `c.AbortWithStatusJSON`: stop the chain and answer with `code` and `obj`. */
    method AbortWithStatusJSON(code: int, obj: APIError)
      modifies this
      ensures aborted && status == code && body == Some(obj)
      ensures keys == old(keys) && nextCalled == old(nextCalled)
    {
      aborted := true;
      status := code;
      body := Some(obj);
    }

    /** `c.Set`: store `value` under `key`. */
    method Set(key: string, value: ContextValue)
      modifies this
      ensures keys == old(keys)[key := value]
      ensures aborted == old(aborted) && status == old(status) && body == old(body) && nextCalled == old(nextCalled)
    {
      keys := keys[key := value];
    }

    /** `c.Next`: run the rest of the chain. */
    method Next()
      modifies this
      ensures nextCalled
      ensures keys == old(keys) && aborted == old(aborted) && status == old(status) && body == old(body)
    {
      nextCalled := true;
    }
  }

  /**
   * The middleware applied to `c`: a refused request is aborted with 401 and the decision's
   * body, and the handler is not reached; an accepted one carries `userID` and `userEmail`
   * from the token's claims into the handler.
   */
  method Handle(c: GinContext, env: Env, now: Time, lib: JwtLib)
    modifies c
    ensures match Decide(c.authorization, env, now, lib)
      case Abort(error) =>
        && c.aborted && c.status == StatusUnauthorized && c.body == Some(error)
        && c.keys == old(c.keys) && c.nextCalled == old(c.nextCalled)
      case Proceed(userId, email) =>
        && c.keys == old(c.keys)["userID" := UintValue(userId)]["userEmail" := StringValue(email)]
        && c.nextCalled
        && c.aborted == old(c.aborted) && c.status == old(c.status) && c.body == old(c.body)
  {
    var authHeader := c.authorization;
    if authHeader == "" {
      c.AbortWithStatusJSON(StatusUnauthorized, NewAPIError(StatusUnauthorized, MsgHeaderRequired));
      return;
    }
    var parts := Split(authHeader, ' ');
    if |parts| != 2 || parts[0] != "Bearer" {
      c.AbortWithStatusJSON(StatusUnauthorized, NewAPIError(StatusUnauthorized, MsgBearerRequired));
      return;
    }
    var tokenString := parts[1];
    var validated := ValidateToken(tokenString, env, now, lib);
    if validated.Failure? {
      c.AbortWithStatusJSON(StatusUnauthorized, NewAPIError(StatusUnauthorized, MsgInvalidToken));
      return;
    }
    var claims := validated.value;
    c.Set("userID", UintValue(claims.userId));
    c.Set("userEmail", StringValue(claims.email));
    c.Next();
  }
}
