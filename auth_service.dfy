/**
 * application/services/auth_service.go: logging in with an email and a password, and signing
 * up, each answered with a token and the user's public fields.
 */
module AuthService {
  import opened Wrappers
  import opened Errors
  import opened Entities
  import opened UserRepository
  import opened Bcrypt
  import opened Jwt
  import CreateUser

  datatype LoginRequest = LoginRequest(email: string, password: string)
  datatype SignUpRequest = SignUpRequest(email: string, password: string, firstName: string, lastName: string)
  datatype AuthResponse = AuthResponse(token: string, user: UserDTO)

  /** Some stored user has this email and a hash that matches `password`. */
  ghost predicate Accepts(rows: map<nat, User>, hasher: Hasher, email: string, password: string) {
    exists k :: k in rows && rows[k].email == email && hasher.compare(rows[k].password, password)
  }

  /**
   * `Login`. An unknown email and a wrong password are refused with the same error, so a caller
   * cannot tell which of the two it was.
   */
  function Login(repo: UserStore, request: LoginRequest, hasher: Hasher, lookupFault: Option<Error>, ctx: TokenContext)
    : (r: Result<AuthResponse, Error>)
    reads repo
    requires repo.Valid()
    ensures lookupFault.Some? ==> r == Failure(lookupFault.value)
    ensures lookupFault.None? && !Accepts(repo.rows, hasher, request.email, request.password) ==>
      r == Failure(Sentinel(Unauthorized))
    ensures lookupFault.None? ==> forall k ::
      (k in repo.rows && repo.rows[k].email == request.email && hasher.compare(repo.rows[k].password, request.password)) ==>
        r == match GenerateToken(repo.rows[k], ctx)
          case Failure(e) => Failure(e)
          case Success(token) => Success(AuthResponse(token, ToDTO(repo.rows[k])))
  {
    match repo.GetByEmail(request.email, lookupFault)
    case Failure(err) => Failure(err)
    case Success(None) => Failure(Sentinel(Unauthorized))
    case Success(Some(user)) =>
      if !hasher.compare(user.password, request.password) then Failure(Sentinel(Unauthorized))
      else
        match GenerateToken(user, ctx)
        case Failure(err) => Failure(err)
        case Success(token) => Success(AuthResponse(token, ToDTO(user)))
  }

  /** A password whose bcrypt hash is the one stored logs its user in. */
  lemma LoginAcceptsStoredPassword(repo: UserStore, hasher: Hasher, ctx: TokenContext, id: nat, password: string)
    requires repo.Valid() && Sound(hasher)
    requires id in repo.rows && hasher.generate(password) == Success(repo.rows[id].password)
    requires GenerateToken(repo.rows[id], ctx).Success?
    ensures Login(repo, LoginRequest(repo.rows[id].email, password), hasher, None, ctx)
      == Success(AuthResponse(GenerateToken(repo.rows[id], ctx).value, ToDTO(repo.rows[id])))
  {
    assert hasher.compare(hasher.generate(password).value, password);
  }

  /** The create command a sign-up sends: the request's four fields, unchanged. */
  function SignUpCommand(request: SignUpRequest): (command: CreateUser.CreateUserCommand)
    ensures command.email == request.email && command.password == request.password
    ensures command.firstName == request.firstName && command.lastName == request.lastName
  {
    CreateUser.CreateUserCommand(request.email, request.password, request.firstName, request.lastName)
  }

  /** The conditions under which the create handler stores the new user. */
  ghost predicate CreateSucceeds(rows: map<nat, User>, nextId: nat, request: SignUpRequest, hasher: Hasher,
                                 lookupFault: Option<Error>, createFault: Option<Error>) {
    && lookupFault.None?
    && !EmailInUse(rows, request.email)
    && hasher.generate(request.password).Success?
    && createFault.None?
    && nextId !in rows
  }

  /** The row a successful sign-up stores. */
  function SignedUpUser(request: SignUpRequest, hash: string, createdAt: Time, updatedAt: Time, id: nat): (u: User)
    ensures u.id == id && u.email == request.email && u.password == hash
    ensures u.firstName == request.firstName && u.lastName == request.lastName
  {
    WithID(CreateUser.NewUser(SignUpCommand(request), hash, createdAt, updatedAt), id)
  }

  /**
   * `SignUp`: create the user through the create handler, fetch it back by email, issue its
   * token. Every failure comes back wrapped with the step that failed; the response carries
   * the create handler's DTO. A token failure after a successful create leaves the user stored.
   */
  method SignUp(repo: UserStore, request: SignUpRequest, hasher: Hasher, createdAt: Time, updatedAt: Time,
                lookupFault: Option<Error>, createFault: Option<Error>, refetchFault: Option<Error>,
                ctx: TokenContext)
    returns (r: Result<AuthResponse, Error>)
    requires repo.Valid()
    modifies repo
    ensures repo.Valid()
    ensures !CreateSucceeds(old(repo.rows), old(repo.nextId), request, hasher, lookupFault, createFault) ==>
      && r.Failure? && r.error.Wrapped? && r.error.prefix == "failed to create user"
      && repo.rows == old(repo.rows)
    ensures repo.nextId ==
      if lookupFault.None? && !EmailInUse(old(repo.rows), request.email)
         && hasher.generate(request.password).Success? && createFault.None?
      then old(repo.nextId) + 1 else old(repo.nextId)
    ensures lookupFault.Some? ==> r == Failure(Wrapped("failed to create user", lookupFault.value))
    ensures lookupFault.None? && EmailInUse(old(repo.rows), request.email) ==>
      r == Failure(Wrapped("failed to create user", Sentinel(EmailAlreadyExists)))
    // the create handler's own error sits under the sign-up's wrap, so its status survives
    ensures lookupFault.None? && !EmailInUse(old(repo.rows), request.email) && hasher.generate(request.password).Failure? ==>
      r == Failure(Wrapped("failed to create user",
                           Wrapped("failed to hash password", hasher.generate(request.password).error)))
    ensures lookupFault.None? && !EmailInUse(old(repo.rows), request.email) && hasher.generate(request.password).Success? ==>
      && (createFault.Some? ==>
            r == Failure(Wrapped("failed to create user", Wrapped("failed to create user", createFault.value))))
      && (createFault.None? && old(repo.nextId) in old(repo.rows) ==>
            r == Failure(Wrapped("failed to create user", Wrapped("failed to create user", ErrUniqueViolation))))
    ensures CreateSucceeds(old(repo.rows), old(repo.nextId), request, hasher, lookupFault, createFault) ==>
      var id := old(repo.nextId);
      var row := SignedUpUser(request, hasher.generate(request.password).value, createdAt, updatedAt, id);
      && repo.rows == old(repo.rows)[id := row]
      && (refetchFault.Some? ==> r == Failure(Wrapped("failed to retrieve user", refetchFault.value)))
      && (refetchFault.None? ==> r == match GenerateToken(row, ctx)
            case Failure(e) => Failure(Wrapped("failed to generate token", e))
            case Success(token) => Success(AuthResponse(token, ToDTO(row))))
  {
    var command := SignUpCommand(request);
    var result := CreateUser.Handle(repo, command, hasher, createdAt, updatedAt, lookupFault, createFault);
    if result.Failure? {
      return Failure(Wrapped("failed to create user", result.error));
    }

    var user := repo.GetByEmail(request.email, refetchFault);
    if user.Failure? {
      return Failure(Wrapped("failed to retrieve user", user.error));
    }
    if user.value.None? {
      // the create just stored a user with this email
      assert false;
    }
    assert user.value.value.id == result.value.id;

    var token := GenerateToken(user.value.value, ctx);
    if token.Failure? {
      return Failure(Wrapped("failed to generate token", token.error));
    }
    return Success(AuthResponse(token.value, result.value));
  }

  /** Signing up with an email already in use is answered with 409 Conflict, wrapping and all. */
  lemma DuplicateSignUpIsConflict()
    ensures ErrorToStatusCode(Wrapped("failed to create user", Sentinel(EmailAlreadyExists))) == StatusConflict
  {
    WrappingKeepsStatus("failed to create user", Sentinel(EmailAlreadyExists));
  }

  /**
   * A user who has just signed up can log in with the same password. The login issues its own
   * token, from its own clock readings in `loginCtx`; when that token is issued, the login
   * returns the signed-up user, and the token carries that user's ID. Only when both tokens
   * are issued from the same clock readings is the whole response the same.
   */
  method SignUpThenLogin(repo: UserStore, request: SignUpRequest, hasher: Hasher, createdAt: Time, updatedAt: Time,
                         ctx: TokenContext, loginCtx: TokenContext)
    returns (signedUp: Result<AuthResponse, Error>, loggedIn: Result<AuthResponse, Error>)
    requires repo.Valid() && Sound(hasher)
    modifies repo
    ensures repo.Valid()
    ensures signedUp.Success? ==> signedUp.value.user.id in repo.rows
    ensures signedUp.Success? && GenerateToken(repo.rows[signedUp.value.user.id], loginCtx).Success? ==>
      loggedIn.Success? && loggedIn.value.user == signedUp.value.user
    ensures signedUp.Success? && loggedIn.Success? && Consistent(loginCtx.lib) ==>
      && loginCtx.lib.decode(loggedIn.value.token).Some?
      && loginCtx.lib.decode(loggedIn.value.token).value.claims.userId == signedUp.value.user.id
    ensures signedUp.Success? && loginCtx == ctx ==> loggedIn == signedUp
  {
    signedUp := SignUp(repo, request, hasher, createdAt, updatedAt, None, None, None, ctx);
    loggedIn := Login(repo, LoginRequest(request.email, request.password), hasher, None, loginCtx);
    if signedUp.Success? {
      var id := old(repo.nextId);
      assert CreateSucceeds(old(repo.rows), old(repo.nextId), request, hasher, None, None);
      if GenerateToken(repo.rows[id], loginCtx).Success? {
        LoginAcceptsStoredPassword(repo, hasher, loginCtx, id, request.password);
      }
    }
  }
}
