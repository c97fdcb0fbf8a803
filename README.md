# User-management API core, modelled in Dafny

A model of the core of a Go user-management REST API built in the clean-architecture style.
The API registers and logs in users, issues HS256-signed JSON Web Tokens, and serves
create/read/update/delete on one `users` table.

The model covers:

- the `User` entity and its password-free projection `UserDTO` (`Entities`);
- the user store behind the six-operation `UserRepository` contract, as a class over a map
  from ID to `User` (`UserRepository.UserStore`). It has a next-ID counter and an email index,
  and its invariant `Valid()` keeps emails unique. It follows the PostgreSQL/gorm
  implementation in what rows exist and which calls fail: a lookup that finds nothing gives an
  absent user and no error. `Create` consumes an ID even when the insert fails. `Save` upserts
  the whole record. It stores timestamps exactly as written (see "## Left out").
- the command handlers (create, update, delete) and query handlers (by ID, by email, list);
- the authentication service (`Login`, `SignUp`);
- the user service's delete-result collapsing, its query entry points, and the repository
  adapter's `GetAll` and `GetByEmail`;
- the error taxonomy and `ErrorToStatusCode`. Errors are a datatype with a `Wrapped`
  constructor for `fmt.Errorf("...: %w")`, and `Is` walks the wrap chain like `errors.Is`.
- the authentication middleware's decision and its effect on the request context;
- the claims `GenerateToken` builds (`sub`, `exp` and `iat` of sections 4.1.2, 4.1.4 and 4.1.6
  of RFC 7519) and the checks `ValidateToken` makes. HS256 signing itself (section 3.2 of
  RFC 7518) stays abstract.
- `GetEnv` and `GetEnvAsInt` over an environment map, with `strconv.Atoi` and
  `strconv.FormatUint` written out.

Everything outside the program is a parameter:

- **Database errors.** Every database call takes a `fault: Option<Error>`, the error the
  database reports for that call, if any.
- **Clock.** Each `time.Now()` reading is a `Time` parameter, in nanoseconds since the Unix epoch.
- **bcrypt.** `GenerateFromPassword` and `CompareHashAndPassword` are the two functions of a
  `Bcrypt.Hasher`. `Bcrypt.Sound` states bcrypt's promise that a password matches its own hash.
- **Token library.** Signing, decoding and signature checking are the three functions of a
  `Jwt.JwtLib`. `Jwt.Consistent` states the library's promise that a token it signed decodes
  to what was signed and verifies under the same key.
- **Mediator.** go-mediatr's `Send` is a direct call to the matching handler.

Where the documented behaviour of the API and the code disagree, the model follows the code:

- **Sign-up failures are wrapped.** A sign-up with a taken email fails with
  `failed to create user: email already exists`, not a bare conflict. `errors.Is` still finds
  the sentinel, so the status is 409 (`AuthService.DuplicateSignUpIsConflict`).
- **A lost race on the email index gives 500.** A concurrent sign-up can lose the race for the
  email and be refused by the table's unique index. That error is not one of the sentinels, so
  it maps to 500, not 409.
- **Update does not wrap a hashing failure.** The update handler returns it unwrapped.
- **The `Bearer` scheme is case-sensitive.** The middleware matches it exactly and allows
  exactly one space after it.

## Model

| member | source | states |
|---|---|---|
| Entities.ToDTO | domain/entities/user.go:44-53 | the DTO carries the user's ID, email, names and both timestamps unchanged |
| Entities.ToDTOForgetsOnlyPassword | domain/entities/user.go:33-53 | two users have the same DTO exactly when they differ at most in their password, so the password never reaches a DTO |
| Entities.GetID | domain/entities/user.go:18-21 | returns the user's ID |
| Entities.SetID | domain/entities/user.go:23-26 | as written (value receiver): the caller's user is unchanged by the call |
| Entities.SetIDIsNoOp | domain/entities/user.go:23-26 | on a user with ID 1, `SetID(2)` leaves the caller seeing ID 1 |
| Entities.WithID | domain/entities/user.go:23-26 | as intended: the ID is replaced, every other field is kept, and the DTO shows the new ID |
| UserRepository.UserStore.constructor | interfaces/repositories/user_repository.go:10-17 | an empty table whose first assigned ID is 1, satisfying the store invariant |
| UserRepository.UserStore.GetByID | infrastructure/database/postgres_user_repository.go:31-44 | a database error is returned unchanged; an ID not stored gives an absent user and no error; a stored ID gives its row |
| UserRepository.UserStore.GetByEmail | infrastructure/database/postgres_user_repository.go:47-60 | a user is found exactly when some stored user has that exact email, and the one found is that stored row; otherwise absent with no error |
| UserRepository.UserStore.GetAll | infrastructure/database/postgres_user_repository.go:63-73 | without a database error the result lists every stored user exactly once (so an empty table gives an empty list) |
| UserRepository.UserStore.Create | infrastructure/database/postgres_user_repository.go:23-28 | a zero ID takes the next sequence value, which is consumed even if the insert fails; an ID or email already present is a unique violation and stores nothing; success stores the user under its ID and returns it carrying that ID; the invariant is kept |
| UserRepository.UserStore.Update | infrastructure/database/postgres_user_repository.go:76-81 | `Save` writes the whole record over the row with that ID (a zero ID inserts like Create); an email held by another user is a unique violation; on failure the table is unchanged; the invariant is kept |
| UserRepository.UserStore.Delete | infrastructure/database/postgres_user_repository.go:84-86 | without a database error exactly the row with that ID is removed and every other row is unchanged |
| CreateUser.NewUser | application/commands/create_user.go:52-59 | the new record has no ID yet, the password's hash, the command's email and names, and the clock readings |
| CreateUser.Handle | application/commands/create_user.go:29-67 | a lookup error is returned unchanged and a taken email gives `ErrEmailAlreadyExists`, both with the store untouched; hash and create failures come back wrapped with nothing stored; on success exactly one row is added, holding the hash and a fresh ID, and the result is that row's DTO; the ID sequence advances exactly when the insert is attempted |
| UpdateUser.Edited | application/commands/update_user.go:54-70 | email and names are overwritten, the password is re-hashed only when a new one is given, ID and CreatedAt are kept and UpdatedAt is the clock |
| UpdateUser.Handle | application/commands/update_user.go:30-78 | a lookup error is returned unchanged; a missing ID gives `ErrNotFound`; the email is looked up only when it changes, and a taken one gives `ErrConflict`; every failure leaves the table as it was; on success only that user's row changes, to the edited record, and the result is its DTO; the ID sequence is untouched |
| DeleteUser.Handle | application/commands/delete_user.go:23-38 | the first result is always nil; a lookup error or a missing ID (`ErrNotFound`) is returned in the second and nothing is deleted; otherwise the delete's error is returned, and on success only that user is gone and a lookup of its ID finds nothing; the ID sequence is untouched |
| GetUserById.Handle | application/queries/get_user_by_id.go:24-38 | a lookup error is returned unchanged, a missing ID gives `ErrNotFound`, a stored one gives exactly its DTO; the store is only read |
| GetUserByEmail.Handle | application/queries/get_user_by_email.go:24-38 | a lookup error is returned unchanged, an email no user has gives `ErrNotFound`, otherwise the DTO of the user with exactly that email; the store is only read |
| GetUsers.Handle | application/queries/get_users.go:21-37 | a repository error is returned; otherwise one DTO per stored user, element i being the DTO of user i of the scan |
| AuthService.Login | application/services/auth_service.go:48-80 | a lookup error is returned unchanged; an unknown email and a wrong password give the same `ErrUnauthorized`; for the user whose hash matches, a token error is returned as is, otherwise the result is that user's token and DTO |
| AuthService.LoginAcceptsStoredPassword | application/services/auth_service.go:53-79 | with a sound hasher, the password whose hash is stored logs its user in, with that user's token and DTO |
| AuthService.SignUpCommand | application/services/auth_service.go:88-93 | the create command copies email, password and both names from the request |
| AuthService.SignedUpUser | application/services/auth_service.go:88-102 | the row a sign-up stores has the request's email and names, the hash and the assigned ID |
| AuthService.SignUp | application/services/auth_service.go:83-120 | a create failure comes back wrapped as "failed to create user" with the table unchanged, around the create handler's own error: the lookup error, the email-taken sentinel, the wrapped hash error, the wrapped insert error or the wrapped unique violation, so the status of each is that of the inner error; after a successful create the new row is stored, a re-fetch error or a token error comes back wrapped, and the response pairs the token of the stored row with the create handler's DTO; the ID sequence advances exactly when the create handler attempts the insert |
| AuthService.DuplicateSignUpIsConflict | application/services/auth_service.go:100-102 | the wrapped duplicate-email error of a sign-up still maps to 409 |
| AuthService.SignUpThenLogin | application/services/auth_service.go:48-120 | after a successful sign-up with a sound hasher the new user is stored; a login with the same email and password, issuing its token from its own clock readings, returns the signed-up user whenever that token is issued, and with a library that keeps its promise the token carries the user's ID; only with the same clock readings is the response the same token too |
| UserService.GetUserByID | application/services/user_service.go:40-49 | the query carries the ID unchanged: the stored user's DTO, `ErrNotFound`, or the database error |
| UserService.GetUserByEmail | application/services/user_service.go:51-60 | the query carries the email unchanged: a stored email is found, giving the DTO of the user with exactly that email; any other gives `ErrNotFound`; a database error is returned |
| UserService.DeleteUser | application/services/user_service.go:84-96 | the handler's second error if present, else its first; no error exactly when the user existed and has been removed; the ID sequence is untouched |
| UserService.AdapterGetAll | application/services/user_service.go:183-203 | a `FindAll` error is returned; otherwise the output has the same length, and element i is user i or the zero user where pointer i is nil |
| UserService.FirstByEmail | application/services/user_service.go:169-173 | gorm's `First` finds a row exactly when one has that email, else gives record-not-found |
| UserService.AdapterGetByEmail | application/services/user_service.go:157-181 | a failed cast is an error; with the PostgreSQL repository and no database error the result is exactly the store contract's `GetByEmail` (not found is absent with no error) |
| Errors.IsMeansInChain | infrastructure/utils/errors.go:27-41 | `errors.Is(err, s)` holds exactly when `s` is in err's wrap chain |
| Errors.Is | infrastructure/utils/errors.go:28-38 | `errors.Is(err, s)` holds exactly when the innermost error of the wrap chain is `s` |
| Errors.AtMostOneSentinel | infrastructure/utils/errors.go:27-41 | an error is at most one sentinel under `errors.Is`, so the order of the switch cases cannot change the outcome |
| Errors.ErrorToStatusCode | infrastructure/utils/errors.go:26-42 | the code is one of 404, 401, 400, 409, 500, and any error whose chain holds `ErrNotFound` is 404 |
| Errors.StatusFromRoot | infrastructure/utils/errors.go:26-42 | the status is that of the sentinel at the bottom of the chain (404, 401, 400 for bad request, invalid input and weak password, 409 for conflict and email-taken), else 500 |
| Errors.WrappingKeepsStatus | infrastructure/utils/errors.go:26-42 | wrapping an error with a message keeps its status |
| Errors.WrappedSentinelStatus | infrastructure/utils/errors.go:26-42 | a sentinel wrapped any number of times maps to its own status |
| Errors.NewAPIError | infrastructure/utils/errors.go:44-50 | exactly the given status and message |
| Strconv.FormatUint | infrastructure/utils/jwt.go:31 | decimal digits, at least one, with a leading zero only for 0, which is written "0" |
| Strconv.FormatUintValue | infrastructure/utils/jwt.go:31 | the digits written denote the number |
| Strconv.Atoi | infrastructure/utils/config.go:35 | a parsed value fits 64 bits and comes from a non-empty string |
| Strconv.AtoiFormatInt | infrastructure/utils/config.go:35-45 | every 64-bit integer, negative ones included, written in decimal parses back to itself |
| Strconv.AtoiRefuses | infrastructure/utils/config.go:35-43 | a string whose part after an optional sign is empty or holds a non-digit is refused |
| Strconv.AtoiSigned | infrastructure/utils/config.go:35-45 | a sign followed by digits, leading zeros allowed, parses to the signed value when it fits 64 bits and is refused otherwise |
| Strconv.AtoiDigits | infrastructure/utils/config.go:35-45 | a digit string parses exactly when its value fits 64 bits, to that value |
| Config.GetEnv | infrastructure/utils/config.go:19-26 | the default when the variable is unset or empty, the value unchanged otherwise |
| Config.GetEnvAsInt | infrastructure/utils/config.go:28-46 | the default when the value is empty or not an optionally signed decimal integer that fits 64 bits, the parsed value otherwise |
| Config.GetEnvAsIntNonDecimal | infrastructure/utils/config.go:35-43 | a value that is not an optionally signed string of decimal digits gives the default |
| Config.GetEnvAsIntOutOfRange | infrastructure/utils/config.go:35-43 | a string of digits whose value does not fit 64 bits gives the default |
| Config.GetEnvAsIntReadsBack | infrastructure/utils/config.go:28-46 | a setting holding any 64-bit integer in decimal reads back as that integer |
| Jwt.WrapInt64 | infrastructure/utils/jwt.go:23 | the result is in the 64-bit range, congruent to the input modulo 2^64, and equal to the input when the input is in range |
| Jwt.Lifetime | infrastructure/utils/jwt.go:23 | the duration fits 64 bits and is congruent to the hours in nanoseconds modulo 2^64, and for at most 2562047 hours either way it is exactly that many hours in nanoseconds |
| Jwt.NumericDate | infrastructure/utils/jwt.go:29-30 | the instant truncated to whole seconds: the second it falls in |
| Jwt.LifetimeWraps | infrastructure/utils/jwt.go:23 | 2562048 hours overflow to a negative duration |
| Jwt.TokenClaims | infrastructure/utils/jwt.go:21-33 | the claims carry the user's ID and email, a subject that is the canonical decimal form of the ID, `exp` at the clock plus `JWT_EXPIRATION_HOURS` (default 24) hours, `iat` from a second clock reading, and no `nbf` |
| Jwt.ExpiryWindow | infrastructure/utils/jwt.go:22-30 | when the two clock readings are in order and less than a second apart, for a lifetime of at most 2562047 hours either way (negative included), `exp - iat` is the configured hours in seconds, and one second less exactly when the issue reading's second lies after the expiry reading's second |
| Jwt.GenerateToken | infrastructure/utils/jwt.go:21-44 | a token comes back exactly when the library signs the claims with `JWT_SECRET`, and a signing error is returned as is; with a library that keeps its promise, the token decodes to `HS256` and exactly the user's claims, and its signature checks out under `JWT_SECRET` |
| Jwt.KeyFunc | infrastructure/utils/jwt.go:51-60 | the key is the secret exactly for an HMAC algorithm (HS256, HS384, HS512); any other algorithm is an error |
| Jwt.ValidateToken | infrastructure/utils/jwt.go:47-72 | claims come back only for a token that decodes, names an HMAC algorithm, has a signature valid under `JWT_SECRET` and has not expired, and every such token is accepted with its claims; an undecodable token or a non-HMAC algorithm is an error |
| Jwt.IssueThenValidate | infrastructure/utils/jwt.go:21-72 | a token just issued validates under the same environment before its expiry, to the claims issued, with the user's ID, email and subject |
| Jwt.ExpiredTokenRejected | infrastructure/utils/jwt.go:47-72 | the same token is refused from its expiry instant on |
| Strings.Split | api/middlewares/auth_middleware.go:27 | at least one piece, none containing the separator |
| Strings.JoinSplit | api/middlewares/auth_middleware.go:27 | joining the pieces with the separator gives back the header |
| Strings.SplitWithoutSep | api/middlewares/auth_middleware.go:27 | a string without the separator is one piece |
| Strings.SplitAtFirst | api/middlewares/auth_middleware.go:27 | the first separator ends the first piece |
| AuthMiddleware.BearerToken | api/middlewares/auth_middleware.go:27-39 | a token comes back only from a header that is `Bearer `, then that token, which holds no space |
| AuthMiddleware.BearerTokenShape | api/middlewares/auth_middleware.go:27-39 | a header yields a token exactly when it is `Bearer`, one space and a token without spaces, and that token is what is validated |
| AuthMiddleware.RefusesLowerCaseScheme | api/middlewares/auth_middleware.go:27-37 | "bearer x" is refused |
| AuthMiddleware.RefusesExtraWords | api/middlewares/auth_middleware.go:27-37 | "Bearer a b" is refused |
| AuthMiddleware.RefusesDoubleSpace | api/middlewares/auth_middleware.go:27-37 | "Bearer  x" is refused |
| AuthMiddleware.RefusesSchemeAlone | api/middlewares/auth_middleware.go:27-37 | "Bearer" alone is refused |
| AuthMiddleware.Decide | api/middlewares/auth_middleware.go:14-56 | every refusal is 401: an empty header with "Authorization header is required", a malformed one with "Authorization header must be Bearer token", one whose token does not validate with "Invalid or expired JWT token"; the request proceeds exactly when the header is well-formed and its token validates, carrying the claims' user ID and email |
| AuthMiddleware.AdmitsIssuedToken | api/middlewares/auth_middleware.go:14-56 | a token the service issued, presented as `Bearer <token>` before it expires, lets its user through |
| AuthMiddleware.GinContext.AbortWithStatusJSON | api/middlewares/auth_middleware.go:16-22 | the chain is aborted with that status and body, and nothing else changes |
| AuthMiddleware.GinContext.Set | api/middlewares/auth_middleware.go:53-54 | only that key changes |
| AuthMiddleware.GinContext.Next | api/middlewares/auth_middleware.go:56 | the rest of the chain runs |
| AuthMiddleware.Handle | api/middlewares/auth_middleware.go:12-58 | a refused request is aborted with 401 and the decision's body, with no keys set and the handler not reached; an accepted one gets `userID` and `userEmail` from the claims and continues |

## Left out

- HTTP transport: gin routing, JSON binding and validation tags, status writing, the route
  table, the logging middleware, and the path-versus-body ID check of the user handler.
- Process start-up: `main.go` environment loading, server start, signal handling and the
  graceful shutdown. Its repository wiring does not type-check either: a `UserRepository` is
  passed where a `GenericRepository[User]` is expected.
- go-mediatr's registry and its duplicate-registration errors. The library is not part of
  this model, and `Send` is a direct call.
- bcrypt's cost, salting and hash format. The hasher is two abstract functions.
- Token encoding and HMAC computation, in the library. Its algorithm lookup is folded into
  the key callback: an algorithm the library does not know is refused like a non-HMAC one.
- `LoadConfig` (reads a `.env` file) and `Entities` `TableName` (a constant table name).
- Concurrency. The check-then-insert race on email uniqueness is settled by the database's
  unique index; every operation here runs alone. So the sign-up's re-fetch after a successful
  create always finds the new user; in the source, a delete between the two would leave the
  user nil, and `GenerateToken` would dereference it and panic.
- Go's `uint` ID width: IDs are unbounded naturals.
- Go's zero `time.Time` is written as 0. The model never compares timestamps, so only
  equality matters.
- The order of a table scan. `GetAll` lists every row once, in an order the database chooses.
- `UserService.CreateUser`, `UpdateUser` and `GetAllUsers`: each sends its argument to the
  handler unchanged, so its contract is the handler's (`CreateUser.Handle`, `UpdateUser.Handle`,
  `GetUsers.Handle`).
- The adapter's `Create`, `GetByID`, `Update` and `Delete`: each passes straight to the
  generic repository, whose gorm calls are the `UserRepository.UserStore` operations.
- The generic repository (`interfaces/repositories/generic_repository.go` and its gorm
  implementation): the store class stands for it.
- Timestamp precision: PostgreSQL keeps `timestamptz` to the microsecond, so a row read back
  carries rounded CreatedAt and UpdatedAt. The store keeps them as written.
- gorm's `Save` writes its own UpdatedAt reading over the record's. The store keeps the
  handler's reading.
- AuthService.SignUpThenLogin: the equal users hold in the model. Against the database,
  the DTO from login carries the rounded timestamps of the re-read row. The sign-up DTO is the
  create handler's in-memory one. The two tokens agree only when both were issued within the
  same second, since each `GenerateToken` reads the clock afresh.
- Jwt.ExpiryWindow: assumes the two `time.Now()` readings of `GenerateToken` are in order and
  under a second apart. Nothing in the source guarantees it: a slow scheduler or a wall clock
  stepped back between them puts `exp - iat` outside the window.
- CreateUser.Handle: the result is the DTO of the record as written. The database row differs
  only in its timestamps' precision.
- UpdateUser.Handle: the saved row and the result carry the handler's UpdatedAt, not the one
  gorm's `Save` writes.
- UserRepository.UserStore.Create: a database fault is modelled as leaving the sequence where
  it was, since the model cannot tell at which point the connection failed.

## Findings

| source | as written | input that shows it | evidently intended | confidence | as-written member | corrected member |
|---|---|---|---|---|---|---|
| domain/entities/user.go:24-26 | `SetID` has a value receiver, so it assigns the ID on a copy and the caller's user keeps its old ID | a user with ID 1, then `SetID(2)`: `GetID()` still gives 1 | a pointer receiver, so the caller's user takes the new ID | not executed | Entities.SetID (shown by Entities.SetIDIsNoOp) | Entities.WithID (used by UserRepository.UserStore.Create) |
