/** application/commands/create_user.go: registering a new user. */
module CreateUser {
  import opened Wrappers
  import opened Errors
  import opened Entities
  import opened UserRepository
  import opened Bcrypt

  datatype CreateUserCommand = CreateUserCommand(email: string, password: string, firstName: string, lastName: string)

  /** The record the handler hands to the store: no ID yet, the password's hash, both timestamps from the clock. */
  function NewUser(command: CreateUserCommand, hash: string, createdAt: Time, updatedAt: Time): (u: User)
    ensures u.id == 0 && u.password == hash
    ensures u.email == command.email && u.firstName == command.firstName && u.lastName == command.lastName
    ensures u.createdAt == createdAt && u.updatedAt == updatedAt
  {
    User(0, command.email, hash, command.firstName, command.lastName, createdAt, updatedAt)
  }

  /**
   * `CreateUserHandler.Handle`. `createdAt` and `updatedAt` are the two readings of the clock;
   * `lookupFault` and `createFault` are what the database reports for the email lookup and the insert.
   */
  method Handle(repo: UserStore, command: CreateUserCommand, hasher: Hasher,
                createdAt: Time, updatedAt: Time,
                lookupFault: Option<Error>, createFault: Option<Error>)
    returns (r: Result<UserDTO, Error>)
    requires repo.Valid()
    modifies repo
    ensures repo.Valid()
    // the lookup's own error comes back unchanged, and nothing is stored
    ensures lookupFault.Some? ==> r == Failure(lookupFault.value) && unchanged(repo)
    // a taken email is a conflict; the insert is never attempted
    ensures lookupFault.None? && EmailInUse(old(repo.rows), command.email) ==>
      r == Failure(Sentinel(EmailAlreadyExists)) && unchanged(repo)
    ensures lookupFault.None? && !EmailInUse(old(repo.rows), command.email) && hasher.generate(command.password).Failure? ==>
      r == Failure(Wrapped("failed to hash password", hasher.generate(command.password).error)) && unchanged(repo)
    ensures lookupFault.None? && !EmailInUse(old(repo.rows), command.email) && hasher.generate(command.password).Success? ==>
      && (createFault.Some? ==> r == Failure(Wrapped("failed to create user", createFault.value)))
      && (createFault.None? && old(repo.nextId) in old(repo.rows) ==> r == Failure(Wrapped("failed to create user", ErrUniqueViolation)))
      && (createFault.None? && old(repo.nextId) !in old(repo.rows) ==> r.Success? && r.value.id == old(repo.nextId))
    ensures r.Failure? ==> repo.rows == old(repo.rows)
    // the ID sequence advances exactly when the insert is attempted, whether or not it succeeds
    ensures repo.nextId ==
      if lookupFault.None? && !EmailInUse(old(repo.rows), command.email)
         && hasher.generate(command.password).Success? && createFault.None?
      then old(repo.nextId) + 1 else old(repo.nextId)
    // on success exactly one row is added: the command's fields, the hash, the clock, a fresh ID
    ensures r.Success? ==>
      && hasher.generate(command.password).Success?
      && r.value.id != 0 && r.value.id !in old(repo.rows)
      && repo.rows == old(repo.rows)[r.value.id := WithID(NewUser(command, hasher.generate(command.password).value, createdAt, updatedAt), r.value.id)]
      && r.value == ToDTO(repo.rows[r.value.id])
  {
    var existing := repo.GetByEmail(command.email, lookupFault);
    if existing.Failure? {
      return Failure(existing.error);
    }
    if existing.value.Some? {
      return Failure(Sentinel(EmailAlreadyExists));
    }

    var hashed := hasher.generate(command.password);
    if hashed.Failure? {
      return Failure(Wrapped("failed to hash password", hashed.error));
    }

    var user := NewUser(command, hashed.value, createdAt, updatedAt);
    var created := repo.Create(user, createFault);
    if created.Failure? {
      return Failure(Wrapped("failed to create user", created.error));
    }
    return Success(ToDTO(created.value));
  }
}
