/** application/commands/update_user.go: changing an existing user's email, names and password. */
module UpdateUser {
  import opened Wrappers
  import opened Errors
  import opened Entities
  import opened UserRepository
  import opened Bcrypt

  /** An empty `password` means "keep the current one". */
  datatype UpdateUserCommand = UpdateUserCommand(id: nat, email: string, password: string, firstName: string, lastName: string)

  /**
   * The record the handler saves: the loaded user with the command's email and names (even empty
   * ones), `now` as UpdatedAt, and `newHash` as password when a new password was given.
   */
  function Edited(user: User, command: UpdateUserCommand, now: Time, newHash: string): (u: User)
    ensures u.id == user.id && u.createdAt == user.createdAt && u.updatedAt == now
    ensures u.email == command.email && u.firstName == command.firstName && u.lastName == command.lastName
    ensures u.password == if command.password == "" then user.password else newHash
  {
    user.(email := command.email, firstName := command.firstName, lastName := command.lastName,
          updatedAt := now, password := if command.password == "" then user.password else newHash)
  }

  /** The email check passes: the email is unchanged, or no other user holds the new one. */
  ghost predicate EmailFree(rows: map<nat, User>, command: UpdateUserCommand) {
    command.id in rows && (rows[command.id].email == command.email || !EmailHeldByOther(rows, command.email, command.id))
  }

  /**
   * `UpdateUserHandler.Handle`. `now` is the clock reading for UpdatedAt; `byIdFault`,
   * `byEmailFault` and `updateFault` are what the database reports for the two lookups and the save.
   */
  method Handle(repo: UserStore, command: UpdateUserCommand, hasher: Hasher, now: Time,
                byIdFault: Option<Error>, byEmailFault: Option<Error>, updateFault: Option<Error>)
    returns (r: Result<UserDTO, Error>)
    requires repo.Valid()
    modifies repo
    ensures repo.Valid()
    ensures byIdFault.Some? ==> r == Failure(byIdFault.value) && unchanged(repo)
    ensures byIdFault.None? && command.id !in old(repo.rows) ==> r == Failure(Sentinel(NotFound)) && unchanged(repo)
    // the email lookup happens only when the email changes
    ensures byIdFault.None? && command.id in old(repo.rows) && old(repo.rows)[command.id].email != command.email ==>
      && (byEmailFault.Some? ==> r == Failure(byEmailFault.value) && unchanged(repo))
      && (byEmailFault.None? && EmailHeldByOther(old(repo.rows), command.email, command.id) ==>
            r == Failure(Sentinel(Conflict)) && unchanged(repo))
    // the password is hashed only when one is given; a hashing error comes back unwrapped
    ensures byIdFault.None? && EmailFree(old(repo.rows), command) && (old(repo.rows)[command.id].email != command.email ==> byEmailFault.None?) ==>
      && (command.password != "" && hasher.generate(command.password).Failure? ==>
            r == Failure(hasher.generate(command.password).error) && unchanged(repo))
      && (command.password == "" || hasher.generate(command.password).Success? ==>
            (updateFault.Some? ==> r == Failure(updateFault.value)) && (updateFault.None? ==> r.Success?))
    ensures r.Failure? ==> repo.rows == old(repo.rows)
    ensures repo.nextId == old(repo.nextId)
    ensures r.Success? ==>
      && command.id in old(repo.rows)
      && (command.password != "" ==> hasher.generate(command.password).Success?)
      && var saved := Edited(old(repo.rows)[command.id], command, now,
                             if command.password == "" then "" else hasher.generate(command.password).value);
         repo.rows == old(repo.rows)[command.id := saved] && r.value == ToDTO(saved)
  {
    var found := repo.GetByID(command.id, byIdFault);
    if found.Failure? {
      return Failure(found.error);
    }
    if found.value.None? {
      return Failure(Sentinel(NotFound));
    }
    var user := found.value.value;

    if user.email != command.email {
      var existing := repo.GetByEmail(command.email, byEmailFault);
      if existing.Failure? {
        return Failure(existing.error);
      }
      if existing.value.Some? && existing.value.value.id != command.id {
        return Failure(Sentinel(Conflict));
      }
    }

    var newHash := "";
    if command.password != "" {
      var hashed := hasher.generate(command.password);
      if hashed.Failure? {
        return Failure(hashed.error);
      }
      newHash := hashed.value;
    }
    user := Edited(user, command, now, newHash);

    var saved := repo.Update(user, updateFault);
    if saved.Failure? {
      return Failure(saved.error);
    }
    return Success(ToDTO(user));
  }
}
