/** application/commands/delete_user.go: removing a user, with the handler's `(error, error)` result. */
module DeleteUser {
  import opened Wrappers
  import opened Errors
  import opened Entities
  import opened UserRepository

  datatype DeleteUserCommand = DeleteUserCommand(id: nat)

  /**
   * `DeleteUserHandler.Handle`: the first slot is always nil, the second carries the outcome.
   * `lookupFault` and `deleteFault` are what the database reports for the lookup and the delete.
   */
  method Handle(repo: UserStore, command: DeleteUserCommand, lookupFault: Option<Error>, deleteFault: Option<Error>)
    returns (response: Option<Error>, err: Option<Error>)
    requires repo.Valid()
    modifies repo
    ensures repo.Valid()
    ensures response == None
    ensures lookupFault.Some? ==> err == lookupFault && unchanged(repo)
    ensures lookupFault.None? && command.id !in old(repo.rows) ==> err == Some(Sentinel(NotFound)) && unchanged(repo)
    ensures lookupFault.None? && command.id in old(repo.rows) ==> err == deleteFault
    ensures err.Some? ==> repo.rows == old(repo.rows)
    ensures repo.nextId == old(repo.nextId)
    // a successful delete removes that one user and leaves every other user as it was
    ensures err.None? ==>
      && command.id in old(repo.rows)
      && repo.rows == old(repo.rows) - {command.id}
      && repo.GetByID(command.id, None) == Success(None)
  {
    var user := repo.GetByID(command.id, lookupFault);
    if user.Failure? {
      return None, Some(user.error);
    }
    if user.value.None? {
      return None, Some(Sentinel(NotFound));
    }
    err := repo.Delete(command.id, deleteFault);
    return None, err;
  }
}
