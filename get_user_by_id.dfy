/** application/queries/get_user_by_id.go: a read-through to the store by ID. */
module GetUserById {
  import opened Wrappers
  import opened Errors
  import opened Entities
  import opened UserRepository

  datatype GetUserByIDQuery = GetUserByIDQuery(id: nat)

  /**
   * `GetUserByIDHandler.Handle`: the lookup's error unchanged, `ErrNotFound` for an absent
   * user, otherwise the user's DTO. It only reads the store.
   */
  function Handle(repo: UserStore, query: GetUserByIDQuery, fault: Option<Error>): (r: Result<UserDTO, Error>)
    reads repo
    ensures fault.Some? ==> r == Failure(fault.value)
    ensures fault.None? && query.id !in repo.rows ==> r == Failure(Sentinel(NotFound))
    ensures fault.None? && query.id in repo.rows ==> r == Success(ToDTO(repo.rows[query.id]))
  {
    match repo.GetByID(query.id, fault)
    case Failure(err) => Failure(err)
    case Success(None) => Failure(Sentinel(NotFound))
    case Success(Some(user)) => Success(ToDTO(user))
  }
}
