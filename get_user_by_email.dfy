/** application/queries/get_user_by_email.go: a read-through to the store by exact email. */
module GetUserByEmail {
  import opened Wrappers
  import opened Errors
  import opened Entities
  import opened UserRepository

  datatype GetUserByEmailQuery = GetUserByEmailQuery(email: string)

  /**
   * `GetUserByEmailHandler.Handle`: the lookup's error unchanged, `ErrNotFound` when no stored
   * user has exactly this email, otherwise that user's DTO. It only reads the store.
   */
  function Handle(repo: UserStore, query: GetUserByEmailQuery, fault: Option<Error>): (r: Result<UserDTO, Error>)
    reads repo
    requires repo.Valid()
    ensures fault.Some? ==> r == Failure(fault.value)
    ensures fault.None? && !EmailInUse(repo.rows, query.email) ==> r == Failure(Sentinel(NotFound))
    ensures fault.None? && EmailInUse(repo.rows, query.email) ==> r.Success?
    ensures r.Success? ==>
      && r.value.id in repo.rows
      && repo.rows[r.value.id].email == query.email
      && r.value == ToDTO(repo.rows[r.value.id])
  {
    match repo.GetByEmail(query.email, fault)
    case Failure(err) => Failure(err)
    case Success(None) => Failure(Sentinel(NotFound))
    case Success(Some(user)) => Success(ToDTO(user))
  }
}
