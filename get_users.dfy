/** application/queries/get_users.go: every stored user, each turned into its DTO. */
module GetUsers {
  import opened Wrappers
  import opened Errors
  import opened Entities
  import opened UserRepository

  datatype GetUsersQuery = GetUsersQuery

  /** `dtos[i]` is the DTO of `users[i]`, for every i. */
  ghost predicate ProjectsInOrder(dtos: seq<UserDTO>, users: seq<User>) {
    |dtos| == |users| && forall i :: 0 <= i < |users| ==> dtos[i] == ToDTO(users[i])
  }

  /**
   * `GetUsersHandler.Handle`: the store's error unchanged; otherwise a fresh slice as long as the
   * user list, filled index by index with DTOs, so an empty store gives an empty list.
   */
  method Handle(repo: UserStore, query: GetUsersQuery, fault: Option<Error>) returns (r: Result<seq<UserDTO>, Error>)
    requires repo.Valid()
    ensures fault.Some? ==> r == Failure(fault.value)
    ensures fault.None? ==> r.Success? && |r.value| == |repo.rows|
    ensures fault.None? ==> exists users :: ListsEachOnce(users, repo.rows) && ProjectsInOrder(r.value, users)
    ensures r.Success? ==> forall i :: 0 <= i < |r.value| ==>
      r.value[i].id in repo.rows && r.value[i] == ToDTO(repo.rows[r.value[i].id])
  {
    var got := repo.GetAll(fault);
    if got.Failure? {
      return Failure(got.error);
    }
    var users := got.value;
    var userDTOs := new UserDTO[|users|](_ => ZeroDTO);
    for i := 0 to |users|
      invariant forall j :: 0 <= j < i ==> userDTOs[j] == ToDTO(users[j])
    {
      userDTOs[i] := ToDTO(users[i]);
    }
    assert ProjectsInOrder(userDTOs[..], users);
    return Success(userDTOs[..]);
  }
}
