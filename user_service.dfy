/**
 * application/services/user_service.go: the user service's query and delete entry points, and
 * the adapter that presents a generic repository as the user store.
 */
module UserService {
  import opened Wrappers
  import opened Errors
  import opened Entities
  import opened UserRepository
  import ById = GetUserById
  import ByEmail = GetUserByEmail
  import Deletion = DeleteUser

  /** `UserService.GetUserByID`: the query carries `id` unchanged. */
  function GetUserByID(repo: UserStore, id: nat, fault: Option<Error>): (r: Result<UserDTO, Error>)
    reads repo
    ensures fault.None? && id in repo.rows ==> r == Success(ToDTO(repo.rows[id]))
    ensures fault.None? && id !in repo.rows ==> r == Failure(Sentinel(NotFound))
    ensures fault.Some? ==> r == Failure(fault.value)
  {
    ById.Handle(repo, ById.GetUserByIDQuery(id), fault)
  }

  /** `UserService.GetUserByEmail`: the query carries `email` unchanged. */
  function GetUserByEmail(repo: UserStore, email: string, fault: Option<Error>): (r: Result<UserDTO, Error>)
    reads repo
    requires repo.Valid()
    ensures fault.None? && !EmailInUse(repo.rows, email) ==> r == Failure(Sentinel(NotFound))
    ensures fault.None? && EmailInUse(repo.rows, email) ==> r.Success?
    ensures r.Success? ==> exists k :: k in repo.rows && repo.rows[k].email == email && r.value == ToDTO(repo.rows[k])
    ensures fault.Some? ==> r == Failure(fault.value)
  {
    ByEmail.Handle(repo, ByEmail.GetUserByEmailQuery(email), fault)
  }

  /**
   * `UserService.DeleteUser`: of the handler's two results, the second if it is an error,
   * otherwise the first (which the handler always leaves nil).
   */
  method DeleteUser(repo: UserStore, id: nat, lookupFault: Option<Error>, deleteFault: Option<Error>)
    returns (err: Option<Error>)
    requires repo.Valid()
    modifies repo
    ensures repo.Valid()
    ensures lookupFault.Some? ==> err == lookupFault
    ensures lookupFault.None? && id !in old(repo.rows) ==> err == Some(Sentinel(NotFound))
    ensures lookupFault.None? && id in old(repo.rows) ==> err == deleteFault
    ensures err.Some? ==> repo.rows == old(repo.rows)
    ensures repo.nextId == old(repo.nextId)
    ensures err.None? <==> id in old(repo.rows) && repo.rows == old(repo.rows) - {id} && lookupFault.None? && deleteFault.None?
  {
    var resp, dispatchErr := Deletion.Handle(repo, Deletion.DeleteUserCommand(id), lookupFault, deleteFault);
    if dispatchErr.Some? {
      return dispatchErr;
    }
    return resp;
  }

  /**
   * `UserRepositoryAdapter.GetAll`: the generic repository's `FindAll` result, a list of
   * possibly-nil pointers, copied into a list of users; a nil pointer leaves the zero user.
   */
  method AdapterGetAll(findAll: Result<seq<Option<User>>, Error>) returns (r: Result<seq<User>, Error>)
    ensures findAll.Failure? ==> r == Failure(findAll.error)
    ensures findAll.Success? ==> r.Success? && |r.value| == |findAll.value|
    ensures findAll.Success? ==> forall i :: 0 <= i < |r.value| ==>
      r.value[i] == (if findAll.value[i].Some? then findAll.value[i].value else ZeroUser)
  {
    if findAll.Failure? {
      return Failure(findAll.error);
    }
    var ptrUsers := findAll.value;
    var users := new User[|ptrUsers|](_ => ZeroUser);
    for i := 0 to |ptrUsers|
      invariant forall j :: 0 <= j < i ==>
        users[j] == (if ptrUsers[j].Some? then ptrUsers[j].value else ZeroUser)
      invariant forall j :: i <= j < |ptrUsers| ==> users[j] == ZeroUser
    {
      if ptrUsers[i].Some? {
        users[i] := ptrUsers[i].value;
      }
    }
    return Success(users[..]);
  }

  /** gorm's error for a `First` that matches no row. */
  const ErrRecordNotFound := Other("record not found")

  const ErrCastFailed := Other("failed to cast repository for GetByEmail operation")

  /** gorm's `First` on `email = ?`: the matching row, or `ErrRecordNotFound`. */
  function FirstByEmail(repo: UserStore, email: string, fault: Option<Error>): (r: Result<User, Error>)
    reads repo
    requires repo.Valid()
    ensures fault.None? ==> (r.Success? <==> EmailInUse(repo.rows, email))
    ensures fault.None? && r.Failure? ==> r.error == ErrRecordNotFound
    ensures r.Success? ==> r.value.id in repo.rows && repo.rows[r.value.id] == r.value && r.value.email == email
  {
    match repo.GetByEmail(email, fault)
    case Failure(err) => Failure(err)
    case Success(None) => Failure(ErrRecordNotFound)
    case Success(Some(user)) => Success(user)
  }

  /**
   * `UserRepositoryAdapter.GetByEmail`. `castOk` says whether the generic repository is the
   * PostgreSQL one the adapter needs; when it is, not-found becomes an absent user with no error.
   */
  function AdapterGetByEmail(repo: UserStore, castOk: bool, email: string, fault: Option<Error>)
    : (r: Result<Option<User>, Error>)
    reads repo
    requires repo.Valid()
    ensures !castOk ==> r == Failure(ErrCastFailed)
    ensures castOk && fault.Some? && Root(fault.value) != ErrRecordNotFound ==> r == Failure(fault.value)
    ensures castOk && fault.None? ==> r == repo.GetByEmail(email, None)
  {
    if !castOk then Failure(ErrCastFailed)
    else
      match FirstByEmail(repo, email, fault)
      case Failure(err) => if Root(err) == ErrRecordNotFound then Success(None) else Failure(err)
      case Success(user) => Success(Some(user))
  }
}
