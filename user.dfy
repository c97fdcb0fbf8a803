/**
 * domain/entities/user.go: the `User` record, its password-free projection `UserDTO`,
 * and the `GetID`/`SetID` accessors.
 *
 * Go strings are never nil, so the "not null" column constraints hold of every value of
 * these types; email uniqueness is a property of the store (UserRepository.UserStore.Valid).
 */
module Entities {

  /** A `time.Time`, as nanoseconds since the Unix epoch. */
  type Time = int

  datatype User = User(
    id: nat,
    email: string,
    password: string,   // the bcrypt hash; never part of a UserDTO
    firstName: string,
    lastName: string,
    createdAt: Time,
    updatedAt: Time)

  /** What crosses the API boundary: every field of a User except its password. */
  datatype UserDTO = UserDTO(
    id: nat,
    email: string,
    firstName: string,
    lastName: string,
    createdAt: Time,
    updatedAt: Time)

  /** Go's zero `User{}`. */
  const ZeroUser := User(0, "", "", "", "", 0, 0)

  /** Go's zero `UserDTO{}`. */
  const ZeroDTO := UserDTO(0, "", "", "", 0, 0)

  /** `ToDTO`: copies ID, Email, FirstName, LastName, CreatedAt and UpdatedAt. */
  function ToDTO(u: User): (d: UserDTO)
    ensures d.id == u.id && d.email == u.email
    ensures d.firstName == u.firstName && d.lastName == u.lastName
    ensures d.createdAt == u.createdAt && d.updatedAt == u.updatedAt
  {
    UserDTO(u.id, u.email, u.firstName, u.lastName, u.createdAt, u.updatedAt)
  }

  /** Two users have the same DTO exactly when they differ at most in their password. */
  lemma ToDTOForgetsOnlyPassword(u: User, v: User)
    ensures ToDTO(u) == ToDTO(v) <==> u.(password := v.password) == v
  {
  }

  /** `GetID` */
  function GetID(u: User): (id: nat)
    ensures id == u.id
  {
    u.id
  }

  /**
   * `SetID` AS WRITTEN: the receiver is a value, so the assignment lands on a copy.
   * The result is the caller's `User` after the call.
   */
  function SetID(u: User, id: nat): (caller: User)
    ensures caller == u
  {
    var copy := u.(id := id);
    u
  }

  /** The ID the caller sees is not the one it asked for: SetID(u, 2) on a user with ID 1. */
  lemma SetIDIsNoOp()
    ensures var u := ZeroUser.(id := 1); GetID(SetID(u, 2)) != 2
  {
  }

  /** The intended `SetID` (a pointer receiver): the ID is replaced and nothing else changes. */
  function WithID(u: User, id: nat): (r: User)
    ensures GetID(r) == id
    ensures r.(id := u.id) == u
    ensures ToDTO(r).id == id
  {
    u.(id := id)
  }
}
