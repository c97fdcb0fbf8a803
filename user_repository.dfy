/**
 * interfaces/repositories/user_repository.go: the six-operation user store, with the
 * behaviour of its PostgreSQL implementation (infrastructure/database/postgres_user_repository.go):
 * a lookup that finds nothing gives an absent value and no error, `Save` writes the whole
 * record, and the table's unique index on email rejects a second user with the same email.
 *
 * Each operation takes `fault`: the error the database reports for that call, if any
 * (a lost connection, a cancelled context). A faulted call changes nothing.
 */
module UserRepository {
  import opened Wrappers
  import opened Errors
  import opened Entities

  /** The database's error for an insert or update that breaks the primary key or the email index. */
  const ErrUniqueViolation := Other("duplicate key value violates unique constraint")

  ghost predicate EmailInUse(rows: map<nat, User>, email: string) {
    exists k :: k in rows && rows[k].email == email
  }

  /** A stored user other than the one with ID `except` has this email. */
  ghost predicate EmailHeldByOther(rows: map<nat, User>, email: string, except: nat) {
    exists k :: k in rows && k != except && rows[k].email == email
  }

  /** Every row is stored under its own ID. */
  ghost predicate KeyedById(rows: map<nat, User>) {
    forall k :: k in rows ==> rows[k].id == k
  }

  ghost predicate UniqueEmails(rows: map<nat, User>) {
    forall i, j :: i in rows && j in rows && rows[i].email == rows[j].email ==> i == j
  }

  /** `users` lists every stored user exactly once (a table scan has no particular order). */
  ghost predicate ListsEachOnce(users: seq<User>, rows: map<nat, User>) {
    && |users| == |rows|
    && (forall i :: 0 <= i < |users| ==> users[i].id in rows && rows[users[i].id] == users[i])
    && (forall i, j :: 0 <= i < j < |users| ==> users[i].id != users[j].id)
    && IdsOf(users) == rows.Keys
  }

  /** The IDs appearing in a list of users. */
  ghost function IdsOf(users: seq<User>): set<nat> {
    set i | 0 <= i < |users| :: users[i].id
  }

  /** Part way through a table scan: `users` lists each row whose key is in `seen` exactly once. */
  ghost predicate ListsSeen(users: seq<User>, rows: map<nat, User>, seen: set<nat>) {
    && seen <= rows.Keys
    && |users| == |seen|
    && (forall i :: 0 <= i < |users| ==> users[i].id in seen && rows[users[i].id] == users[i])
    && (forall i, j :: 0 <= i < j < |users| ==> users[i].id != users[j].id)
    && IdsOf(users) == seen
  }

  lemma ListsSeenStep(users: seq<User>, rows: map<nat, User>, seen: set<nat>, k: nat)
    requires ListsSeen(users, rows, seen)
    requires k in rows && k !in seen && rows[k].id == k
    ensures ListsSeen(users + [rows[k]], rows, seen + {k})
  {
    var next := users + [rows[k]];
    assert IdsOf(next) == IdsOf(users) + {k} by {
      assert forall i :: 0 <= i < |users| ==> next[i] == users[i];
      assert next[|users|].id == k;
    }
  }

  /** The key an insert uses: the next sequence value for a zero ID, the record's own ID otherwise. */
  function InsertKey(u: User, nextId: nat): nat {
    if u.id == 0 then nextId else u.id
  }

  class UserStore {
    /** The `users` table, by primary key. */
    var rows: map<nat, User>
    /** The unique index on email. */
    var byEmail: map<string, nat>
    /** The next value of the ID sequence. */
    var nextId: nat

    ghost predicate Valid()
      reads this
      ensures Valid() ==> UniqueEmails(rows)
    {
      && nextId >= 1
      && 0 !in rows
      && KeyedById(rows)
      && (forall k :: k in rows ==> rows[k].email in byEmail)
      && UniqueEmails(rows)
      && (forall e {:trigger byEmail[e]} :: e in byEmail ==> byEmail[e] in rows && rows[byEmail[e]].email == e)
    }

    constructor ()
      ensures Valid() && rows == map[] && nextId == 1
    {
      rows, byEmail, nextId := map[], map[], 1;
    }

    /** `GetByID`: the user with that ID, or an absent value (not an error) when there is none. */
    function GetByID(id: nat, fault: Option<Error>): (r: Result<Option<User>, Error>)
      reads this
      ensures fault.Some? ==> r == Failure(fault.value)
      ensures fault.None? ==> r.Success? && (r.value.Some? <==> id in rows)
      ensures r.Success? && r.value.Some? ==> id in rows && r.value.value == rows[id]
    {
      if fault.Some? then Failure(fault.value)
      else if id in rows then Success(Some(rows[id]))
      else Success(None)
    }

    /** `GetByEmail`: the user whose email equals `email` exactly, or an absent value. */
    function GetByEmail(email: string, fault: Option<Error>): (r: Result<Option<User>, Error>)
      reads this
      requires Valid()
      ensures fault.Some? ==> r == Failure(fault.value)
      ensures fault.None? ==> r.Success? && (r.value.Some? <==> EmailInUse(rows, email))
      ensures r.Success? && r.value.Some? ==>
        var u := r.value.value; u.id in rows && rows[u.id] == u && u.email == email
    {
      if fault.Some? then Failure(fault.value)
      else if email in byEmail then
        var k := byEmail[email];
        assert rows[k].email == email;
        Success(Some(rows[k]))
      else Success(None)
    }

    /** `GetAll`: every stored user once; an empty table gives an empty sequence, not an error. */
    method GetAll(fault: Option<Error>) returns (r: Result<seq<User>, Error>)
      requires KeyedById(rows)
      ensures fault.Some? ==> r == Failure(fault.value)
      ensures fault.None? ==> r.Success? && ListsEachOnce(r.value, rows)
    {
      if fault.Some? {
        return Failure(fault.value);
      }
      var users: seq<User> := [];
      var remaining := rows.Keys;
      ghost var seen: set<nat> := {};
      while remaining != {}
        invariant remaining <= rows.Keys && seen == rows.Keys - remaining
        invariant ListsSeen(users, rows, seen)
        decreases remaining
      {
        var k :| k in remaining;
        ListsSeenStep(users, rows, seen, k);
        users := users + [rows[k]];
        remaining := remaining - {k};
        seen := seen + {k};
      }
      assert seen == rows.Keys;
      assert |rows.Keys| == |rows|;
      return Success(users);
    }

    /**
     * `Create`: inserts the record; a zero ID takes the next sequence value, which is used up
     * even when the insert then fails. The stored record, with its ID, is returned: gorm writes
     * the ID back into the caller's struct.
     */
    method Create(u: User, fault: Option<Error>) returns (r: Result<User, Error>)
      requires Valid()
      modifies this
      ensures Valid()
      ensures fault.Some? ==> r == Failure(fault.value) && rows == old(rows) && nextId == old(nextId)
      ensures fault.None? ==> nextId == if u.id == 0 then old(nextId) + 1 else old(nextId)
      ensures fault.None? ==>
        var key := InsertKey(u, old(nextId));
        && (r.Success? <==> key !in old(rows) && !EmailInUse(old(rows), u.email))
        && (r.Success? ==> r.value == WithID(u, key) && rows == old(rows)[key := r.value])
        && (r.Failure? ==> r.error == ErrUniqueViolation)
      ensures r.Failure? ==> rows == old(rows)
    {
      if fault.Some? {
        return Failure(fault.value);
      }
      var key := InsertKey(u, nextId);
      if u.id == 0 {
        nextId := nextId + 1;
      }
      if key in rows || u.email in byEmail {
        assert u.email in byEmail ==> rows[byEmail[u.email]].email == u.email;
        return Failure(ErrUniqueViolation);
      }
      var stored := WithID(u, key);
      rows := rows[key := stored];
      byEmail := byEmail[u.email := key];
      return Success(stored);
    }

    /**
     * `Update` (gorm's `Save`): overwrites every field of the row with the record's ID, inserting
     * it when no such row exists; a record with a zero ID is inserted as by `Create`.
     */
    method Update(u: User, fault: Option<Error>) returns (r: Result<User, Error>)
      requires Valid()
      modifies this
      ensures Valid()
      ensures fault.Some? ==> r == Failure(fault.value) && rows == old(rows) && nextId == old(nextId)
      ensures fault.None? && u.id != 0 ==>
        && nextId == old(nextId)
        && (r.Success? <==> !EmailHeldByOther(old(rows), u.email, u.id))
        && (r.Success? ==> r.value == u && rows == old(rows)[u.id := u])
        && (r.Failure? ==> r.error == ErrUniqueViolation)
      ensures fault.None? && u.id == 0 ==>
        && nextId == old(nextId) + 1
        && (r.Success? <==> old(nextId) !in old(rows) && !EmailInUse(old(rows), u.email))
        && (r.Success? ==> r.value == WithID(u, old(nextId)) && rows == old(rows)[old(nextId) := r.value])
        && (r.Failure? ==> r.error == ErrUniqueViolation)
      ensures r.Failure? ==> rows == old(rows)
    {
      if fault.Some? {
        return Failure(fault.value);
      }
      if u.id == 0 {
        r := Create(u, None);
        return;
      }
      if u.email in byEmail && byEmail[u.email] != u.id {
        assert rows[byEmail[u.email]].email == u.email;
        return Failure(ErrUniqueViolation);
      }
      if u.id in rows {
        byEmail := byEmail - {rows[u.id].email};
      }
      byEmail := byEmail[u.email := u.id];
      rows := rows[u.id := u];
      return Success(u);
    }

    /** `Delete`: removes the row with that ID, if any; every other row is untouched. */
    method Delete(id: nat, fault: Option<Error>) returns (err: Option<Error>)
      requires Valid()
      modifies this
      ensures Valid() && nextId == old(nextId)
      ensures err == fault
      ensures fault.Some? ==> rows == old(rows)
      ensures fault.None? ==> rows == old(rows) - {id}
    {
      if fault.Some? {
        return fault;
      }
      if id in rows {
        byEmail := byEmail - {rows[id].email};
      }
      rows := rows - {id};
      return None;
    }
  }
}
