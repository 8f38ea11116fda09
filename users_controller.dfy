/** The user handlers' decisions. Registration answers 201, or 500 when the
    store refuses a duplicate email; lookups by username answer 404 for an
    unknown user and change nothing. Token issuance and cookies are not part
    of this model. */
module UsersController {
  import opened Wrappers
  import opened Models
  import opened Http
  import Tables
  import UsersRepo
  import UsersService
  import Store

  /** `createUser`: `about` is accepted but not passed on. The service
      answers a user or throws, so the 422 branch is never taken: a duplicate
      email ends in 500 and stores nothing. */
  method CreateUser(store: Store.Store, username: string, email: string, password: string, about: string,
                    saltedHash: string -> string, now: Time) returns (resp: Response)
    modifies store
    ensures resp.status != UNPROCESSABLE_CONTENT_422
    ensures resp.status == INTERNAL_SERVER_ERROR_500 <==> UsersRepo.CheckIfEmailIsAlreadyOccupied(old(store.Snapshot()), email)
    ensures resp.status == INTERNAL_SERVER_ERROR_500 ==> store.Snapshot() == old(store.Snapshot())
    ensures resp.status != INTERNAL_SERVER_ERROR_500 ==>
      (resp.status == CREATED_201
      && store.Snapshot() == UsersRepo.CreateUser(old(store.Snapshot()), UsersService.UserRecord(username, email, saltedHash(password)), now).0)
    ensures old(Valid(store.Snapshot())) ==> Valid(store.Snapshot())
    ensures old(Valid(store.Snapshot()) && Consistent(store.Snapshot())) ==> Consistent(store.Snapshot())
  {
    var user := UsersService.CreateUser(store, username, email, password, saltedHash, now);
    if user.Failure? {
      return Response(INTERNAL_SERVER_ERROR_500, Message("Register failed"));
    }
    resp := Response(CREATED_201, Message("User successfully Registered and Logged in"));
  }

  /** The lookup `readUser` performs: the first user with that username. */
  function FindByUsername(db: Db, username: string): (r: Option<User>)
    ensures r.Some? ==> r.value in UsersRepo.AllUsers(db) && r.value.username == username
    ensures r.None? ==> forall x :: x in UsersRepo.AllUsers(db) ==> x.username != username
  {
    Tables.FindFirst(UsersRepo.AllUsers(db), (u: User) => u.username == username)
  }

  /** `readUser`: 404 for an unknown username, otherwise 200 and the user. */
  function ReadUser(db: Db, username: string): (r: Response)
    ensures r.status == OK_200 || r.status == NOT_FOUND_404
    ensures r.status == OK_200 ==> r.body.UserBody? && r.body.user.username == username
  {
    match FindByUsername(db, username)
    case None => Response(NOT_FOUND_404, Message("User not found"))
    case Some(u) => Response(OK_200, UserBody(u))
  }

  lemma ReadUserAnswers(db: Db, username: string)
    requires UsersKeyed(db.users, db.nextId)
    ensures var r := ReadUser(db, username);
      && (r.status == NOT_FOUND_404 <==> forall k :: k in db.users ==> db.users[k].username != username)
      && (r.status == OK_200 ==> (r.body.UserBody? && r.body.user.username == username
        && r.body.user.id in db.users && db.users[r.body.user.id] == r.body.user))
  {
    var r := ReadUser(db, username);
    if r.status == NOT_FOUND_404 {
      forall k | k in db.users ensures db.users[k].username != username {
        assert db.users[k] in UsersRepo.AllUsers(db);
      }
    }
  }

  /** `updateUser`: the requester is looked up by username; 404 and no
      change when missing, otherwise only `about` is set and 200. */
  method UpdateUser(store: Store.Store, requesterName: string, about: string) returns (resp: Response)
    modifies store
    ensures var found := UsersRepo.FindByLoginOrEmail(old(store.Snapshot()), requesterName);
      && (resp.status == NOT_FOUND_404 <==> found.None?)
      && (found.None? ==> store.Snapshot() == old(store.Snapshot()))
      && (found.Some? ==> (resp.status == OK_200
        && store.Snapshot() == UsersRepo.UpdateUser(old(store.Snapshot()), found.value.id, about).0))
    ensures old(Valid(store.Snapshot())) ==> Valid(store.Snapshot())
    ensures old(Valid(store.Snapshot()) && Consistent(store.Snapshot())) ==> Consistent(store.Snapshot())
  {
    ghost var db := store.Snapshot();
    var user := UsersRepo.FindByLoginOrEmail(store.Snapshot(), requesterName);
    if user.None? {
      return Response(NOT_FOUND_404, Message("User not found"));
    }
    var _ := store.UpdateUser(user.value.id, about);
    if Valid(db) {
      UsersRepo.UpdateUserKeepsInvariants(db, user.value.id, about);
    }
    resp := Response(OK_200, Message("User info updated"));
  }

  /** `deleteUser`: 404 and no change for an unknown user, otherwise the
      user document alone is removed and 200. */
  method DeleteUser(store: Store.Store, username: string) returns (resp: Response)
    modifies store
    ensures var found := UsersRepo.FindByLoginOrEmail(old(store.Snapshot()), username);
      && (resp.status == NOT_FOUND_404 <==> found.None?)
      && (found.None? ==> store.Snapshot() == old(store.Snapshot()))
      && (found.Some? ==> (resp.status == OK_200
        && store.Snapshot() == old(store.Snapshot()).(users := old(store.users) - {found.value.id})))
    ensures old(Valid(store.Snapshot())) ==> Valid(store.Snapshot())
  {
    ghost var db := store.Snapshot();
    var user := UsersRepo.FindByLoginOrEmail(store.Snapshot(), username);
    if user.None? {
      return Response(NOT_FOUND_404, Message("User not found"));
    }
    var _ := store.DeleteUser(user.value.id);
    if Valid(db) {
      UsersRepo.DeleteUserKeepsValid(db, user.value.id);
    }
    resp := Response(OK_200, Message("Deleted"));
  }
}
