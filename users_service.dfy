/** The user service: the record a registration stores, and the credential
    check. Salting and hashing, and the comparison of a password with a
    stored hash, are cryptographic calls modelled as functions the caller
    supplies. */
module UsersService {
  import opened Wrappers
  import opened Text
  import opened Models
  import UsersRepo
  import Store

  /** The record `createUser` hands to the repository: role "basic", the
      salted hash in place of the password, and four empty lists. */
  function UserRecord(login: string, email: string, hashedPassword: string): (r: UserInput)
    ensures r.role == "basic" && r.username == login && r.email == email && r.password == hashedPassword
    ensures r.comments == [] && r.likedComments == [] && r.likedGossips == [] && r.gossips == []
  {
    UserInput(login, email, hashedPassword, "basic", [], [], [], [])
  }

  /** `createUser`: hashes the password and stores the user; an email already
      held fails in the repository and stores nothing. */
  method CreateUser(store: Store.Store, login: string, email: string, password: string,
                    saltedHash: string -> string, now: Time) returns (r: Result<User, UsersRepo.UserError>)
    modifies store
    ensures (store.Snapshot(), r) == UsersRepo.CreateUser(old(store.Snapshot()), UserRecord(login, email, saltedHash(password)), now)
    ensures r.Failure? <==> UsersRepo.CheckIfEmailIsAlreadyOccupied(old(store.Snapshot()), email)
    ensures r.Success? ==> (r.value.password == saltedHash(password) && r.value.role == "basic"
      && r.value.username == login && r.value.email == Lower(email)
      && r.value.gossips == [] && r.value.comments == [] && r.value.likedGossips == [] && r.value.likedComments == [])
    ensures old(Valid(store.Snapshot())) ==> Valid(store.Snapshot())
    ensures old(Valid(store.Snapshot()) && Consistent(store.Snapshot())) ==> Consistent(store.Snapshot())
  {
    ghost var db := store.Snapshot();
    var hashedPassword := saltedHash(password);
    var record := UserInput(login, email, hashedPassword, "basic", [], [], [], []);
    r := store.CreateUser(record, now);
    if Valid(db) {
      UsersRepo.CreateUserKeepsValid(db, record, now);
      if Consistent(db) {
        UsersRepo.CreateUserKeepsConsistent(db, record, now);
      }
    }
  }

  /** `checkCredentials`: the user found by login or email, provided the
      password matches its stored hash; None otherwise. */
  function CheckCredentials(db: Db, loginOrEmail: string, password: string,
                            compare: (string, string) -> bool): (r: Option<User>)
    ensures r.Some? ==> r == UsersRepo.FindByLoginOrEmail(db, loginOrEmail) && compare(password, r.value.password)
  {
    var user := UsersRepo.FindByLoginOrEmail(db, loginOrEmail);
    if user.None? then None
    else if compare(password, user.value.password) then user
    else None
  }

  /** An unknown login is refused, and a known one is accepted exactly when
      the comparison with its stored hash succeeds; an accepted user is stored
      and has that login or email. */
  lemma CheckCredentialsDecides(db: Db, loginOrEmail: string, password: string, compare: (string, string) -> bool)
    ensures var found := UsersRepo.FindByLoginOrEmail(db, loginOrEmail);
      var r := CheckCredentials(db, loginOrEmail, password, compare);
      && (found.None? ==> r.None?)
      && (found.Some? ==> (r.Some? <==> compare(password, found.value.password)))
      && (r.Some? ==> (r == found && (r.value.username == loginOrEmail || r.value.email == Lower(loginOrEmail))
        && exists k :: k in db.users && db.users[k] == r.value))
  {
  }

  /** Registration followed by a credential check with the same login and a
      comparison that accepts the password against its hash accepts the new
      user, when no earlier user has that login or that email as login. */
  lemma RegisteredUserCanLogIn(db: Db, login: string, email: string, password: string,
                               saltedHash: string -> string, compare: (string, string) -> bool, now: Time)
    requires UsersKeyed(db.users, db.nextId)
    requires !UsersRepo.CheckIfEmailIsAlreadyOccupied(db, email)
    requires forall k :: k in db.users ==> db.users[k].username != login && db.users[k].email != Lower(login)
    requires compare(password, saltedHash(password))
    ensures var (db', u) := UsersRepo.CreateUser(db, UserRecord(login, email, saltedHash(password)), now);
      && u.Success?
      && CheckCredentials(db', login, password, compare) == Some(u.value)
  {
    var (db', u) := UsersRepo.CreateUser(db, UserRecord(login, email, saltedHash(password)), now);
    var found := UsersRepo.FindByLoginOrEmail(db', login);
    assert u.value in UsersRepo.AllUsers(db');
    assert found.Some?;
  }
}
