/** The user table's operations (`usersRepo`) as functions from the store
    before to the store after, with what each returns.

    The schema lower-cases `email` on write and applies the same setter to
    equality queries, so every lookup by email compares lower-cased forms. */
module UsersRepo {
  import opened Wrappers
  import opened Text
  import opened Models
  import Tables
  import Pagination

  /** Every user in the collection's natural order. */
  function AllUsers(db: Db): (r: seq<User>)
    ensures forall k :: k in db.users && k < db.nextId ==> db.users[k] in r
    ensures forall x :: x in r ==> exists k :: k in db.users && db.users[k] == x
  {
    Tables.InKeyOrder(db.users, db.nextId)
  }

  function CreatedAt(u: User): int {
    u.createdAt
  }

  /** `getAllUsers`: every user, newest `createdAt` first. */
  function GetAllUsers(db: Db): (r: seq<User>)
    ensures multiset(r) == multiset(AllUsers(db))
  {
    Pagination.SortBy(AllUsers(db), CreatedAt, true)
  }

  /** The listing holds exactly the stored users, newest first. */
  lemma GetAllUsersNewestFirst(db: Db)
    requires UsersKeyed(db.users, db.nextId)
    ensures var r := GetAllUsers(db);
      && Pagination.SortedBy(r, CreatedAt, true)
      && (forall k :: k in db.users ==> db.users[k] in r)
      && (forall x :: x in r ==> exists k :: k in db.users && db.users[k] == x)
  {
    var r := GetAllUsers(db);
    Pagination.SortBySorted(AllUsers(db), CreatedAt, true);
    forall x | x in AllUsers(db) ensures x in r {
      assert x in multiset(r);
    }
    forall x | x in r ensures x in AllUsers(db) {
      assert x in multiset(AllUsers(db));
    }
  }

  // ---------------------------------------------------------------------------
  // Lookups
  // ---------------------------------------------------------------------------

  /** `findUserById`: the stored user, or None. */
  function FindUserById(db: Db, uid: Id): (r: Option<User>)
    ensures r.Some? <==> uid in db.users
    ensures r.Some? ==> r.value == db.users[uid]
  {
    if uid in db.users then Some(db.users[uid]) else None
  }

  predicate HasEmail(email: string, u: User) {
    u.email == Lower(email)
  }

  /** `findByEmail`: the first user whose stored email is the lower-cased
      argument, or None. */
  function FindByEmail(db: Db, email: string): (r: Option<User>)
    ensures r.Some? ==> r.value.email == Lower(email) && r.value in AllUsers(db)
  {
    Tables.FindFirst(AllUsers(db), u => HasEmail(email, u))
  }

  /** With emails unique, `findByEmail` answers the one user holding the
      email, whatever its case, and None exactly when nobody holds it. */
  lemma FindByEmailExact(db: Db, email: string)
    requires UsersKeyed(db.users, db.nextId) && EmailsUnique(db.users)
    ensures var r := FindByEmail(db, email);
      && (r.None? <==> forall k :: k in db.users ==> db.users[k].email != Lower(email))
      && (r.Some? ==> exists k :: k in db.users && db.users[k] == r.value)
      && (forall k :: k in db.users && db.users[k].email == Lower(email) ==> r == Some(db.users[k]))
  {
    var rows := AllUsers(db);
    var r := FindByEmail(db, email);
    forall k | k in db.users && db.users[k].email == Lower(email) ensures r == Some(db.users[k]) {
      assert db.users[k] in rows;
      var i :| 0 <= i < |rows| && rows[i] == db.users[k];
      assert HasEmail(email, rows[i]);
      var j :| j in db.users && db.users[j] == r.value;
    }
  }

  /** `checkIfEmailIsAlreadyOccupied`: some user holds the email. */
  function CheckIfEmailIsAlreadyOccupied(db: Db, email: string): (b: bool)
    ensures b <==> FindByEmail(db, email).Some?
  {
    FindByEmail(db, email).Some?
  }

  /** The email is occupied exactly when a stored user holds it, in any case. */
  lemma OccupiedIffHeld(db: Db, email: string)
    requires UsersKeyed(db.users, db.nextId) && EmailsUnique(db.users)
    ensures CheckIfEmailIsAlreadyOccupied(db, email) <==>
      exists k :: k in db.users && db.users[k].email == Lower(email)
  {
    FindByEmailExact(db, email);
  }

  /** `findByLoginOrEmail`: the first user whose username or email is the
      argument. */
  function FindByLoginOrEmail(db: Db, loginOrEmail: string): (r: Option<User>)
    ensures r.Some? ==> (r.value in AllUsers(db)
      && (r.value.username == loginOrEmail || r.value.email == Lower(loginOrEmail)))
    ensures r.None? ==> forall x :: x in AllUsers(db) ==>
      x.username != loginOrEmail && x.email != Lower(loginOrEmail)
  {
    Tables.FindFirst(AllUsers(db), (u: User) => u.username == loginOrEmail || u.email == Lower(loginOrEmail))
  }

  // ---------------------------------------------------------------------------
  // Create
  // ---------------------------------------------------------------------------

  /** Why `User.create` rejects a record: the unique index on `email`. */
  datatype UserError = DuplicateEmail

  /** The stored form of a user input: the email lower-cased, no names and
      no `about`, not verified. */
  function NewUser(id: Id, input: UserInput, now: Time): User {
    User(id, input.username, None, None, Lower(input.email), input.password, input.role, None, false, now,
         input.gossips, input.comments, input.likedGossips, input.likedComments)
  }

  /** `createUser`: stores the user under the next id, or fails on an email
      already held (compared lower-cased) and stores nothing. */
  function CreateUser(db: Db, input: UserInput, now: Time): (r: (Db, Result<User, UserError>))
    ensures r.1.Failure? <==> CheckIfEmailIsAlreadyOccupied(db, input.email)
    ensures r.1.Failure? ==> r.0 == db
    ensures r.1.Success? ==> (r.1.value.id == db.nextId && r.0.nextId == db.nextId + 1
      && r.0.users == db.users[db.nextId := r.1.value])
  {
    if CheckIfEmailIsAlreadyOccupied(db, input.email) then (db, Failure(DuplicateEmail))
    else
      var u := NewUser(db.nextId, input, now);
      (db.(users := db.users[db.nextId := u], nextId := db.nextId + 1), Success(u))
  }

  /** A created user carries the input's fields, its email lower-cased, and
      leaves the other tables alone. */
  lemma CreateUserStores(db: Db, input: UserInput, now: Time)
    requires !CheckIfEmailIsAlreadyOccupied(db, input.email)
    ensures var (db', r) := CreateUser(db, input, now);
      && r.Success?
      && r.value.username == input.username && r.value.email == Lower(input.email)
      && r.value.password == input.password && r.value.role == input.role
      && r.value.gossips == input.gossips && r.value.comments == input.comments
      && r.value.likedGossips == input.likedGossips && r.value.likedComments == input.likedComments
      && !r.value.verified
      && db'.gossips == db.gossips && db'.comments == db.comments && db'.tokens == db.tokens
  {
  }

  /** Creating keeps emails unique and lower-cased. */
  lemma CreateUserKeepsValid(db: Db, input: UserInput, now: Time)
    requires Valid(db)
    ensures Valid(CreateUser(db, input, now).0)
  {
    var (db', r) := CreateUser(db, input, now);
    if r.Success? {
      OccupiedIffHeld(db, input.email);
      TokensGrow(db.tokens, db.nextId, db'.nextId);
      assert GossipsKeyed(db'.gossips, db'.nextId);
      assert CommentsKeyed(db'.comments, db'.nextId);
    }
  }

  /** A user created with the empty lists the service passes references
      nothing, so every relation stays mirrored. */
  lemma CreateUserKeepsConsistent(db: Db, input: UserInput, now: Time)
    requires UsersKeyed(db.users, db.nextId) && Consistent(db)
    requires input.gossips == [] && input.comments == [] && input.likedGossips == [] && input.likedComments == []
    ensures Consistent(CreateUser(db, input, now).0)
  {
    var (db', r) := CreateUser(db, input, now);
    if r.Success? {
      assert UserAdded(db, db', r.value);
      UserAddedKeepsConsistent(db, db', r.value);
    }
  }

  /** `b` is `a` with the user `u` added under a fresh id. */
  ghost predicate UserAdded(a: Db, b: Db, u: User) {
    && u.id !in a.users && b.users == a.users[u.id := u]
    && b.gossips == a.gossips && b.comments == a.comments
  }

  lemma UserAddedKeepsConsistent(a: Db, b: Db, u: User)
    requires Consistent(a) && UserAdded(a, b, u)
    requires u.gossips == [] && u.comments == [] && u.likedGossips == [] && u.likedComments == []
    ensures Consistent(b)
  {
    UserAddedKeepsGossipLikes(a, b, u);
    UserAddedKeepsCommentLikes(a, b, u);
    UserAddedKeepsGossipAuthorship(a, b, u);
    UserAddedKeepsCommentAuthorship(a, b, u);
    ThreadsFrame(a, b);
  }

  lemma UserAddedKeepsGossipLikes(a: Db, b: Db, u: User)
    requires GossipLikes(a) && UserAdded(a, b, u) && u.likedGossips == []
    ensures GossipLikes(b)
  {
    forall g, x | g in b.gossips && x in b.gossips[g].likes ensures x in b.users && g in b.users[x].likedGossips {
      assert x in a.users;
    }
  }

  lemma UserAddedKeepsCommentLikes(a: Db, b: Db, u: User)
    requires CommentLikes(a) && UserAdded(a, b, u) && u.likedComments == []
    ensures CommentLikes(b)
  {
    forall c, x | c in b.comments && x in b.comments[c].likes ensures x in b.users && c in b.users[x].likedComments {
      assert x in a.users;
    }
  }

  lemma UserAddedKeepsGossipAuthorship(a: Db, b: Db, u: User)
    requires GossipAuthorship(a) && UserAdded(a, b, u) && u.gossips == []
    ensures GossipAuthorship(b)
  {
    forall g | g in b.gossips ensures b.gossips[g].author in b.users && g in b.users[b.gossips[g].author].gossips {
      assert b.gossips[g].author in a.users;
    }
  }

  lemma UserAddedKeepsCommentAuthorship(a: Db, b: Db, u: User)
    requires CommentAuthorship(a) && UserAdded(a, b, u) && u.comments == []
    ensures CommentAuthorship(b)
  {
    forall c | c in b.comments ensures b.comments[c].author in b.users && c in b.users[b.comments[c].author].comments {
      assert b.comments[c].author in a.users;
    }
  }

  // ---------------------------------------------------------------------------
  // Update
  // ---------------------------------------------------------------------------

  /** `updateUser`: `$set` of `about`; answers whether one record was
      modified. The schema's timestamps add an `updatedAt` bump to every
      update, so an existing user always counts as modified, even when
      `about` already has the new value. */
  function UpdateUser(db: Db, uid: Id, about: string): (r: (Db, bool))
    ensures r.1 <==> uid in db.users
    ensures uid !in db.users ==> r.0 == db
  {
    if uid !in db.users then (db, false)
    else (db.(users := db.users[uid := db.users[uid].(about := Some(about))]), true)
  }

  /** Only the user's `about` changes. */
  lemma UpdateUserOnlyAbout(db: Db, uid: Id, about: string)
    requires uid in db.users
    ensures var db' := UpdateUser(db, uid, about).0;
      && db'.users[uid] == db.users[uid].(about := Some(about))
      && db'.users.Keys == db.users.Keys
      && (forall k :: k in db.users && k != uid ==> db'.users[k] == db.users[k])
      && db'.gossips == db.gossips && db'.comments == db.comments && db'.tokens == db.tokens
      && db'.nextId == db.nextId
  {
  }

  /** Setting the same `about` twice: the second call leaves the modelled
      tables as they were and still answers whether the user exists. */
  lemma UpdateUserTwice(db: Db, uid: Id, about: string)
    ensures var db1 := UpdateUser(db, uid, about).0;
      UpdateUser(db1, uid, about) == (db1, uid in db.users)
  {
    var db1 := UpdateUser(db, uid, about).0;
    if uid in db.users {
      assert db1.users[uid := db1.users[uid].(about := Some(about))] == db1.users;
    }
  }

  lemma UpdateUserKeepsInvariants(db: Db, uid: Id, about: string)
    requires Valid(db)
    ensures Valid(UpdateUser(db, uid, about).0)
    ensures Consistent(db) ==> Consistent(UpdateUser(db, uid, about).0)
  {
    if uid in db.users {
      UserRewriteKeepsInvariants(db, db.users[uid].(about := Some(about)));
    }
  }

  /** `updateVerification`: sets `verified`; answers whether one record was
      modified, which the `updatedAt` bump makes true for every existing
      user, verified or not. */
  function UpdateVerification(db: Db, uid: Id): (r: (Db, bool))
    ensures r.1 <==> uid in db.users
    ensures uid !in db.users ==> r.0 == db
    ensures uid in db.users ==> uid in r.0.users && r.0.users[uid].verified
  {
    if uid !in db.users then (db, false)
    else (db.(users := db.users[uid := db.users[uid].(verified := true)]), true)
  }

  /** A second verification leaves the modelled tables as they were and
      still answers whether the user exists. */
  lemma VerifyTwice(db: Db, uid: Id)
    ensures var db1 := UpdateVerification(db, uid).0;
      UpdateVerification(db1, uid) == (db1, uid in db.users)
  {
    var db1 := UpdateVerification(db, uid).0;
    if uid in db.users {
      assert db1.users[uid := db1.users[uid].(verified := true)] == db1.users;
    }
  }

  lemma UpdateVerificationKeepsInvariants(db: Db, uid: Id)
    requires Valid(db)
    ensures Valid(UpdateVerification(db, uid).0)
    ensures Consistent(db) ==> Consistent(UpdateVerification(db, uid).0)
  {
    if uid in db.users {
      UserRewriteKeepsInvariants(db, db.users[uid].(verified := true));
    }
  }

  // ---------------------------------------------------------------------------
  // Delete
  // ---------------------------------------------------------------------------

  /** `deleteUser`: removes the user document only; answers whether it
      existed. Gossips, comments and likes that name the user are kept. */
  function DeleteUser(db: Db, uid: Id): (r: (Db, bool))
    ensures r.1 <==> uid in db.users
    ensures r.0 == db.(users := db.users - {uid})
  {
    (db.(users := db.users - {uid}), uid in db.users)
  }

  lemma DeleteUserKeepsValid(db: Db, uid: Id)
    requires Valid(db)
    ensures Valid(DeleteUser(db, uid).0)
  {
  }

  /** Without a cascade, deleting a user who authored a gossip leaves that
      gossip naming an author that no longer exists. */
  lemma DeleteUserLeavesDanglingAuthor(db: Db, uid: Id)
    requires Consistent(db) && uid in db.users && db.users[uid].gossips != []
    ensures !GossipAuthorship(DeleteUser(db, uid).0)
  {
    var db' := DeleteUser(db, uid).0;
    var g := db.users[uid].gossips[0];
    assert g in db.users[uid].gossips;
    assert g in db'.gossips && db'.gossips[g].author == uid && uid !in db'.users;
  }

  /** Likewise a user's likes survive on the gossips they liked. */
  lemma DeleteUserLeavesDanglingLike(db: Db, uid: Id)
    requires Consistent(db) && uid in db.users && db.users[uid].likedGossips != []
    ensures !GossipLikes(DeleteUser(db, uid).0)
  {
    var db' := DeleteUser(db, uid).0;
    var g := db.users[uid].likedGossips[0];
    assert g in db.users[uid].likedGossips;
    assert g in db'.gossips && uid in db'.gossips[g].likes && uid !in db'.users;
  }

  /** A user with no gossips, comments or likes can be deleted safely. */
  lemma DeleteUnlinkedUserKeepsConsistent(db: Db, uid: Id)
    requires Consistent(db) && uid in db.users
    requires db.users[uid].gossips == [] && db.users[uid].comments == []
    requires db.users[uid].likedGossips == [] && db.users[uid].likedComments == []
    ensures Consistent(DeleteUser(db, uid).0)
  {
    DeleteUnlinkedKeepsGossipLikes(db, uid);
    DeleteUnlinkedKeepsCommentLikes(db, uid);
    DeleteUnlinkedKeepsGossipAuthorship(db, uid);
    DeleteUnlinkedKeepsCommentAuthorship(db, uid);
    ThreadsFrame(db, DeleteUser(db, uid).0);
  }

  lemma DeleteUnlinkedKeepsGossipLikes(db: Db, uid: Id)
    requires GossipLikes(db) && uid in db.users && db.users[uid].likedGossips == []
    ensures GossipLikes(DeleteUser(db, uid).0)
  {
    var db' := DeleteUser(db, uid).0;
    forall g, x | g in db'.gossips && x in db'.gossips[g].likes ensures x in db'.users && g in db'.users[x].likedGossips {
      assert g in db.users[x].likedGossips;
    }
  }

  lemma DeleteUnlinkedKeepsCommentLikes(db: Db, uid: Id)
    requires CommentLikes(db) && uid in db.users && db.users[uid].likedComments == []
    ensures CommentLikes(DeleteUser(db, uid).0)
  {
    var db' := DeleteUser(db, uid).0;
    forall c, x | c in db'.comments && x in db'.comments[c].likes ensures x in db'.users && c in db'.users[x].likedComments {
      assert c in db.users[x].likedComments;
    }
  }

  lemma DeleteUnlinkedKeepsGossipAuthorship(db: Db, uid: Id)
    requires GossipAuthorship(db) && uid in db.users && db.users[uid].gossips == []
    ensures GossipAuthorship(DeleteUser(db, uid).0)
  {
    var db' := DeleteUser(db, uid).0;
    forall g | g in db'.gossips ensures db'.gossips[g].author in db'.users {
      assert g in db.users[db.gossips[g].author].gossips;
    }
  }

  lemma DeleteUnlinkedKeepsCommentAuthorship(db: Db, uid: Id)
    requires CommentAuthorship(db) && uid in db.users && db.users[uid].comments == []
    ensures CommentAuthorship(DeleteUser(db, uid).0)
  {
    var db' := DeleteUser(db, uid).0;
    forall c | c in db'.comments ensures db'.comments[c].author in db'.users {
      assert c in db.users[db.comments[c].author].comments;
    }
  }
}
