/** The four document types of the store (User, Gossip, Comment, Token), the
    store as one value (`Db`), and the invariants over it.

    Each record carries the union of the fields the services, repositories
    and tests read or write, so `User` has both the schema's lists
    (`likedGossips`, `likedComments`) and the service's (`gossips`,
    `comments`), and `Gossip` has both `imageUrl` (schema, update) and
    `imageName` (create). Ids are naturals handed out by the store in
    increasing order, so a table's natural order is increasing id order. */
module Models {
  import opened Wrappers
  import opened Text

  type Id = nat

  /** A point in time: `createdAt`, `expirationDate` and the sent-email dates
      are compared, never taken apart. */
  type Time = nat

  datatype User = User(
    id: Id,
    username: string,
    firstName: Option<string>,
    lastName: Option<string>,
    email: string,
    password: string,
    role: string,
    about: Option<string>,
    verified: bool,
    createdAt: Time,
    gossips: seq<Id>,
    comments: seq<Id>,
    likedGossips: seq<Id>,
    likedComments: seq<Id>)

  datatype Gossip = Gossip(
    id: Id,
    title: string,
    content: string,
    imageUrl: Option<string>,
    imageName: Option<string>,
    author: Id,
    comments: seq<Id>,
    likes: seq<Id>,
    createdAt: Time)

  datatype Comment = Comment(
    id: Id,
    content: string,
    author: Id,
    gossip: Id,
    parent: Option<Id>,
    likes: seq<Id>,
    createdAt: Time)

  datatype Token = Token(
    id: Id,
    userId: Id,
    token: string,
    expirationDate: Time,
    sentEmails: seq<Time>,
    registrationIp: Option<string>)

  /** The inputs handed to the store's create operations (IGossip, IComment,
      IUser, IToken): a record without its id and timestamps. */
  datatype GossipInput = GossipInput(
    title: string, content: string, imageName: Option<string>, author: Id,
    comments: seq<Id>, likes: seq<Id>)

  datatype CommentInput = CommentInput(
    author: Id, content: string, gossip: Id, parent: Option<Id>, likes: seq<Id>)

  datatype UserInput = UserInput(
    username: string, email: string, password: string, role: string,
    comments: seq<Id>, likedComments: seq<Id>, likedGossips: seq<Id>, gossips: seq<Id>)

  datatype TokenInput = TokenInput(
    userId: Id, token: string, expirationDate: Time, sentEmails: seq<Time>,
    registrationIp: Option<string>)

  /** The whole store: four id-keyed tables and the next id to hand out. */
  datatype Db = Db(
    users: map<Id, User>,
    gossips: map<Id, Gossip>,
    comments: map<Id, Comment>,
    tokens: map<Id, Token>,
    nextId: Id)

  // ---------------------------------------------------------------------------
  // Id lists: `$addToSet` and `$pull`
  // ---------------------------------------------------------------------------

  /** `$addToSet`: append `x` unless it is already there. */
  function AddToSet(s: seq<Id>, x: Id): (r: seq<Id>)
    ensures forall y :: y in r <==> y in s || y == x
    ensures x in s ==> r == s
    ensures x !in s ==> r == s + [x]
  {
    if x in s then s else s + [x]
  }

  /** `$pull`: drop every occurrence of `x`, keeping the order of the rest. */
  function Without(s: seq<Id>, x: Id): (r: seq<Id>)
    ensures forall y :: y in r <==> y in s && y != x
    ensures |r| <= |s|
  {
    if s == [] then []
    else if s[0] == x then Without(s[1..], x)
    else [s[0]] + Without(s[1..], x)
  }

  /** `$pull` keeps the order of the rest: pulling from a concatenation
      pulls from each part and concatenates the results. */
  lemma {:induction false} WithoutConcat(s1: seq<Id>, s2: seq<Id>, x: Id)
    ensures Without(s1 + s2, x) == Without(s1, x) + Without(s2, x)
  {
    if s1 == [] {
      assert s1 + s2 == s2;
    } else {
      assert (s1 + s2)[1..] == s1[1..] + s2;
      WithoutConcat(s1[1..], s2, x);
    }
  }

  /** `t` is `s` with the ids in `r` taken out, as far as membership goes. */
  ghost predicate Pruned(t: seq<Id>, s: seq<Id>, r: set<Id>) {
    forall x :: x in t <==> x in s && x !in r
  }

  /** `$pull` with `$in`: drop every element of `xs`. */
  function WithoutAll(s: seq<Id>, xs: set<Id>): (r: seq<Id>)
    ensures forall y :: y in r <==> y in s && y !in xs
    ensures |r| <= |s|
  {
    if s == [] then []
    else if s[0] in xs then WithoutAll(s[1..], xs)
    else [s[0]] + WithoutAll(s[1..], xs)
  }

  /** Pulling an element that is absent changes nothing. */
  lemma {:induction false} WithoutAbsent(s: seq<Id>, x: Id)
    requires x !in s
    ensures Without(s, x) == s
  {
    if s != [] {
      WithoutAbsent(s[1..], x);
      assert [s[0]] + s[1..] == s;
    }
  }

  /** `$pull` undoes an `$addToSet` of a new element. */
  lemma {:induction false} WithoutUndoesAdd(s: seq<Id>, x: Id)
    requires x !in s
    ensures Without(AddToSet(s, x), x) == s
  {
    if s == [] {
    } else {
      WithoutUndoesAdd(s[1..], x);
      assert (s + [x])[1..] == s[1..] + [x];
      assert [s[0]] + s[1..] == s;
    }
  }

  // ---------------------------------------------------------------------------
  // Invariants every operation keeps
  // ---------------------------------------------------------------------------

  /** Each record sits under its own id, and every id handed out so far is
      below the next one to hand out. */
  ghost predicate UsersKeyed(users: map<Id, User>, next: Id) {
    forall k :: k in users ==> users[k].id == k && k < next
  }

  ghost predicate GossipsKeyed(gossips: map<Id, Gossip>, next: Id) {
    forall k :: k in gossips ==> gossips[k].id == k && k < next
  }

  /** For comments, so are the parent ids clients have supplied. */
  ghost predicate CommentsKeyed(comments: map<Id, Comment>, next: Id) {
    forall k :: k in comments ==>
      comments[k].id == k && k < next && (comments[k].parent.Some? ==> comments[k].parent.value < next)
  }

  ghost predicate TokensKeyed(tokens: map<Id, Token>, next: Id) {
    forall k :: k in tokens ==> tokens[k].id == k && k < next
  }

  ghost predicate WellKeyed(db: Db) {
    && UsersKeyed(db.users, db.nextId) && GossipsKeyed(db.gossips, db.nextId)
    && CommentsKeyed(db.comments, db.nextId) && TokensKeyed(db.tokens, db.nextId)
  }

  /** Reply depth is at most two: a comment whose parent exists points at a
      comment that has no parent of its own. */
  ghost predicate DepthCapped(comments: map<Id, Comment>) {
    forall k :: k in comments && comments[k].parent.Some? && comments[k].parent.value in comments ==>
      comments[comments[k].parent.value].parent.None?
  }

  /** Emails are stored lower-cased and no two users share one (the schema's
      `unique: true, lowercase: true`). */
  ghost predicate EmailsUnique(users: map<Id, User>) {
    && (forall k :: k in users ==> IsLowerCase(users[k].email))
    && (forall j, k :: j in users && k in users && users[j].email == users[k].email ==> j == k)
  }

  ghost predicate Valid(db: Db) {
    WellKeyed(db) && DepthCapped(db.comments) && EmailsUnique(db.users)
  }

  // ---------------------------------------------------------------------------
  // Reference consistency: the back-references mirror the forward ones
  // ---------------------------------------------------------------------------

  /** Every like of a gossip names an existing user who lists the gossip in
      `likedGossips`, and every entry of a `likedGossips` names an existing
      gossip that lists the user in `likes`. */
  ghost predicate GossipLikes(db: Db) {
    && (forall g, x :: g in db.gossips && x in db.gossips[g].likes ==>
          x in db.users && g in db.users[x].likedGossips)
    && (forall u, x :: u in db.users && x in db.users[u].likedGossips ==>
          x in db.gossips && u in db.gossips[x].likes)
  }

  /** The same for comments and `likedComments`. */
  ghost predicate CommentLikes(db: Db) {
    && (forall c, x :: c in db.comments && x in db.comments[c].likes ==>
          x in db.users && c in db.users[x].likedComments)
    && (forall u, x :: u in db.users && x in db.users[u].likedComments ==>
          x in db.comments && u in db.comments[x].likes)
  }

  /** A user's `gossips` hold exactly the gossips the user wrote. */
  ghost predicate GossipAuthorship(db: Db) {
    && (forall u, x :: u in db.users && x in db.users[u].gossips ==>
          x in db.gossips && db.gossips[x].author == u)
    && (forall g :: g in db.gossips ==>
          db.gossips[g].author in db.users && g in db.users[db.gossips[g].author].gossips)
  }

  /** A user's `comments` hold exactly the comments the user wrote. */
  ghost predicate CommentAuthorship(db: Db) {
    && (forall u, x :: u in db.users && x in db.users[u].comments ==>
          x in db.comments && db.comments[x].author == u)
    && (forall c :: c in db.comments ==>
          db.comments[c].author in db.users && c in db.users[db.comments[c].author].comments)
  }

  /** A gossip's `comments` hold exactly the comments whose `gossip` is it. */
  ghost predicate ThreadsMirrored(db: Db) {
    && (forall g, x :: g in db.gossips && x in db.gossips[g].comments ==>
          x in db.comments && db.comments[x].gossip == g)
    && (forall c :: c in db.comments ==>
          db.comments[c].gossip in db.gossips && c in db.gossips[db.comments[c].gossip].comments)
  }

  /** No dangling reference anywhere and every relation written on both sides. */
  ghost predicate Consistent(db: Db) {
    && GossipLikes(db) && CommentLikes(db)
    && GossipAuthorship(db) && CommentAuthorship(db)
    && ThreadsMirrored(db)
  }

  /** Likes mirrored both ways: for an existing gossip and user, the user
      is among the gossip's likes exactly when the gossip is among the user's
      liked gossips; the same for comments. */
  lemma LikesMirrored(db: Db, u: Id)
    requires Consistent(db) && u in db.users
    ensures forall g :: g in db.gossips ==> (u in db.gossips[g].likes <==> g in db.users[u].likedGossips)
    ensures forall c :: c in db.comments ==> (u in db.comments[c].likes <==> c in db.users[u].likedComments)
  {
  }

  // ---------------------------------------------------------------------------
  // Changes that leave every reference where it was
  // ---------------------------------------------------------------------------

  /** `a` and `b` hold the same records, up to fields that name no other
      record: every id list and every author / gossip reference is as it was. */
  ghost predicate SameLinks(a: Db, b: Db) {
    && a.users.Keys == b.users.Keys && a.gossips.Keys == b.gossips.Keys && a.comments.Keys == b.comments.Keys
    && (forall u :: u in a.users ==> b.users[u].gossips == a.users[u].gossips)
    && (forall u :: u in a.users ==> b.users[u].comments == a.users[u].comments)
    && (forall u :: u in a.users ==> b.users[u].likedGossips == a.users[u].likedGossips)
    && (forall u :: u in a.users ==> b.users[u].likedComments == a.users[u].likedComments)
    && (forall g :: g in a.gossips ==> b.gossips[g].author == a.gossips[g].author)
    && (forall g :: g in a.gossips ==> b.gossips[g].comments == a.gossips[g].comments)
    && (forall g :: g in a.gossips ==> b.gossips[g].likes == a.gossips[g].likes)
    && (forall c :: c in a.comments ==> b.comments[c].author == a.comments[c].author)
    && (forall c :: c in a.comments ==> b.comments[c].gossip == a.comments[c].gossip)
    && (forall c :: c in a.comments ==> b.comments[c].likes == a.comments[c].likes)
  }

  /** Reference consistency depends on the reference-carrying fields only. */
  lemma SameLinksConsistent(a: Db, b: Db)
    requires SameLinks(a, b) && Consistent(a)
    ensures Consistent(b)
  {
    SameLinksGossipLikes(a, b);
    SameLinksCommentLikes(a, b);
    SameLinksGossipAuthorship(a, b);
    SameLinksCommentAuthorship(a, b);
    SameLinksThreads(a, b);
  }

  lemma SameLinksGossipLikes(a: Db, b: Db)
    requires SameLinks(a, b) && GossipLikes(a)
    ensures GossipLikes(b)
  {
    GossipLikesFrame(a, b);
  }

  lemma SameLinksCommentLikes(a: Db, b: Db)
    requires SameLinks(a, b) && CommentLikes(a)
    ensures CommentLikes(b)
  {
    CommentLikesFrame(a, b);
  }

  lemma SameLinksGossipAuthorship(a: Db, b: Db)
    requires SameLinks(a, b) && GossipAuthorship(a)
    ensures GossipAuthorship(b)
  {
    GossipAuthorshipFrame(a, b);
  }

  lemma SameLinksCommentAuthorship(a: Db, b: Db)
    requires SameLinks(a, b) && CommentAuthorship(a)
    ensures CommentAuthorship(b)
  {
    CommentAuthorshipFrame(a, b);
  }

  lemma SameLinksThreads(a: Db, b: Db)
    requires SameLinks(a, b) && ThreadsMirrored(a)
    ensures ThreadsMirrored(b)
  {
    ThreadsFrame(a, b);
  }

  /** Rewriting one user's fields other than its id, email and id lists
      keeps `Valid`, and keeps `Consistent` when it held. */
  lemma UserRewriteKeepsInvariants(a: Db, u: User)
    requires Valid(a) && u.id in a.users
    requires u.email == a.users[u.id].email
    requires u.gossips == a.users[u.id].gossips && u.comments == a.users[u.id].comments
    requires u.likedGossips == a.users[u.id].likedGossips && u.likedComments == a.users[u.id].likedComments
    ensures Valid(a.(users := a.users[u.id := u]))
    ensures Consistent(a) ==> Consistent(a.(users := a.users[u.id := u]))
  {
    var b := a.(users := a.users[u.id := u]);
    UsersFrame(a.users, b.users, a.nextId, b.nextId);
    if Consistent(a) {
      UserRewriteSameLinks(a, u);
      SameLinksConsistent(a, b);
    }
  }

  lemma UserRewriteSameLinks(a: Db, u: User)
    requires u.id in a.users
    requires u.gossips == a.users[u.id].gossips && u.comments == a.users[u.id].comments
    requires u.likedGossips == a.users[u.id].likedGossips && u.likedComments == a.users[u.id].likedComments
    ensures SameLinks(a, a.(users := a.users[u.id := u]))
  {
  }

  /** Gossip likes stay consistent when neither side of them changes. */
  lemma GossipLikesFrame(a: Db, b: Db)
    requires a.users.Keys == b.users.Keys && a.gossips.Keys == b.gossips.Keys
    requires forall u :: u in a.users ==> b.users[u].likedGossips == a.users[u].likedGossips
    requires forall g :: g in a.gossips ==> b.gossips[g].likes == a.gossips[g].likes
    ensures GossipLikes(a) ==> GossipLikes(b)
  {
    if GossipLikes(a) {
      forall g, x | g in b.gossips && x in b.gossips[g].likes
        ensures x in b.users && g in b.users[x].likedGossips
      {
        assert x in a.gossips[g].likes;
      }
      forall u, x | u in b.users && x in b.users[u].likedGossips
        ensures x in b.gossips && u in b.gossips[x].likes
      {
        assert x in a.users[u].likedGossips;
      }
    }
  }

  lemma CommentLikesFrame(a: Db, b: Db)
    requires a.users.Keys == b.users.Keys && a.comments.Keys == b.comments.Keys
    requires forall u :: u in a.users ==> b.users[u].likedComments == a.users[u].likedComments
    requires forall c :: c in a.comments ==> b.comments[c].likes == a.comments[c].likes
    ensures CommentLikes(a) ==> CommentLikes(b)
  {
    if CommentLikes(a) {
      forall c, x | c in b.comments && x in b.comments[c].likes
        ensures x in b.users && c in b.users[x].likedComments
      {
        assert x in a.comments[c].likes;
      }
      forall u, x | u in b.users && x in b.users[u].likedComments
        ensures x in b.comments && u in b.comments[x].likes
      {
        assert x in a.users[u].likedComments;
      }
    }
  }

  lemma GossipAuthorshipFrame(a: Db, b: Db)
    requires a.users.Keys == b.users.Keys && a.gossips.Keys == b.gossips.Keys
    requires forall u :: u in a.users ==> b.users[u].gossips == a.users[u].gossips
    requires forall g :: g in a.gossips ==> b.gossips[g].author == a.gossips[g].author
    ensures GossipAuthorship(a) ==> GossipAuthorship(b)
  {
    if GossipAuthorship(a) {
      forall u, x | u in b.users && x in b.users[u].gossips
        ensures x in b.gossips && b.gossips[x].author == u
      {
        assert x in a.users[u].gossips;
      }
      forall g | g in b.gossips
        ensures b.gossips[g].author in b.users && g in b.users[b.gossips[g].author].gossips
      {
        assert b.gossips[g].author == a.gossips[g].author;
      }
    }
  }

  lemma CommentAuthorshipFrame(a: Db, b: Db)
    requires a.users.Keys == b.users.Keys && a.comments.Keys == b.comments.Keys
    requires forall u :: u in a.users ==> b.users[u].comments == a.users[u].comments
    requires forall c :: c in a.comments ==> b.comments[c].author == a.comments[c].author
    ensures CommentAuthorship(a) ==> CommentAuthorship(b)
  {
    if CommentAuthorship(a) {
      forall u, x | u in b.users && x in b.users[u].comments
        ensures x in b.comments && b.comments[x].author == u
      {
        assert x in a.users[u].comments;
      }
      forall c | c in b.comments
        ensures b.comments[c].author in b.users && c in b.users[b.comments[c].author].comments
      {
        assert b.comments[c].author == a.comments[c].author;
      }
    }
  }

  lemma ThreadsFrame(a: Db, b: Db)
    requires a.gossips.Keys == b.gossips.Keys && a.comments.Keys == b.comments.Keys
    requires forall g :: g in a.gossips ==> b.gossips[g].comments == a.gossips[g].comments
    requires forall c :: c in a.comments ==> b.comments[c].gossip == a.comments[c].gossip
    ensures ThreadsMirrored(a) ==> ThreadsMirrored(b)
  {
    if ThreadsMirrored(a) {
      forall g, x | g in b.gossips && x in b.gossips[g].comments
        ensures x in b.comments && b.comments[x].gossip == g
      {
        assert x in a.gossips[g].comments;
      }
      forall c | c in b.comments
        ensures b.comments[c].gossip in b.gossips && c in b.gossips[b.comments[c].gossip].comments
      {
        assert b.comments[c].gossip == a.comments[c].gossip;
      }
    }
  }

  // ---------------------------------------------------------------------------
  // Likes and unlikes: only the two likes lists of one relation change
  // ---------------------------------------------------------------------------

  /** `b` is `a` with only gossips' `likes` and users' `likedGossips` edited. */
  ghost predicate GossipLikesEdited(a: Db, b: Db) {
    && a.users.Keys == b.users.Keys && a.gossips.Keys == b.gossips.Keys && a.comments == b.comments
    && (forall u :: u in a.users ==> b.users[u] == a.users[u].(likedGossips := b.users[u].likedGossips))
    && (forall g :: g in a.gossips ==> b.gossips[g] == a.gossips[g].(likes := b.gossips[g].likes))
  }

  /** `b` is `a` with only comments' `likes` and users' `likedComments` edited. */
  ghost predicate CommentLikesEdited(a: Db, b: Db) {
    && a.users.Keys == b.users.Keys && a.comments.Keys == b.comments.Keys && a.gossips == b.gossips
    && (forall u :: u in a.users ==> b.users[u] == a.users[u].(likedComments := b.users[u].likedComments))
    && (forall c :: c in a.comments ==> b.comments[c] == a.comments[c].(likes := b.comments[c].likes))
  }

  /** Editing gossip likes leaves every other relation as consistent as it was. */
  lemma GossipLikesEditKeepsOthers(a: Db, b: Db)
    requires GossipLikesEdited(a, b)
    requires CommentLikes(a) && GossipAuthorship(a) && CommentAuthorship(a) && ThreadsMirrored(a)
    ensures CommentLikes(b) && GossipAuthorship(b) && CommentAuthorship(b) && ThreadsMirrored(b)
  {
    GossipLikesEditKeepsCommentLikes(a, b);
    GossipLikesEditKeepsGossipAuthorship(a, b);
    GossipLikesEditKeepsCommentAuthorship(a, b);
    GossipLikesEditKeepsThreads(a, b);
  }

  lemma GossipLikesEditKeepsCommentLikes(a: Db, b: Db)
    requires GossipLikesEdited(a, b) && CommentLikes(a)
    ensures CommentLikes(b)
  {
    CommentLikesFrame(a, b);
  }

  lemma GossipLikesEditKeepsGossipAuthorship(a: Db, b: Db)
    requires GossipLikesEdited(a, b) && GossipAuthorship(a)
    ensures GossipAuthorship(b)
  {
    GossipAuthorshipFrame(a, b);
  }

  lemma GossipLikesEditKeepsCommentAuthorship(a: Db, b: Db)
    requires GossipLikesEdited(a, b) && CommentAuthorship(a)
    ensures CommentAuthorship(b)
  {
    CommentAuthorshipFrame(a, b);
  }

  lemma GossipLikesEditKeepsThreads(a: Db, b: Db)
    requires GossipLikesEdited(a, b) && ThreadsMirrored(a)
    ensures ThreadsMirrored(b)
  {
    ThreadsFrame(a, b);
  }

  /** Editing comment likes leaves every other relation as consistent as it was. */
  lemma CommentLikesEditKeepsOthers(a: Db, b: Db)
    requires CommentLikesEdited(a, b)
    requires GossipLikes(a) && GossipAuthorship(a) && CommentAuthorship(a) && ThreadsMirrored(a)
    ensures GossipLikes(b) && GossipAuthorship(b) && CommentAuthorship(b) && ThreadsMirrored(b)
  {
    CommentLikesEditKeepsGossipLikes(a, b);
    CommentLikesEditKeepsGossipAuthorship(a, b);
    CommentLikesEditKeepsCommentAuthorship(a, b);
    CommentLikesEditKeepsThreads(a, b);
  }

  lemma CommentLikesEditKeepsGossipLikes(a: Db, b: Db)
    requires CommentLikesEdited(a, b) && GossipLikes(a)
    ensures GossipLikes(b)
  {
    GossipLikesFrame(a, b);
  }

  lemma CommentLikesEditKeepsGossipAuthorship(a: Db, b: Db)
    requires CommentLikesEdited(a, b) && GossipAuthorship(a)
    ensures GossipAuthorship(b)
  {
    GossipAuthorshipFrame(a, b);
  }

  lemma CommentLikesEditKeepsCommentAuthorship(a: Db, b: Db)
    requires CommentLikesEdited(a, b) && CommentAuthorship(a)
    ensures CommentAuthorship(b)
  {
    CommentAuthorshipFrame(a, b);
  }

  lemma CommentLikesEditKeepsThreads(a: Db, b: Db)
    requires CommentLikesEdited(a, b) && ThreadsMirrored(a)
    ensures ThreadsMirrored(b)
  {
    ThreadsFrame(a, b);
  }

  /** Editing likes keeps the tables keyed and the emails unique. */
  lemma GossipLikesEditKeepsValid(a: Db, b: Db)
    requires GossipLikesEdited(a, b) && Valid(a) && b.tokens == a.tokens && b.nextId == a.nextId
    ensures Valid(b)
  {
    UsersFrame(a.users, b.users, a.nextId, b.nextId);
    GossipsFrame(a.gossips, b.gossips, a.nextId, b.nextId);
  }

  lemma CommentLikesEditKeepsValid(a: Db, b: Db)
    requires CommentLikesEdited(a, b) && Valid(a) && b.tokens == a.tokens && b.nextId == a.nextId
    ensures Valid(b)
  {
    UsersFrame(a.users, b.users, a.nextId, b.nextId);
    CommentsFrame(a.comments, b.comments, a.nextId, b.nextId);
  }

  // ---------------------------------------------------------------------------
  // Deletes that prune every list they leave behind
  // ---------------------------------------------------------------------------

  /** Gossip likes stay consistent when the gossips in `gs` are removed and
      every `likedGossips` is pruned of exactly those ids. */
  lemma GossipLikesAfterDelete(a: Db, b: Db, gs: set<Id>)
    requires GossipLikes(a)
    requires b.gossips.Keys == a.gossips.Keys - gs && b.users.Keys == a.users.Keys
    requires forall g :: g in b.gossips ==> b.gossips[g].likes == a.gossips[g].likes
    requires forall u :: u in a.users ==> Pruned(b.users[u].likedGossips, a.users[u].likedGossips, gs)
    ensures GossipLikes(b)
  {
    forall g, x | g in b.gossips && x in b.gossips[g].likes
      ensures x in b.users && g in b.users[x].likedGossips
    {
      assert g in a.gossips && g !in gs && x in a.gossips[g].likes;
      assert x in a.users && g in a.users[x].likedGossips;
      assert Pruned(b.users[x].likedGossips, a.users[x].likedGossips, gs);
    }
    forall u, x | u in b.users && x in b.users[u].likedGossips
      ensures x in b.gossips && u in b.gossips[x].likes
    {
      assert Pruned(b.users[u].likedGossips, a.users[u].likedGossips, gs);
      assert x in a.users[u].likedGossips && x !in gs;
      assert x in a.gossips && u in a.gossips[x].likes;
    }
  }

  /** The same for comments and `likedComments`. */
  lemma CommentLikesAfterDelete(a: Db, b: Db, cs: set<Id>)
    requires CommentLikes(a)
    requires b.comments.Keys == a.comments.Keys - cs && b.users.Keys == a.users.Keys
    requires forall c :: c in b.comments ==> b.comments[c].likes == a.comments[c].likes
    requires forall u :: u in a.users ==> Pruned(b.users[u].likedComments, a.users[u].likedComments, cs)
    ensures CommentLikes(b)
  {
    forall c, x | c in b.comments && x in b.comments[c].likes
      ensures x in b.users && c in b.users[x].likedComments
    {
      assert c in a.comments && c !in cs && x in a.comments[c].likes;
      assert x in a.users && c in a.users[x].likedComments;
      assert Pruned(b.users[x].likedComments, a.users[x].likedComments, cs);
    }
    forall u, x | u in b.users && x in b.users[u].likedComments
      ensures x in b.comments && u in b.comments[x].likes
    {
      assert Pruned(b.users[u].likedComments, a.users[u].likedComments, cs);
      assert x in a.users[u].likedComments && x !in cs;
      assert x in a.comments && u in a.comments[x].likes;
    }
  }

  /** Authorship of gossips stays mirrored when the gossips in `gs` are
      removed and every user's `gossips` is pruned of them. */
  lemma GossipAuthorshipAfterDelete(a: Db, b: Db, gs: set<Id>)
    requires GossipAuthorship(a)
    requires b.gossips.Keys == a.gossips.Keys - gs && b.users.Keys == a.users.Keys
    requires forall g :: g in b.gossips ==> b.gossips[g].author == a.gossips[g].author
    requires forall u :: u in a.users ==> Pruned(b.users[u].gossips, a.users[u].gossips, gs)
    ensures GossipAuthorship(b)
  {
    forall u, x | u in b.users && x in b.users[u].gossips
      ensures x in b.gossips && b.gossips[x].author == u
    {
      assert Pruned(b.users[u].gossips, a.users[u].gossips, gs);
    }
    forall g | g in b.gossips
      ensures b.gossips[g].author in b.users && g in b.users[b.gossips[g].author].gossips
    {
      var w := a.gossips[g].author;
      assert g in a.users[w].gossips;
      assert Pruned(b.users[w].gossips, a.users[w].gossips, gs);
    }
  }

  /** Authorship of comments stays mirrored when the comments in `cs` are
      removed and every user's `comments` is pruned of them. */
  lemma CommentAuthorshipAfterDelete(a: Db, b: Db, cs: set<Id>)
    requires CommentAuthorship(a)
    requires b.comments.Keys == a.comments.Keys - cs && b.users.Keys == a.users.Keys
    requires forall c :: c in b.comments ==> b.comments[c].author == a.comments[c].author
    requires forall u :: u in a.users ==> Pruned(b.users[u].comments, a.users[u].comments, cs)
    ensures CommentAuthorship(b)
  {
    forall u, x | u in b.users && x in b.users[u].comments
      ensures x in b.comments && b.comments[x].author == u
    {
      assert Pruned(b.users[u].comments, a.users[u].comments, cs);
    }
    forall c | c in b.comments
      ensures b.comments[c].author in b.users && c in b.users[b.comments[c].author].comments
    {
      var w := a.comments[c].author;
      assert c in a.users[w].comments;
      assert Pruned(b.users[w].comments, a.users[w].comments, cs);
    }
  }

  /** Threads stay mirrored when the comments in `cs` are removed and every
      gossip's `comments` is pruned of them. */
  lemma ThreadsAfterCommentDelete(a: Db, b: Db, cs: set<Id>)
    requires ThreadsMirrored(a)
    requires b.comments.Keys == a.comments.Keys - cs && b.gossips.Keys == a.gossips.Keys
    requires forall c :: c in b.comments ==> b.comments[c].gossip == a.comments[c].gossip
    requires forall g :: g in a.gossips ==> Pruned(b.gossips[g].comments, a.gossips[g].comments, cs)
    ensures ThreadsMirrored(b)
  {
    forall g, x | g in b.gossips && x in b.gossips[g].comments
      ensures x in b.comments && b.comments[x].gossip == g
    {
      assert Pruned(b.gossips[g].comments, a.gossips[g].comments, cs);
      assert x in a.gossips[g].comments && x !in cs;
    }
    forall c | c in b.comments
      ensures b.comments[c].gossip in b.gossips && c in b.gossips[b.comments[c].gossip].comments
    {
      var g := a.comments[c].gossip;
      assert c in a.gossips[g].comments && c !in cs;
      assert Pruned(b.gossips[g].comments, a.gossips[g].comments, cs);
    }
  }

  /** Rewriting users' id lists keeps the user table keyed and its emails
      unique. */
  lemma UsersFrame(a: map<Id, User>, b: map<Id, User>, next: Id, next': Id)
    requires UsersKeyed(a, next) && EmailsUnique(a) && next <= next'
    requires a.Keys == b.Keys
    requires forall u :: u in a ==> b[u].id == a[u].id && b[u].email == a[u].email
    ensures UsersKeyed(b, next') && EmailsUnique(b)
  {
  }

  lemma GossipsFrame(a: map<Id, Gossip>, b: map<Id, Gossip>, next: Id, next': Id)
    requires GossipsKeyed(a, next) && next <= next'
    requires b.Keys <= a.Keys
    requires forall g :: g in b ==> b[g].id == a[g].id
    ensures GossipsKeyed(b, next')
  {
  }

  lemma CommentsFrame(a: map<Id, Comment>, b: map<Id, Comment>, next: Id, next': Id)
    requires CommentsKeyed(a, next) && DepthCapped(a) && next <= next'
    requires b.Keys <= a.Keys
    requires forall c :: c in b ==> b[c].id == a[c].id && b[c].parent == a[c].parent
    ensures CommentsKeyed(b, next') && DepthCapped(b)
  {
  }

  lemma TokensGrow(a: map<Id, Token>, next: Id, next': Id)
    requires TokensKeyed(a, next) && next <= next'
    ensures TokensKeyed(a, next')
  {
  }

  /** The empty store, as the application starts. */
  function Empty(): (db: Db)
    ensures Valid(db) && Consistent(db)
  {
    Db(map[], map[], map[], map[], 0)
  }
}
