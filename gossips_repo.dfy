/** The gossip table's operations as functions from the store before to the
    store after (and the value the repository returns): the definition the
    `Store` methods are proved against, and the home of the reference
    integrity lemmas for gossips.

    The repository delegates to model statics whose bodies are not part of
    this model; their effects are taken from their names and from what the
    integration tests check after a delete. */
module GossipsRepo {
  import opened Wrappers
  import opened Models

  /** `findById`: the stored gossip, or None. */
  function FindGossipById(db: Db, gid: Id): (r: Option<Gossip>)
    ensures r.Some? <==> gid in db.gossips
    ensures r.Some? ==> r.value == db.gossips[gid]
  {
    if gid in db.gossips then Some(db.gossips[gid]) else None
  }

  // ---------------------------------------------------------------------------
  // Update
  // ---------------------------------------------------------------------------

  /** `findByIdAndUpdate(id, { content, imageUrl }, { new: true })`: sets the
      content and, when one is given, the image url; an absent `imageUrl`
      key leaves the stored one alone. Returns the updated record. */
  function UpdateGossip(db: Db, gid: Id, content: string, imageUrl: Option<string>): (r: (Db, Option<Gossip>))
    ensures r.1.Some? <==> gid in db.gossips
    ensures r.1.None? ==> r.0 == db
    ensures r.1.Some? ==> gid in r.0.gossips && r.0.gossips[gid] == r.1.value
  {
    if gid !in db.gossips then (db, None)
    else
      var g := db.gossips[gid];
      var g' := g.(content := content, imageUrl := if imageUrl.Some? then imageUrl else g.imageUrl);
      (db.(gossips := db.gossips[gid := g']), Some(g'))
  }

  /** The update writes the content and the given image url and nothing else:
      title, author, comments, likes and every other record are as they were. */
  lemma UpdateGossipFields(db: Db, gid: Id, content: string, imageUrl: Option<string>)
    requires gid in db.gossips
    ensures var (db', r) := UpdateGossip(db, gid, content, imageUrl);
      var g := db.gossips[gid];
      && r.Some? && r.value.content == content
      && r.value.imageUrl == (if imageUrl.Some? then imageUrl else g.imageUrl)
      && r.value == g.(content := r.value.content, imageUrl := r.value.imageUrl)
      && db'.gossips.Keys == db.gossips.Keys
      && (forall k :: k in db.gossips && k != gid ==> db'.gossips[k] == db.gossips[k])
      && db'.users == db.users && db'.comments == db.comments && db'.tokens == db.tokens
      && db'.nextId == db.nextId
  {
  }

  lemma UpdateGossipKeepsValid(db: Db, gid: Id, content: string, imageUrl: Option<string>)
    requires Valid(db)
    ensures Valid(UpdateGossip(db, gid, content, imageUrl).0)
  {
    var db' := UpdateGossip(db, gid, content, imageUrl).0;
    GossipsFrame(db.gossips, db'.gossips, db.nextId, db'.nextId);
  }

  /** Editing content or image touches no reference. */
  lemma UpdateGossipKeepsConsistent(db: Db, gid: Id, content: string, imageUrl: Option<string>)
    requires Consistent(db)
    ensures Consistent(UpdateGossip(db, gid, content, imageUrl).0)
  {
    var db' := UpdateGossip(db, gid, content, imageUrl).0;
    if gid in db.gossips {
      assert SameLinks(db, db');
      SameLinksConsistent(db, db');
    }
  }

  // ---------------------------------------------------------------------------
  // Create
  // ---------------------------------------------------------------------------

  /** `createAndAssociateWithUser`: stores the gossip under a fresh id and
      appends that id to its author's `gossips`. */
  function CreateAndAssociateWithUser(db: Db, input: GossipInput, now: Time): (r: (Db, Gossip))
    ensures r.1.id == db.nextId && r.0.nextId == db.nextId + 1
    ensures r.1.id in r.0.gossips && r.0.gossips[r.1.id] == r.1
  {
    var gid := db.nextId;
    var g := Gossip(gid, input.title, input.content, None, input.imageName, input.author,
                    input.comments, input.likes, now);
    var users := if input.author in db.users
      then db.users[input.author := db.users[input.author].(gossips := db.users[input.author].gossips + [gid])]
      else db.users;
    (db.(gossips := db.gossips[gid := g], users := users, nextId := gid + 1), g)
  }

  /** The stored gossip carries the input's fields, a fresh id and no image
      url; the author, if stored, lists the new id last; nothing else moves. */
  lemma CreateStoresAndAssociates(db: Db, input: GossipInput, now: Time)
    requires WellKeyed(db)
    ensures var (db', g) := CreateAndAssociateWithUser(db, input, now);
      && g.id !in db.gossips
      && g == Gossip(g.id, input.title, input.content, None, input.imageName, input.author,
                     input.comments, input.likes, now)
      && db'.gossips == db.gossips[g.id := g]
      && db'.users.Keys == db.users.Keys
      && (input.author in db.users ==>
            db'.users[input.author].gossips == db.users[input.author].gossips + [g.id])
      && (forall u :: u in db.users ==>
            db'.users[u] == db.users[u].(gossips := db'.users[u].gossips))
      && (forall u :: u in db.users && u != input.author ==> db'.users[u] == db.users[u])
      && db'.comments == db.comments && db'.tokens == db.tokens
  {
  }

  lemma CreateKeepsValid(db: Db, input: GossipInput, now: Time)
    requires Valid(db)
    ensures Valid(CreateAndAssociateWithUser(db, input, now).0)
  {
    var db' := CreateAndAssociateWithUser(db, input, now).0;
    UsersFrame(db.users, db'.users, db.nextId, db'.nextId);
    CommentsFrame(db.comments, db'.comments, db.nextId, db'.nextId);
    TokensGrow(db.tokens, db.nextId, db'.nextId);
  }

  /** Creating a gossip with the empty lists the service passes, by an
      existing author, keeps every reference resolved and mirrored. */
  lemma CreateKeepsConsistent(db: Db, input: GossipInput, now: Time)
    requires WellKeyed(db) && Consistent(db)
    requires input.author in db.users && input.comments == [] && input.likes == []
    ensures Consistent(CreateAndAssociateWithUser(db, input, now).0)
  {
    CreateKeepsGossipLikes(db, input, now);
    CreateKeepsGossipAuthorship(db, input, now);
    CreateKeepsThreads(db, input, now);
    CreateKeepsCommentRelations(db, input, now);
  }

  /** Comments and their lists are not touched by a gossip's creation. */
  lemma CreateKeepsCommentRelations(db: Db, input: GossipInput, now: Time)
    requires CommentLikes(db) && CommentAuthorship(db)
    ensures var db' := CreateAndAssociateWithUser(db, input, now).0;
      CommentLikes(db') && CommentAuthorship(db')
  {
    var db' := CreateAndAssociateWithUser(db, input, now).0;
    CommentLikesFrame(db, db');
    CommentAuthorshipFrame(db, db');
  }

  lemma CreateKeepsGossipLikes(db: Db, input: GossipInput, now: Time)
    requires GossipsKeyed(db.gossips, db.nextId) && GossipLikes(db) && input.likes == []
    ensures GossipLikes(CreateAndAssociateWithUser(db, input, now).0)
  {
    var db' := CreateAndAssociateWithUser(db, input, now).0;
    var gid := db.nextId;
    forall u, x | u in db'.users && x in db'.users[u].likedGossips
      ensures x in db'.gossips && u in db'.gossips[x].likes
    {
      assert x in db.users[u].likedGossips;
    }
  }

  lemma CreateKeepsGossipAuthorship(db: Db, input: GossipInput, now: Time)
    requires GossipsKeyed(db.gossips, db.nextId) && GossipAuthorship(db) && input.author in db.users
    ensures GossipAuthorship(CreateAndAssociateWithUser(db, input, now).0)
  {
    var db' := CreateAndAssociateWithUser(db, input, now).0;
    var gid := db.nextId;
    forall u, x | u in db'.users && x in db'.users[u].gossips
      ensures x in db'.gossips && db'.gossips[x].author == u
    {
      if x != gid {
        assert x in db.users[u].gossips;
      }
    }
  }

  lemma CreateKeepsThreads(db: Db, input: GossipInput, now: Time)
    requires GossipsKeyed(db.gossips, db.nextId) && ThreadsMirrored(db) && input.comments == []
    ensures ThreadsMirrored(CreateAndAssociateWithUser(db, input, now).0)
  {
  }

  // ---------------------------------------------------------------------------
  // Delete, with its cascade
  // ---------------------------------------------------------------------------

  /** The ids of the comments posted under `gid`. */
  function CommentsUnder(comments: map<Id, Comment>, gid: Id): (s: set<Id>)
    ensures forall c :: c in s <==> c in comments && comments[c].gossip == gid
  {
    set c | c in comments && comments[c].gossip == gid
  }

  /** One user after the cascade: the gossip pulled from `gossips` and
      `likedGossips`, the doomed comments from `comments` and `likedComments`. */
  function DissociateUser(u: User, gid: Id, doomed: set<Id>): (r: User)
    ensures r.id == u.id && r.email == u.email
  {
    u.(gossips := Without(u.gossips, gid), likedGossips := Without(u.likedGossips, gid),
       comments := WithoutAll(u.comments, doomed), likedComments := WithoutAll(u.likedComments, doomed))
  }

  /** The cascading delete: removes the gossip, the gossip's id from the
      users' `gossips` and `likedGossips`, every comment posted under it, and
      those comments' ids from every user's `comments` and `likedComments`.
      Returns the gossip as it was, or None. */
  function DeleteAndDissociateFromUser(db: Db, gid: Id): (r: (Db, Option<Gossip>))
    ensures r.1.Some? <==> gid in db.gossips
    ensures r.1.None? ==> r.0 == db
    ensures r.1.Some? ==> r.1.value == db.gossips[gid]
  {
    if gid !in db.gossips then (db, None)
    else
      var doomed := CommentsUnder(db.comments, gid);
      var users := map u | u in db.users :: DissociateUser(db.users[u], gid, doomed);
      (db.(gossips := db.gossips - {gid}, comments := db.comments - doomed, users := users),
       Some(db.gossips[gid]))
  }

  /** How the cascade reshapes each table. */
  lemma DeleteShape(db: Db, gid: Id)
    requires gid in db.gossips
    ensures var db' := DeleteAndDissociateFromUser(db, gid).0;
      var doomed := CommentsUnder(db.comments, gid);
      && db'.gossips.Keys == db.gossips.Keys - {gid}
      && (forall g :: g in db'.gossips ==> db'.gossips[g] == db.gossips[g])
      && db'.comments.Keys == db.comments.Keys - doomed
      && (forall c :: c in db'.comments ==> db'.comments[c] == db.comments[c])
      && db'.users.Keys == db.users.Keys
      && (forall u :: u in db.users ==> db'.users[u] == DissociateUser(db.users[u], gid, doomed))
      && db'.tokens == db.tokens && db'.nextId == db.nextId
  {
  }

  /** The users' lists after the cascade, element by element. */
  lemma DeletePrunesUsers(db: Db, gid: Id)
    requires gid in db.gossips
    ensures var db' := DeleteAndDissociateFromUser(db, gid).0;
      var doomed := CommentsUnder(db.comments, gid);
      && (forall u :: u in db.users ==> Pruned(db'.users[u].gossips, db.users[u].gossips, {gid}))
      && (forall u :: u in db.users ==> Pruned(db'.users[u].likedGossips, db.users[u].likedGossips, {gid}))
      && (forall u :: u in db.users ==> Pruned(db'.users[u].comments, db.users[u].comments, doomed))
      && (forall u :: u in db.users ==> Pruned(db'.users[u].likedComments, db.users[u].likedComments, doomed))
  {
    DeleteShape(db, gid);
  }

  /** After the delete the gossip is gone, no comment under it is left, and
      no user lists the gossip or any of those comments; every other
      gossip and comment is untouched. */
  lemma DeleteCascadeComplete(db: Db, gid: Id)
    requires gid in db.gossips
    ensures var db' := DeleteAndDissociateFromUser(db, gid).0;
      && gid !in db'.gossips
      && (forall c :: c in db'.comments ==> db'.comments[c].gossip != gid)
      && (forall u :: u in db'.users ==> gid !in db'.users[u].gossips && gid !in db'.users[u].likedGossips)
      && (forall u, c :: u in db'.users && c in db'.users[u].comments ==>
            c !in db.comments || db.comments[c].gossip != gid)
      && (forall u, c :: u in db'.users && c in db'.users[u].likedComments ==>
            c !in db.comments || db.comments[c].gossip != gid)
      && (forall g :: g in db.gossips && g != gid ==> g in db'.gossips && db'.gossips[g] == db.gossips[g])
      && (forall c :: c in db.comments && db.comments[c].gossip != gid ==>
            c in db'.comments && db'.comments[c] == db.comments[c])
  {
    DeleteShape(db, gid);
  }

  lemma DeleteKeepsValid(db: Db, gid: Id)
    requires Valid(db)
    ensures Valid(DeleteAndDissociateFromUser(db, gid).0)
  {
    if gid in db.gossips {
      var db' := DeleteAndDissociateFromUser(db, gid).0;
      DeleteShape(db, gid);
      UsersFrame(db.users, db'.users, db.nextId, db'.nextId);
      GossipsFrame(db.gossips, db'.gossips, db.nextId, db'.nextId);
      CommentsFrame(db.comments, db'.comments, db.nextId, db'.nextId);
    }
  }

  /** The cascade leaves no dangling id and keeps every relation mirrored. */
  lemma DeleteKeepsConsistent(db: Db, gid: Id)
    requires Consistent(db)
    ensures Consistent(DeleteAndDissociateFromUser(db, gid).0)
  {
    if gid in db.gossips {
      DeleteKeepsGossipLikes(db, gid);
      DeleteKeepsCommentLikes(db, gid);
      DeleteKeepsGossipAuthorship(db, gid);
      DeleteKeepsCommentAuthorship(db, gid);
      DeleteKeepsThreads(db, gid);
    }
  }

  lemma DeleteKeepsGossipLikes(db: Db, gid: Id)
    requires GossipLikes(db) && gid in db.gossips
    ensures GossipLikes(DeleteAndDissociateFromUser(db, gid).0)
  {
    DeleteShape(db, gid);
    DeletePrunesUsers(db, gid);
    GossipLikesAfterDelete(db, DeleteAndDissociateFromUser(db, gid).0, {gid});
  }

  lemma DeleteKeepsCommentLikes(db: Db, gid: Id)
    requires CommentLikes(db) && gid in db.gossips
    ensures CommentLikes(DeleteAndDissociateFromUser(db, gid).0)
  {
    DeleteShape(db, gid);
    DeletePrunesUsers(db, gid);
    CommentLikesAfterDelete(db, DeleteAndDissociateFromUser(db, gid).0, CommentsUnder(db.comments, gid));
  }

  lemma DeleteKeepsGossipAuthorship(db: Db, gid: Id)
    requires GossipAuthorship(db) && gid in db.gossips
    ensures GossipAuthorship(DeleteAndDissociateFromUser(db, gid).0)
  {
    DeleteShape(db, gid);
    DeletePrunesUsers(db, gid);
    GossipAuthorshipAfterDelete(db, DeleteAndDissociateFromUser(db, gid).0, {gid});
  }

  lemma DeleteKeepsCommentAuthorship(db: Db, gid: Id)
    requires CommentAuthorship(db) && gid in db.gossips
    ensures CommentAuthorship(DeleteAndDissociateFromUser(db, gid).0)
  {
    DeleteShape(db, gid);
    DeletePrunesUsers(db, gid);
    CommentAuthorshipAfterDelete(db, DeleteAndDissociateFromUser(db, gid).0, CommentsUnder(db.comments, gid));
  }

  lemma DeleteKeepsThreads(db: Db, gid: Id)
    requires ThreadsMirrored(db) && gid in db.gossips
    ensures ThreadsMirrored(DeleteAndDissociateFromUser(db, gid).0)
  {
    DeleteShape(db, gid);
  }

  // ---------------------------------------------------------------------------
  // Like and unlike
  // ---------------------------------------------------------------------------

  /** `likeGossip`: `$addToSet` of the user on the gossip's `likes` and of the
      gossip on the user's `likedGossips`; returns the new `likes`, or None
      (and no change) when the gossip does not exist. */
  function LikeGossip(db: Db, user: Id, gid: Id): (r: (Db, Option<seq<Id>>))
    ensures r.1.Some? <==> gid in db.gossips
    ensures r.1.None? ==> r.0 == db
    ensures r.1.Some? ==> gid in r.0.gossips && r.0.gossips[gid].likes == r.1.value
  {
    if gid !in db.gossips then (db, None)
    else
      var g := db.gossips[gid];
      var g' := g.(likes := AddToSet(g.likes, user));
      var users := if user in db.users
        then db.users[user := db.users[user].(likedGossips := AddToSet(db.users[user].likedGossips, gid))]
        else db.users;
      (db.(gossips := db.gossips[gid := g'], users := users), Some(g'.likes))
  }

  /** `unlikeGossip`: `$pull` of the user from the gossip's `likes` and of the
      gossip from the user's `likedGossips`; returns the new `likes`, or None
      (and no change) when the gossip does not exist. */
  function UnlikeGossip(db: Db, user: Id, gid: Id): (r: (Db, Option<seq<Id>>))
    ensures r.1.Some? <==> gid in db.gossips
    ensures r.1.None? ==> r.0 == db
    ensures r.1.Some? ==> gid in r.0.gossips && r.0.gossips[gid].likes == r.1.value
  {
    if gid !in db.gossips then (db, None)
    else
      var g := db.gossips[gid];
      var g' := g.(likes := Without(g.likes, user));
      var users := if user in db.users
        then db.users[user := db.users[user].(likedGossips := Without(db.users[user].likedGossips, gid))]
        else db.users;
      (db.(gossips := db.gossips[gid := g'], users := users), Some(g'.likes))
  }

  /** A like adds the user to the gossip's likes and the gossip to the user's
      liked gossips, and changes nothing else. */
  lemma LikeGossipAdds(db: Db, user: Id, gid: Id)
    requires gid in db.gossips
    ensures var (db', r) := LikeGossip(db, user, gid);
      && r.Some?
      && (forall y :: y in r.value <==> y in db.gossips[gid].likes || y == user)
      && db'.gossips == db.gossips[gid := db.gossips[gid].(likes := r.value)]
      && db'.users.Keys == db.users.Keys
      && (user in db.users ==>
            (forall x :: x in db'.users[user].likedGossips <==> x in db.users[user].likedGossips || x == gid)
            && db'.users == db.users[user := db.users[user].(likedGossips := db'.users[user].likedGossips)])
      && (user !in db.users ==> db'.users == db.users)
      && db'.comments == db.comments && db'.tokens == db.tokens && db'.nextId == db.nextId
  {
  }

  /** An unlike removes the user from the gossip's likes and the gossip from
      the user's liked gossips, and changes nothing else. */
  lemma UnlikeGossipRemoves(db: Db, user: Id, gid: Id)
    requires gid in db.gossips
    ensures var (db', r) := UnlikeGossip(db, user, gid);
      && r.Some?
      && (forall y :: y in r.value <==> y in db.gossips[gid].likes && y != user)
      && db'.gossips == db.gossips[gid := db.gossips[gid].(likes := r.value)]
      && db'.users.Keys == db.users.Keys
      && (user in db.users ==>
            (forall x :: x in db'.users[user].likedGossips <==> x in db.users[user].likedGossips && x != gid)
            && db'.users == db.users[user := db.users[user].(likedGossips := db'.users[user].likedGossips)])
      && (user !in db.users ==> db'.users == db.users)
      && db'.comments == db.comments && db'.tokens == db.tokens && db'.nextId == db.nextId
  {
  }

  /** Liking and unliking edit only the gossip-likes relation. */
  lemma LikeEditsGossipLikes(db: Db, user: Id, gid: Id)
    requires gid in db.gossips
    ensures var db' := LikeGossip(db, user, gid).0;
      GossipLikesEdited(db, db') && db'.tokens == db.tokens && db'.nextId == db.nextId
  {
  }

  lemma UnlikeEditsGossipLikes(db: Db, user: Id, gid: Id)
    requires gid in db.gossips
    ensures var db' := UnlikeGossip(db, user, gid).0;
      GossipLikesEdited(db, db') && db'.tokens == db.tokens && db'.nextId == db.nextId
  {
  }

  lemma LikeKeepsValid(db: Db, user: Id, gid: Id)
    requires Valid(db)
    ensures Valid(LikeGossip(db, user, gid).0)
  {
    if gid in db.gossips {
      LikeEditsGossipLikes(db, user, gid);
      GossipLikesEditKeepsValid(db, LikeGossip(db, user, gid).0);
    }
  }

  lemma UnlikeKeepsValid(db: Db, user: Id, gid: Id)
    requires Valid(db)
    ensures Valid(UnlikeGossip(db, user, gid).0)
  {
    if gid in db.gossips {
      UnlikeEditsGossipLikes(db, user, gid);
      GossipLikesEditKeepsValid(db, UnlikeGossip(db, user, gid).0);
    }
  }

  /** Liking by an existing user keeps likes mirrored and resolved. */
  lemma LikeKeepsConsistent(db: Db, user: Id, gid: Id)
    requires Consistent(db) && user in db.users
    ensures Consistent(LikeGossip(db, user, gid).0)
  {
    if gid in db.gossips {
      LikeKeepsGossipLikes(db, user, gid);
      LikeEditsGossipLikes(db, user, gid);
      GossipLikesEditKeepsOthers(db, LikeGossip(db, user, gid).0);
    }
  }

  lemma LikeKeepsGossipLikes(db: Db, user: Id, gid: Id)
    requires GossipLikes(db) && user in db.users && gid in db.gossips
    ensures GossipLikes(LikeGossip(db, user, gid).0)
  {
    var db' := LikeGossip(db, user, gid).0;
    forall g, x | g in db'.gossips && x in db'.gossips[g].likes
      ensures x in db'.users && g in db'.users[x].likedGossips
    {
      if g != gid || x != user {
        assert x in db.gossips[g].likes;
      }
    }
    forall u, x | u in db'.users && x in db'.users[u].likedGossips
      ensures x in db'.gossips && u in db'.gossips[x].likes
    {
      if u != user || x != gid {
        assert x in db.users[u].likedGossips;
      }
    }
  }

  /** Unliking keeps likes mirrored and resolved. */
  lemma UnlikeKeepsConsistent(db: Db, user: Id, gid: Id)
    requires Consistent(db)
    ensures Consistent(UnlikeGossip(db, user, gid).0)
  {
    if gid in db.gossips {
      UnlikeKeepsGossipLikes(db, user, gid);
      UnlikeEditsGossipLikes(db, user, gid);
      GossipLikesEditKeepsOthers(db, UnlikeGossip(db, user, gid).0);
    }
  }

  lemma UnlikeKeepsGossipLikes(db: Db, user: Id, gid: Id)
    requires GossipLikes(db) && gid in db.gossips
    ensures GossipLikes(UnlikeGossip(db, user, gid).0)
  {
    var db' := UnlikeGossip(db, user, gid).0;
    forall g, x | g in db'.gossips && x in db'.gossips[g].likes
      ensures x in db'.users && g in db'.users[x].likedGossips
    {
      assert x in db.gossips[g].likes;
    }
    forall u, x | u in db'.users && x in db'.users[u].likedGossips
      ensures x in db'.gossips && u in db'.gossips[x].likes
    {
      assert x in db.users[u].likedGossips;
    }
  }

  /** Liking twice is liking once. */
  lemma LikeIdempotent(db: Db, user: Id, gid: Id)
    ensures LikeGossip(LikeGossip(db, user, gid).0, user, gid) == LikeGossip(db, user, gid)
  {
    if gid in db.gossips {
      var db1 := LikeGossip(db, user, gid).0;
      assert user in db1.gossips[gid].likes;
      assert user in db.users ==> gid in db1.users[user].likedGossips;
      var db2 := LikeGossip(db1, user, gid).0;
      assert db2.gossips == db1.gossips;
      assert db2.users == db1.users;
    }
  }

  /** Unliking undoes a like by a user who had not liked the gossip: the
      store is back where it was. */
  lemma UnlikeUndoesLike(db: Db, user: Id, gid: Id)
    requires GossipLikes(db)
    requires gid in db.gossips && user !in db.gossips[gid].likes
    ensures UnlikeGossip(LikeGossip(db, user, gid).0, user, gid).0 == db
  {
    var g := db.gossips[gid];
    WithoutUndoesAdd(g.likes, user);
    var db1 := LikeGossip(db, user, gid).0;
    var db2 := UnlikeGossip(db1, user, gid).0;
    assert db2.gossips[gid] == g;
    assert db2.gossips == db.gossips;
    if user in db.users {
      WithoutUndoesAdd(db.users[user].likedGossips, gid);
      assert db2.users[user] == db.users[user];
    }
    assert db2.users == db.users;
  }
}
