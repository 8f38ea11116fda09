/** The comment table's operations as functions from the store before to the
    store after: the definition the `Store` methods are proved against,
    and the home of the reference integrity lemmas for comments.

    As for gossips, the repository delegates to model statics whose bodies
    are not part of this model; their effects are taken from their names and
    from what the integration tests check after a delete. */
module CommentsRepo {
  import opened Wrappers
  import opened Models

  /** `findById`: the stored comment, or None. */
  function FindCommentById(db: Db, cid: Id): (r: Option<Comment>)
    ensures r.Some? <==> cid in db.comments
    ensures r.Some? ==> r.value == db.comments[cid]
  {
    if cid in db.comments then Some(db.comments[cid]) else None
  }

  // ---------------------------------------------------------------------------
  // Create
  // ---------------------------------------------------------------------------

  /** The id a new comment receives: the next id, or one past a requested
      parent id the store has never handed out, so that no stored or
      requested parent id is ever reused for a new comment. */
  function FreshCommentId(db: Db, parent: Option<Id>): (id: Id)
    ensures id >= db.nextId
    ensures parent.Some? ==> (parent.value < id || (parent.value < db.nextId && id == db.nextId))
  {
    if parent.Some? && parent.value >= db.nextId then parent.value + 1 else db.nextId
  }

  /** `createAndAssociateWithUserAndGossip`: stores the comment under a fresh
      id and appends that id to its author's and its gossip's `comments`. */
  function CreateAndAssociateWithUserAndGossip(db: Db, input: CommentInput, now: Time): (r: (Db, Comment))
    ensures r.1.id >= db.nextId && r.0.nextId == r.1.id + 1
    ensures r.1.id in r.0.comments && r.0.comments[r.1.id] == r.1
  {
    var cid := FreshCommentId(db, input.parent);
    var c := Comment(cid, input.content, input.author, input.gossip, input.parent, input.likes, now);
    var users := if input.author in db.users
      then db.users[input.author := db.users[input.author].(comments := db.users[input.author].comments + [cid])]
      else db.users;
    var gossips := if input.gossip in db.gossips
      then db.gossips[input.gossip := db.gossips[input.gossip].(comments := db.gossips[input.gossip].comments + [cid])]
      else db.gossips;
    (db.(comments := db.comments[cid := c], users := users, gossips := gossips, nextId := cid + 1), c)
  }

  /** How a create reshapes each table: one comment added, the author's and
      the gossip's `comments` extended, every other field as it was. */
  lemma CreateShape(db: Db, input: CommentInput, now: Time)
    ensures var (db', c) := CreateAndAssociateWithUserAndGossip(db, input, now);
      && c == Comment(c.id, input.content, input.author, input.gossip, input.parent, input.likes, now)
      && db'.comments == db.comments[c.id := c]
      && db'.users.Keys == db.users.Keys && db'.gossips.Keys == db.gossips.Keys
      && (forall u :: u in db.users ==> db'.users[u] == db.users[u].(comments := db'.users[u].comments))
      && (forall g :: g in db.gossips ==> db'.gossips[g] == db.gossips[g].(comments := db'.gossips[g].comments))
      && (forall u :: u in db.users ==>
            db'.users[u].comments == (if u == input.author then db.users[u].comments + [c.id] else db.users[u].comments))
      && (forall g :: g in db.gossips ==>
            db'.gossips[g].comments == (if g == input.gossip then db.gossips[g].comments + [c.id] else db.gossips[g].comments))
      && db'.tokens == db.tokens
  {
  }

  /** The new comment's id is held by no stored record. */
  lemma CreateIdFresh(db: Db, input: CommentInput, now: Time)
    requires WellKeyed(db)
    ensures var c := CreateAndAssociateWithUserAndGossip(db, input, now).1;
      c.id !in db.comments && c.id !in db.users && c.id !in db.gossips
  {
  }

  /** A requested parent that is stored has no parent of its own: what the
      service's parent resolution guarantees. */
  ghost predicate ParentIsTopLevel(db: Db, parent: Option<Id>) {
    parent.Some? && parent.value in db.comments ==> db.comments[parent.value].parent.None?
  }

  lemma CreateKeepsValid(db: Db, input: CommentInput, now: Time)
    requires Valid(db) && ParentIsTopLevel(db, input.parent)
    ensures Valid(CreateAndAssociateWithUserAndGossip(db, input, now).0)
  {
    var db' := CreateAndAssociateWithUserAndGossip(db, input, now).0;
    UsersFrame(db.users, db'.users, db.nextId, db'.nextId);
    GossipsFrame(db.gossips, db'.gossips, db.nextId, db'.nextId);
    TokensGrow(db.tokens, db.nextId, db'.nextId);
    CreateKeepsDepthCap(db, input, now);
  }

  /** Reply depth stays at most two when the new comment's parent, if
      stored, is a top-level comment. */
  lemma CreateKeepsDepthCap(db: Db, input: CommentInput, now: Time)
    requires CommentsKeyed(db.comments, db.nextId) && DepthCapped(db.comments)
    requires ParentIsTopLevel(db, input.parent)
    ensures var db' := CreateAndAssociateWithUserAndGossip(db, input, now).0;
      CommentsKeyed(db'.comments, db'.nextId) && DepthCapped(db'.comments)
  {
    var (db', c) := CreateAndAssociateWithUserAndGossip(db, input, now);
    forall k | k in db'.comments && db'.comments[k].parent.Some? && db'.comments[k].parent.value in db'.comments
      ensures db'.comments[db'.comments[k].parent.value].parent.None?
    {
      var p := db'.comments[k].parent.value;
      if k == c.id {
        assert p != c.id;
      } else {
        assert p < db.nextId <= c.id;
      }
    }
  }

  /** A new comment by a stored author under a stored gossip, with the empty
      likes the service passes, keeps every reference resolved and mirrored. */
  lemma CreateKeepsConsistent(db: Db, input: CommentInput, now: Time)
    requires WellKeyed(db) && Consistent(db)
    requires input.author in db.users && input.gossip in db.gossips && input.likes == []
    ensures Consistent(CreateAndAssociateWithUserAndGossip(db, input, now).0)
  {
    CreateKeepsGossipRelations(db, input, now);
    CreateKeepsCommentLikes(db, input, now);
    CreateKeepsCommentAuthorship(db, input, now);
    CreateKeepsThreads(db, input, now);
  }

  lemma CreateKeepsGossipRelations(db: Db, input: CommentInput, now: Time)
    requires GossipLikes(db) && GossipAuthorship(db)
    ensures var db' := CreateAndAssociateWithUserAndGossip(db, input, now).0;
      GossipLikes(db') && GossipAuthorship(db')
  {
    var db' := CreateAndAssociateWithUserAndGossip(db, input, now).0;
    CreateShape(db, input, now);
    GossipLikesFrame(db, db');
    GossipAuthorshipFrame(db, db');
  }

  lemma CreateKeepsCommentLikes(db: Db, input: CommentInput, now: Time)
    requires CommentsKeyed(db.comments, db.nextId) && CommentLikes(db) && input.likes == []
    ensures CommentLikes(CreateAndAssociateWithUserAndGossip(db, input, now).0)
  {
    var (db', c) := CreateAndAssociateWithUserAndGossip(db, input, now);
    CreateShape(db, input, now);
    assert c.id !in db.comments;
    forall u, x | u in db'.users && x in db'.users[u].likedComments
      ensures x in db'.comments && u in db'.comments[x].likes
    {
      assert x in db.users[u].likedComments;
    }
  }

  lemma CreateKeepsCommentAuthorship(db: Db, input: CommentInput, now: Time)
    requires CommentsKeyed(db.comments, db.nextId) && CommentAuthorship(db) && input.author in db.users
    ensures CommentAuthorship(CreateAndAssociateWithUserAndGossip(db, input, now).0)
  {
    var (db', c) := CreateAndAssociateWithUserAndGossip(db, input, now);
    CreateShape(db, input, now);
    AuthorshipAfterAdd(db, db', c);
  }

  /** Adding a comment under a fresh id and appending it to its stored
      author's list keeps authorship mirrored. */
  lemma AuthorshipAfterAdd(a: Db, b: Db, c: Comment)
    requires CommentAuthorship(a) && c.id !in a.comments && c.author in a.users
    requires b.comments == a.comments[c.id := c] && b.users.Keys == a.users.Keys
    requires forall u :: u in a.users ==>
      b.users[u].comments == (if u == c.author then a.users[u].comments + [c.id] else a.users[u].comments)
    ensures CommentAuthorship(b)
  {
    forall u, x | u in b.users && x in b.users[u].comments
      ensures x in b.comments && b.comments[x].author == u
    {
      if x != c.id {
        assert x in a.users[u].comments;
      }
    }
  }

  lemma CreateKeepsThreads(db: Db, input: CommentInput, now: Time)
    requires CommentsKeyed(db.comments, db.nextId) && ThreadsMirrored(db) && input.gossip in db.gossips
    ensures ThreadsMirrored(CreateAndAssociateWithUserAndGossip(db, input, now).0)
  {
    var (db', c) := CreateAndAssociateWithUserAndGossip(db, input, now);
    CreateShape(db, input, now);
    ThreadsAfterAdd(db, db', c);
  }

  /** Adding a comment under a fresh id and appending it to its stored
      gossip's list keeps threads mirrored. */
  lemma ThreadsAfterAdd(a: Db, b: Db, c: Comment)
    requires ThreadsMirrored(a) && c.id !in a.comments && c.gossip in a.gossips
    requires b.comments == a.comments[c.id := c] && b.gossips.Keys == a.gossips.Keys
    requires forall g :: g in a.gossips ==>
      b.gossips[g].comments == (if g == c.gossip then a.gossips[g].comments + [c.id] else a.gossips[g].comments)
    ensures ThreadsMirrored(b)
  {
    forall g, x | g in b.gossips && x in b.gossips[g].comments
      ensures x in b.comments && b.comments[x].gossip == g
    {
      if x != c.id {
        assert x in a.gossips[g].comments;
      }
    }
  }

  // ---------------------------------------------------------------------------
  // Like and unlike
  // ---------------------------------------------------------------------------

  /** `likeComment`: `$addToSet` of the user on the comment's `likes` and of
      the comment on the user's `likedComments`. Returns nothing; a missing
      comment changes nothing. */
  function LikeComment(db: Db, user: Id, cid: Id): (r: Db)
    ensures cid !in db.comments ==> r == db
    ensures cid in db.comments ==> cid in r.comments && user in r.comments[cid].likes
    ensures cid in db.comments ==>
      r.comments == db.comments[cid := db.comments[cid].(likes := r.comments[cid].likes)]
    ensures user in db.users && cid in db.comments ==>
      && user in r.users && cid in r.users[user].likedComments
      && r.users == db.users[user := db.users[user].(likedComments := r.users[user].likedComments)]
    ensures user !in db.users ==> r.users == db.users
    ensures r.gossips == db.gossips && r.tokens == db.tokens && r.nextId == db.nextId
  {
    if cid !in db.comments then db
    else
      var c := db.comments[cid];
      var users := if user in db.users
        then db.users[user := db.users[user].(likedComments := AddToSet(db.users[user].likedComments, cid))]
        else db.users;
      db.(comments := db.comments[cid := c.(likes := AddToSet(c.likes, user))], users := users)
  }

  /** `unlikeComment`: `$pull` of the user from the comment's `likes` and of
      the comment from the user's `likedComments`. Returns nothing; a missing
      comment changes nothing. */
  function UnlikeComment(db: Db, user: Id, cid: Id): (r: Db)
    ensures cid !in db.comments ==> r == db
    ensures cid in db.comments ==> cid in r.comments && user !in r.comments[cid].likes
    ensures cid in db.comments ==>
      r.comments == db.comments[cid := db.comments[cid].(likes := r.comments[cid].likes)]
    ensures user in db.users && cid in db.comments ==>
      && user in r.users && cid !in r.users[user].likedComments
      && r.users == db.users[user := db.users[user].(likedComments := r.users[user].likedComments)]
    ensures user !in db.users ==> r.users == db.users
    ensures r.gossips == db.gossips && r.tokens == db.tokens && r.nextId == db.nextId
  {
    if cid !in db.comments then db
    else
      var c := db.comments[cid];
      var users := if user in db.users
        then db.users[user := db.users[user].(likedComments := Without(db.users[user].likedComments, cid))]
        else db.users;
      db.(comments := db.comments[cid := c.(likes := Without(c.likes, user))], users := users)
  }

  /** A like adds the user to the comment's likes and the comment to the
      user's liked comments, and edits nothing else. */
  lemma LikeCommentAdds(db: Db, user: Id, cid: Id)
    requires cid in db.comments
    ensures var db' := LikeComment(db, user, cid);
      && (forall y :: y in db'.comments[cid].likes <==> y in db.comments[cid].likes || y == user)
      && (user in db.users ==>
            forall x :: x in db'.users[user].likedComments <==> x in db.users[user].likedComments || x == cid)
      && (forall k :: k in db.comments && k != cid ==> db'.comments[k] == db.comments[k])
      && (forall u :: u in db.users && u != user ==> db'.users[u] == db.users[u])
      && CommentLikesEdited(db, db') && db'.tokens == db.tokens && db'.nextId == db.nextId
  {
  }

  /** An unlike removes the user from the comment's likes and the comment
      from the user's liked comments, and edits nothing else. */
  lemma UnlikeCommentRemoves(db: Db, user: Id, cid: Id)
    requires cid in db.comments
    ensures var db' := UnlikeComment(db, user, cid);
      && (forall y :: y in db'.comments[cid].likes <==> y in db.comments[cid].likes && y != user)
      && (user in db.users ==>
            forall x :: x in db'.users[user].likedComments <==> x in db.users[user].likedComments && x != cid)
      && (forall k :: k in db.comments && k != cid ==> db'.comments[k] == db.comments[k])
      && (forall u :: u in db.users && u != user ==> db'.users[u] == db.users[u])
      && CommentLikesEdited(db, db') && db'.tokens == db.tokens && db'.nextId == db.nextId
  {
  }

  lemma LikeKeepsValid(db: Db, user: Id, cid: Id)
    requires Valid(db)
    ensures Valid(LikeComment(db, user, cid))
  {
    if cid in db.comments {
      LikeCommentAdds(db, user, cid);
      CommentLikesEditKeepsValid(db, LikeComment(db, user, cid));
    }
  }

  lemma UnlikeKeepsValid(db: Db, user: Id, cid: Id)
    requires Valid(db)
    ensures Valid(UnlikeComment(db, user, cid))
  {
    if cid in db.comments {
      UnlikeCommentRemoves(db, user, cid);
      CommentLikesEditKeepsValid(db, UnlikeComment(db, user, cid));
    }
  }

  /** Liking by a stored user keeps likes mirrored and resolved. */
  lemma LikeKeepsConsistent(db: Db, user: Id, cid: Id)
    requires Consistent(db) && user in db.users
    ensures Consistent(LikeComment(db, user, cid))
  {
    if cid in db.comments {
      LikeKeepsCommentLikes(db, user, cid);
      LikeCommentAdds(db, user, cid);
      CommentLikesEditKeepsOthers(db, LikeComment(db, user, cid));
    }
  }

  lemma LikeKeepsCommentLikes(db: Db, user: Id, cid: Id)
    requires CommentLikes(db) && user in db.users && cid in db.comments
    ensures CommentLikes(LikeComment(db, user, cid))
  {
    var db' := LikeComment(db, user, cid);
    forall k, x | k in db'.comments && x in db'.comments[k].likes
      ensures x in db'.users && k in db'.users[x].likedComments
    {
      if k != cid || x != user {
        assert x in db.comments[k].likes;
      }
    }
    forall u, x | u in db'.users && x in db'.users[u].likedComments
      ensures x in db'.comments && u in db'.comments[x].likes
    {
      if u != user || x != cid {
        assert x in db.users[u].likedComments;
      }
    }
  }

  /** Unliking keeps likes mirrored and resolved. */
  lemma UnlikeKeepsConsistent(db: Db, user: Id, cid: Id)
    requires Consistent(db)
    ensures Consistent(UnlikeComment(db, user, cid))
  {
    if cid in db.comments {
      UnlikeKeepsCommentLikes(db, user, cid);
      UnlikeCommentRemoves(db, user, cid);
      CommentLikesEditKeepsOthers(db, UnlikeComment(db, user, cid));
    }
  }

  lemma UnlikeKeepsCommentLikes(db: Db, user: Id, cid: Id)
    requires CommentLikes(db) && cid in db.comments
    ensures CommentLikes(UnlikeComment(db, user, cid))
  {
    var db' := UnlikeComment(db, user, cid);
    forall k, x | k in db'.comments && x in db'.comments[k].likes
      ensures x in db'.users && k in db'.users[x].likedComments
    {
      assert x in db.comments[k].likes;
    }
    forall u, x | u in db'.users && x in db'.users[u].likedComments
      ensures x in db'.comments && u in db'.comments[x].likes
    {
      assert x in db.users[u].likedComments;
    }
  }

  /** Liking twice is liking once. */
  lemma LikeIdempotent(db: Db, user: Id, cid: Id)
    ensures LikeComment(LikeComment(db, user, cid), user, cid) == LikeComment(db, user, cid)
  {
    if cid in db.comments {
      var db1 := LikeComment(db, user, cid);
      assert user in db1.comments[cid].likes;
      assert user in db.users ==> cid in db1.users[user].likedComments;
      var db2 := LikeComment(db1, user, cid);
      assert db2.comments == db1.comments;
      assert db2.users == db1.users;
    }
  }

  /** Unliking undoes a like by a user who had not liked the comment. */
  lemma UnlikeUndoesLike(db: Db, user: Id, cid: Id)
    requires CommentLikes(db)
    requires cid in db.comments && user !in db.comments[cid].likes
    ensures UnlikeComment(LikeComment(db, user, cid), user, cid) == db
  {
    var c := db.comments[cid];
    WithoutUndoesAdd(c.likes, user);
    var db2 := UnlikeComment(LikeComment(db, user, cid), user, cid);
    assert db2.comments[cid] == c;
    assert db2.comments == db.comments;
    if user in db.users {
      WithoutUndoesAdd(db.users[user].likedComments, cid);
      assert db2.users[user] == db.users[user];
    }
    assert db2.users == db.users;
  }

  // ---------------------------------------------------------------------------
  // Delete, with its cascade
  // ---------------------------------------------------------------------------

  /** `deleteAndDissociateFromUserAndGossip`: removes the comment and pulls
      its id from the users' `comments` and `likedComments` and from the
      gossips' `comments`. Replies to it keep their `parent`, which then names
      no stored comment. Returns the comment as it was, or None. */
  function DeleteAndDissociateFromUserAndGossip(db: Db, cid: Id): (r: (Db, Option<Comment>))
    ensures r.1.Some? <==> cid in db.comments
    ensures r.1.None? ==> r.0 == db
    ensures r.1.Some? ==> r.1.value == db.comments[cid]
  {
    if cid !in db.comments then (db, None)
    else
      var users := map u | u in db.users :: db.users[u].(
        comments := Without(db.users[u].comments, cid),
        likedComments := Without(db.users[u].likedComments, cid));
      var gossips := map g | g in db.gossips :: db.gossips[g].(
        comments := Without(db.gossips[g].comments, cid));
      (db.(comments := db.comments - {cid}, users := users, gossips := gossips), Some(db.comments[cid]))
  }

  /** How the cascade reshapes each table. */
  lemma DeleteShape(db: Db, cid: Id)
    requires cid in db.comments
    ensures var db' := DeleteAndDissociateFromUserAndGossip(db, cid).0;
      && db'.comments.Keys == db.comments.Keys - {cid}
      && (forall k :: k in db'.comments ==> db'.comments[k] == db.comments[k])
      && db'.users.Keys == db.users.Keys && db'.gossips.Keys == db.gossips.Keys
      && (forall u :: u in db.users ==> db'.users[u] == db.users[u].(
            comments := Without(db.users[u].comments, cid),
            likedComments := Without(db.users[u].likedComments, cid)))
      && (forall g :: g in db.gossips ==> db'.gossips[g] == db.gossips[g].(
            comments := Without(db.gossips[g].comments, cid)))
      && db'.tokens == db.tokens && db'.nextId == db.nextId
  {
  }

  /** The lists after the cascade, element by element. */
  lemma DeletePrunesLists(db: Db, cid: Id)
    requires cid in db.comments
    ensures var db' := DeleteAndDissociateFromUserAndGossip(db, cid).0;
      && (forall u :: u in db.users ==> Pruned(db'.users[u].comments, db.users[u].comments, {cid}))
      && (forall u :: u in db.users ==> Pruned(db'.users[u].likedComments, db.users[u].likedComments, {cid}))
      && (forall g :: g in db.gossips ==> Pruned(db'.gossips[g].comments, db.gossips[g].comments, {cid}))
  {
    DeleteShape(db, cid);
  }

  /** After the delete the comment is gone and no user or gossip lists it;
      every other comment, replies included, is as it was. */
  lemma DeleteCascadeComplete(db: Db, cid: Id)
    requires cid in db.comments
    ensures var db' := DeleteAndDissociateFromUserAndGossip(db, cid).0;
      && cid !in db'.comments
      && (forall u :: u in db'.users ==> cid !in db'.users[u].comments && cid !in db'.users[u].likedComments)
      && (forall g :: g in db'.gossips ==> cid !in db'.gossips[g].comments)
      && (forall k :: k in db.comments && k != cid ==> k in db'.comments && db'.comments[k] == db.comments[k])
  {
    DeleteShape(db, cid);
  }

  lemma DeleteKeepsValid(db: Db, cid: Id)
    requires Valid(db)
    ensures Valid(DeleteAndDissociateFromUserAndGossip(db, cid).0)
  {
    if cid in db.comments {
      var db' := DeleteAndDissociateFromUserAndGossip(db, cid).0;
      DeleteShape(db, cid);
      UsersFrame(db.users, db'.users, db.nextId, db'.nextId);
      GossipsFrame(db.gossips, db'.gossips, db.nextId, db'.nextId);
      CommentsFrame(db.comments, db'.comments, db.nextId, db'.nextId);
    }
  }

  /** The cascade leaves no dangling id and keeps every relation mirrored. */
  lemma DeleteKeepsConsistent(db: Db, cid: Id)
    requires Consistent(db)
    ensures Consistent(DeleteAndDissociateFromUserAndGossip(db, cid).0)
  {
    if cid in db.comments {
      DeleteKeepsGossipRelations(db, cid);
      DeleteKeepsCommentLikes(db, cid);
      DeleteKeepsCommentAuthorship(db, cid);
      DeleteKeepsThreads(db, cid);
    }
  }

  lemma DeleteKeepsGossipRelations(db: Db, cid: Id)
    requires GossipLikes(db) && GossipAuthorship(db) && cid in db.comments
    ensures var db' := DeleteAndDissociateFromUserAndGossip(db, cid).0;
      GossipLikes(db') && GossipAuthorship(db')
  {
    var db' := DeleteAndDissociateFromUserAndGossip(db, cid).0;
    DeleteShape(db, cid);
    GossipLikesFrame(db, db');
    GossipAuthorshipFrame(db, db');
  }

  lemma DeleteKeepsCommentLikes(db: Db, cid: Id)
    requires CommentLikes(db) && cid in db.comments
    ensures CommentLikes(DeleteAndDissociateFromUserAndGossip(db, cid).0)
  {
    DeleteShape(db, cid);
    DeletePrunesLists(db, cid);
    CommentLikesAfterDelete(db, DeleteAndDissociateFromUserAndGossip(db, cid).0, {cid});
  }

  lemma DeleteKeepsCommentAuthorship(db: Db, cid: Id)
    requires CommentAuthorship(db) && cid in db.comments
    ensures CommentAuthorship(DeleteAndDissociateFromUserAndGossip(db, cid).0)
  {
    DeleteShape(db, cid);
    DeletePrunesLists(db, cid);
    CommentAuthorshipAfterDelete(db, DeleteAndDissociateFromUserAndGossip(db, cid).0, {cid});
  }

  lemma DeleteKeepsThreads(db: Db, cid: Id)
    requires ThreadsMirrored(db) && cid in db.comments
    ensures ThreadsMirrored(DeleteAndDissociateFromUserAndGossip(db, cid).0)
  {
    DeleteShape(db, cid);
    DeletePrunesLists(db, cid);
    ThreadsAfterCommentDelete(db, DeleteAndDissociateFromUserAndGossip(db, cid).0, {cid});
  }
}
