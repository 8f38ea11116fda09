/** The store as the running program sees it: four collections updated in
    place. Each method performs one repository operation and is proved to
    leave the store, and to answer, exactly as the repository's function
    definition says; every property proved of those functions therefore
    holds of the store. */
module Store {
  import opened Wrappers
  import opened Models
  import GossipsRepo
  import CommentsRepo
  import UsersRepo
  import TokensRepo

  class Store {
    var users: map<Id, User>
    var gossips: map<Id, Gossip>
    var comments: map<Id, Comment>
    var tokens: map<Id, Token>
    var nextId: Id

    /** The collections as one value. */
    function Snapshot(): (db: Db)
      reads this
      ensures db.users == users && db.gossips == gossips && db.comments == comments
      ensures db.tokens == tokens && db.nextId == nextId
    {
      Db(users, gossips, comments, tokens, nextId)
    }

    /** An empty store. */
    constructor ()
      ensures Snapshot() == Empty()
    {
      users, gossips, comments, tokens, nextId := map[], map[], map[], map[], 0;
    }

    // -------------------------------------------------------------------------
    // Gossips
    // -------------------------------------------------------------------------

    method UpdateGossip(gid: Id, content: string, imageUrl: Option<string>) returns (r: Option<Gossip>)
      modifies this
      ensures (Snapshot(), r) == GossipsRepo.UpdateGossip(old(Snapshot()), gid, content, imageUrl)
    {
      if gid !in gossips {
        return None;
      }
      var g := gossips[gid].(content := content);
      if imageUrl.Some? {
        g := g.(imageUrl := imageUrl);
      }
      gossips := gossips[gid := g];
      r := Some(g);
    }

    method CreateGossip(input: GossipInput, now: Time) returns (g: Gossip)
      modifies this
      ensures (Snapshot(), g) == GossipsRepo.CreateAndAssociateWithUser(old(Snapshot()), input, now)
    {
      var gid := nextId;
      g := Gossip(gid, input.title, input.content, None, input.imageName, input.author, input.comments, input.likes, now);
      gossips := gossips[gid := g];
      nextId := nextId + 1;
      if input.author in users {
        users := users[input.author := users[input.author].(gossips := users[input.author].gossips + [gid])];
      }
    }

    method DeleteGossip(gid: Id) returns (r: Option<Gossip>)
      modifies this
      ensures (Snapshot(), r) == GossipsRepo.DeleteAndDissociateFromUser(old(Snapshot()), gid)
    {
      if gid !in gossips {
        return None;
      }
      r := Some(gossips[gid]);
      var doomed := GossipsRepo.CommentsUnder(comments, gid);
      gossips := gossips - {gid};
      comments := comments - doomed;
      users := map u | u in users :: GossipsRepo.DissociateUser(users[u], gid, doomed);
    }

    method LikeGossip(user: Id, gid: Id) returns (r: Option<seq<Id>>)
      modifies this
      ensures (Snapshot(), r) == GossipsRepo.LikeGossip(old(Snapshot()), user, gid)
    {
      if gid !in gossips {
        return None;
      }
      gossips := gossips[gid := gossips[gid].(likes := AddToSet(gossips[gid].likes, user))];
      if user in users {
        users := users[user := users[user].(likedGossips := AddToSet(users[user].likedGossips, gid))];
      }
      r := Some(gossips[gid].likes);
    }

    method UnlikeGossip(user: Id, gid: Id) returns (r: Option<seq<Id>>)
      modifies this
      ensures (Snapshot(), r) == GossipsRepo.UnlikeGossip(old(Snapshot()), user, gid)
    {
      if gid !in gossips {
        return None;
      }
      gossips := gossips[gid := gossips[gid].(likes := Without(gossips[gid].likes, user))];
      if user in users {
        users := users[user := users[user].(likedGossips := Without(users[user].likedGossips, gid))];
      }
      r := Some(gossips[gid].likes);
    }

    // -------------------------------------------------------------------------
    // Comments
    // -------------------------------------------------------------------------

    method CreateComment(input: CommentInput, now: Time) returns (c: Comment)
      modifies this
      ensures (Snapshot(), c) == CommentsRepo.CreateAndAssociateWithUserAndGossip(old(Snapshot()), input, now)
    {
      var cid := CommentsRepo.FreshCommentId(Snapshot(), input.parent);
      c := Comment(cid, input.content, input.author, input.gossip, input.parent, input.likes, now);
      comments := comments[cid := c];
      nextId := cid + 1;
      if input.author in users {
        users := users[input.author := users[input.author].(comments := users[input.author].comments + [cid])];
      }
      if input.gossip in gossips {
        gossips := gossips[input.gossip := gossips[input.gossip].(comments := gossips[input.gossip].comments + [cid])];
      }
    }

    method LikeComment(user: Id, cid: Id)
      modifies this
      ensures Snapshot() == CommentsRepo.LikeComment(old(Snapshot()), user, cid)
    {
      if cid in comments {
        comments := comments[cid := comments[cid].(likes := AddToSet(comments[cid].likes, user))];
        if user in users {
          users := users[user := users[user].(likedComments := AddToSet(users[user].likedComments, cid))];
        }
      }
    }

    method UnlikeComment(user: Id, cid: Id)
      modifies this
      ensures Snapshot() == CommentsRepo.UnlikeComment(old(Snapshot()), user, cid)
    {
      if cid in comments {
        comments := comments[cid := comments[cid].(likes := Without(comments[cid].likes, user))];
        if user in users {
          users := users[user := users[user].(likedComments := Without(users[user].likedComments, cid))];
        }
      }
    }

    method DeleteComment(cid: Id) returns (r: Option<Comment>)
      modifies this
      ensures (Snapshot(), r) == CommentsRepo.DeleteAndDissociateFromUserAndGossip(old(Snapshot()), cid)
    {
      if cid !in comments {
        return None;
      }
      r := Some(comments[cid]);
      comments := comments - {cid};
      users := map u | u in users :: users[u].(
        comments := Without(users[u].comments, cid),
        likedComments := Without(users[u].likedComments, cid));
      gossips := map g | g in gossips :: gossips[g].(comments := Without(gossips[g].comments, cid));
    }

    // -------------------------------------------------------------------------
    // Users
    // -------------------------------------------------------------------------

    method CreateUser(input: UserInput, now: Time) returns (r: Result<User, UsersRepo.UserError>)
      modifies this
      ensures (Snapshot(), r) == UsersRepo.CreateUser(old(Snapshot()), input, now)
    {
      if UsersRepo.CheckIfEmailIsAlreadyOccupied(Snapshot(), input.email) {
        return Failure(UsersRepo.DuplicateEmail);
      }
      var u := UsersRepo.NewUser(nextId, input, now);
      users := users[nextId := u];
      nextId := nextId + 1;
      r := Success(u);
    }

    method UpdateUser(uid: Id, about: string) returns (changed: bool)
      modifies this
      ensures (Snapshot(), changed) == UsersRepo.UpdateUser(old(Snapshot()), uid, about)
    {
      if uid !in users {
        return false;
      }
      changed := true;
      users := users[uid := users[uid].(about := Some(about))];
    }

    method DeleteUser(uid: Id) returns (existed: bool)
      modifies this
      ensures (Snapshot(), existed) == UsersRepo.DeleteUser(old(Snapshot()), uid)
    {
      existed := uid in users;
      users := users - {uid};
    }

    method UpdateVerification(uid: Id) returns (changed: bool)
      modifies this
      ensures (Snapshot(), changed) == UsersRepo.UpdateVerification(old(Snapshot()), uid)
    {
      if uid !in users {
        return false;
      }
      changed := true;
      users := users[uid := users[uid].(verified := true)];
    }

    // -------------------------------------------------------------------------
    // Tokens
    // -------------------------------------------------------------------------

    method CreateToken(input: TokenInput) returns (t: Token)
      modifies this
      ensures (Snapshot(), t) == TokensRepo.CreateToken(old(Snapshot()), input)
    {
      t := Token(nextId, input.userId, input.token, input.expirationDate, input.sentEmails, input.registrationIp);
      tokens := tokens[nextId := t];
      nextId := nextId + 1;
    }

    method AddSentDate(tid: Id, date: Time) returns (modified: bool)
      modifies this
      ensures (Snapshot(), modified) == TokensRepo.AddSentDate(old(Snapshot()), tid, date)
    {
      if tid !in tokens {
        return false;
      }
      tokens := tokens[tid := tokens[tid].(sentEmails := tokens[tid].sentEmails + [date])];
      modified := true;
    }

    method DeleteToken(tid: Id) returns (existed: bool)
      modifies this
      ensures (Snapshot(), existed) == TokensRepo.DeleteToken(old(Snapshot()), tid)
    {
      existed := tid in tokens;
      tokens := tokens - {tid};
    }
  }
}
